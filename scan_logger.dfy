/** The invisible component that records a badge scan (src/components/app/scan-logger.tsx).
    Its effect runs once per instance: the `logSent` flag is raised before anything is
    logged, and every geolocation outcome ends in exactly one `registrarScan` call. The
    outcome of the geolocation request is an input; the write is not awaited, so its
    failure never reaches the component. */
module ScanLogging {
  import opened Wrappers
  import opened Logs

  /** What `navigator.geolocation` gives: no support at all, the error callback (permission
      denied or the 15-second timeout), or a position. */
  datatype Geolocation = Unsupported | PositionError | Position(latitude: real, longitude: real)

  /** The coordinates the effect logs for an outcome: real values only for a position. */
  function Coordinates(geo: Geolocation): (c: (Option<real>, Option<real>))
    ensures c.0.Some? <==> geo.Position?
    ensures c.1.Some? <==> geo.Position?
    ensures geo.Position? ==> c == (Some(geo.latitude), Some(geo.longitude))
  {
    match geo
    case Position(lat, lon) => (Some(lat), Some(lon))
    case _ => (None, None)
  }

  /** The row one scan adds to the log, when the write succeeds. */
  function ScanRow(id: nat, crachaId: string, geo: Geolocation, navigatorAgent: Option<string>, now: int): ScanLogRow
  {
    ScanLogRow(id, crachaId, Coordinates(geo).0, Coordinates(geo).1, UserAgent(navigatorAgent), now)
  }

  class ScanLogger {
    /** The ref that starts `false`: whether this instance already logged. */
    var logSent: bool

    constructor ()
      ensures !logSent
    {
      logSent := false;
    }

    /** One run of the effect for the current `crachaId`: the first run raises the flag and
        logs once, with coordinates only when a position was obtained (then a toast is
        shown); every later run, even for another `crachaId`, returns at once. */
    method RunEffect(crachaId: string, geo: Geolocation, log: ScanLogTable,
                     navigatorAgent: Option<string>, now: int, writeFails: bool)
      returns (toast: bool)
      requires log.Valid()
      modifies this, log
      ensures log.Valid()
      ensures logSent
      ensures toast <==> !old(logSent) && geo.Position?
      ensures old(logSent) ==>
        log.attempts == old(log.attempts) && log.rows == old(log.rows) && log.nextId == old(log.nextId)
      ensures !old(logSent) ==> log.attempts == old(log.attempts) + 1
      ensures !old(logSent) ==> log.nextId == old(log.nextId) + (if writeFails then 0 else 1)
      ensures !old(logSent) && !writeFails ==>
        log.rows == old(log.rows) + [ScanRow(old(log.nextId), crachaId, geo, navigatorAgent, now)]
      ensures !old(logSent) && writeFails ==> log.rows == old(log.rows)
    {
      toast := false;
      if logSent {
        return;
      }
      logSent := true;
      match geo {
        case Unsupported =>
          log.RegistrarScan(crachaId, None, None, navigatorAgent, now, writeFails);
        case Position(lat, lon) =>
          log.RegistrarScan(crachaId, Some(lat), Some(lon), navigatorAgent, now, writeFails);
          toast := true;
        case PositionError =>
          log.RegistrarScan(crachaId, None, None, navigatorAgent, now, writeFails);
      }
    }
  }
}
