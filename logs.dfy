/** The `scan_logs` table (src/lib/logs.ts): an append-only sequence of rows. A write
    appends one row or, when the backend fails, nothing, and the failure is only logged.
    The two reads are declarative queries: filter, order by `scanned_at` descending, limit.
    Coordinates are opaque values; nothing computes with them. */
module Logs {
  import opened Wrappers
  import opened Sequences

  datatype ScanLogRow = ScanLogRow(
    id: nat,
    crachaId: string,
    latitude: Option<real>,
    longitude: Option<real>,
    userAgent: string,
    scannedAt: int)

  /** The device string recorded when there is no `navigator`. */
  const UnknownAgent: string := "Desconhecido"

  /** How many rows the map's query keeps. */
  const MapLimit: nat := 100

  /** The device string: the browser's user agent when there is a navigator, else
      `UnknownAgent`. */
  function UserAgent(navigatorAgent: Option<string>): (r: string)
    ensures navigatorAgent.Some? ==> r == navigatorAgent.value
    ensures navigatorAgent.None? ==> r == UnknownAgent
  {
    match navigatorAgent
    case Some(a) => a
    case None => UnknownAgent
  }

  /** The newest-first order: `a` may come before `b` when it was scanned no earlier. */
  predicate NotEarlier(a: ScanLogRow, b: ScanLogRow)
  {
    a.scannedAt >= b.scannedAt
  }

  lemma NewestFirstIsTotal()
    ensures TotalPreorder(NotEarlier)
  {
  }

  predicate Located(row: ScanLogRow)
  {
    row.latitude.Some?
  }

  /** The located rows, newest first. */
  function NewestLocated(rows: seq<ScanLogRow>): (r: seq<ScanLogRow>)
    ensures multiset(r) == multiset(Filter(rows, Located))
    ensures SortedBy(r, NotEarlier)
  {
    NewestFirstIsTotal();
    SortBySorted(Filter(rows, Located), NotEarlier);
    SortBy(Filter(rows, Located), NotEarlier)
  }

  /** `fetchScanLogs`: the rows with a latitude, newest first, at most `MapLimit` of them;
      an error gives the empty list. */
  function FetchScanLogs(rows: seq<ScanLogRow>, queryFails: bool): (r: seq<ScanLogRow>)
    ensures queryFails ==> r == []
    ensures |r| <= MapLimit
    ensures forall i :: 0 <= i < |r| ==> r[i].latitude.Some? && r[i] in rows
    ensures SortedBy(r, NotEarlier)
  {
    if queryFails then []
    else
      var ordered := NewestLocated(rows);
      NewestLocatedFromRows(rows);
      ordered[..if |ordered| < MapLimit then |ordered| else MapLimit]
  }

  /** Every row of the newest-first list is a located row of the table. */
  lemma NewestLocatedFromRows(rows: seq<ScanLogRow>)
    ensures forall i :: 0 <= i < |NewestLocated(rows)| ==>
      NewestLocated(rows)[i].latitude.Some? && NewestLocated(rows)[i] in rows
  {
    var ordered := NewestLocated(rows);
    forall i | 0 <= i < |ordered|
      ensures ordered[i].latitude.Some? && ordered[i] in rows
    {
      assert ordered[i] in multiset(Filter(rows, Located));
    }
  }

  /** Cutting a newest-first list after `n` rows leaves out only rows no newer than the
      ones kept. */
  lemma PrefixIsNewest(ordered: seq<ScanLogRow>, n: nat)
    requires n <= |ordered|
    requires SortedBy(ordered, NotEarlier)
    ensures multiset(ordered[..n]) <= multiset(ordered)
    ensures n == |ordered| ==> multiset(ordered[..n]) == multiset(ordered)
    ensures forall i, x :: 0 <= i < n && x in multiset(ordered) - multiset(ordered[..n]) ==>
      ordered[i].scannedAt >= x.scannedAt
  {
    assert ordered == ordered[..n] + ordered[n..];
    assert multiset(ordered) - multiset(ordered[..n]) == multiset(ordered[n..]);
    forall i, x | 0 <= i < n && x in multiset(ordered[n..])
      ensures ordered[i].scannedAt >= x.scannedAt
    {
      var m :| 0 <= m < |ordered[n..]| && ordered[n..][m] == x;
      assert NotEarlier(ordered[i], ordered[n + m]);
    }
  }

  /** The map's rows are the newest located scans: exactly `MapLimit` of them when there
      are more, all of them otherwise, and any located scan left out is no newer than
      every returned one. */
  lemma FetchScanLogsKeepsNewest(rows: seq<ScanLogRow>)
    ensures |FetchScanLogs(rows, false)| ==
      if |Filter(rows, Located)| < MapLimit then |Filter(rows, Located)| else MapLimit
    ensures multiset(FetchScanLogs(rows, false)) <= multiset(Filter(rows, Located))
    ensures |Filter(rows, Located)| <= MapLimit ==>
      multiset(FetchScanLogs(rows, false)) == multiset(Filter(rows, Located))
    ensures forall i, x ::
      (0 <= i < |FetchScanLogs(rows, false)| &&
       x in multiset(Filter(rows, Located)) - multiset(FetchScanLogs(rows, false)))
      ==> FetchScanLogs(rows, false)[i].scannedAt >= x.scannedAt
  {
    var located, ordered := Filter(rows, Located), NewestLocated(rows);
    var n := if |ordered| < MapLimit then |ordered| else MapLimit;
    assert FetchScanLogs(rows, false) == ordered[..n];
    assert multiset(ordered) == multiset(located);
    assert |ordered| == |located| by {
      assert |multiset(ordered)| == |multiset(located)|;
    }
    PrefixIsNewest(ordered, n);
  }

  /** `fetchAllScanLogs`: every row, located or not, newest first; an error gives the empty
      list. */
  function FetchAllScanLogs(rows: seq<ScanLogRow>, queryFails: bool): (r: seq<ScanLogRow>)
    ensures queryFails ==> r == []
    ensures !queryFails ==> multiset(r) == multiset(rows)
    ensures SortedBy(r, NotEarlier)
  {
    if queryFails then []
    else
      NewestFirstIsTotal();
      SortBySorted(rows, NotEarlier);
      SortBy(rows, NotEarlier)
  }

  /** Rows are numbered by a sequence, so ids are distinct and below the next one. */
  ghost predicate IdsBelow(rows: seq<ScanLogRow>, nextId: nat)
  {
    && (forall i :: 0 <= i < |rows| ==> rows[i].id < nextId)
    && (forall i, j :: 0 <= i < j < |rows| ==> rows[i].id < rows[j].id)
  }

  class ScanLogTable {
    var rows: seq<ScanLogRow>
    var nextId: nat
    /** The `registrarScan` calls made so far, whether or not their write succeeded. */
    ghost var attempts: nat

    ghost predicate Valid()
      reads this
    {
      IdsBelow(rows, nextId)
    }

    constructor ()
      ensures Valid() && rows == [] && nextId == 0 && attempts == 0
    {
      rows, nextId := [], 0;
      attempts := 0;
    }

    /** `registrarScan`: appends one row with the given badge id and coordinates and the
        device string; a failed write appends nothing and is not thrown. */
    method RegistrarScan(crachaId: string, latitude: Option<real>, longitude: Option<real>,
                         navigatorAgent: Option<string>, now: int, writeFails: bool)
      requires Valid()
      modifies this
      ensures Valid()
      ensures attempts == old(attempts) + 1
      ensures writeFails ==> rows == old(rows) && nextId == old(nextId)
      ensures !writeFails ==>
        && rows == old(rows) + [ScanLogRow(old(nextId), crachaId, latitude, longitude, UserAgent(navigatorAgent), now)]
        && nextId == old(nextId) + 1
    {
      attempts := attempts + 1;
      var agent := UserAgent(navigatorAgent);
      if writeFails {
        return;
      }
      rows := rows + [ScanLogRow(nextId, crachaId, latitude, longitude, agent, now)];
      nextId := nextId + 1;
    }
  }
}
