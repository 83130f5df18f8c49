/** Badge issuance and lookup (src/lib/crachas.ts). The `crachas` table is a sequence of
    rows; its primary key `id` and its UNIQUE column `funcionario_id` are the invariant
    `Valid`. The identifier and timestamp the database generates for a new row, and any
    network or permission failure, are inputs. */
module Crachas {
  import opened Wrappers
  import opened Types
  import opened Sequences

  datatype CrachaRow = CrachaRow(id: string, funcionarioId: int, issuedAt: string, isActive: bool)

  /** What the badge lookup selects: the badge's id, flag and issue time, and the embedded
      employee (absent when the referenced employee row does not exist). */
  datatype CrachaDetails = CrachaDetails(
    id: string,
    isActive: bool,
    issuedAt: string,
    funcionarios: Option<EmployeeSnapshot>)

  ghost predicate OneBadgePerEmployee(rows: seq<CrachaRow>)
  {
    forall i, j :: 0 <= i < j < |rows| ==> rows[i].funcionarioId != rows[j].funcionarioId
  }

  ghost predicate UniqueBadgeIds(rows: seq<CrachaRow>)
  {
    forall i, j :: 0 <= i < j < |rows| ==> rows[i].id != rows[j].id
  }

  ghost predicate TableInvariant(rows: seq<CrachaRow>)
  {
    OneBadgePerEmployee(rows) && UniqueBadgeIds(rows)
  }

  /** The badges held by one employee. */
  function BadgesOf(rows: seq<CrachaRow>, funcionarioId: int): seq<CrachaRow>
  {
    Filter(rows, (c: CrachaRow) => c.funcionarioId == funcionarioId)
  }

  /** `.eq('funcionario_id', f).single()`: the one row for that employee, else `None`. */
  function SingleByEmployee(rows: seq<CrachaRow>, funcionarioId: int): (r: Option<CrachaRow>)
    ensures r.Some? ==> r.value in rows && r.value.funcionarioId == funcionarioId
  {
    var found := BadgesOf(rows, funcionarioId);
    if |found| == 1 then Some(found[0]) else None
  }

  /** `.eq('id', id).single()`: the one row with that id, else `None`. */
  function SingleById(rows: seq<CrachaRow>, id: string): (r: Option<CrachaRow>)
    ensures r.Some? ==> r.value in rows && r.value.id == id
  {
    var found := Filter(rows, (c: CrachaRow) => c.id == id);
    if |found| == 1 then Some(found[0]) else None
  }

  /** In a table that keeps the UNIQUE constraint an employee holds at most one badge, and
      exactly one when some row references them. */
  lemma {:induction false} AtMostOneBadge(rows: seq<CrachaRow>, funcionarioId: int)
    requires OneBadgePerEmployee(rows)
    ensures |BadgesOf(rows, funcionarioId)| <= 1
    ensures (exists i :: 0 <= i < |rows| && rows[i].funcionarioId == funcionarioId) ==>
      |BadgesOf(rows, funcionarioId)| == 1
  {
    if rows != [] {
      AtMostOneBadge(rows[1..], funcionarioId);
      if rows[0].funcionarioId == funcionarioId {
        forall i | 0 <= i < |rows[1..]|
          ensures rows[1..][i].funcionarioId != funcionarioId
        {
          assert rows[i + 1].funcionarioId != rows[0].funcionarioId;
        }
        assert BadgesOf(rows[1..], funcionarioId) == [];
      } else if exists i :: 0 <= i < |rows| && rows[i].funcionarioId == funcionarioId {
        var i :| 0 <= i < |rows| && rows[i].funcionarioId == funcionarioId;
        assert rows[1..][i - 1].funcionarioId == funcionarioId;
      }
    }
  }

  /** The same for badge ids: under the primary key a lookup by id finds the row that
      has it. */
  lemma {:induction false} SingleByIdFinds(rows: seq<CrachaRow>, k: nat)
    requires UniqueBadgeIds(rows)
    requires k < |rows|
    ensures SingleById(rows, rows[k].id) == Some(rows[k])
  {
    var id := rows[k].id;
    var p := (c: CrachaRow) => c.id == id;
    FilterSingle(rows, p, k);
  }

  lemma {:induction false} SingleByEmployeeFinds(rows: seq<CrachaRow>, k: nat)
    requires OneBadgePerEmployee(rows)
    requires k < |rows|
    ensures SingleByEmployee(rows, rows[k].funcionarioId) == Some(rows[k])
  {
    var f := rows[k].funcionarioId;
    FilterSingle(rows, (c: CrachaRow) => c.funcionarioId == f, k);
  }

  /** A filter that only the element at `k` passes yields exactly that element. */
  lemma {:induction false} FilterSingle<T>(s: seq<T>, p: T -> bool, k: nat)
    requires k < |s| && p(s[k])
    requires forall j :: 0 <= j < |s| && j != k ==> !p(s[j])
    ensures Filter(s, p) == [s[k]]
  {
    if k == 0 {
      FilterNone(s[1..], p);
    } else {
      FilterSingle(s[1..], p, k - 1);
    }
  }

  lemma {:induction false} FilterNone<T>(s: seq<T>, p: T -> bool)
    requires forall j :: 0 <= j < |s| ==> !p(s[j])
    ensures Filter(s, p) == []
  {
    if s != [] {
      FilterNone(s[1..], p);
    }
  }

  /** The embedded `funcionarios (...)` object of a badge, `None` when the row is missing. */
  function EmbeddedEmployee(staff: seq<Employee>, funcionarioId: int): Option<EmployeeSnapshot>
  {
    match Find(staff, (e: Employee) => e.id == funcionarioId)
    case None => None
    case Some(e) => Some(Snapshot(e))
  }

  /** The selected columns of one badge row, with its employee embedded. */
  function DetailsOf(c: CrachaRow, staff: seq<Employee>): CrachaDetails
  {
    CrachaDetails(c.id, c.isActive, c.issuedAt, EmbeddedEmployee(staff, c.funcionarioId))
  }

  /** `getCrachaDetails`: an empty id is refused before any lookup; otherwise the badge with
      that id joined to its employee, or `None` when the query fails or no single row has
      that id. */
  function GetCrachaDetails(badges: seq<CrachaRow>, staff: seq<Employee>, id: string, queryFails: bool)
    : (r: Option<CrachaDetails>)
    ensures id == "" ==> r == None
    ensures queryFails ==> r == None
    ensures r.Some? ==>
      exists i :: 0 <= i < |badges| && badges[i].id == id && r.value == DetailsOf(badges[i], staff)
  {
    if id == "" then None
    else if queryFails then None
    else match SingleById(badges, id)
      case None => None
      case Some(c) => Some(DetailsOf(c, staff))
  }

  /** Every badge of a table that keeps its primary key can be looked up by its id. */
  lemma GetCrachaDetailsFindsEveryBadge(badges: seq<CrachaRow>, staff: seq<Employee>, k: nat)
    requires UniqueBadgeIds(badges)
    requires k < |badges| && badges[k].id != ""
    ensures GetCrachaDetails(badges, staff, badges[k].id, false) == Some(DetailsOf(badges[k], staff))
  {
    SingleByIdFinds(badges, k);
  }

  /** The outcome of one `createCracha` call: the table afterwards and the reply. */
  datatype Issued = Issued(rows: seq<CrachaRow>, reply: Option<string>)

  /** The error the database reports for `insert({ funcionario_id })`, if any: a failure
      that never reaches the table, else a UNIQUE violation when the employee already has a
      badge or the generated id is taken. */
  function InsertError(rows: seq<CrachaRow>, funcionarioId: int, newId: string, fault: Option<string>)
    : (e: Option<DbError>)
    ensures fault.Some? ==> e == Some(OtherError(fault.value))
    ensures fault.None? ==> (e == Some(UniqueViolation) <==>
      exists i :: 0 <= i < |rows| && (rows[i].funcionarioId == funcionarioId || rows[i].id == newId))
    ensures fault.None? ==> e.None? || e == Some(UniqueViolation)
  {
    if fault.Some? then Some(OtherError(fault.value))
    else if FindIndex(rows, (c: CrachaRow) => c.funcionarioId == funcionarioId || c.id == newId).Some?
    then Some(UniqueViolation)
    else None
  }

  /** `createCracha` as a function of the table: insert one row; on `23505` answer with the
      employee's existing badge (read back with `.single()`); on any other error answer
      `None`. The new row is active and stamped with the database's clock. */
  function Issue(rows: seq<CrachaRow>, funcionarioId: int, newId: string, now: string,
                 fault: Option<string>, lookupFails: bool): (out: Issued)
    ensures out.rows == rows || out.rows == rows + [CrachaRow(newId, funcionarioId, now, true)]
    ensures out.rows != rows ==> out.reply == Some(newId)
    ensures fault.Some? ==> out == Issued(rows, None)
    ensures TableInvariant(rows) ==> TableInvariant(out.rows)
  {
    match InsertError(rows, funcionarioId, newId, fault)
    case Some(UniqueViolation) =>
      if lookupFails then Issued(rows, None)
      else (match SingleByEmployee(rows, funcionarioId)
        case None => Issued(rows, None)
        case Some(c) => Issued(rows, Some(c.id)))
    case Some(OtherError(_)) => Issued(rows, None)
    case None => Issued(rows + [CrachaRow(newId, funcionarioId, now, true)], Some(newId))
  }

  /** An employee without a badge gets exactly one new row, and its id is the reply. */
  lemma IssueInsertsOne(rows: seq<CrachaRow>, funcionarioId: int, newId: string, now: string, lookupFails: bool)
    requires forall i :: 0 <= i < |rows| ==> rows[i].funcionarioId != funcionarioId && rows[i].id != newId
    ensures Issue(rows, funcionarioId, newId, now, None, lookupFails) ==
      Issued(rows + [CrachaRow(newId, funcionarioId, now, true)], Some(newId))
  {
  }

  /** An employee who already has a badge gets that badge's id back and the table is left as
      it was. */
  lemma IssueReturnsExisting(rows: seq<CrachaRow>, k: nat, newId: string, now: string)
    requires OneBadgePerEmployee(rows)
    requires k < |rows|
    ensures Issue(rows, rows[k].funcionarioId, newId, now, None, false) == Issued(rows, Some(rows[k].id))
  {
    SingleByEmployeeFinds(rows, k);
  }

  /** Issuing twice for the same employee answers the same id both times, and the second
      call leaves the table as the first left it: one badge for that employee. */
  lemma IssueIdempotent(rows: seq<CrachaRow>, funcionarioId: int, id1: string, now1: string,
                        id2: string, now2: string)
    requires TableInvariant(rows)
    requires Issue(rows, funcionarioId, id1, now1, None, false).reply.Some?
    ensures var first := Issue(rows, funcionarioId, id1, now1, None, false);
      var second := Issue(first.rows, funcionarioId, id2, now2, None, false);
      && second == Issued(first.rows, first.reply)
      && |BadgesOf(second.rows, funcionarioId)| == 1
  {
    var first := Issue(rows, funcionarioId, id1, now1, None, false);
    var k :| 0 <= k < |first.rows| && first.rows[k].funcionarioId == funcionarioId && first.rows[k].id == first.reply.value;
    IssueReturnsExisting(first.rows, k, id2, now2);
    AtMostOneBadge(first.rows, funcionarioId);
  }

  class CrachaTable {
    var rows: seq<CrachaRow>

    ghost predicate Valid()
      reads this
    {
      TableInvariant(rows)
    }

    constructor (initial: seq<CrachaRow>)
      requires TableInvariant(initial)
      ensures Valid() && rows == initial
    {
      rows := initial;
    }

    /** `createCracha`: the insert, then the fallback read on a unique violation. */
    method CreateCracha(funcionarioId: int, newId: string, now: string, fault: Option<string>,
                        lookupFails: bool) returns (r: Option<string>)
      requires Valid()
      modifies this
      ensures Valid()
      ensures Issued(rows, r) == Issue(old(rows), funcionarioId, newId, now, fault, lookupFails)
    {
      var error := InsertError(rows, funcionarioId, newId, fault);
      if error.Some? {
        if error.value == UniqueViolation {
          if lookupFails {
            return None;
          }
          var existing := SingleByEmployee(rows, funcionarioId);
          if existing.Some? {
            return Some(existing.value.id);
          }
          return None;
        }
        return None;
      }
      rows := rows + [CrachaRow(newId, funcionarioId, now, true)];
      r := Some(newId);
    }
  }
}
