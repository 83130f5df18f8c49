/** The stand-alone employee table (src/components/app/employee-table.tsx) with its row
    actions. This component reads its rows with its own field names (`name`, `photoUrl`,
    `expiryDate`, `photoHint`), which are kept here as a row shape of its own. The load
    effect is guarded by a `mounted` flag that its clean-up clears; the suspend action
    reports the suspended row to the table only after the backend accepted it. */
module EmployeeTableView {
  import opened Wrappers
  import opened Types
  import opened Text
  import opened Sequences
  import opened Employees

  /** A row as this component reads it. */
  datatype TableEmployee = TableEmployee(
    id: int,
    name: string,
    role: Option<string>,
    status: Status,
    expiryDate: Option<string>,
    photoUrl: Option<string>,
    photoHint: Option<string>)

  /** `n[0]` of each piece, where the first character of an empty piece is `undefined`
      and `join('')` turns it into nothing. */
  function FirstChars(words: seq<string>): string
  {
    if words == [] then ""
    else (if words[0] == "" then "" else [words[0][0]]) + FirstChars(words[1..])
  }

  /** The avatar fallback: `name.split(' ').map(n => n[0]).join('')`. */
  function Initials(name: string): (r: string)
    ensures ' ' !in r
  {
    SplitFirstChars(name);
    WordStartsNoSpace(name, true);
    FirstChars(Split(name, ' '))
  }

  /** The characters that start a word: not a space, and at the beginning or right after a
      space (`afterSpace` says whether the previous character was one). */
  function WordStarts(s: string, afterSpace: bool): string
  {
    if s == [] then ""
    else (if afterSpace && s[0] != ' ' then [s[0]] else "") + WordStarts(s[1..], s[0] == ' ')
  }

  lemma FirstCharsCons(w: string, rest: seq<string>)
    ensures FirstChars([w] + rest) == (if w == "" then "" else [w[0]]) + FirstChars(rest)
  {
    assert ([w] + rest)[1..] == rest;
  }

  /** Splitting at spaces and taking each piece's first character picks exactly the word
      starts; the pieces after the first give the word starts past the first character. */
  lemma {:induction false} SplitFirstChars(s: string)
    ensures FirstChars(Split(s, ' ')) == WordStarts(s, true)
    ensures FirstChars(Split(s, ' ')[1..]) == WordStarts(s, false)
  {
    if s != [] {
      SplitFirstChars(s[1..]);
      var rest := Split(s[1..], ' ');
      if s[0] == ' ' {
        FirstCharsCons("", rest);
        assert Split(s, ' ')[1..] == rest;
      } else {
        var w := [s[0]] + rest[0];
        assert Split(s, ' ') == [w] + rest[1..];
        FirstCharsCons(w, rest[1..]);
        assert Split(s, ' ')[1..] == rest[1..];
      }
    }
  }

  /** The initials are the word starts of the name, in order. */
  lemma InitialsAreWordStarts(name: string)
    ensures Initials(name) == WordStarts(name, true)
  {
    SplitFirstChars(name);
  }

  predicate NonEmpty(w: string)
  {
    w != ""
  }

  /** One initial per non-empty piece. */
  lemma {:induction false} FirstCharsCount(words: seq<string>)
    ensures |FirstChars(words)| == |Filter(words, NonEmpty)|
  {
    if words != [] {
      FirstCharsCount(words[1..]);
    }
  }

  lemma InitialsCount(name: string)
    ensures |Initials(name)| == |Filter(Split(name, ' '), NonEmpty)|
  {
    FirstCharsCount(Split(name, ' '));
  }

  /** A word start is never a space. */
  lemma {:induction false} WordStartsNoSpace(s: string, afterSpace: bool)
    ensures ' ' !in WordStarts(s, afterSpace)
  {
    if s != [] {
      WordStartsNoSpace(s[1..], s[0] == ' ');
    }
  }

  /** The rows with every row carrying the updated one's id replaced by it. */
  function ReplaceRow(rows: seq<TableEmployee>, updated: TableEmployee): (r: seq<TableEmployee>)
    ensures |r| == |rows|
    ensures forall i :: 0 <= i < |r| && rows[i].id != updated.id ==> r[i] == rows[i]
    ensures forall i :: 0 <= i < |r| && rows[i].id == updated.id ==> r[i] == updated
  {
    MapWhere(rows, (e: TableEmployee) => e.id == updated.id, (e: TableEmployee) => updated)
  }

  class EmployeeTable {
    /** `null` until the first load delivers. */
    var items: Option<seq<TableEmployee>>
    var loading: bool
    /** The effect's `mounted` flag, cleared by its clean-up. */
    var mounted: bool

    constructor ()
      ensures items == None && loading && mounted
    {
      items := None;
      loading := true;
      mounted := true;
    }

    /** The effect's clean-up. */
    method Unmount()
      modifies this
      ensures !mounted && items == old(items) && loading == old(loading)
    {
      mounted := false;
    }

    /** The load effect once `fetchEmployees` settles: rows are stored and loading ends only
        while mounted; a failure shows the error toast whether mounted or not. */
    method LoadSettled(fetched: Result<seq<TableEmployee>, string>) returns (errorToast: bool)
      modifies this
      ensures mounted == old(mounted)
      ensures errorToast <==> fetched.Err?
      ensures !mounted ==> items == old(items) && loading == old(loading)
      ensures mounted ==> !loading
      ensures mounted && fetched.Ok? ==> items == Some(fetched.value)
      ensures fetched.Err? ==> items == old(items)
    {
      errorToast := false;
      match fetched {
        case Ok(data) =>
          if mounted {
            items := Some(data);
          }
        case Err(_) =>
          errorToast := true;
      }
      if mounted {
        loading := false;
      }
    }

    /** `handleSuspended`: replaces the rows with the reported id; a list that never
        loaded stays `null`. */
    method HandleSuspended(updated: TableEmployee)
      modifies this
      ensures old(items).None? ==> items == None
      ensures old(items).Some? ==> items == Some(ReplaceRow(old(items).value, updated))
      ensures loading == old(loading) && mounted == old(mounted)
    {
      if items.Some? {
        items := Some(ReplaceRow(items.value, updated));
      }
    }

    /** `handleSuspend` of a row's actions: the backend is asked to store `Suspenso`; only
        when it accepts is the row reported, with the new status, to `handleSuspended`. */
    method HandleSuspend(e: TableEmployee, backend: FuncionarioTable, fault: Option<string>)
      returns (title: string)
      requires backend.Valid()
      modifies this, backend
      ensures backend.Valid()
      ensures fault.None? ==>
        && backend.rows == SetStatusById(old(backend.rows), e.id, Suspenso)
        && (old(items).Some? ==> items == Some(ReplaceRow(old(items).value, e.(status := Suspenso))))
        && (old(items).None? ==> items == None)
        && title == "Funcionário suspenso"
      ensures fault.Some? ==>
        backend.rows == old(backend.rows) && items == old(items) && title == "Erro ao suspender"
      ensures loading == old(loading) && mounted == old(mounted)
    {
      var outcome := backend.UpdateEmployeeStatus(e.id, Suspenso, fault);
      if outcome.Pass? {
        title := "Funcionário suspenso";
        HandleSuspended(e.(status := Suspenso));
      } else {
        title := "Erro ao suspender";
      }
    }
  }
}
