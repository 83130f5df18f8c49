/** The employees page (src/components/app/employees-client.tsx): the list loaded from the
    `Funcionarios` table, the search box and status filter over it, and the handlers that
    change the list — replace an edited row, and toggle a status optimistically with a
    rollback when the backend refuses. */
module EmployeesPage {
  import opened Wrappers
  import opened Types
  import opened Text
  import opened Sequences
  import opened Employees

  /** The status select: `'todos'` or one status value. */
  datatype StatusFilter = Todos | Only(status: Status)

  /** The search box matches when the lower-cased term occurs in the lower-cased name or
      e-mail. */
  predicate MatchesSearch(e: Employee, term: string)
  {
    Includes(ToLower(e.nome), ToLower(term)) || Includes(ToLower(e.email), ToLower(term))
  }

  predicate MatchesStatus(e: Employee, filter: StatusFilter)
  {
    filter.Todos? || e.status == filter.status
  }

  /** What the search box promises, stated by positions rather than by a scan. */
  ghost predicate Mentions(e: Employee, term: string)
  {
    || (exists i :: OccursAt(ToLower(e.nome), ToLower(term), i))
    || (exists i :: OccursAt(ToLower(e.email), ToLower(term), i))
  }

  /** `filteredEmployees`: the rows that match both the search and the status filter, in
      list order. */
  function FilteredEmployees(employees: seq<Employee>, term: string, filter: StatusFilter): (r: seq<Employee>)
    ensures |r| <= |employees|
    ensures IsSubsequence(r, employees)
    ensures forall i :: 0 <= i < |r| ==> r[i] in employees
  {
    Filter(employees, (e: Employee) => MatchesSearch(e, term) && MatchesStatus(e, filter))
  }

  /** A listed employee is shown exactly when the term occurs in its lower-cased name or
      e-mail and the status filter admits it. */
  lemma FilteredEmployeesKeepsIff(employees: seq<Employee>, term: string, filter: StatusFilter, e: Employee)
    requires e in employees
    ensures e in FilteredEmployees(employees, term, filter) <==> Mentions(e, term) && MatchesStatus(e, filter)
  {
    IncludesIff(ToLower(e.nome), ToLower(term));
    IncludesIff(ToLower(e.email), ToLower(term));
    var r := FilteredEmployees(employees, term, filter);
    if e in r {
      var i :| 0 <= i < |r| && r[i] == e;
    }
  }

  /** An empty search with `'todos'` shows the whole list. */
  lemma EmptySearchKeepsAll(employees: seq<Employee>)
    ensures FilteredEmployees(employees, "", Todos) == employees
  {
    forall i | 0 <= i < |employees|
      ensures MatchesSearch(employees[i], "")
    {
      IncludesEmpty(ToLower(employees[i].nome));
    }
    FilterKeepsAll(employees, (e: Employee) => MatchesSearch(e, "") && MatchesStatus(e, Todos));
  }

  /** The status the toggle sends: `Ativo` becomes `Inativo`, anything else `Ativo`. */
  function Toggled(s: Status): (t: Status)
    ensures t != s
    ensures t == Inativo <==> s == Ativo
    ensures t != Suspenso
  {
    if s == Ativo then Inativo else Ativo
  }

  /** Toggling twice returns an `Ativo` or `Inativo` status to itself; `Suspenso` never
      comes back. */
  lemma ToggledTwice(s: Status)
    ensures s != Suspenso ==> Toggled(Toggled(s)) == s
    ensures Toggled(Toggled(Suspenso)) == Inativo
  {
  }

  /** The lower-case status name used in the success toast. */
  function StatusWord(s: Status): string
  {
    match s
    case Ativo => "ativo"
    case Inativo => "inativo"
    case Suspenso => "suspenso"
  }

  /** The list with every employee carrying the updated one's id replaced by it. */
  function ReplaceById(employees: seq<Employee>, updated: Employee): (r: seq<Employee>)
    ensures |r| == |employees|
    ensures forall i :: 0 <= i < |r| ==> r[i].id == employees[i].id
    ensures forall i :: 0 <= i < |r| && employees[i].id != updated.id ==> r[i] == employees[i]
    ensures forall i :: 0 <= i < |r| && employees[i].id == updated.id ==> r[i] == updated
  {
    MapWhere(employees, (e: Employee) => e.id == updated.id, (e: Employee) => updated)
  }

  /** Looking a row up by id: `(e) => e.id === id`. */
  function HasId(id: int): Employee -> bool
  {
    (e: Employee) => e.id == id
  }

  /** After the replacement a lookup by the updated id finds the new row (when the id was
      listed), and a lookup by any other id finds what it found before. */
  lemma ReplaceByIdLookup(employees: seq<Employee>, updated: Employee, id: int)
    ensures id == updated.id && (exists i :: 0 <= i < |employees| && employees[i].id == id) ==>
      Find(ReplaceById(employees, updated), HasId(id)) == Some(updated)
    ensures id == updated.id && (forall i :: 0 <= i < |employees| ==> employees[i].id != id) ==>
      Find(ReplaceById(employees, updated), HasId(id)) == None
    ensures id != updated.id ==>
      Find(ReplaceById(employees, updated), HasId(id)) == Find(employees, HasId(id))
  {
    var r := ReplaceById(employees, updated);
    SameIdsSameIndex(r, employees, id);
  }

  /** Two lists with the same ids position by position find an id at the same position. */
  lemma {:induction false} SameIdsSameIndex(s: seq<Employee>, t: seq<Employee>, id: int)
    requires |s| == |t|
    requires forall i :: 0 <= i < |s| ==> s[i].id == t[i].id
    ensures FindIndex(s, HasId(id)) == FindIndex(t, HasId(id))
  {
    if s != [] {
      SameIdsSameIndex(s[1..], t[1..], id);
    }
  }

  class EmployeesClient {
    var employees: seq<Employee>
    var isLoading: bool
    var searchTerm: string
    var statusFilter: StatusFilter
    var isEditOpen: bool
    var employeeToEdit: Option<Employee>

    constructor ()
      ensures employees == [] && isLoading
      ensures searchTerm == "" && statusFilter == Todos
      ensures !isEditOpen && employeeToEdit == None
    {
      employees := [];
      isLoading := true;
      searchTerm := "";
      statusFilter := Todos;
      isEditOpen := false;
      employeeToEdit := None;
    }

    /** The filtered list the page hands to `EmployeeTable`. The page shows the table
        when this list is non-empty, and the empty-state message otherwise. */
    function Shown(): (r: seq<Employee>)
      reads this
      ensures IsSubsequence(r, employees)
    {
      FilteredEmployees(employees, searchTerm, statusFilter)
    }

    /** `loadData`: the fetched rows replace the list; an error keeps the list; either
        way loading ends. */
    method LoadData(backend: FuncionarioTable, reply: ReadReply)
      modifies this
      ensures !isLoading
      ensures reply.Failed? ==> employees == old(employees)
      ensures reply.NoData? ==> employees == []
      ensures reply.Delivered? ==> multiset(employees) == multiset(backend.rows) && SortedBy(employees, NomeLeq)
      ensures searchTerm == old(searchTerm) && statusFilter == old(statusFilter)
      ensures isEditOpen == old(isEditOpen) && employeeToEdit == old(employeeToEdit)
    {
      var data := backend.FetchEmployees(reply);
      if data.Ok? {
        employees := data.value;
      }
      isLoading := false;
    }

    /** `handleEdit`: opens the edit dialog on that employee. */
    method HandleEdit(e: Employee)
      modifies this
      ensures employeeToEdit == Some(e) && isEditOpen
      ensures employees == old(employees) && isLoading == old(isLoading)
      ensures searchTerm == old(searchTerm) && statusFilter == old(statusFilter)
    {
      employeeToEdit := Some(e);
      isEditOpen := true;
    }

    /** `handleUpdateSuccess`: the row with the edited id is replaced, the others are
        kept, and the dialog closes. */
    method HandleUpdateSuccess(updated: Employee) returns (title: string)
      modifies this
      ensures employees == ReplaceById(old(employees), updated)
      ensures !isEditOpen
      ensures title == "Funcionário atualizado!"
      ensures isLoading == old(isLoading) && employeeToEdit == old(employeeToEdit)
      ensures searchTerm == old(searchTerm) && statusFilter == old(statusFilter)
    {
      employees := ReplaceById(employees, updated);
      isEditOpen := false;
      title := "Funcionário atualizado!";
    }

    /** `handleToggleStatus`: the list shows the toggled status at once; the backend is
        then asked to store it, and when it refuses the rows with that id get the clicked
        employee's status back. */
    method HandleToggleStatus(e: Employee, backend: FuncionarioTable, fault: Option<string>)
      returns (title: string)
      requires backend.Valid()
      modifies this, backend
      ensures backend.Valid()
      ensures fault.None? ==>
        && employees == SetStatusById(old(employees), e.id, Toggled(e.status))
        && backend.rows == SetStatusById(old(backend.rows), e.id, Toggled(e.status))
        && title == "Funcionário " + StatusWord(Toggled(e.status)) + "!"
      ensures fault.Some? ==>
        && employees == SetStatusById(SetStatusById(old(employees), e.id, Toggled(e.status)), e.id, e.status)
        && backend.rows == old(backend.rows)
        && title == "Erro!"
      ensures fault.Some? && (forall i :: 0 <= i < |old(employees)| && old(employees)[i].id == e.id ==>
          old(employees)[i].status == e.status) ==>
        employees == old(employees)
      ensures isLoading == old(isLoading) && isEditOpen == old(isEditOpen)
      ensures employeeToEdit == old(employeeToEdit)
      ensures searchTerm == old(searchTerm) && statusFilter == old(statusFilter)
    {
      var newStatus := Toggled(e.status);
      ghost var before := employees;
      employees := SetStatusById(employees, e.id, newStatus);
      var outcome := backend.UpdateEmployeeStatus(e.id, newStatus, fault);
      if outcome.Pass? {
        title := "Funcionário " + StatusWord(newStatus) + "!";
      } else {
        title := "Erro!";
        employees := SetStatusById(employees, e.id, e.status);
        if forall i :: 0 <= i < |before| && before[i].id == e.id ==> before[i].status == e.status {
          SetStatusByIdRestores(before, e.id, e.status, newStatus);
        }
      }
    }
  }
}
