/** The data-access functions over the `Funcionarios` table (src/lib/employees.ts). The
    table is a sequence of rows whose primary key `id` is unique; network and permission
    failures are inputs, and a failure is thrown to the caller (here: returned as `Err`). */
module Employees {
  import opened Wrappers
  import opened Types
  import opened Text
  import opened Sequences

  /** What the new-employee form sends: every column except the ones the database fills in
      (`id` and `created_at`). */
  datatype EmployeeInput = EmployeeInput(
    nome: string,
    email: string,
    biNr: string,
    role: Option<string>,
    departmento: Option<string>,
    unidadeNegocio: Option<string>,
    telefone: Option<string>,
    status: Status,
    expiryDate: Option<string>,
    photoUrl: Option<string>)

  ghost predicate UniqueIds(rows: seq<Employee>)
  {
    forall i, j :: 0 <= i < j < |rows| ==> rows[i].id != rows[j].id
  }

  /** `order('nome', { ascending: true })`: code-point order of the names. */
  predicate NomeLeq(a: Employee, b: Employee)
  {
    LexLeq(a.nome, b.nome)
  }

  lemma NomeOrderIsTotal()
    ensures TotalPreorder(NomeLeq)
  {
    forall a: Employee, b: Employee
      ensures NomeLeq(a, b) || NomeLeq(b, a)
    {
      LexLeqTotal(a.nome, b.nome);
    }
    forall a: Employee, b: Employee, c: Employee | NomeLeq(a, b) && NomeLeq(b, c)
      ensures NomeLeq(a, c)
    {
      LexLeqTransitive(a.nome, b.nome, c.nome);
    }
  }

  /** `.update({ status }).eq('id', id)`: every row with that id gets the new status. */
  function SetStatusById(rows: seq<Employee>, id: int, status: Status): (r: seq<Employee>)
    ensures |r| == |rows|
  {
    MapWhere(rows, (e: Employee) => e.id == id, (e: Employee) => e.(status := status))
  }

  /** The status update touches only the `status` of the rows with that id. */
  lemma SetStatusByIdChangesOnlyStatus(rows: seq<Employee>, id: int, status: Status)
    ensures var r := SetStatusById(rows, id, status);
      forall i :: 0 <= i < |rows| ==>
        && r[i] == rows[i].(status := r[i].status)
        && r[i].status == (if rows[i].id == id then status else rows[i].status)
  {
  }

  /** Setting a status back to the one every matching row had restores the rows. */
  lemma {:induction false} SetStatusByIdRestores(rows: seq<Employee>, id: int, s: Status, t: Status)
    requires forall i :: 0 <= i < |rows| && rows[i].id == id ==> rows[i].status == s
    ensures SetStatusById(SetStatusById(rows, id, t), id, s) == rows
  {
    var r := SetStatusById(SetStatusById(rows, id, t), id, s);
    forall i | 0 <= i < |rows|
      ensures r[i] == rows[i]
    {
      if rows[i].id == id {
        assert r[i] == rows[i].(status := s);
      }
    }
  }

  lemma SetStatusByIdKeepsIds(rows: seq<Employee>, id: int, status: Status)
    requires UniqueIds(rows)
    ensures UniqueIds(SetStatusById(rows, id, status))
  {
  }

  class FuncionarioTable {
    var rows: seq<Employee>

    ghost predicate Valid()
      reads this
    {
      UniqueIds(rows)
    }

    constructor (initial: seq<Employee>)
      requires UniqueIds(initial)
      ensures Valid() && rows == initial
    {
      rows := initial;
    }

    /** `fetchEmployees`: every row ordered by `nome` ascending; a reply without rows gives
        the empty list, an error is thrown. */
    function FetchEmployees(reply: ReadReply): (r: Result<seq<Employee>, string>)
      reads this
      ensures r.Err? <==> reply.Failed?
      ensures reply.Failed? ==> r == Err(reply.message)
      ensures reply.NoData? ==> r == Ok([])
      ensures reply.Delivered? ==> r.Ok? && multiset(r.value) == multiset(rows)
      ensures reply.Delivered? ==> SortedBy(r.value, NomeLeq)
    {
      match reply
      case Failed(m) => Err(m)
      case NoData => Ok([])
      case Delivered =>
        NomeOrderIsTotal();
        SortBySorted(rows, NomeLeq);
        Ok(SortBy(rows, NomeLeq))
    }

    /** `updateEmployeeStatus`: a failure is thrown and changes nothing; otherwise only the
        status of the rows with that id changes (no row matching is not an error). */
    method UpdateEmployeeStatus(id: int, status: Status, fault: Option<string>) returns (r: Outcome<string>)
      requires Valid()
      modifies this
      ensures Valid()
      ensures r.Fail? <==> fault.Some?
      ensures fault.Some? ==> r == Fail(fault.value) && rows == old(rows)
      ensures fault.None? ==> rows == SetStatusById(old(rows), id, status)
    {
      if fault.Some? {
        return Fail(fault.value);
      }
      SetStatusByIdKeepsIds(rows, id, status);
      rows := SetStatusById(rows, id, status);
      r := Pass;
    }

    /** `createEmployee`: inserts the input as given, under the id the database assigns
        (`assignedId`), and returns the inserted row; an id already taken violates the
        primary key. */
    method CreateEmployee(input: EmployeeInput, assignedId: int, now: string, fault: Option<string>)
      returns (r: Result<Employee, DbError>)
      requires Valid()
      modifies this
      ensures Valid()
      ensures fault.Some? ==> r == Err(OtherError(fault.value)) && rows == old(rows)
      ensures fault.None? && (exists i :: 0 <= i < |old(rows)| && old(rows)[i].id == assignedId) ==>
        r == Err(UniqueViolation) && rows == old(rows)
      ensures r.Ok? ==> rows == old(rows) + [r.value]
      ensures r.Ok? ==> r.value == Employee(assignedId, input.nome, input.email, input.biNr, input.role,
        input.departmento, input.unidadeNegocio, input.telefone, input.status, input.expiryDate,
        input.photoUrl, now)
      ensures r.Ok? <==> fault.None? && forall i :: 0 <= i < |old(rows)| ==> old(rows)[i].id != assignedId
    {
      if fault.Some? {
        return Err(OtherError(fault.value));
      }
      var taken := FindIndex(rows, (e: Employee) => e.id == assignedId);
      if taken.Some? {
        return Err(UniqueViolation);
      }
      var row := Employee(assignedId, input.nome, input.email, input.biNr, input.role,
        input.departmento, input.unidadeNegocio, input.telefone, input.status, input.expiryDate,
        input.photoUrl, now);
      rows := rows + [row];
      r := Ok(row);
    }
  }
}
