/** The dashboard's two charts (src/components/app/dashboard-charts.tsx): employees per
    business unit, counted in a dictionary that starts with the three known units, and
    employees per status. */
module DashboardCharts {
  import opened Wrappers
  import opened Types
  import opened Sequences
  import opened Grouping

  const Rikauto: string := "RIKAUTO"
  const Gesglobal: string := "GESGLOBAL"
  const Abrecome: string := "ABRECOME"
  const Others: string := "Outros"

  /** The unit an employee is counted under: a missing or empty unit counts as `Outros`. */
  function UnitOf(e: Employee): (u: string)
    ensures e.unidadeNegocio.None? ==> u == Others
    ensures e.unidadeNegocio.Some? && e.unidadeNegocio.value == "" ==> u == Others
    ensures e.unidadeNegocio.Some? && e.unidadeNegocio.value != "" ==> u == e.unidadeNegocio.value
  {
    match e.unidadeNegocio
    case Some(u) => if u == "" then Others else u
    case None => Others
  }

  /** The unit of each employee, in list order. */
  function Units(employees: seq<Employee>): (r: seq<string>)
    ensures |r| == |employees|
    ensures forall i :: 0 <= i < |r| ==> r[i] == UnitOf(employees[i])
  {
    seq(|employees|, i requires 0 <= i < |employees| => UnitOf(employees[i]))
  }

  /** The bar chart's single data row. */
  datatype UnitRow = UnitRow(name: string, rikauto: nat, gesglobal: nat, abrecome: nat)

  /** `transformDataForColorBars`: one row named `Total` with, for each of the three known
      units, the number of employees in it. Every employee bumps exactly one counter, so
      all the counters together add up to the list length; the emitted three add up to at
      most that. */
  method TransformDataForColorBars(employees: seq<Employee>) returns (rows: seq<UnitRow>)
    ensures |rows| == 1 && rows[0].name == "Total"
    ensures rows[0].rikauto == multiset(Units(employees))[Rikauto]
    ensures rows[0].gesglobal == multiset(Units(employees))[Gesglobal]
    ensures rows[0].abrecome == multiset(Units(employees))[Abrecome]
    ensures rows[0].rikauto + rows[0].gesglobal + rows[0].abrecome <= |employees|
  {
    var counts: map<string, nat> := map[Rikauto := 0, Gesglobal := 0, Abrecome := 0];
    var order := [Rikauto, Gesglobal, Abrecome];
    TalliedStart(order, counts);
    order, counts := Tally(Units(employees), order, counts);
    ThreeKeysBound(Units(employees), Rikauto, Gesglobal, Abrecome);
    rows := [UnitRow("Total", counts[Rikauto], counts[Gesglobal], counts[Abrecome])];
  }

  /** The test that an employee has status `s`. */
  function HasStatus(s: Status): Employee -> bool
  {
    (e: Employee) => e.status == s
  }

  /** The number of employees with status `s`. */
  function CountStatus(employees: seq<Employee>, s: Status): (n: nat)
    ensures n <= |employees|
  {
    |Filter(employees, HasStatus(s))|
  }

  /** Every employee has exactly one of the three statuses. */
  lemma {:induction false} StatusPartition(employees: seq<Employee>)
    ensures CountStatus(employees, Ativo) + CountStatus(employees, Inativo)
      + CountStatus(employees, Suspenso) == |employees|
  {
    if employees != [] {
      StatusPartition(employees[1..]);
    }
  }

  datatype StatusSlice = StatusSlice(name: string, value: nat)

  /** `getCountByStatus`: the `Ativos` slice then the `Inativos` slice; `Suspenso`
      employees are in neither. */
  function GetCountByStatus(employees: seq<Employee>): (r: seq<StatusSlice>)
    ensures |r| == 2 && r[0].name == "Ativos" && r[1].name == "Inativos"
    ensures r[0].value == CountStatus(employees, Ativo) && r[1].value == CountStatus(employees, Inativo)
    ensures r[0].value + r[1].value == |employees| - CountStatus(employees, Suspenso)
  {
    StatusPartition(employees);
    [StatusSlice("Ativos", CountStatus(employees, Ativo)), StatusSlice("Inativos", CountStatus(employees, Inativo))]
  }
}
