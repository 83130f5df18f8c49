/** The dashboard page (src/components/app/dashboard-client.tsx): it loads the employee list
    once, shows a loading state until the load settles, and then three metric cards —
    total, active and inactive — above the charts. */
module Dashboard {
  import opened Wrappers
  import opened Types
  import opened Sequences
  import opened Employees
  import opened DashboardCharts

  /** The three metric cards. */
  datatype Metrics = Metrics(total: nat, active: nat, inactive: nat)

  /** The cards for a list: its length and the `Ativo` and `Inativo` counts. An employee
      is never counted as both, and `Suspenso` employees are in neither. */
  function MetricsOf(employees: seq<Employee>): (m: Metrics)
    ensures m.total == |employees|
    ensures m.active == CountStatus(employees, Ativo) && m.inactive == CountStatus(employees, Inativo)
    ensures m.active + m.inactive == m.total - CountStatus(employees, Suspenso)
    ensures m.active + m.inactive <= m.total
  {
    StatusPartition(employees);
    Metrics(|employees|, CountStatus(employees, Ativo), CountStatus(employees, Inativo))
  }

  class DashboardClient {
    var employees: seq<Employee>
    var isLoading: bool

    constructor ()
      ensures employees == [] && isLoading
    {
      employees := [];
      isLoading := true;
    }

    /** `loadData`: the fetched rows replace the list, an error leaves it as it was, and
        the loading state ends either way. */
    method LoadData(backend: FuncionarioTable, reply: ReadReply)
      modifies this
      ensures !isLoading
      ensures reply.Failed? ==> employees == old(employees)
      ensures reply.NoData? ==> employees == []
      ensures reply.Delivered? ==> multiset(employees) == multiset(backend.rows) && SortedBy(employees, NomeLeq)
    {
      var data := backend.FetchEmployees(reply);
      if data.Ok? {
        employees := data.value;
      }
      isLoading := false;
    }

    /** What the page shows: nothing but the loading state while loading, the cards
        otherwise. */
    function Cards(): (r: Option<Metrics>)
      reads this
      ensures r.None? <==> isLoading
      ensures r.Some? ==> r.value.total == |employees| && r.value.active + r.value.inactive <= r.value.total
    {
      if isLoading then None else Some(MetricsOf(employees))
    }
  }

  /** A first load that fails leaves the cards at zero. */
  method FirstLoadFails(backend: FuncionarioTable, message: string) returns (cards: Option<Metrics>)
    ensures cards == Some(Metrics(0, 0, 0))
  {
    var page := new DashboardClient();
    page.LoadData(backend, Failed(message));
    cards := page.Cards();
  }
}
