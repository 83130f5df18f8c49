/** The sample employee list (src/lib/data.ts) and its lookup. The sample uses its own
    record shape — text ids and English field names — which is kept here as it is. */
module Data {
  import opened Wrappers
  import opened Types
  import opened Sequences

  datatype SampleEmployee = SampleEmployee(
    id: string,
    photoUrl: string,
    photoHint: string,
    name: string,
    role: string,
    status: Status,
    expiryDate: string,
    department: string,
    businessUnit: string,
    phone: string)

  const Employees: seq<SampleEmployee> := [
    SampleEmployee("EMP001", "https://picsum.photos/seed/1/100/100", "woman face", "Ana Silva",
      "Gerente de Vendas", Ativo, "2025-12-31", "Vendas", "Varejo", "(11) 98765-4321"),
    SampleEmployee("EMP002", "https://picsum.photos/seed/2/100/100", "man face", "Bruno Gomes",
      "Desenvolvedor Frontend", Ativo, "2026-06-15", "Tecnologia", "Software", "(21) 91234-5678"),
    SampleEmployee("EMP003", "https://picsum.photos/seed/3/100/100", "woman face", "Carla Dias",
      "Analista de Marketing", Inativo, "2024-08-20", "Marketing", "Serviços", "(31) 95555-1212"),
    SampleEmployee("EMP004", "https://picsum.photos/seed/4/100/100", "man face", "Daniel Costa",
      "Designer UX/UI", Suspenso, "2025-02-28", "Produto", "Software", "(41) 94444-3333"),
    SampleEmployee("EMP005", "https://picsum.photos/seed/5/100/100", "woman face", "Elisa Ferreira",
      "Gerente de RH", Ativo, "2027-01-10", "Recursos Humanos", "Corporativo", "(51) 93333-2222")
  ]

  /** The sample ids are pairwise distinct. */
  lemma SampleIdsDistinct()
    ensures forall i, j :: 0 <= i < j < |Employees| ==> Employees[i].id != Employees[j].id
  {
  }

  /** The first sample employee with the given id, if any. */
  function GetEmployeeById(id: string): (r: Option<SampleEmployee>)
    ensures r.Some? ==> r.value.id == id && r.value in Employees
    ensures r.None? <==> forall i :: 0 <= i < |Employees| ==> Employees[i].id != id
  {
    Find(Employees, (e: SampleEmployee) => e.id == id)
  }

  /** Because the ids are distinct, the lookup returns the one sample with that id, which
      is also the first one. */
  lemma GetEmployeeByIdFindsTheOne(id: string, k: nat)
    requires k < |Employees| && Employees[k].id == id
    ensures GetEmployeeById(id) == Some(Employees[k])
  {
    var r := GetEmployeeById(id);
    assert r.Some?;
    var j :| 0 <= j < |Employees| && Employees[j] == r.value;
    SampleIdsDistinct();
    assert j == k;
  }

  /** Every sample is found by its own id. */
  lemma EverySampleFound()
    ensures forall k :: 0 <= k < |Employees| ==> GetEmployeeById(Employees[k].id) == Some(Employees[k])
  {
    forall k | 0 <= k < |Employees|
      ensures GetEmployeeById(Employees[k].id) == Some(Employees[k])
    {
      GetEmployeeByIdFindsTheOne(Employees[k].id, k);
    }
  }
}
