/** The support page's statistics (src/lib/stats.ts): three independent queries — the
    exact row count of `funcionarios`, the business unit of every employee grouped into a
    `Map` of counts, and the `is_active` flag of every badge counted into active and
    inactive. A failed query is only logged: it contributes nothing and nothing is
    thrown. */
module Stats {
  import opened Wrappers
  import opened Types
  import opened Sequences
  import opened Grouping
  import opened Crachas

  const NoCompany: string := "Sem Empresa"

  datatype CompanyStats = CompanyStats(company: string, count: nat)

  datatype SupportStats = SupportStats(
    totalUsers: nat,
    usersByCompany: seq<CompanyStats>,
    activeQrUsers: nat,
    inactiveQrUsers: nat)

  /** The company a row is counted under: its business unit, or `NoCompany` when the unit
      is missing or empty. */
  function CompanyOf(e: Employee): (c: string)
    ensures e.unidadeNegocio.None? ==> c == NoCompany
    ensures e.unidadeNegocio.Some? && e.unidadeNegocio.value == "" ==> c == NoCompany
    ensures e.unidadeNegocio.Some? && e.unidadeNegocio.value != "" ==> c == e.unidadeNegocio.value
  {
    match e.unidadeNegocio
    case Some(u) => if u == "" then NoCompany else u
    case None => NoCompany
  }

  /** The company of each employee row, in the order the rows arrive. */
  function Companies(staff: seq<Employee>): (r: seq<string>)
    ensures |r| == |staff|
    ensures forall i :: 0 <= i < |r| ==> r[i] == CompanyOf(staff[i])
  {
    seq(|staff|, i requires 0 <= i < |staff| => CompanyOf(staff[i]))
  }

  /** The dictionary turned into a list: one entry per key, in the dictionary's key order,
      carrying that key's counter. */
  function Entries(order: seq<string>, counts: map<string, nat>): (r: seq<CompanyStats>)
    requires forall k :: k in order ==> k in counts
    ensures |r| == |order|
    ensures forall i :: 0 <= i < |r| ==> r[i] == CompanyStats(order[i], counts[order[i]])
  {
    seq(|order|, i requires 0 <= i < |order| => CompanyStats(order[i], counts[order[i]]))
  }

  function TotalCount(entries: seq<CompanyStats>): nat
  {
    if entries == [] then 0 else TotalCount(entries[..|entries| - 1]) + entries[|entries| - 1].count
  }

  /** The entries' counts add up to the sum of the dictionary's counters. */
  lemma {:induction false} TotalCountEntries(order: seq<string>, counts: map<string, nat>)
    requires forall k :: k in order ==> k in counts
    ensures TotalCount(Entries(order, counts)) == Sum(order, counts)
  {
    if order != [] {
      var prefix := order[..|order| - 1];
      assert Entries(order, counts)[..|order| - 1] == Entries(prefix, counts);
      TotalCountEntries(prefix, counts);
    }
  }

  predicate IsActive(badge: CrachaRow)
  {
    badge.isActive
  }

  /** Each company appears in the list once, with the number of rows that name it; the
      company of every row is listed; the counts add up to the number of rows. */
  ghost predicate CountedByCompany(rows: seq<Employee>, r: seq<CompanyStats>)
  {
    && (forall i, j :: 0 <= i < j < |r| ==> r[i].company != r[j].company)
    && (forall i :: 0 <= i < |r| ==> r[i].count == multiset(Companies(rows))[r[i].company])
    && (forall i :: 0 <= i < |rows| ==> exists j :: 0 <= j < |r| && r[j].company == CompanyOf(rows[i]))
    && TotalCount(r) == |rows|
  }

  /** The companies are listed in the order they first appear among the rows. */
  ghost predicate InFirstAppearanceOrder(rows: seq<Employee>, r: seq<CompanyStats>)
  {
    && |r| == |NewKeys(Companies(rows), {})|
    && forall i :: 0 <= i < |r| ==> r[i].company == NewKeys(Companies(rows), {})[i]
  }

  /** The `companyMap` loop and its conversion to a list: each company once, in the order
      it first appears among the rows, with the number of rows that name it; the counts
      add up to the number of rows. */
  method GroupByCompany(rows: seq<Employee>) returns (usersByCompany: seq<CompanyStats>)
    ensures CountedByCompany(rows, usersByCompany)
    ensures InFirstAppearanceOrder(rows, usersByCompany)
    ensures rows == [] ==> usersByCompany == []
  {
    var companyMap: map<string, nat> := map[];
    var order: seq<string> := [];
    assert companyMap.Keys == {};
    TalliedStart(order, companyMap);
    order, companyMap := Tally(Companies(rows), order, companyMap);
    assert order == NewKeys(Companies(rows), {});
    usersByCompany := Entries(order, companyMap);
    CompanyEntries(rows, order, companyMap);
    CompanyOrder(rows, order, companyMap);
  }

  /** The list follows the dictionary's key order, so a dictionary filled in the order the
      companies first appear gives a list in that order. */
  lemma CompanyOrder(rows: seq<Employee>, order: seq<string>, counts: map<string, nat>)
    requires forall k :: k in order ==> k in counts
    requires order == NewKeys(Companies(rows), {})
    ensures InFirstAppearanceOrder(rows, Entries(order, counts))
  {
  }

  /** The list made from the exact tally of the rows' companies names each company once
      with its number of rows, names the company of every row, and its counts add up to
      the number of rows. */
  lemma CompanyEntries(rows: seq<Employee>, order: seq<string>, counts: map<string, nat>)
    requires Tallied(order, counts, Companies(rows))
    ensures CountedByCompany(rows, Entries(order, counts))
  {
    EntriesOfTally(order, counts, Companies(rows));
    forall i | 0 <= i < |rows|
      ensures Companies(rows)[i] == CompanyOf(rows[i])
    {
    }
  }

  /** The list made from an exact tally names each key once, with its number of
      occurrences, names every key seen, and its counts add up to the number of keys. */
  lemma EntriesOfTally(order: seq<string>, counts: map<string, nat>, keys: seq<string>)
    requires Tallied(order, counts, keys)
    ensures var r := Entries(order, counts);
      && (forall i, j :: 0 <= i < j < |r| ==> r[i].company != r[j].company)
      && (forall i :: 0 <= i < |r| ==> r[i].count == multiset(keys)[r[i].company])
      && (forall i :: 0 <= i < |keys| ==> exists j :: 0 <= j < |r| && r[j].company == keys[i])
      && TotalCount(r) == |keys|
  {
    var r := Entries(order, counts);
    TotalCountEntries(order, counts);
    forall i | 0 <= i < |keys|
      ensures exists j :: 0 <= j < |r| && r[j].company == keys[i]
    {
      assert keys[i] in order;
      var j :| 0 <= j < |order| && order[j] == keys[i];
      assert r[j].company == keys[i];
    }
  }

  /** The number of active badges, counted from the back. */
  function ActiveCount(badges: seq<CrachaRow>): (n: nat)
    ensures n <= |badges|
  {
    if badges == [] then 0
    else ActiveCount(badges[..|badges| - 1]) + (if badges[|badges| - 1].isActive then 1 else 0)
  }

  /** The count is the number of badges the `is_active` filter keeps. */
  lemma {:induction false} ActiveCountIsFilter(badges: seq<CrachaRow>)
    ensures ActiveCount(badges) == |Filter(badges, IsActive)|
  {
    if badges != [] {
      var prefix := badges[..|badges| - 1];
      assert badges == prefix + [badges[|badges| - 1]];
      ActiveCountIsFilter(prefix);
      FilterAppend(prefix, badges[|badges| - 1], IsActive);
    }
  }

  /** The `is_active` counters: every badge counts once, as active or as inactive. */
  method CountBadges(qrStats: seq<CrachaRow>) returns (activeQrUsers: nat, inactiveQrUsers: nat)
    ensures activeQrUsers == ActiveCount(qrStats)
    ensures activeQrUsers + inactiveQrUsers == |qrStats|
  {
    activeQrUsers, inactiveQrUsers := 0, 0;
    var n := 0;
    while n < |qrStats|
      invariant 0 <= n <= |qrStats|
      invariant activeQrUsers == ActiveCount(qrStats[..n])
      invariant activeQrUsers + inactiveQrUsers == n
    {
      assert qrStats[..n + 1][..n] == qrStats[..n];
      if qrStats[n].isActive {
        activeQrUsers := activeQrUsers + 1;
      } else {
        inactiveQrUsers := inactiveQrUsers + 1;
      }
      n := n + 1;
    }
    assert qrStats[..n] == qrStats;
  }

  /** The support statistics: the employee total, the employees per company and the active
      and inactive badges; a failed query leaves its part at zero or empty. */
  method FetchSupportStats(staff: seq<Employee>, badges: seq<CrachaRow>,
                           totalFails: bool, employeesFail: bool, badgesFail: bool)
    returns (stats: SupportStats)
    ensures stats.totalUsers == if totalFails then 0 else |staff|
    ensures employeesFail ==> stats.usersByCompany == []
    ensures !employeesFail ==>
      CountedByCompany(staff, stats.usersByCompany) && InFirstAppearanceOrder(staff, stats.usersByCompany)
    ensures badgesFail ==> stats.activeQrUsers == 0 && stats.inactiveQrUsers == 0
    ensures !badgesFail ==>
      && stats.activeQrUsers == ActiveCount(badges)
      && stats.activeQrUsers + stats.inactiveQrUsers == |badges|
  {
    // the exact count is `null` on error
    var totalUsers: Option<nat> := if totalFails then None else Some(|staff|);
    // `employees?.forEach` and `qrStats?.forEach` do nothing when the query failed
    var usersByCompany := GroupByCompany(if employeesFail then [] else staff);
    var activeQrUsers, inactiveQrUsers := CountBadges(if badgesFail then [] else badges);
    stats := SupportStats(
      if totalUsers.Some? then totalUsers.value else 0,
      usersByCompany,
      activeQrUsers,
      inactiveQrUsers);
  }
}
