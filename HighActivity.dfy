/**
 * The high-activity employee query: employees with some assignment due on
 * or after a cutoff, grouped by EmployeeId, keeping the first employee of
 * every group with more than three members.
 *
 * The cutoff, six months before the current time in the program, is a
 * parameter here.
 */
module HighActivity {
  import opened Schema

  /** The group-size threshold of the query: a group is kept when it has more than three members. */
  const GroupThreshold: nat := 3

  /** Some project with id `projId` has its deadline on or after `cutoff` (the project lookup behind the navigation from an assignment to its project). */
  predicate ProjectDueFrom(ps: seq<Project>, projId: int, cutoff: int) {
    exists p :: p in ps && p.id == projId && p.deadline >= cutoff
  }

  /** The `Any` pre-filter: some assignment of `e` is to a project due on or after `cutoff`. */
  predicate HasRecentAssignment(s: Snapshot, e: Employee, cutoff: int) {
    exists ep :: ep in AssignmentsOfEmployee(s.employeeProjects, e.id) && ProjectDueFrom(s.projects, ep.projId, cutoff)
  }

  /** The `Where` step: the employees of `es` with a recent assignment, in table order. */
  function RecentlyActive(s: Snapshot, es: seq<Employee>, cutoff: int): (r: seq<Employee>)
    ensures forall e :: e in r <==> e in es && HasRecentAssignment(s, e, cutoff)
  {
    if es == [] then []
    else
      assert forall e :: e in es ==> e == es[0] || e in es[1..];
      (if HasRecentAssignment(s, es[0], cutoff) then [es[0]] else []) + RecentlyActive(s, es[1..], cutoff)
  }

  /** Filtering keeps the EmployeeId key unique. */
  lemma {:induction false} RecentlyActiveKeepsUniqueIds(s: Snapshot, es: seq<Employee>, cutoff: int)
    requires UniqueEmployeeIds(es)
    ensures UniqueEmployeeIds(RecentlyActive(s, es, cutoff))
  {
    if es != [] {
      var rest := RecentlyActive(s, es[1..], cutoff);
      RecentlyActiveKeepsUniqueIds(s, es[1..], cutoff);
      forall e | e in rest ensures e.id != es[0].id {
        var k :| 0 <= k < |es[1..]| && es[1..][k] == e;
        assert es[k + 1] == e;
      }
    }
  }

  /** The distinct EmployeeId values of `es` in order of first appearance: the keys of the `GroupBy` on EmployeeId. */
  function GroupKeys(es: seq<Employee>): (ks: seq<int>)
    ensures forall k :: k in ks <==> HasEmployeeId(es, k)
    ensures forall i, j :: 0 <= i < j < |ks| ==> ks[i] != ks[j]
  {
    if es == [] then []
    else
      var front := es[..|es| - 1];
      var last := es[|es| - 1];
      assert es == front + [last];
      var ks := GroupKeys(front);
      if last.id in ks then ks else ks + [last.id]
  }

  /** The groups of the `GroupBy` on EmployeeId: one per key, holding that key's employees in table order. */
  function GroupById(es: seq<Employee>): seq<seq<Employee>> {
    var ks := GroupKeys(es);
    seq(|ks|, i requires 0 <= i < |ks| => EmployeesWithId(es, ks[i]))
  }

  /** The `Where` on group size and the `FirstOrDefault` of each group kept: the first member of every group with more than `n` members. */
  function FirstOfGroupsLargerThan(gs: seq<seq<Employee>>, n: nat): (r: seq<Employee>)
    ensures (forall i :: 0 <= i < |gs| ==> |gs[i]| <= n) ==> r == []
    ensures forall e :: e in r ==> exists i :: 0 <= i < |gs| && |gs[i]| > n && e == gs[i][0]
    ensures forall i :: 0 <= i < |gs| && |gs[i]| > n ==> gs[i][0] in r
  {
    if gs == [] then []
    else
      var rest := FirstOfGroupsLargerThan(gs[1..], n);
      assert forall e :: e in rest ==> exists i :: 0 <= i < |gs[1..]| && |gs[1..][i]| > n && e == gs[1..][i][0];
      assert forall i :: 1 <= i < |gs| ==> gs[i] == gs[1..][i - 1];
      (if |gs[0]| > n then [gs[0][0]] else []) + rest
  }

  /** The query as the program writes it. */
  function HighActivityEmployees(s: Snapshot, cutoff: int): seq<Employee> {
    FirstOfGroupsLargerThan(GroupById(RecentlyActive(s, s.employees, cutoff)), GroupThreshold)
  }

  /** A group of the key-grouping holds the employees sharing that key, so it is never empty. */
  lemma {:induction false} GroupsAreNonEmpty(es: seq<Employee>, i: nat)
    requires i < |GroupById(es)|
    ensures GroupById(es)[i] != []
    ensures forall e :: e in GroupById(es)[i] ==> e in es && e.id == GroupKeys(es)[i]
  {
    var k := GroupKeys(es)[i];
    assert k in GroupKeys(es);
    var e :| e in es && e.id == k;
    assert e in GroupById(es)[i];
  }

  /** When EmployeeIds are unique, grouping by EmployeeId yields singleton groups. */
  lemma {:induction false} UniqueIdsGiveSingletonGroups(es: seq<Employee>)
    requires UniqueEmployeeIds(es)
    ensures forall i :: 0 <= i < |GroupById(es)| ==> |GroupById(es)[i]| == 1
  {
    forall i | 0 <= i < |GroupById(es)|
      ensures |GroupById(es)[i]| == 1
    {
      GroupsAreNonEmpty(es, i);
    }
  }

  /**
   * Because every group of the grouping by EmployeeId has one member, the
   * query returns no employee at all whenever EmployeeIds are unique.
   */
  lemma {:induction false} HighActivityIsAlwaysEmpty(s: Snapshot, cutoff: int)
    requires UniqueEmployeeIds(s.employees)
    ensures HighActivityEmployees(s, cutoff) == []
  {
    var active := RecentlyActive(s, s.employees, cutoff);
    RecentlyActiveKeepsUniqueIds(s, s.employees, cutoff);
    UniqueIdsGiveSingletonGroups(active);
  }

  /**
   * What the query can return at all: an employee of the table with an
   * assignment due on or after the cutoff, and more than three recently
   * active rows share its EmployeeId.
   */
  lemma {:induction false} HighActivitySound(s: Snapshot, cutoff: int)
    ensures forall e :: e in HighActivityEmployees(s, cutoff) ==>
              && e in s.employees && HasRecentAssignment(s, e, cutoff)
              && |EmployeesWithId(RecentlyActive(s, s.employees, cutoff), e.id)| > GroupThreshold
  {
    var active := RecentlyActive(s, s.employees, cutoff);
    var gs := GroupById(active);
    forall e | e in HighActivityEmployees(s, cutoff)
      ensures e in s.employees && HasRecentAssignment(s, e, cutoff)
      ensures |EmployeesWithId(active, e.id)| > GroupThreshold
    {
      var i :| 0 <= i < |gs| && |gs[i]| > GroupThreshold && e == gs[i][0];
      GroupsAreNonEmpty(active, i);
      assert gs[i][0] in gs[i];
    }
  }

  /** The pre-filter is inclusive: an employee with an assignment due exactly at the cutoff passes it. */
  lemma {:induction false} RecentFilterIsInclusive(s: Snapshot, e: Employee, ep: EmployeeProject, p: Project)
    requires e in s.employees && ep in s.employeeProjects && p in s.projects
    requires ep.empId == e.id && ep.projId == p.id
    ensures e in RecentlyActive(s, s.employees, p.deadline)
  {
    assert ep in AssignmentsOfEmployee(s.employeeProjects, e.id);
    assert ProjectDueFrom(s.projects, ep.projId, p.deadline);
  }

  // ---------------------------------------------------------------------
  // The query the method name and comment describe: employees with more
  // than `minCount` assignments due on or after the cutoff.
  // ---------------------------------------------------------------------

  /** The number of rows of `eps` whose project is due on or after `cutoff`. */
  function CountDueFrom(eps: seq<EmployeeProject>, ps: seq<Project>, cutoff: int): (n: nat)
    ensures n <= |eps|
    ensures n > 0 <==> exists ep :: ep in eps && ProjectDueFrom(ps, ep.projId, cutoff)
  {
    if eps == [] then 0
    else
      assert forall ep :: ep in eps ==> ep == eps[0] || ep in eps[1..];
      (if ProjectDueFrom(ps, eps[0].projId, cutoff) then 1 else 0) + CountDueFrom(eps[1..], ps, cutoff)
  }

  /** The number of an employee's assignments whose project is due on or after `cutoff`. */
  function RecentAssignmentCount(s: Snapshot, e: Employee, cutoff: int): nat {
    CountDueFrom(AssignmentsOfEmployee(s.employeeProjects, e.id), s.projects, cutoff)
  }

  /** The employees of `es` with more than `minCount` recent assignments, in table order. */
  function EmployeesWithMoreRecentProjects(s: Snapshot, es: seq<Employee>, cutoff: int, minCount: nat): (r: seq<Employee>)
    ensures forall e :: e in r <==> e in es && RecentAssignmentCount(s, e, cutoff) > minCount
    ensures |r| <= |es|
  {
    if es == [] then []
    else
      assert forall e :: e in es ==> e == es[0] || e in es[1..];
      (if RecentAssignmentCount(s, es[0], cutoff) > minCount then [es[0]] else [])
        + EmployeesWithMoreRecentProjects(s, es[1..], cutoff, minCount)
  }

  /** The corrected query on the snapshot, with the program's threshold. */
  function BusyEmployees(s: Snapshot, cutoff: int): seq<Employee> {
    EmployeesWithMoreRecentProjects(s, s.employees, cutoff, GroupThreshold)
  }

  /**
   * The program's pre-filter is the corrected count being positive: `Any`
   * holds exactly when at least one assignment qualifies.
   */
  lemma {:induction false} AnyIsCountPositive(s: Snapshot, e: Employee, cutoff: int)
    ensures HasRecentAssignment(s, e, cutoff) <==> RecentAssignmentCount(s, e, cutoff) > 0
  {
    var nav := AssignmentsOfEmployee(s.employeeProjects, e.id);
    assert RecentAssignmentCount(s, e, cutoff) > 0 <==> exists ep :: ep in nav && ProjectDueFrom(s.projects, ep.projId, cutoff);
  }

  /** A boundary employee with exactly `minCount` recent assignments is left out ("more than", not "at least"). */
  lemma {:induction false} BoundaryCountExcluded(s: Snapshot, e: Employee, cutoff: int, minCount: nat)
    requires RecentAssignmentCount(s, e, cutoff) == minCount
    ensures e !in EmployeesWithMoreRecentProjects(s, s.employees, cutoff, minCount)
  {
  }

  /** One employee with four projects, all due at time 10. */
  function BusySnapshot(): Snapshot {
    Snapshot(
      [Department(1, "IT")],
      [Employee(1, "John Doe", 5000, 0, 1)],
      [Project(1, "Project A", 10), Project(2, "Project B", 10), Project(3, "Project C", 10), Project(4, "Project D", 10)],
      [EmployeeProject(1, 1), EmployeeProject(1, 2), EmployeeProject(1, 3), EmployeeProject(1, 4)])
  }

  /** The fixture satisfies every key and relationship rule. */
  lemma BusySnapshotIsWellFormed()
    ensures Integrity(BusySnapshot())
  {
    var s := BusySnapshot();
    assert s.employees[0].id == 1 && s.departments[0].id == 1;
    assert forall ep :: ep in s.employeeProjects ==> ep.empId == 1 && 1 <= ep.projId <= 4;
    assert forall k :: 0 <= k < 4 ==> s.projects[k].id == k + 1;
  }

  /** In the fixture the employee has four assignments due from time 0. */
  lemma BusySnapshotCount()
    ensures RecentAssignmentCount(BusySnapshot(), BusySnapshot().employees[0], 0) == 4
  {
    var s := BusySnapshot();
    var eps := s.employeeProjects;
    assert AssignmentsOfEmployee(eps[4..], 1) == [];
    assert AssignmentsOfEmployee(eps[3..], 1) == eps[3..];
    assert AssignmentsOfEmployee(eps[2..], 1) == eps[2..];
    assert AssignmentsOfEmployee(eps[1..], 1) == eps[1..];
    assert AssignmentsOfEmployee(eps, 1) == eps;
    forall k | 0 <= k < 4 ensures ProjectDueFrom(s.projects, eps[k].projId, 0) {
      assert s.projects[k] in s.projects;
    }
    assert CountDueFrom(eps[3..], s.projects, 0) == 1;
    assert CountDueFrom(eps[2..], s.projects, 0) == 2;
    assert CountDueFrom(eps[1..], s.projects, 0) == 3;
  }

  /**
   * A well-formed database in which the one employee has four projects due
   * after the cutoff: the query as written returns nobody, the corrected
   * query returns that employee.
   */
  lemma HighActivityMissesBusyEmployee()
    ensures Integrity(BusySnapshot())
    ensures HighActivityEmployees(BusySnapshot(), 0) == []
    ensures BusyEmployees(BusySnapshot(), 0) == [Employee(1, "John Doe", 5000, 0, 1)]
  {
    BusySnapshotIsWellFormed();
    HighActivityIsAlwaysEmpty(BusySnapshot(), 0);
    BusySnapshotCount();
  }
}
