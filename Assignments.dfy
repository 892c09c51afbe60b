/**
 * The assignment listing: the inner join of Employees, EmployeeProjects
 * and Projects on the employee key and on the project key, projected to
 * (employee name, project name, project deadline).
 *
 * SQL leaves the row order open; the model lists the rows junction row by
 * junction row, and every statement below that is not about positions
 * holds for any order.
 */
module Assignments {
  import opened Schema

  /** One row of the listing. */
  datatype AssignmentRow = AssignmentRow(employeeName: string, projectName: string, projectDeadline: int)

  function RowOf(e: Employee, p: Project): AssignmentRow {
    AssignmentRow(e.name, p.name, p.deadline)
  }

  /** All combinations of one employee with the projects `ps`. */
  function RowsWith(e: Employee, ps: seq<Project>): (r: seq<AssignmentRow>)
    ensures |r| == |ps|
    ensures forall row :: row in r <==> exists p :: p in ps && row == RowOf(e, p)
  {
    if ps == [] then []
    else
      assert forall p :: p in ps ==> p == ps[0] || p in ps[1..];
      [RowOf(e, ps[0])] + RowsWith(e, ps[1..])
  }

  /** All combinations of the employees `es` with the projects `ps`. */
  function Combine(es: seq<Employee>, ps: seq<Project>): (r: seq<AssignmentRow>)
    ensures |r| == |es| * |ps|
    ensures forall row :: row in r <==> exists e, p :: e in es && p in ps && row == RowOf(e, p)
  {
    if es == [] then []
    else
      assert forall e :: e in es ==> e == es[0] || e in es[1..];
      RowsWith(es[0], ps) + Combine(es[1..], ps)
  }

  /** The rows a junction row contributes: the employees and projects its two keys match. */
  function RowsFor(s: Snapshot, ep: EmployeeProject): seq<AssignmentRow> {
    Combine(EmployeesWithId(s.employees, ep.empId), ProjectsWithId(s.projects, ep.projId))
  }

  /** The join over the junction rows `eps`. */
  function JoinRows(s: Snapshot, eps: seq<EmployeeProject>): seq<AssignmentRow> {
    if eps == [] then [] else RowsFor(s, eps[0]) + JoinRows(s, eps[1..])
  }

  /** The listing query. */
  function ListAssignments(s: Snapshot): seq<AssignmentRow> {
    JoinRows(s, s.employeeProjects)
  }

  /** A junction row both of whose keys resolve. */
  predicate Resolves(s: Snapshot, ep: EmployeeProject) {
    HasEmployeeId(s.employees, ep.empId) && HasProjectId(s.projects, ep.projId)
  }

  /** The number of rows of `eps` whose two keys both resolve. */
  function ResolvedCount(s: Snapshot, eps: seq<EmployeeProject>): (n: nat)
    ensures n <= |eps|
    ensures (forall ep :: ep in eps ==> Resolves(s, ep)) ==> n == |eps|
  {
    if eps == [] then 0
    else (if Resolves(s, eps[0]) then 1 else 0) + ResolvedCount(s, eps[1..])
  }

  /** With unique keys a junction row contributes one row if it resolves and none otherwise. */
  lemma {:induction false} RowsForResolved(s: Snapshot, ep: EmployeeProject)
    requires UniqueEmployeeIds(s.employees) && UniqueProjectIds(s.projects)
    ensures |RowsFor(s, ep)| == if Resolves(s, ep) then 1 else 0
  {
    var es := EmployeesWithId(s.employees, ep.empId);
    var ps := ProjectsWithId(s.projects, ep.projId);
    assert es != [] ==> es[0] in es;
    assert ps != [] ==> ps[0] in ps;
    if HasEmployeeId(s.employees, ep.empId) {
      var e :| e in s.employees && e.id == ep.empId;
      assert e in es;
    }
    if HasProjectId(s.projects, ep.projId) {
      var p :| p in s.projects && p.id == ep.projId;
      assert p in ps;
    }
  }

  lemma {:induction false} JoinRowsLength(s: Snapshot, eps: seq<EmployeeProject>)
    requires UniqueEmployeeIds(s.employees) && UniqueProjectIds(s.projects)
    ensures |JoinRows(s, eps)| == ResolvedCount(s, eps)
  {
    if eps != [] {
      RowsForResolved(s, eps[0]);
      JoinRowsLength(s, eps[1..]);
    }
  }

  /**
   * With unique employee and project keys the listing has one row per
   * junction row whose two keys resolve; under all the integrity rules, one
   * row per junction row.
   */
  lemma {:induction false} ListingLength(s: Snapshot)
    requires UniqueEmployeeIds(s.employees) && UniqueProjectIds(s.projects)
    ensures |ListAssignments(s)| == ResolvedCount(s, s.employeeProjects)
    ensures AssignmentEmployeesResolve(s) && AssignmentProjectsResolve(s) ==>
              |ListAssignments(s)| == |s.employeeProjects|
  {
    JoinRowsLength(s, s.employeeProjects);
  }

  lemma {:induction false} JoinRowsComplete(s: Snapshot, eps: seq<EmployeeProject>, ep: EmployeeProject, e: Employee, p: Project)
    requires ep in eps && e in s.employees && p in s.projects
    requires e.id == ep.empId && p.id == ep.projId
    ensures RowOf(e, p) in JoinRows(s, eps)
  {
    if ep == eps[0] {
      assert e in EmployeesWithId(s.employees, ep.empId);
      assert p in ProjectsWithId(s.projects, ep.projId);
      assert RowOf(e, p) in RowsFor(s, ep);
    } else {
      JoinRowsComplete(s, eps[1..], ep, e, p);
    }
  }

  lemma {:induction false} JoinRowsSound(s: Snapshot, eps: seq<EmployeeProject>, row: AssignmentRow)
    requires row in JoinRows(s, eps)
    ensures exists ep, e, p :: ep in eps && e in s.employees && p in s.projects &&
              e.id == ep.empId && p.id == ep.projId && row == RowOf(e, p)
  {
    if row in RowsFor(s, eps[0]) {
      var e, p :| e in EmployeesWithId(s.employees, eps[0].empId) && p in ProjectsWithId(s.projects, eps[0].projId) && row == RowOf(e, p);
      assert eps[0] in eps;
    } else {
      JoinRowsSound(s, eps[1..], row);
      var ep, e, p :| ep in eps[1..] && e in s.employees && p in s.projects &&
              e.id == ep.empId && p.id == ep.projId && row == RowOf(e, p);
      assert ep in eps;
    }
  }

  /**
   * Inner-join semantics, both directions: a row is listed exactly when
   * some junction row links an employee of that name to a project of that
   * name and deadline.
   */
  lemma {:induction false} ListingRowsAreJoined(s: Snapshot, row: AssignmentRow)
    ensures row in ListAssignments(s) <==>
              exists ep, e, p :: ep in s.employeeProjects && e in s.employees && p in s.projects &&
                e.id == ep.empId && p.id == ep.projId && row == RowOf(e, p)
  {
    if row in ListAssignments(s) {
      JoinRowsSound(s, s.employeeProjects, row);
    }
    if exists ep, e, p :: ep in s.employeeProjects && e in s.employees && p in s.projects &&
         e.id == ep.empId && p.id == ep.projId && row == RowOf(e, p) {
      var ep, e, p :| ep in s.employeeProjects && e in s.employees && p in s.projects &&
         e.id == ep.empId && p.id == ep.projId && row == RowOf(e, p);
      JoinRowsComplete(s, s.employeeProjects, ep, e, p);
    }
  }

  lemma {:induction false} JoinRowsAt(s: Snapshot, eps: seq<EmployeeProject>, k: nat, e: Employee, p: Project)
    requires Integrity(s)
    requires forall ep :: ep in eps ==> Resolves(s, ep)
    requires k < |eps| && e in s.employees && p in s.projects
    requires e.id == eps[k].empId && p.id == eps[k].projId
    ensures |JoinRows(s, eps)| == |eps|
    ensures JoinRows(s, eps)[k] == RowOf(e, p)
  {
    JoinRowsLength(s, eps);
    RowsForResolved(s, eps[0]);
    if k == 0 {
      assert e in EmployeesWithId(s.employees, e.id);
      assert p in ProjectsWithId(s.projects, p.id);
      assert RowOf(e, p) in RowsFor(s, eps[0]);
    } else {
      JoinRowsAt(s, eps[1..], k - 1, e, p);
    }
  }

  /**
   * Under the integrity rules, row k of the listing carries the name of the
   * employee and the name and deadline of the project that junction row k
   * references.
   */
  lemma {:induction false} ListingRowAt(s: Snapshot, k: nat, e: Employee, p: Project)
    requires Integrity(s)
    requires k < |s.employeeProjects| && e in s.employees && p in s.projects
    requires e.id == s.employeeProjects[k].empId && p.id == s.employeeProjects[k].projId
    ensures |ListAssignments(s)| == |s.employeeProjects|
    ensures ListAssignments(s)[k] == AssignmentRow(e.name, p.name, p.deadline)
  {
    JoinRowsAt(s, s.employeeProjects, k, e, p);
  }

  /** Adding an employee no junction row refers to adds no row (inner join, not outer join). */
  lemma {:induction false} UnassignedEmployeeAddsNoRow(s: Snapshot, e: Employee)
    requires forall ep :: ep in s.employeeProjects ==> ep.empId != e.id
    ensures ListAssignments(s.(employees := s.employees + [e])) == ListAssignments(s)
  {
    UnassignedEmployeeAddsNoRowTo(s, s.employeeProjects, e);
  }

  lemma {:induction false} UnassignedEmployeeAddsNoRowTo(s: Snapshot, eps: seq<EmployeeProject>, e: Employee)
    requires forall ep :: ep in eps ==> ep.empId != e.id
    ensures JoinRows(s.(employees := s.employees + [e]), eps) == JoinRows(s, eps)
  {
    if eps != [] {
      EmployeesWithIdAppend(s.employees, e, eps[0].empId);
      UnassignedEmployeeAddsNoRowTo(s, eps[1..], e);
    }
  }

  lemma {:induction false} EmployeesWithIdAppend(es: seq<Employee>, e: Employee, id: int)
    requires e.id != id
    ensures EmployeesWithId(es + [e], id) == EmployeesWithId(es, id)
  {
    if es == [] {
      assert [e][1..] == [];
    } else {
      assert (es + [e])[1..] == es[1..] + [e];
      EmployeesWithIdAppend(es[1..], e, id);
    }
  }

  /** Adding a project no junction row refers to adds no row. */
  lemma {:induction false} UnassignedProjectAddsNoRow(s: Snapshot, p: Project)
    requires forall ep :: ep in s.employeeProjects ==> ep.projId != p.id
    ensures ListAssignments(s.(projects := s.projects + [p])) == ListAssignments(s)
  {
    UnassignedProjectAddsNoRowTo(s, s.employeeProjects, p);
  }

  lemma {:induction false} UnassignedProjectAddsNoRowTo(s: Snapshot, eps: seq<EmployeeProject>, p: Project)
    requires forall ep :: ep in eps ==> ep.projId != p.id
    ensures JoinRows(s.(projects := s.projects + [p]), eps) == JoinRows(s, eps)
  {
    if eps != [] {
      ProjectsWithIdAppend(s.projects, p, eps[0].projId);
      UnassignedProjectAddsNoRowTo(s, eps[1..], p);
    }
  }

  lemma {:induction false} ProjectsWithIdAppend(ps: seq<Project>, p: Project, id: int)
    requires p.id != id
    ensures ProjectsWithId(ps + [p], id) == ProjectsWithId(ps, id)
  {
    if ps == [] {
      assert [p][1..] == [];
    } else {
      assert (ps + [p])[1..] == ps[1..] + [p];
      ProjectsWithIdAppend(ps[1..], p, id);
    }
  }
}
