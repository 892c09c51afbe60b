/**
 * The four tables of the tracking database and the integrity rules the
 * entity model declares over them.
 *
 * A snapshot is an in-memory copy of the Departments, Employees, Projects
 * and EmployeeProjects tables. Identifiers, salaries, ratings and
 * deadlines are unbounded integers; a deadline is an abstract point in
 * time, a salary an exact decimal amount scaled to an integer.
 */
module Schema {

  /** A row of Departments. */
  datatype Department = Department(id: int, name: string)

  /** A row of Employees; `deptId` is the foreign key into Departments. */
  datatype Employee = Employee(id: int, name: string, salary: int, rating: int, deptId: int)

  /** A row of Projects. */
  datatype Project = Project(id: int, name: string, deadline: int)

  /** A row of the EmployeeProjects junction table. */
  datatype EmployeeProject = EmployeeProject(empId: int, projId: int)

  /** A read of all four tables at one moment. */
  datatype Snapshot = Snapshot(
    departments: seq<Department>,
    employees: seq<Employee>,
    projects: seq<Project>,
    employeeProjects: seq<EmployeeProject>)

  // ---------------------------------------------------------------------
  // Primary keys. DepartmentId, EmployeeId and ProjectId are keys by
  // naming convention; EmployeeProjects has the composite key
  // (EmployeeId, ProjectId).
  // ---------------------------------------------------------------------

  predicate UniqueDepartmentIds(ds: seq<Department>) {
    forall i, j :: 0 <= i < j < |ds| ==> ds[i].id != ds[j].id
  }

  predicate UniqueEmployeeIds(es: seq<Employee>) {
    forall i, j :: 0 <= i < j < |es| ==> es[i].id != es[j].id
  }

  predicate UniqueProjectIds(ps: seq<Project>) {
    forall i, j :: 0 <= i < j < |ps| ==> ps[i].id != ps[j].id
  }

  /** No two junction rows carry the same (EmployeeId, ProjectId) pair. */
  predicate UniqueAssignmentKeys(eps: seq<EmployeeProject>) {
    forall i, j :: 0 <= i < j < |eps| ==> eps[i] != eps[j]
  }

  // ---------------------------------------------------------------------
  // Foreign keys.
  // ---------------------------------------------------------------------

  predicate HasDepartmentId(ds: seq<Department>, id: int) {
    exists d :: d in ds && d.id == id
  }

  predicate HasEmployeeId(es: seq<Employee>, id: int) {
    exists e :: e in es && e.id == id
  }

  predicate HasProjectId(ps: seq<Project>, id: int) {
    exists p :: p in ps && p.id == id
  }

  /** Every junction row's EmployeeId is the id of an existing employee. */
  predicate AssignmentEmployeesResolve(s: Snapshot) {
    forall ep :: ep in s.employeeProjects ==> HasEmployeeId(s.employees, ep.empId)
  }

  /** Every junction row's ProjectId is the id of an existing project. */
  predicate AssignmentProjectsResolve(s: Snapshot) {
    forall ep :: ep in s.employeeProjects ==> HasProjectId(s.projects, ep.projId)
  }

  /** Every employee's DepartmentId is the id of an existing department. */
  predicate EmployeeDepartmentsResolve(s: Snapshot) {
    forall e :: e in s.employees ==> HasDepartmentId(s.departments, e.deptId)
  }

  /** All key and relationship rules of the entity model. */
  predicate Integrity(s: Snapshot) {
    && UniqueDepartmentIds(s.departments)
    && UniqueEmployeeIds(s.employees)
    && UniqueProjectIds(s.projects)
    && UniqueAssignmentKeys(s.employeeProjects)
    && AssignmentEmployeesResolve(s)
    && AssignmentProjectsResolve(s)
    && EmployeeDepartmentsResolve(s)
  }

  // ---------------------------------------------------------------------
  // Navigation collections and key lookups.
  // ---------------------------------------------------------------------

  /** Employee.EmployeeProjects: the junction rows carrying `empId`, in table order. */
  function AssignmentsOfEmployee(eps: seq<EmployeeProject>, empId: int): (r: seq<EmployeeProject>)
    ensures forall ep :: ep in r <==> ep in eps && ep.empId == empId
    ensures |r| <= |eps|
  {
    if eps == [] then []
    else (if eps[0].empId == empId then [eps[0]] else []) + AssignmentsOfEmployee(eps[1..], empId)
  }

  /** Project.EmployeeProjects: the junction rows carrying `projId`, in table order. */
  function AssignmentsOfProject(eps: seq<EmployeeProject>, projId: int): (r: seq<EmployeeProject>)
    ensures forall ep :: ep in r <==> ep in eps && ep.projId == projId
    ensures |r| <= |eps|
  {
    if eps == [] then []
    else (if eps[0].projId == projId then [eps[0]] else []) + AssignmentsOfProject(eps[1..], projId)
  }

  /** Department.Employees: the employees whose DepartmentId is `deptId`, in table order. */
  function EmployeesOfDepartment(es: seq<Employee>, deptId: int): (r: seq<Employee>)
    ensures forall e :: e in r <==> e in es && e.deptId == deptId
    ensures |r| <= |es|
  {
    if es == [] then []
    else (if es[0].deptId == deptId then [es[0]] else []) + EmployeesOfDepartment(es[1..], deptId)
  }

  /** The employees whose EmployeeId is `id`; a key lookup yields at most one. */
  function EmployeesWithId(es: seq<Employee>, id: int): (r: seq<Employee>)
    ensures forall e :: e in r <==> e in es && e.id == id
    ensures UniqueEmployeeIds(es) ==> |r| <= 1
  {
    if es == [] then []
    else
      var rest := EmployeesWithId(es[1..], id);
      if es[0].id == id then
        assert UniqueEmployeeIds(es) ==> forall k :: 1 <= k < |es| ==> es[k].id != id;
        assert rest != [] ==> rest[0] in rest;
        [es[0]] + rest
      else rest
  }

  /** The projects whose ProjectId is `id`; a key lookup yields at most one. */
  function ProjectsWithId(ps: seq<Project>, id: int): (r: seq<Project>)
    ensures forall p :: p in r <==> p in ps && p.id == id
    ensures UniqueProjectIds(ps) ==> |r| <= 1
  {
    if ps == [] then []
    else
      var rest := ProjectsWithId(ps[1..], id);
      if ps[0].id == id then
        assert UniqueProjectIds(ps) ==> forall k :: 1 <= k < |ps| ==> ps[k].id != id;
        assert rest != [] ==> rest[0] in rest;
        [ps[0]] + rest
      else rest
  }

  /**
   * Under the integrity rules, each junction row lies in exactly one
   * employee's navigation collection and in exactly one project's.
   */
  lemma NavigationPartitionsAssignments(s: Snapshot, ep: EmployeeProject)
    requires Integrity(s)
    requires ep in s.employeeProjects
    ensures exists e :: e in s.employees && ep in AssignmentsOfEmployee(s.employeeProjects, e.id)
    ensures forall e1, e2 ::
      e1 in s.employees && e2 in s.employees &&
      ep in AssignmentsOfEmployee(s.employeeProjects, e1.id) &&
      ep in AssignmentsOfEmployee(s.employeeProjects, e2.id)
      ==> e1 == e2
    ensures exists p :: p in s.projects && ep in AssignmentsOfProject(s.employeeProjects, p.id)
    ensures forall p1, p2 ::
      p1 in s.projects && p2 in s.projects &&
      ep in AssignmentsOfProject(s.employeeProjects, p1.id) &&
      ep in AssignmentsOfProject(s.employeeProjects, p2.id)
      ==> p1 == p2
  {
    assert HasEmployeeId(s.employees, ep.empId);
    assert HasProjectId(s.projects, ep.projId);
    forall e1, e2 | e1 in s.employees && e2 in s.employees && e1.id == e2.id
      ensures e1 == e2
    {
      var i :| 0 <= i < |s.employees| && s.employees[i] == e1;
      var j :| 0 <= j < |s.employees| && s.employees[j] == e2;
      assert !(i < j) && !(j < i);
    }
    forall p1, p2 | p1 in s.projects && p2 in s.projects && p1.id == p2.id
      ensures p1 == p2
    {
      var i :| 0 <= i < |s.projects| && s.projects[i] == p1;
      var j :| 0 <= j < |s.projects| && s.projects[j] == p2;
      assert !(i < j) && !(j < i);
    }
  }

  // ---------------------------------------------------------------------
  // Identity values.
  // ---------------------------------------------------------------------

  /**
   * An identity value the store may hand out next: larger than every id
   * already in `ids`, and at least 1 (an identity column starts at 1).
   */
  function NextId(ids: seq<int>): (r: int)
    ensures r >= 1
    ensures forall i :: i in ids ==> i < r
  {
    if ids == [] then 1
    else
      var m := NextId(ids[1..]);
      assert forall i :: i in ids ==> i == ids[0] || i in ids[1..];
      if ids[0] >= m then ids[0] + 1 else m
  }

  function DepartmentIds(ds: seq<Department>): (r: seq<int>)
    ensures forall d :: d in ds ==> d.id in r
  {
    if ds == [] then []
    else
      assert forall d :: d in ds ==> d == ds[0] || d in ds[1..];
      [ds[0].id] + DepartmentIds(ds[1..])
  }

  function EmployeeIds(es: seq<Employee>): (r: seq<int>)
    ensures forall e :: e in es ==> e.id in r
  {
    if es == [] then []
    else
      assert forall e :: e in es ==> e == es[0] || e in es[1..];
      [es[0].id] + EmployeeIds(es[1..])
  }

  function ProjectIds(ps: seq<Project>): (r: seq<int>)
    ensures forall p :: p in ps ==> p.id in r
  {
    if ps == [] then []
    else
      assert forall p :: p in ps ==> p == ps[0] || p in ps[1..];
      [ps[0].id] + ProjectIds(ps[1..])
  }
}
