/**
 * Sample-data seeding: when the Departments table is empty, add department
 * "IT", employee "John Doe" (salary 5000) in it, "Project A" and
 * "Project B", and one assignment of the employee to each project, in four
 * successive add-and-save steps, each reading the ids the previous step
 * was given.
 *
 * The store hands out identity values; the model gives each new row one
 * more than the largest id in its table. The two deadlines, three and six
 * months after the current time in the program, are parameters.
 */
module Seeding {
  import opened Schema
  import opened Assignments
  import opened Payroll
  import opened HighActivity

  /** The department, employee and two projects seeding adds to the tables `s`. */
  function SeedDepartment(s: Snapshot): Department {
    Department(NextId(DepartmentIds(s.departments)), "IT")
  }

  function SeedEmployee(s: Snapshot): Employee {
    Employee(NextId(EmployeeIds(s.employees)), "John Doe", 5000, 0, SeedDepartment(s).id)
  }

  function SeedProjectA(s: Snapshot, deadlineA: int): Project {
    Project(NextId(ProjectIds(s.projects)), "Project A", deadlineA)
  }

  function SeedProjectB(s: Snapshot, deadlineA: int, deadlineB: int): Project {
    Project(NextId(ProjectIds(s.projects + [SeedProjectA(s, deadlineA)])), "Project B", deadlineB)
  }

  /** The tables after seeding, as a function of the tables before. */
  function Seeded(s: Snapshot, deadlineA: int, deadlineB: int): (r: Snapshot)
    ensures s.departments != [] ==> r == s
    ensures r.departments != []
  {
    if s.departments != [] then s
    else
      var e := SeedEmployee(s);
      var p1, p2 := SeedProjectA(s, deadlineA), SeedProjectB(s, deadlineA, deadlineB);
      Snapshot(
        s.departments + [SeedDepartment(s)],
        s.employees + [e],
        s.projects + [p1, p2],
        s.employeeProjects + [EmployeeProject(e.id, p1.id), EmployeeProject(e.id, p2.id)])
  }

  /**
   * On a store without departments, seeding appends exactly the fixture:
   * department "IT"; employee "John Doe" with salary 5000 and rating 0 in
   * that department; "Project A" and "Project B" with the given deadlines;
   * and a junction row linking the employee to each project. Every new row
   * has an id its table did not hold, and the two projects' ids differ.
   */
  lemma {:induction false} SeededContents(s: Snapshot, deadlineA: int, deadlineB: int)
    requires s.departments == []
    ensures var r := Seeded(s, deadlineA, deadlineB);
      && |r.departments| == 1 && r.departments[0].name == "IT"
      && |r.employees| == |s.employees| + 1 && r.employees[..|s.employees|] == s.employees
      && |r.projects| == |s.projects| + 2 && r.projects[..|s.projects|] == s.projects
      && var e, p1, p2 := r.employees[|s.employees|], r.projects[|s.projects|], r.projects[|s.projects| + 1];
      && e.name == "John Doe" && e.salary == 5000 && e.rating == 0 && e.deptId == r.departments[0].id
      && !HasEmployeeId(s.employees, e.id)
      && p1.name == "Project A" && p1.deadline == deadlineA && !HasProjectId(s.projects, p1.id)
      && p2.name == "Project B" && p2.deadline == deadlineB && !HasProjectId(s.projects, p2.id)
      && p1.id != p2.id
      && r.employeeProjects == s.employeeProjects + [EmployeeProject(e.id, p1.id), EmployeeProject(e.id, p2.id)]
  {
    var r := Seeded(s, deadlineA, deadlineB);
    var p1 := SeedProjectA(s, deadlineA);
    assert p1 in s.projects + [p1];
    assert r.employees[..|s.employees|] == s.employees;
    assert r.projects[..|s.projects|] == s.projects;
  }

  /** A second seeding changes nothing. */
  lemma SeedingIsIdempotent(s: Snapshot, deadlineA: int, deadlineB: int, laterA: int, laterB: int)
    ensures Seeded(Seeded(s, deadlineA, deadlineB), laterA, laterB) == Seeded(s, deadlineA, deadlineB)
  {
  }

  /** By the foreign keys, a well-formed store without departments has no employees and no assignments. */
  lemma {:induction false} NoDepartmentsNoStaff(s: Snapshot)
    requires Integrity(s) && s.departments == []
    ensures s.employees == [] && s.employeeProjects == []
  {
    HeadIsMember(s.employees);
    HeadIsMember(s.employeeProjects);
  }

  lemma HeadIsMember<T>(s: seq<T>)
    ensures s != [] ==> s[0] in s
  {
  }

  /**
   * Seeding keeps every key and relationship rule: the new rows get fresh
   * ids, the new junction rows reference the freshly added employee and
   * projects and differ in their ProjectId.
   */
  lemma {:induction false} SeedingPreservesIntegrity(s: Snapshot, deadlineA: int, deadlineB: int)
    requires Integrity(s)
    ensures Integrity(Seeded(s, deadlineA, deadlineB))
  {
    if s.departments == [] {
      NoDepartmentsNoStaff(s);
      var r := Seeded(s, deadlineA, deadlineB);
      var d, e := SeedDepartment(s), SeedEmployee(s);
      var p1, p2 := SeedProjectA(s, deadlineA), SeedProjectB(s, deadlineA, deadlineB);
      var ps := s.projects;
      assert p1 in ps + [p1];
      assert r.departments == [d] && r.employees == [e];
      assert UniqueProjectIds(r.projects) by {
        forall i | 0 <= i < |ps| ensures ps[i].id != p1.id && ps[i].id != p2.id {
          assert ps[i] in ps;
        }
      }
      assert AssignmentEmployeesResolve(r) by {
        assert e in r.employees;
      }
      assert AssignmentProjectsResolve(r) by {
        assert p1 in r.projects && p2 in r.projects;
      }
      assert EmployeeDepartmentsResolve(r) by {
        assert d in r.departments;
      }
    }
  }

  /** Seeding a well-formed store without departments yields these four tables. */
  lemma {:induction false} SeededShape(s: Snapshot, deadlineA: int, deadlineB: int)
    requires Integrity(s) && s.departments == []
    ensures Integrity(Seeded(s, deadlineA, deadlineB))
    ensures var e, p1, p2 := SeedEmployee(s), SeedProjectA(s, deadlineA), SeedProjectB(s, deadlineA, deadlineB);
      Seeded(s, deadlineA, deadlineB) ==
        Snapshot([SeedDepartment(s)], [e], s.projects + [p1, p2], [EmployeeProject(e.id, p1.id), EmployeeProject(e.id, p2.id)])
  {
    NoDepartmentsNoStaff(s);
    SeedingPreservesIntegrity(s, deadlineA, deadlineB);
  }

  /** From a well-formed store without departments, the listing after seeding names "John Doe" twice. */
  lemma {:induction false} SeededListing(s: Snapshot, deadlineA: int, deadlineB: int)
    requires Integrity(s) && s.departments == []
    ensures ListAssignments(Seeded(s, deadlineA, deadlineB)) ==
              [AssignmentRow("John Doe", "Project A", deadlineA), AssignmentRow("John Doe", "Project B", deadlineB)]
  {
    var r := Seeded(s, deadlineA, deadlineB);
    SeededShape(s, deadlineA, deadlineB);
    var e, p1, p2 := SeedEmployee(s), SeedProjectA(s, deadlineA), SeedProjectB(s, deadlineA, deadlineB);
    assert e in r.employees && p1 in r.projects && p2 in r.projects;
    ListingRowAt(r, 0, e, p1);
    ListingRowAt(r, 1, e, p2);
  }

  /** From a well-formed store without departments, both payroll paths give {"IT": 5000} after seeding. */
  lemma {:induction false} SeededPayroll(s: Snapshot, deadlineA: int, deadlineB: int)
    requires Integrity(s) && s.departments == []
    ensures PathA(Seeded(s, deadlineA, deadlineB)) == [DepartmentSalary("IT", 5000)]
    ensures PathB(Seeded(s, deadlineA, deadlineB)) == [DepartmentSalary("IT", 5000)]
  {
    SeededShape(s, deadlineA, deadlineB);
    var d, e := SeedDepartment(s), SeedEmployee(s);
    assert EmployeesOfDepartment([e][1..], d.id) == [];
    assert EmployeesOfDepartment([e], d.id) == [e];
    assert SalarySum([e]) == 5000;
    assert TotalsPerDepartment([d][1..], [e]) == [];
    assert TotalsPerDepartment([d], [e]) == [DepartmentSalary("IT", 5000)];
    assert SalaryRows("IT", [e][1..]) == [];
    assert SalaryRows("IT", [e]) == [DepartmentSalary("IT", 5000)];
    var joined := JoinedSalaryRows([d], [e]);
    assert JoinedSalaryRows([d][1..], [e]) == [];
    assert joined == [DepartmentSalary("IT", 5000)];
    assert NamesOf(joined[..0]) == [];
    assert NamesOf(joined) == ["IT"];
    assert AmountFor(joined[1..], "IT") == 0;
    assert AmountFor(joined, "IT") == 5000;
  }

  /**
   * From a well-formed store without departments, the high-activity query
   * is empty after seeding, and so is its corrected form: the employee has
   * only two projects.
   */
  lemma {:induction false} SeededHighActivity(s: Snapshot, deadlineA: int, deadlineB: int, cutoff: int)
    requires Integrity(s) && s.departments == []
    ensures HighActivityEmployees(Seeded(s, deadlineA, deadlineB), cutoff) == []
    ensures BusyEmployees(Seeded(s, deadlineA, deadlineB), cutoff) == []
  {
    var r := Seeded(s, deadlineA, deadlineB);
    SeededShape(s, deadlineA, deadlineB);
    HighActivityIsAlwaysEmpty(r, cutoff);
    var e := SeedEmployee(s);
    var busy := BusyEmployees(r, cutoff);
    assert |AssignmentsOfEmployee(r.employeeProjects, e.id)| <= 2;
    HeadIsMember(busy);
  }

  /** The four tables of the store, updated in place by the seeding steps. */
  class Database {
    var departments: seq<Department>
    var employees: seq<Employee>
    var projects: seq<Project>
    var employeeProjects: seq<EmployeeProject>

    /** The current contents of the four tables. */
    function Tables(): Snapshot
      reads this
    {
      Snapshot(departments, employees, projects, employeeProjects)
    }

    /** The key and relationship rules hold. */
    predicate Valid()
      reads this
    {
      Integrity(Tables())
    }

    /** A store opened on existing contents. */
    constructor (s: Snapshot)
      ensures Tables() == s
    {
      departments := s.departments;
      employees := s.employees;
      projects := s.projects;
      employeeProjects := s.employeeProjects;
    }

    /** `Departments.Add` and `SaveChanges`: the new row gets a fresh id. */
    method AddDepartment(name: string) returns (d: Department)
      modifies this
      ensures d == Department(NextId(DepartmentIds(old(departments))), name)
      ensures !HasDepartmentId(old(departments), d.id)
      ensures departments == old(departments) + [d]
      ensures employees == old(employees) && projects == old(projects) && employeeProjects == old(employeeProjects)
    {
      d := Department(NextId(DepartmentIds(departments)), name);
      departments := departments + [d];
    }

    /** `Employees.Add` and `SaveChanges`; the rating keeps its default 0. */
    method AddEmployee(name: string, salary: int, deptId: int) returns (e: Employee)
      modifies this
      ensures e == Employee(NextId(EmployeeIds(old(employees))), name, salary, 0, deptId)
      ensures !HasEmployeeId(old(employees), e.id)
      ensures employees == old(employees) + [e]
      ensures departments == old(departments) && projects == old(projects) && employeeProjects == old(employeeProjects)
    {
      e := Employee(NextId(EmployeeIds(employees)), name, salary, 0, deptId);
      employees := employees + [e];
    }

    /** `Projects.AddRange` of two projects and `SaveChanges`: the second id follows the first. */
    method AddProjects(nameA: string, deadlineA: int, nameB: string, deadlineB: int) returns (p1: Project, p2: Project)
      modifies this
      ensures p1 == Project(NextId(ProjectIds(old(projects))), nameA, deadlineA)
      ensures p2 == Project(NextId(ProjectIds(old(projects) + [p1])), nameB, deadlineB)
      ensures !HasProjectId(old(projects), p1.id) && !HasProjectId(old(projects), p2.id) && p1.id != p2.id
      ensures projects == old(projects) + [p1, p2]
      ensures departments == old(departments) && employees == old(employees) && employeeProjects == old(employeeProjects)
    {
      p1 := Project(NextId(ProjectIds(projects)), nameA, deadlineA);
      p2 := Project(NextId(ProjectIds(projects + [p1])), nameB, deadlineB);
      assert p1 in projects + [p1];
      projects := projects + [p1, p2];
    }

    /** `EmployeeProjects.AddRange` and `SaveChanges`. */
    method AddEmployeeProjects(rows: seq<EmployeeProject>)
      modifies this
      ensures employeeProjects == old(employeeProjects) + rows
      ensures departments == old(departments) && employees == old(employees) && projects == old(projects)
    {
      employeeProjects := employeeProjects + rows;
    }

    /**
     * Seeds the store when it has no department and leaves it untouched
     * otherwise. Afterwards there is a department, so a second call is a
     * no-op, and the integrity rules still hold.
     */
    method AddSampleData(deadlineA: int, deadlineB: int)
      modifies this
      ensures Tables() == Seeded(old(Tables()), deadlineA, deadlineB)
      ensures departments != []
      ensures old(Valid()) ==> Valid()
    {
      if departments == [] {
        var d := AddDepartment("IT");
        var e := AddEmployee("John Doe", 5000, d.id);
        var p1, p2 := AddProjects("Project A", deadlineA, "Project B", deadlineB);
        AddEmployeeProjects([EmployeeProject(e.id, p1.id), EmployeeProject(e.id, p2.id)]);
      }
      if old(Valid()) {
        SeedingPreservesIntegrity(old(Tables()), deadlineA, deadlineB);
      }
    }
  }
}
