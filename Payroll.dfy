/**
 * Department payroll totals, computed on two paths.
 *
 * Path A walks the object graph: for every department, in table order,
 * the department's name and the sum of the salaries in its Employees
 * collection (0 for a department without employees).
 *
 * Path B is a single SQL query: departments inner-joined with their
 * employees, grouped by department name (not by department id), with the
 * salaries of each group summed.
 *
 * SQL leaves the order of Path B's rows open; the model lists the groups in
 * order of first appearance in the join, and the comparison of the two
 * paths below is stated on multisets of rows, so it holds for any order.
 */
module Payroll {
  import opened Schema

  /** One result row: a department name and a salary total. Also used for a joined (name, salary) row before grouping. */
  datatype DepartmentSalary = DepartmentSalary(department: string, totalSalary: int)

  /** The salary sum of `es` (the `Sum` over a navigation collection); the empty sum is 0. */
  function SalarySum(es: seq<Employee>): int {
    if es == [] then 0 else es[0].salary + SalarySum(es[1..])
  }

  /** The department with id `deptId` has at least one employee. */
  predicate IsStaffed(es: seq<Employee>, deptId: int) {
    exists e :: e in es && e.deptId == deptId
  }

  /** No two departments carry the same name. */
  predicate DistinctNames(ds: seq<Department>) {
    forall i, j :: 0 <= i < j < |ds| ==> ds[i].name != ds[j].name
  }

  /** Every department has at least one employee. */
  predicate AllStaffed(ds: seq<Department>, es: seq<Employee>) {
    forall d :: d in ds ==> IsStaffed(es, d.id)
  }

  /** No two rows carry the same department name. */
  predicate DistinctRowNames(rows: seq<DepartmentSalary>) {
    forall i, j :: 0 <= i < j < |rows| ==> rows[i].department != rows[j].department
  }

  /** Some row of `rows` carries the name `n`. */
  predicate NameOccurs(rows: seq<DepartmentSalary>, n: string) {
    exists r :: r in rows && r.department == n
  }

  /** Some department named `n` has at least one employee. */
  predicate StaffedName(ds: seq<Department>, es: seq<Employee>, n: string) {
    exists d :: d in ds && d.name == n && IsStaffed(es, d.id)
  }

  // ---------------------------------------------------------------------
  // Path A.
  // ---------------------------------------------------------------------

  /** Path A over the tables `ds` and `es`. */
  function TotalsPerDepartment(ds: seq<Department>, es: seq<Employee>): seq<DepartmentSalary> {
    if ds == [] then []
    else [DepartmentSalary(ds[0].name, SalarySum(EmployeesOfDepartment(es, ds[0].id)))] + TotalsPerDepartment(ds[1..], es)
  }

  /** Path A on a snapshot. */
  function PathA(s: Snapshot): seq<DepartmentSalary> {
    TotalsPerDepartment(s.departments, s.employees)
  }

  /**
   * Path A has one entry per department, in department order: the
   * department's name and the salary total of the employees whose
   * DepartmentId matches, which is 0 for a department without employees.
   */
  lemma {:induction false} PathAEntries(ds: seq<Department>, es: seq<Employee>, i: nat)
    requires i < |ds|
    ensures |TotalsPerDepartment(ds, es)| == |ds|
    ensures TotalsPerDepartment(ds, es)[i].department == ds[i].name
    ensures TotalsPerDepartment(ds, es)[i].totalSalary == SalarySum(EmployeesOfDepartment(es, ds[i].id))
    ensures !IsStaffed(es, ds[i].id) ==> TotalsPerDepartment(ds, es)[i].totalSalary == 0
  {
    PathALength(ds, es);
    if i > 0 {
      PathAEntries(ds[1..], es, i - 1);
    }
    var staff := EmployeesOfDepartment(es, ds[i].id);
    assert staff != [] ==> staff[0] in staff;
  }

  lemma {:induction false} PathALength(ds: seq<Department>, es: seq<Employee>)
    ensures |TotalsPerDepartment(ds, es)| == |ds|
  {
    if ds != [] {
      PathALength(ds[1..], es);
    }
  }

  // ---------------------------------------------------------------------
  // Path B.
  // ---------------------------------------------------------------------

  /** The joined (department name, salary) rows of one department whose employees are `staff`. */
  function SalaryRows(name: string, staff: seq<Employee>): seq<DepartmentSalary> {
    if staff == [] then []
    else [DepartmentSalary(name, staff[0].salary)] + SalaryRows(name, staff[1..])
  }

  /** The department-employee inner join on the department key, one (department name, salary) row per matched pair. */
  function JoinedSalaryRows(ds: seq<Department>, es: seq<Employee>): seq<DepartmentSalary> {
    if ds == [] then []
    else SalaryRows(ds[0].name, EmployeesOfDepartment(es, ds[0].id)) + JoinedSalaryRows(ds[1..], es)
  }

  /** The sum of the amounts of the rows named `name`. */
  function AmountFor(rows: seq<DepartmentSalary>, name: string): int {
    if rows == [] then 0
    else (if rows[0].department == name then rows[0].totalSalary else 0) + AmountFor(rows[1..], name)
  }

  /** The distinct names of `rows` in order of first appearance: the groups of the grouping by name. */
  function NamesOf(rows: seq<DepartmentSalary>): (ns: seq<string>)
    ensures forall n :: n in ns <==> NameOccurs(rows, n)
    ensures forall i, j :: 0 <= i < j < |ns| ==> ns[i] != ns[j]
  {
    if rows == [] then []
    else
      var front := rows[..|rows| - 1];
      var last := rows[|rows| - 1];
      assert rows == front + [last];
      var ns := NamesOf(front);
      if last.department in ns then ns else ns + [last.department]
  }

  /** Grouping by name, each group's amounts summed. */
  function GroupByName(rows: seq<DepartmentSalary>): seq<DepartmentSalary> {
    var ns := NamesOf(rows);
    seq(|ns|, i requires 0 <= i < |ns| => DepartmentSalary(ns[i], AmountFor(rows, ns[i])))
  }

  /** Path B over the tables `ds` and `es`. */
  function TotalsPerName(ds: seq<Department>, es: seq<Employee>): seq<DepartmentSalary> {
    GroupByName(JoinedSalaryRows(ds, es))
  }

  /** Path B on a snapshot. */
  function PathB(s: Snapshot): seq<DepartmentSalary> {
    TotalsPerName(s.departments, s.employees)
  }

  // ---------------------------------------------------------------------
  // Sums over rows.
  // ---------------------------------------------------------------------

  lemma {:induction false} AmountForAppend(a: seq<DepartmentSalary>, b: seq<DepartmentSalary>, n: string)
    ensures AmountFor(a + b, n) == AmountFor(a, n) + AmountFor(b, n)
  {
    if a == [] {
      assert a + b == b;
    } else {
      assert (a + b)[1..] == a[1..] + b;
      AmountForAppend(a[1..], b, n);
    }
  }

  lemma {:induction false} AmountForSalaryRows(name: string, staff: seq<Employee>, n: string)
    ensures AmountFor(SalaryRows(name, staff), n) == if name == n then SalarySum(staff) else 0
  {
    if staff != [] {
      AmountForSalaryRows(name, staff[1..], n);
    }
  }

  /**
   * The joined rows named `n` add up to the Path A entries named `n`: each
   * department contributes its own salary total to its own name.
   */
  lemma {:induction false} JoinedAmountIsPathAAmount(ds: seq<Department>, es: seq<Employee>, n: string)
    ensures AmountFor(JoinedSalaryRows(ds, es), n) == AmountFor(TotalsPerDepartment(ds, es), n)
  {
    if ds != [] {
      var staff := EmployeesOfDepartment(es, ds[0].id);
      AmountForAppend(SalaryRows(ds[0].name, staff), JoinedSalaryRows(ds[1..], es), n);
      AmountForSalaryRows(ds[0].name, staff, n);
      JoinedAmountIsPathAAmount(ds[1..], es, n);
    }
  }

  /** A name carried by one row only sums to that row's amount. */
  lemma {:induction false} AmountForLoneName(rows: seq<DepartmentSalary>, k: nat)
    requires k < |rows|
    requires forall j :: 0 <= j < |rows| && j != k ==> rows[j].department != rows[k].department
    ensures AmountFor(rows, rows[k].department) == rows[k].totalSalary
  {
    if k == 0 {
      AmountForAbsent(rows[1..], rows[0].department);
    } else {
      AmountForLoneName(rows[1..], k - 1);
    }
  }

  lemma {:induction false} AmountForAbsent(rows: seq<DepartmentSalary>, n: string)
    requires forall j :: 0 <= j < |rows| ==> rows[j].department != n
    ensures AmountFor(rows, n) == 0
  {
    if rows != [] {
      AmountForAbsent(rows[1..], n);
    }
  }

  // ---------------------------------------------------------------------
  // What Path B contains.
  // ---------------------------------------------------------------------

  lemma {:induction false} SalaryRowsNames(name: string, staff: seq<Employee>, n: string)
    ensures NameOccurs(SalaryRows(name, staff), n) <==> staff != [] && name == n
  {
    if staff != [] {
      SalaryRowsNames(name, staff[1..], n);
      assert SalaryRows(name, staff)[0] in SalaryRows(name, staff);
    }
  }

  /** A name occurs in the join exactly when some department of that name has an employee. */
  lemma {:induction false} JoinedNames(ds: seq<Department>, es: seq<Employee>, n: string)
    ensures NameOccurs(JoinedSalaryRows(ds, es), n) <==> StaffedName(ds, es, n)
  {
    if ds != [] {
      var staff := EmployeesOfDepartment(es, ds[0].id);
      var head := SalaryRows(ds[0].name, staff);
      var tail := JoinedSalaryRows(ds[1..], es);
      JoinedNames(ds[1..], es, n);
      SalaryRowsNames(ds[0].name, staff, n);
      assert staff != [] <==> IsStaffed(es, ds[0].id) by {
        assert staff != [] ==> staff[0] in staff;
      }
      assert forall r :: r in head + tail <==> r in head || r in tail;
      assert forall d :: d in ds <==> d == ds[0] || d in ds[1..];
    }
  }

  /**
   * Path B has one row per distinct department name that has at least one
   * employee, no name twice, and each row's total is the sum of the Path A
   * entries carrying that name.
   */
  lemma {:induction false} PathBRows(ds: seq<Department>, es: seq<Employee>)
    ensures DistinctRowNames(TotalsPerName(ds, es))
    ensures forall n :: NameOccurs(TotalsPerName(ds, es), n) <==> StaffedName(ds, es, n)
    ensures forall r :: r in TotalsPerName(ds, es) ==>
                        r.totalSalary == AmountFor(TotalsPerDepartment(ds, es), r.department)
  {
    var rows := JoinedSalaryRows(ds, es);
    var b := TotalsPerName(ds, es);
    forall n
      ensures NameOccurs(b, n) <==> StaffedName(ds, es, n)
    {
      JoinedNames(ds, es, n);
      if n in NamesOf(rows) {
        var i :| 0 <= i < |NamesOf(rows)| && NamesOf(rows)[i] == n;
        assert b[i] in b;
      }
    }
    forall r | r in b
      ensures r.totalSalary == AmountFor(TotalsPerDepartment(ds, es), r.department)
    {
      JoinedAmountIsPathAAmount(ds, es, r.department);
    }
  }

  /**
   * An employee-less department appears only in Path A: when no department
   * of its name has an employee, Path A lists it with total 0 and Path B
   * has no row of that name.
   */
  lemma {:induction false} EmptyDepartmentOnlyInPathA(ds: seq<Department>, es: seq<Employee>, i: nat)
    requires i < |ds|
    requires forall d :: d in ds && d.name == ds[i].name ==> !IsStaffed(es, d.id)
    ensures DepartmentSalary(ds[i].name, 0) in TotalsPerDepartment(ds, es)
    ensures forall r :: r in TotalsPerName(ds, es) ==> r.department != ds[i].name
  {
    assert ds[i] in ds;
    PathAEntries(ds, es, i);
    assert TotalsPerDepartment(ds, es)[i] == DepartmentSalary(ds[i].name, 0);
    PathBRows(ds, es);
    assert !StaffedName(ds, es, ds[i].name);
    assert !NameOccurs(TotalsPerName(ds, es), ds[i].name);
  }

  /**
   * With duplicate names Path B merges: when either department of a shared
   * name has employees, Path B has a row for that name, no other row of
   * that name, and its total is the sum of all Path A entries of that name.
   */
  lemma {:induction false} DuplicateNamesMerge(ds: seq<Department>, es: seq<Employee>, i: nat, j: nat)
    requires i < j < |ds| && ds[i].name == ds[j].name
    requires IsStaffed(es, ds[i].id) || IsStaffed(es, ds[j].id)
    ensures DistinctRowNames(TotalsPerName(ds, es))
    ensures exists r :: r in TotalsPerName(ds, es) && r.department == ds[i].name &&
                        r.totalSalary == AmountFor(TotalsPerDepartment(ds, es), ds[i].name)
    ensures forall r :: r in TotalsPerName(ds, es) && r.department == ds[i].name ==>
                        r.totalSalary == AmountFor(TotalsPerDepartment(ds, es), ds[i].name)
  {
    assert ds[i] in ds && ds[j] in ds;
    PathBRows(ds, es);
    assert StaffedName(ds, es, ds[i].name);
    assert NameOccurs(TotalsPerName(ds, es), ds[i].name);
  }

  // ---------------------------------------------------------------------
  // When the two paths agree.
  // ---------------------------------------------------------------------

  predicate Distinct<T(==)>(s: seq<T>) {
    forall i, j :: 0 <= i < j < |s| ==> s[i] != s[j]
  }

  /** An element of a sequence without repetitions occurs once. */
  lemma {:induction false} DistinctMultiplicity<T>(s: seq<T>, x: T)
    requires Distinct(s)
    ensures multiset(s)[x] == if x in s then 1 else 0
  {
    if s != [] {
      assert s == [s[0]] + s[1..];
      DistinctMultiplicity(s[1..], x);
      assert x == s[0] ==> x !in s[1..];
    }
  }

  /** An element at two positions occurs at least twice. */
  lemma {:induction false} RepeatedMultiplicity<T>(s: seq<T>, i: nat, j: nat)
    requires i < j < |s| && s[i] == s[j]
    ensures multiset(s)[s[i]] >= 2
  {
    assert s == s[..j] + s[j..];
    assert s[i] in s[..j];
    assert s[j] in s[j..];
    assert multiset(s) == multiset(s[..j]) + multiset(s[j..]);
  }

  /** Two sequences without repetitions and with the same elements are permutations of each other. */
  lemma {:induction false} SameElementsSameMultiset<T>(a: seq<T>, b: seq<T>)
    requires Distinct(a) && Distinct(b)
    requires forall x :: x in a <==> x in b
    ensures multiset(a) == multiset(b)
  {
    forall x
      ensures multiset(a)[x] == multiset(b)[x]
    {
      DistinctMultiplicity(a, x);
      DistinctMultiplicity(b, x);
    }
  }

  /** With distinct names, a department's Path A total is the only amount Path A has for its name. */
  lemma {:induction false} PathALoneAmount(ds: seq<Department>, es: seq<Employee>, i: nat)
    requires DistinctNames(ds) && i < |ds|
    ensures |TotalsPerDepartment(ds, es)| == |ds|
    ensures AmountFor(TotalsPerDepartment(ds, es), ds[i].name) == TotalsPerDepartment(ds, es)[i].totalSalary
  {
    var a := TotalsPerDepartment(ds, es);
    PathAEntries(ds, es, i);
    forall k | 0 <= k < |a| && k != i ensures a[k].department != a[i].department {
      PathAEntries(ds, es, k);
    }
    AmountForLoneName(a, i);
  }

  /** With distinct names, the Path A entry of a staffed department is a Path B row. */
  lemma {:induction false} StaffedEntryInPathB(ds: seq<Department>, es: seq<Employee>, i: nat)
    requires DistinctNames(ds) && i < |ds| && IsStaffed(es, ds[i].id)
    ensures |TotalsPerDepartment(ds, es)| == |ds|
    ensures TotalsPerDepartment(ds, es)[i] in TotalsPerName(ds, es)
  {
    var a := TotalsPerDepartment(ds, es);
    var b := TotalsPerName(ds, es);
    PathAEntries(ds, es, i);
    PathALoneAmount(ds, es, i);
    PathBRows(ds, es);
    assert ds[i] in ds;
    assert StaffedName(ds, es, ds[i].name);
    var r :| r in b && r.department == ds[i].name;
    assert r == a[i];
  }

  /** With distinct names, every Path B row is a Path A entry. */
  lemma {:induction false} PathBRowInPathA(ds: seq<Department>, es: seq<Employee>, r: DepartmentSalary)
    requires DistinctNames(ds) && r in TotalsPerName(ds, es)
    ensures r in TotalsPerDepartment(ds, es)
  {
    var a := TotalsPerDepartment(ds, es);
    PathBRows(ds, es);
    assert NameOccurs(TotalsPerName(ds, es), r.department);
    var d :| d in ds && d.name == r.department && IsStaffed(es, d.id);
    var i :| 0 <= i < |ds| && ds[i] == d;
    PathAEntries(ds, es, i);
    PathALoneAmount(ds, es, i);
    assert r == a[i];
  }

  /** With distinct names and no employee-less department, Path A's rows are exactly Path B's, as a set. */
  lemma {:induction false} AgreeingRows(ds: seq<Department>, es: seq<Employee>)
    requires DistinctNames(ds) && AllStaffed(ds, es)
    ensures Distinct(TotalsPerDepartment(ds, es)) && Distinct(TotalsPerName(ds, es))
    ensures forall x :: x in TotalsPerDepartment(ds, es) <==> x in TotalsPerName(ds, es)
  {
    var a := TotalsPerDepartment(ds, es);
    var b := TotalsPerName(ds, es);
    PathALength(ds, es);
    PathBRows(ds, es);
    forall i, j | 0 <= i < j < |a| ensures a[i] != a[j] {
      PathAEntries(ds, es, i);
      PathAEntries(ds, es, j);
    }
    forall x | x in a ensures x in b {
      var i :| 0 <= i < |a| && a[i] == x;
      assert ds[i] in ds;
      StaffedEntryInPathB(ds, es, i);
    }
    forall x | x in b ensures x in a {
      PathBRowInPathA(ds, es, x);
    }
  }

  /** Equal row multisets force distinct department names. */
  lemma {:induction false} AgreementNeedsDistinctNames(ds: seq<Department>, es: seq<Employee>)
    requires multiset(TotalsPerDepartment(ds, es)) == multiset(TotalsPerName(ds, es))
    ensures DistinctNames(ds)
  {
    var a := TotalsPerDepartment(ds, es);
    var b := TotalsPerName(ds, es);
    PathALength(ds, es);
    PathBRows(ds, es);
    forall i, j | 0 <= i < j < |ds| ensures ds[i].name != ds[j].name {
      if ds[i].name == ds[j].name {
        PathAEntries(ds, es, i);
        PathAEntries(ds, es, j);
        assert a[i] in multiset(a) && a[j] in multiset(a);
        var k :| 0 <= k < |b| && b[k] == a[i];
        var l :| 0 <= l < |b| && b[l] == a[j];
        assert k == l;
        RepeatedMultiplicity(a, i, j);
        assert Distinct(b);
        DistinctMultiplicity(b, a[i]);
        assert false;
      }
    }
  }

  /** Equal row multisets force every department to have an employee. */
  lemma {:induction false} AgreementNeedsStaff(ds: seq<Department>, es: seq<Employee>)
    requires multiset(TotalsPerDepartment(ds, es)) == multiset(TotalsPerName(ds, es))
    ensures AllStaffed(ds, es)
  {
    var a := TotalsPerDepartment(ds, es);
    var b := TotalsPerName(ds, es);
    AgreementNeedsDistinctNames(ds, es);
    PathBRows(ds, es);
    forall d | d in ds ensures IsStaffed(es, d.id) {
      var i :| 0 <= i < |ds| && ds[i] == d;
      PathAEntries(ds, es, i);
      assert a[i] in multiset(a);
      assert a[i] in b;
      assert NameOccurs(b, ds[i].name);
      var d' :| d' in ds && d'.name == ds[i].name && IsStaffed(es, d'.id);
      var j :| 0 <= j < |ds| && ds[j] == d';
      assert !(i < j) && !(j < i);
    }
  }

  /**
   * The two paths list the same rows, up to order, exactly when department
   * names are pairwise distinct and every department has an employee.
   * Otherwise an employee-less department shows up only in Path A, or two
   * departments of one name show up twice in Path A and once in Path B.
   */
  lemma {:induction false} PathsAgreeExactlyWhen(ds: seq<Department>, es: seq<Employee>)
    ensures multiset(TotalsPerDepartment(ds, es)) == multiset(TotalsPerName(ds, es)) <==>
            DistinctNames(ds) && AllStaffed(ds, es)
  {
    var a := TotalsPerDepartment(ds, es);
    var b := TotalsPerName(ds, es);
    if DistinctNames(ds) && AllStaffed(ds, es) {
      AgreeingRows(ds, es);
      SameElementsSameMultiset(a, b);
    }
    if multiset(a) == multiset(b) {
      AgreementNeedsDistinctNames(ds, es);
      AgreementNeedsStaff(ds, es);
    }
  }

  /** The same statement on a snapshot. */
  lemma {:induction false} PathsAgreeOnSnapshot(s: Snapshot)
    ensures multiset(PathA(s)) == multiset(PathB(s)) <==>
            DistinctNames(s.departments) && AllStaffed(s.departments, s.employees)
  {
    PathsAgreeExactlyWhen(s.departments, s.employees);
  }
}
