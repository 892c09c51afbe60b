# ProjectTrackingSystem — a Dafny model of the reporting core

ProjectTrackingSystem keeps four relational tables: Departments, Employees,
Projects and the EmployeeProjects junction table. Its console program seeds
sample data once and then runs four reports over the tables:

- the "high-activity" query: employees with more than three projects due in
  the last six months;
- the employee-to-project assignment listing, a SQL inner join;
- a bonus report computed by a stored procedure;
- per-department salary totals, computed once through EF Core's object graph
  (Path A) and once through a SQL `GROUP BY` (Path B).

The model keeps the tables as sequences of rows (`Schema.Snapshot`). It states
as predicates the key and relationship rules the EF Core model declares. It
models every report as a pure function of a snapshot, and the seeding routine
both as a function on snapshots and as a `class Database` whose methods append
to its tables in place.

Modules:

- `Schema` — entities, primary keys, foreign keys, navigation collections and
  identity values (`Models/*.cs`, `ApplicationDbContext.cs`).
- `HighActivity` — the high-activity query as written, its corrected form and
  the finding that separates them (`Program.cs:37-46`).
- `Assignments` — the Dapper assignment listing (`Program.cs:62-66`).
- `Payroll` — Path A, Path B, and exactly when the two agree
  (`Program.cs:101-124`).
- `Seeding` — the sample-data routine (`Program.cs:137-161`).

The main results:

- the high-activity query as written returns nobody on any database whose
  EmployeeIds are unique;
- the assignment listing has one row per junction row, and the rows carry
  the joined names and deadline;
- Path A and Path B give the same rows, up to order, exactly when department
  names are pairwise distinct and every department has at least one employee;
- seeding is idempotent and keeps every integrity rule.

`Program.cs:97-134` prints both payroll results and never compares them. The
model states when they agree as `Payroll.PathsAgreeExactlyWhen`. Unique
department names are not enough: Path A also lists a department with no
employees, with total 0, and Path B drops it.

## Model

| member | source | states |
|---|---|---|
| `Schema.AssignmentsOfEmployee` | Models/Employee.cs:17-18 | the navigation collection holds exactly the junction rows whose EmployeeId is the employee's, and no more rows than the table |
| `Schema.AssignmentsOfProject` | Models/Project.cs:10 | the navigation collection holds exactly the junction rows whose ProjectId is the project's |
| `Schema.EmployeesOfDepartment` | Models/Department.cs:10 | `Department.Employees` holds exactly the employees whose DepartmentId matches |
| `Schema.EmployeesWithId` | Models/Employee.cs:8 | a lookup by EmployeeId yields exactly the rows with that id; when ids are unique, at most one |
| `Schema.ProjectsWithId` | Models/Project.cs:7 | a lookup by ProjectId yields exactly the rows with that id; when ids are unique, at most one |
| `Schema.NavigationPartitionsAssignments` | ApplicationDbContext.cs:22-30 | under the integrity rules, each junction row belongs to the collection of exactly one employee and of exactly one project |
| `Schema.NextId` | Program.cs:141-143 | an identity value is at least 1 and greater than every id already in the table |
| `HighActivity.RecentlyActive` | Program.cs:40-42 | the `Where` step keeps exactly the employees who have an assignment whose project is due on or after the cutoff |
| `HighActivity.RecentlyActiveKeepsUniqueIds` | Program.cs:40-42 | filtering keeps EmployeeIds unique |
| `HighActivity.GroupKeys` | Program.cs:43 | the group keys are exactly the EmployeeIds that occur, each once |
| `HighActivity.FirstOfGroupsLargerThan` | Program.cs:44-45 | the first member of every group larger than n is in the result, every result is the first member of a group larger than n, and the result is empty when no group is larger than n |
| `HighActivity.GroupsAreNonEmpty` | Program.cs:43 | every group is non-empty and holds only employees with its key |
| `HighActivity.UniqueIdsGiveSingletonGroups` | Program.cs:43 | when EmployeeIds are unique, every group has exactly one member |
| `HighActivity.HighActivityIsAlwaysEmpty` | Program.cs:40-46 | the query as written returns nothing whenever EmployeeIds are unique |
| `HighActivity.HighActivitySound` | Program.cs:40-46 | anything the query returns is an employee of the table with a recent assignment and more than three recently active rows sharing its id |
| `HighActivity.RecentFilterIsInclusive` | Program.cs:42 | an assignment due exactly at the cutoff passes the `>=` filter |
| `HighActivity.CountDueFrom` | Program.cs:41-42 | the count of qualifying assignments is at most the number of assignments, and it is positive exactly when some assignment qualifies |
| `HighActivity.EmployeesWithMoreRecentProjects` | Program.cs:36-37 | the corrected query keeps exactly the employees with more than the threshold of qualifying assignments |
| `HighActivity.AnyIsCountPositive` | Program.cs:41-42 | the `Any` pre-filter holds exactly when the corrected count is positive |
| `HighActivity.BoundaryCountExcluded` | Program.cs:44 | an employee with exactly the threshold of qualifying assignments is excluded, because the test is "more than" |
| `HighActivity.BusySnapshotIsWellFormed` | ApplicationDbContext.cs:18-30 | the finding's database satisfies every key and relationship rule |
| `HighActivity.HighActivityMissesBusyEmployee` | Program.cs:43-44 | on a valid database whose one employee has four assignments due after the cutoff, the query as written returns nobody and the corrected query returns that employee |
| `Assignments.RowsWith` | Program.cs:63-66 | pairing one employee with the projects gives one row per project, and exactly those rows |
| `Assignments.Combine` | Program.cs:63-66 | pairing employees with projects gives every combination and nothing else |
| `Assignments.ResolvedCount` | ApplicationDbContext.cs:22-30 | at most one resolved junction row per junction row; all of them when every key resolves |
| `Assignments.ListingLength` | Program.cs:62-66 | with unique keys the listing has one row per junction row whose two keys resolve; under both foreign keys, one row per junction row |
| `Assignments.ListingRowsAreJoined` | Program.cs:62-66 | a row is listed if and only if some junction row links an employee and a project with these names and deadline |
| `Assignments.ListingRowAt` | Program.cs:63-66 | under the integrity rules, listing row k carries the employee name and the project name and deadline of junction row k |
| `Assignments.UnassignedEmployeeAddsNoRow` | Program.cs:65 | an employee no junction row refers to adds no row, because the join is inner |
| `Assignments.UnassignedProjectAddsNoRow` | Program.cs:66 | a project no junction row refers to adds no row |
| `Payroll.PathAEntries` | Program.cs:101-107 | Path A has one entry per department, in department order, with its name and the salary sum of its employees; the sum is 0 for a department without employees |
| `Payroll.NamesOf` | Program.cs:124 | the `GROUP BY d.Name` groups are exactly the names that occur in the joined rows, each once |
| `Payroll.JoinedAmountIsPathAAmount` | Program.cs:120-124 | the joined salary rows of a name sum to the Path A totals of that name |
| `Payroll.JoinedNames` | Program.cs:122-123 | a name occurs in the join exactly when a department of that name has an employee |
| `Payroll.PathBRows` | Program.cs:120-124 | Path B has no name twice, has a row exactly for each name with a staffed department, and each row's total is the sum of the Path A totals with that name |
| `Payroll.EmptyDepartmentOnlyInPathA` | Program.cs:101-124 | a department name with no employees appears in Path A with total 0 and not at all in Path B |
| `Payroll.DuplicateNamesMerge` | Program.cs:124 | when either of two departments sharing a name has employees, Path B has one row for that name, no other row of it, and its total is the sum of all Path A totals of that name |
| `Payroll.AgreeingRows` | Program.cs:101-124 | with distinct names and staffed departments, both paths have no duplicate rows and hold the same rows |
| `Payroll.AgreementNeedsDistinctNames` | Program.cs:101-124 | if the two paths agree as multisets, department names are distinct |
| `Payroll.AgreementNeedsStaff` | Program.cs:101-124 | if the two paths agree as multisets, every department has an employee |
| `Payroll.PathsAgreeExactlyWhen` | Program.cs:101-124 | Path A and Path B hold the same rows with the same multiplicities if and only if department names are distinct and every department has an employee |
| `Payroll.PathsAgreeOnSnapshot` | Program.cs:98-134 | the same equivalence, on a snapshot |
| `Seeding.Seeded` | Program.cs:139-160 | seeding leaves a store that has departments untouched, and always leaves a department behind |
| `Seeding.SeededContents` | Program.cs:141-158 | on a store without departments, seeding appends "IT"; "John Doe" with salary 5000 and rating 0 in that department; "Project A" and "Project B" with their deadlines; and one junction row for each project. Every new id is fresh, and the two project ids differ |
| `Seeding.SeedingIsIdempotent` | Program.cs:139 | a second seeding changes nothing |
| `Seeding.NoDepartmentsNoStaff` | ApplicationDbContext.cs:22-25 | under the foreign keys, a store without departments has no employees and no junction rows |
| `Seeding.SeedingPreservesIntegrity` | Program.cs:137-161 | seeding keeps every key and relationship rule |
| `Seeding.SeededShape` | Program.cs:139-159 | on a valid store without departments, the seeded tables are exactly the fixture rows |
| `Seeding.SeededListing` | Program.cs:155-158 | after seeding, the assignment listing is ("John Doe", "Project A", a), ("John Doe", "Project B", b) |
| `Seeding.SeededPayroll` | Program.cs:141-145 | after seeding, both payroll paths give exactly ("IT", 5000) |
| `Seeding.SeededHighActivity` | Program.cs:149-158 | after seeding, the query as written and the corrected query both return nobody: the employee has only two projects |
| `Seeding.Database.constructor` | ApplicationDbContext.cs:6-9 | a store opened on given contents holds exactly those tables |
| `Seeding.Database.AddDepartment` | Program.cs:141-143 | the new department gets a fresh id and is appended; the other tables are unchanged |
| `Seeding.Database.AddEmployee` | Program.cs:145-147 | the new employee gets a fresh id and rating 0 and is appended; the other tables are unchanged |
| `Seeding.Database.AddProjects` | Program.cs:149-153 | both projects get fresh, distinct ids and are appended in order; the other tables are unchanged |
| `Seeding.Database.AddEmployeeProjects` | Program.cs:155-159 | the junction rows are appended; the other tables are unchanged |
| `Seeding.Database.AddSampleData` | Program.cs:137-161 | the new tables are `Seeded` of the old ones, a department exists afterwards, and a valid store stays valid |

## Left out

- Console output is left out (`Program.cs:48-52`, `70-74`, `89-93`, `109-113`, `128-132`); each report is the sequence of rows it prints.
- The database connection, `EnsureCreated` and `UseSqlServer` are left out; the store is the in-memory tables.
- `CalculateEmployeeBonusesWithDapper` is left out. It only calls the `CalculateBonus` stored procedure, whose body is not in the repository, so there is no bonus formula to model.
- `DateTime.Now` and `AddMonths` are not modelled. The cutoff (six months back) and the two seed deadlines (three and six months ahead) are integer parameters.
- `decimal` salaries and ratings are unbounded integers; decimal scale and rounding are not modelled. `PerformanceRating` is carried but no report reads it.
- EF Core change tracking is not modelled, nor `SaveChanges` rejecting a row that breaks a constraint. Each add-and-save step appends its rows directly.
- `Schema.NextId`: identity values are modelled as one more than the largest id in the table. SQL Server does not reuse ids after deletes; the model promises only freshness.
- The order of SQL result rows is unspecified; no query of the program has an ORDER BY. The listing is modelled in junction-row order, Path A in department-table order (`Payroll.PathAEntries` speaks of that order), and Path B in first-appearance order of names. The agreement theorem is stated on multisets, so it does not depend on order.
- SQL Server's case-insensitive collation in `GROUP BY d.Name` is not modelled; names are compared exactly.
- `Models/EmployeeProject.cs` is not part of this model. Its shape, two keys plus two navigation properties, is taken from `ApplicationDbContext.cs:18-30` and `Program.cs:156-157`.
- The program has no routine that compares the two payroll results (`Program.cs:97-134` only prints them); the model states the comparison as the lemma `Payroll.PathsAgreeExactlyWhen`.

## Findings

| source | as written | input that shows it | evidently intended | confidence | as-written member | corrected member |
|---|---|---|---|---|---|---|
| Program.cs:43-44 | `GroupBy(e => e.EmployeeId)` groups employees by their own primary key, so every group has one member and `g.Count() > 3` never holds. The query returns nobody on every valid database | `HighActivity.BusySnapshot`: one employee assigned to four projects, all due after the cutoff | employees with more than three assignments whose project is due on or after the cutoff | high; not executed | `HighActivity.HighActivityMissesBusyEmployee` | `HighActivity.EmployeesWithMoreRecentProjects` |
