# Desired-end-state updates of a company store, in Dafny

This project models the idempotent update engine of the `ef-exercises`
repository (`EfExercisesIdempotentUpdates`). The engine has three operations,
`UpdateEmployee`, `UpdateProject` and `UpdateDepartment`. Each takes a
request (a DTO) that describes the complete target state of one row and
its relationships. An operation:

1. looks the target row up by id and fails if there is none;
2. resolves the requested related ids and fails if the list's length differs
   from the number of rows found;
3. replaces the relationship wholesale;
4. overwrites every scalar;
5. commits.

The store is modelled without the ORM (`Stores.Store`). It has three maps
keyed by id (departments, employees carrying their mandatory `deptId`
foreign key, projects) and the Employee–Project join table as a set of
`(employeeId, projectId)` edges. Department membership (`Members`) and the
two many-to-many collections (`ProjectsOf`, `EmployeesOf`) are derived
views of those fields.

The operations are specified as functions from the old store to an
`Outcome` (`Reconcile.ApplyEmployee`, `ApplyProject`, `ApplyDepartment`).
The outcome is either the committed store or one of two errors:
`NotFound(kind, id)` when a `FirstAsync` lookup finds no row, and
`MissingReference(kind)` when the count check fails.

The class `Updates.CompanyDb` holds the store in fields. Its three methods
follow the source step by step. Each loads the row and its collection,
clears the collection in memory, adds the resolved rows in a loop and
overwrites the scalars, all on local copies. It writes the fields only at
the end, where the source calls `SaveChangesAsync`. Each method is proved
to produce exactly the specification's outcome. It is also proved to return
the entity as a fresh read of the committed store shows it, and to leave
the store unchanged on failure. The modules `EmployeeUpdate`,
`ProjectUpdate` and `DepartmentUpdate` prove what the specification
guarantees:

- which requests succeed, and which error a failing one reports;
- exact-set replacement;
- re-parenting and headcounts;
- unconditional overwrite, including a `None` end date;
- no row creation or deletion;
- idempotence.

Two behaviours of the code are reproduced as written:

- The count check compares the raw list length with the number of distinct
  rows found. A request list that names an id twice is therefore rejected
  even when the row exists (`Resolver.DuplicateRejected`).
- `UpdateEmployee` and `UpdateProject` clear the loaded collection before
  resolving the ids, and `UpdateDepartment` resolves first. In every case
  the failure returns before that call's commit, so the failed call itself
  persists nothing. The model starts every call from the committed store; see
  "## Left out" for what this leaves out.

`double` and `DateTime` values are only copied by the engine. They are kept
as their 64-bit payloads (`Entities.Double`, `Entities.DateTime`).

## Model

| member | source | states |
|---|---|---|
| Resolver.ResolveSpec | ef-exercises/Exercises/EfExercisesIdempotentUpdates.cs:25-27 | the query-plus-count check accepts a list iff it is duplicate-free and every id has a row, and then yields exactly the listed ids, one per entry |
| Resolver.DuplicateRejected | ef-exercises/Exercises/EfExercisesIdempotentUpdates.cs:26 | a list naming some id twice is rejected even when every id exists |
| Resolver.EmptyResolves | ef-exercises/DTOs/UpdateProjectDto.cs:40-44 | an empty id list always resolves, to no rows (clears the relationship) |
| Stores.ReadEmployee | ef-exercises/Exercises/EfExercisesIdempotentUpdates.cs:14-17 | a loaded employee carries its own row, the department its foreign key names, and exactly the projects joined to it with their rows |
| Stores.ReadProject | ef-exercises/Exercises/EfExercisesIdempotentUpdates.cs:47-49 | a loaded project carries its own row and exactly the employees joined to it with their rows |
| Stores.ReadDepartment | ef-exercises/Exercises/EfExercisesIdempotentUpdates.cs:79-82 | a loaded department carries its own row and exactly the employees whose foreign key names it, with their rows |
| Stores.ExactlyOneDepartment | ef-exercises/Entities/Employee.cs:16-17 | in a valid store every employee is a member of exactly one existing department |
| Stores.NoRowNoProjects | ef-exercises/Entities/Employee.cs:18 | an employee id with no row has an empty project collection |
| Reconcile.ApplyEmployee | ef-exercises/Exercises/EfExercisesIdempotentUpdates.cs:12-43 | a successful employee update keeps the store's referential integrity and the employee row |
| Reconcile.ApplyProject | ef-exercises/Exercises/EfExercisesIdempotentUpdates.cs:45-75 | a successful project update keeps the store's referential integrity and the project row |
| Reconcile.ApplyDepartment | ef-exercises/Exercises/EfExercisesIdempotentUpdates.cs:77-102 | a successful department update keeps the store's referential integrity and the department row |
| EmployeeUpdate.EmployeeOutcome | ef-exercises/Exercises/EfExercisesIdempotentUpdates.cs:14-27 | success iff the employee and department exist and the project list is distinct and all present; else NotFound(employee), then NotFound(department), then MissingReference(project), in that order |
| EmployeeUpdate.EmployeeRowsWritten | ef-exercises/Exercises/EfExercisesIdempotentUpdates.cs:36-40 | on success each scalar and the foreign key equal the request's; no department, employee or project row is created, deleted or otherwise changed |
| EmployeeUpdate.EmployeeExactProjects | ef-exercises/Exercises/EfExercisesIdempotentUpdates.cs:24-33 | on success the employee's projects are exactly the requested set, with one edge per listed id; other employees' projects are untouched |
| EmployeeUpdate.EmployeeTransfer | ef-exercises/Exercises/EfExercisesIdempotentUpdates.cs:21 | the employee joins the requested department and leaves its old one; a move from A to B raises B's headcount by one and lowers A's by one; other departments keep their members |
| EmployeeUpdate.EmployeeIdempotent | ef-exercises/DTOs/UpdateEmployeeDto.cs:4-5 | applying a successful request again to the store it produced gives the same store |
| ProjectUpdate.ProjectOutcome | ef-exercises/Exercises/EfExercisesIdempotentUpdates.cs:47-56 | success iff the project exists and the employee list is distinct and all present; else NotFound(project), then MissingReference(employee) |
| ProjectUpdate.ProjectRowsWritten | ef-exercises/Exercises/EfExercisesIdempotentUpdates.cs:65-70 | on success every scalar equals the request's, the end date too (None stores None); employees, departments and other projects are unchanged; no row is created or deleted |
| ProjectUpdate.ProjectExactEmployees | ef-exercises/Exercises/EfExercisesIdempotentUpdates.cs:53-62 | on success the project's employees are exactly the requested set, with one edge per listed id; other projects' employees are untouched |
| ProjectUpdate.ProjectIdempotent | ef-exercises/Tests/EfExercisesIdempotentUpdatesTests/UpdateProjectTests.cs:234-283 | applying a successful request again to the store it produced gives the same store |
| DepartmentUpdate.DepartmentOutcome | ef-exercises/Exercises/EfExercisesIdempotentUpdates.cs:79-87 | success iff the department exists and the employee list is distinct and all present; else NotFound(department), then MissingReference(employee) |
| DepartmentUpdate.DepartmentRowsWritten | ef-exercises/Exercises/EfExercisesIdempotentUpdates.cs:88-99 | on success the scalars equal the request's; each listed employee changes only its foreign key, now the department; unlisted employees, other departments, projects and edges are untouched; no row is created or deleted |
| DepartmentUpdate.DepartmentExactMembers | ef-exercises/Exercises/EfExercisesIdempotentUpdates.cs:85-94 | on success the department's members are exactly the requested set and its headcount the list's length; every other department loses exactly the employees pulled in |
| DepartmentUpdate.DepartmentIdempotent | ef-exercises/Tests/EfExercisesIdempotentUpdatesTests/UpdateDepartmentTests.cs:137-182 | the produced store still meets the precondition, and applying the request again gives the same store |
| DepartmentUpdate.DepartmentResubmitMembers | ef-exercises/Tests/EfExercisesIdempotentUpdatesTests/UpdateDepartmentTests.cs:369-410 | re-submitting the current member set, each once, succeeds and leaves every employee row and membership as it was |
| Updates.CompanyDb.UpdateEmployee | ef-exercises/Exercises/EfExercisesIdempotentUpdates.cs:12-43 | the store afterwards is the specification's outcome; on failure it is unchanged and the error is reported; on success the result equals a fresh read of the employee, whose department matches its foreign key |
| Updates.CompanyDb.UpdateProject | ef-exercises/Exercises/EfExercisesIdempotentUpdates.cs:45-75 | the store afterwards is the specification's outcome; on failure it is unchanged and the error is reported; on success the result equals a fresh read of the project |
| Updates.CompanyDb.UpdateDepartment | ef-exercises/Exercises/EfExercisesIdempotentUpdates.cs:77-102 | the store afterwards is the specification's outcome; on failure it is unchanged and the error is reported; on success the result equals a fresh read of the department |
| Updates.UpdateEmployeeTwice | ef-exercises/Tests/EfExercisesIdempotentUpdatesTests/UpdateEmployeeTests.cs:203-252 | two identical calls return identical outcomes and snapshots and leave the store as one call does |
| Updates.UpdateProjectTwice | ef-exercises/Tests/EfExercisesIdempotentUpdatesTests/UpdateProjectTests.cs:234-283 | two identical calls return identical outcomes and snapshots and leave the store as one call does |
| Updates.UpdateDepartmentTwice | ef-exercises/Tests/EfExercisesIdempotentUpdatesTests/UpdateDepartmentTests.cs:137-182 | two identical calls return identical outcomes and snapshots and leave the store as one call does |

## Left out

- Reconcile.ApplyDepartment: takes the precondition `NoneOrphaned`. A request that would succeed must list every current member of the department. A member left out is severed from its required foreign key (EfExercisesIdempotentUpdates.cs:88). What then happens to it depends on `CompanyDbContext` configuration, which is not part of this model, so the model defines no effect for that case. `DepartmentUpdate.*`, `Updates.CompanyDb.UpdateDepartment` and `Updates.UpdateDepartmentTwice` carry the same precondition.
- Read-only query operations (`EfExercises`, `IEfExercises`) are a separate part of the repository, built on SQL translation and `double` aggregates.
- EF Core machinery is replaced by explicit maps, derived views and a commit at the end. This covers change tracking, `Include`/`ThenInclude`, navigation fix-up, async/await and `SaveChangesAsync`. Nested navigations of loaded rows are not part of the snapshots: an employee's projects' employees, a project's employees' departments, and a department's employees' projects.
- The database, its transactions and concurrent calls are outside the model. Each call is one atomic step on the object's fields.
- Exception types and message strings are reduced to the two error kinds. This includes the "projects not found" message that `UpdateProject` uses for missing employees.
- The `project == null` / `employee == null` checks inside the loops cannot fire on rows a query returned, so they are not modelled.
- Null request fields are not representable. This covers a `null` id list and the `string` members (`FirstName`, `LastName`, `Email`, `Name`, `Location`, `Description`), which have no initialiser. Every request field is always supplied.
- Commit-time failures are outside the model. An example is the store rejecting a null in a required column inside `SaveChangesAsync`. The model's commit cannot fail.
- `double` and `DateTime` are kept as opaque 64-bit payloads. The engine only copies them, so their arithmetic and ordering are not modelled.
- The `[MinLength(1)]` annotation on `FirstName` is a validation attribute that the update path does not check, so it is not modelled.
- Creating rows is left out. The engine never creates rows: the store comes from a seeding step, modelled as the `CompanyDb` constructor.
- Stores.NoRowNoProjects: object construction is not modelled. This includes the `new List<Project>()` default of a newly built `Employee` (Employee.cs:18). The lemma states the store-level counterpart instead. Join-table integrity gives an employee id without a row no project edges.
- Updates.CompanyDb.UpdateEmployee: assumes a fresh or discarded database context after a call that fails at the project count check (line 26). In the source one scoped context serves every call, and such a call leaves tracked changes behind: the re-pointed `Department` navigation (line 21) and the cleared `Projects` collection (line 24). The next `SaveChangesAsync` in that scope would commit them, and the model does not. A `NotFound` failure stages nothing: the employee lookup (line 18) loads no entity, and the department lookup (line 21) throws before the assignment.
- Updates.CompanyDb.UpdateProject: makes the same assumption for a call that fails at the employee count check (line 55). Such a call leaves its cleared `Employees` collection (line 53) tracked, and a later commit in the same context would persist it. A `NotFound` failure at the project lookup (line 50) stages nothing. `UpdateDepartment` checks the count (line 86) before clearing (line 88), so none of its failures leaves anything staged.
- Seed data and test-container set-up (`Setup.cs`) are outside the model.
