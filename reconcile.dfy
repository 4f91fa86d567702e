/**
 * The three desired-end-state updates as functions from the store before a
 * call to its outcome. They are the specification the imperative methods of
 * module Updates are proved against; the modules EmployeeUpdate,
 * ProjectUpdate and DepartmentUpdate prove what they guarantee.
 */
module Reconcile {
  import opened Wrappers
  import opened Entities
  import opened Dtos
  import opened Stores
  import opened Resolver

  datatype Kind = DepartmentKind | EmployeeKind | ProjectKind

  /**
   * The two ways a call fails: a single-row lookup (`FirstAsync`) finds no
   * row, or a requested id list fails the count check.
   */
  datatype Error = NotFound(kind: Kind, id: int) | MissingReference(kind: Kind)

  datatype Outcome<+T> = Ok(value: T) | Err(error: Error)

  /** The store after a call: the committed state on success, the old one on failure. */
  function After(s: Store, r: Outcome<Store>): Store {
    if r.Ok? then r.value else s
  }

  /** The employee row a request writes: every scalar and the foreign key, from the request. */
  function EmployeeRow(dto: UpdateEmployeeDto): EmpRow {
    EmpRow(dto.firstName, dto.lastName, dto.email, dto.salary, dto.hireDate, dto.departmentId)
  }

  /** The project row a request writes, `endDate` included even when it is None. */
  function ProjectRow(dto: UpdateProjectDto): ProjRow {
    ProjRow(dto.name, dto.description, dto.startDate, dto.endDate, dto.budget)
  }

  /** The department row a request writes. */
  function DepartmentRow(dto: UpdateDepartmentDto): DeptRow {
    DeptRow(dto.name, dto.location, dto.budget)
  }

  /** The join table with employee `e`'s edges replaced by one edge per project of `ps`. */
  function ReplaceEmployeeEdges(edges: set<(int, int)>, e: int, ps: set<int>): set<(int, int)> {
    (set ed | ed in edges && ed.0 != e) + (set p | p in ps :: (e, p))
  }

  /** The join table with project `p`'s edges replaced by one edge per employee of `es`. */
  function ReplaceProjectEdges(edges: set<(int, int)>, p: int, es: set<int>): set<(int, int)> {
    (set ed | ed in edges && ed.1 != p) + (set e | e in es :: (e, p))
  }

  /** The employee table with the foreign key of every employee of `es` pointed at `d`. */
  function Repoint(emps: map<int, EmpRow>, es: set<int>, d: int): map<int, EmpRow> {
    map e | e in emps :: if e in es then emps[e].(deptId := d) else emps[e]
  }

  /** UpdateEmployee: look up the employee, then its new department, then resolve the projects. */
  function ApplyEmployee(s: Store, dto: UpdateEmployeeDto): (r: Outcome<Store>)
    ensures Valid(s) && r.Ok? ==> Valid(r.value) && dto.id in r.value.emps
  {
    if dto.id !in s.emps then Err(NotFound(EmployeeKind, dto.id))
    else if dto.departmentId !in s.depts then Err(NotFound(DepartmentKind, dto.departmentId))
    else match Resolve(s.projs.Keys, dto.projectIds)
      case None => Err(MissingReference(ProjectKind))
      case Some(ps) =>
        Ok(s.(emps := s.emps[dto.id := EmployeeRow(dto)],
              edges := ReplaceEmployeeEdges(s.edges, dto.id, ps)))
  }

  /** UpdateProject: look up the project, then resolve the employees. */
  function ApplyProject(s: Store, dto: UpdateProjectDto): (r: Outcome<Store>)
    ensures Valid(s) && r.Ok? ==> Valid(r.value) && dto.id in r.value.projs
  {
    if dto.id !in s.projs then Err(NotFound(ProjectKind, dto.id))
    else match Resolve(s.emps.Keys, dto.employeeIds)
      case None => Err(MissingReference(EmployeeKind))
      case Some(es) =>
        Ok(s.(projs := s.projs[dto.id := ProjectRow(dto)],
              edges := ReplaceProjectEdges(s.edges, dto.id, es)))
  }

  /**
   * A department request that would succeed lists every current member of
   * the department: a member left out would be severed from its required
   * foreign key, with an effect this model does not define.
   */
  predicate NoneOrphaned(s: Store, dto: UpdateDepartmentDto) {
    dto.id in s.depts && Resolve(s.emps.Keys, dto.employeeIds).Some? ==>
      Members(s, dto.id) <= Elements(dto.employeeIds)
  }

  /** UpdateDepartment: look up the department, then resolve the employees it must hold. */
  function ApplyDepartment(s: Store, dto: UpdateDepartmentDto): (r: Outcome<Store>)
    requires NoneOrphaned(s, dto)
    ensures Valid(s) && r.Ok? ==> Valid(r.value) && dto.id in r.value.depts
  {
    if dto.id !in s.depts then Err(NotFound(DepartmentKind, dto.id))
    else match Resolve(s.emps.Keys, dto.employeeIds)
      case None => Err(MissingReference(EmployeeKind))
      case Some(es) =>
        Ok(s.(depts := s.depts[dto.id := DepartmentRow(dto)],
              emps := Repoint(s.emps, es, dto.id)))
  }
}
