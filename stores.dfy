/**
 * The relational store the update engine reads and writes: one map per
 * entity table, keyed by id, and the Employee-Project join table as a set of
 * (employeeId, projectId) edges. Department membership and the two
 * many-to-many collections are derived views of these, never stored twice.
 */
module Stores {
  import opened Entities

  datatype Store = Store(
    depts: map<int, DeptRow>,
    emps: map<int, EmpRow>,
    projs: map<int, ProjRow>,
    edges: set<(int, int)>)

  /**
   * Referential integrity: every employee's mandatory foreign key names an
   * existing department, and every join-table edge joins an existing
   * employee to an existing project.
   */
  predicate Valid(s: Store) {
    && (forall e | e in s.emps :: s.emps[e].deptId in s.depts)
    && (forall ed | ed in s.edges :: ed.0 in s.emps && ed.1 in s.projs)
  }

  /** Department.Employees: the employees whose foreign key names `d`. */
  function Members(s: Store, d: int): set<int> {
    set e | e in s.emps && s.emps[e].deptId == d
  }

  /** The number of employees in department `d`. */
  function Headcount(s: Store, d: int): nat {
    |Members(s, d)|
  }

  /** Employee.Projects: the projects joined to employee `e`. */
  function ProjectsOf(s: Store, e: int): set<int> {
    set ed | ed in s.edges && ed.0 == e :: ed.1
  }

  /** Project.Employees: the employees joined to project `p`. */
  function EmployeesOf(s: Store, p: int): set<int> {
    set ed | ed in s.edges && ed.1 == p :: ed.0
  }

  lemma InProjectsOf(s: Store, e: int, p: int)
    ensures p in ProjectsOf(s, e) <==> (e, p) in s.edges
  {
  }

  lemma InEmployeesOf(s: Store, p: int, e: int)
    ensures e in EmployeesOf(s, p) <==> (e, p) in s.edges
  {
  }

  /** An employee entity as loaded with its Department and Projects navigations. */
  datatype EmployeeView = EmployeeView(
    id: int, row: EmpRow, department: DeptRow, projects: map<int, ProjRow>)

  /** A project entity as loaded with its Employees navigation. */
  datatype ProjectView = ProjectView(id: int, row: ProjRow, employees: map<int, EmpRow>)

  /** A department entity as loaded with its Employees navigation. */
  datatype DepartmentView = DepartmentView(id: int, row: DeptRow, employees: map<int, EmpRow>)

  /**
   * A fresh read of employee `id`: its row, the department its foreign key
   * names, and the project rows joined to it.
   */
  function ReadEmployee(s: Store, id: int): (v: EmployeeView)
    requires Valid(s) && id in s.emps
    ensures v.id == id && v.row == s.emps[id]
    ensures v.row.deptId in s.depts && v.department == s.depts[v.row.deptId]
    ensures v.projects.Keys == ProjectsOf(s, id)
    ensures forall p | p in v.projects :: v.projects[p] == s.projs[p]
  {
    var v := EmployeeView(id, s.emps[id], s.depts[s.emps[id].deptId],
                          map p | p in s.projs && (id, p) in s.edges :: s.projs[p]);
    forall p ensures p in v.projects <==> p in ProjectsOf(s, id) {
      InProjectsOf(s, id, p);
    }
    v
  }

  /** A fresh read of project `id`: its row and the employee rows joined to it. */
  function ReadProject(s: Store, id: int): (v: ProjectView)
    requires Valid(s) && id in s.projs
    ensures v.id == id && v.row == s.projs[id]
    ensures v.employees.Keys == EmployeesOf(s, id)
    ensures forall e | e in v.employees :: v.employees[e] == s.emps[e]
  {
    var v := ProjectView(id, s.projs[id],
                         map e | e in s.emps && (e, id) in s.edges :: s.emps[e]);
    forall e ensures e in v.employees <==> e in EmployeesOf(s, id) {
      InEmployeesOf(s, id, e);
    }
    v
  }

  /** A fresh read of department `id`: its row and the rows of its members. */
  function ReadDepartment(s: Store, id: int): (v: DepartmentView)
    requires id in s.depts
    ensures v.id == id && v.row == s.depts[id]
    ensures v.employees.Keys == Members(s, id)
    ensures forall e | e in v.employees :: v.employees[e] == s.emps[e] && s.emps[e].deptId == id
  {
    DepartmentView(id, s.depts[id], map e | e in s.emps && s.emps[e].deptId == id :: s.emps[e])
  }

  /**
   * The foreign key is mandatory and single-valued: in a valid store every
   * employee is a member of exactly one existing department.
   */
  lemma ExactlyOneDepartment(s: Store, e: int)
    requires Valid(s) && e in s.emps
    ensures s.emps[e].deptId in s.depts && e in Members(s, s.emps[e].deptId)
    ensures forall d | e in Members(s, d) :: d == s.emps[e].deptId
  {
  }

  /** An id with no employee row has no project edges in a valid store. */
  lemma NoRowNoProjects(s: Store, e: int)
    requires Valid(s) && e !in s.emps
    ensures ProjectsOf(s, e) == {}
  {
  }
}
