/**
 * The update engine over a company store held in one object. Each method
 * looks rows up, stages its changes on local copies of the loaded entity and
 * its collection, and commits them to the fields only at its end, the point
 * where the original calls `SaveChangesAsync`; every failure returns before
 * that point, so a failed call does not persist anything itself. Each call
 * starts from the committed fields: changes staged on tracked entities by a
 * call that failed at its count check are not carried over to the next call.
 */
module Updates {
  import opened Entities
  import opened Dtos
  import opened Stores
  import opened Resolver
  import opened Reconcile
  import EmployeeUpdate
  import ProjectUpdate
  import DepartmentUpdate

  class CompanyDb {
    var departments: map<int, DeptRow>
    var employees: map<int, EmpRow>
    var projects: map<int, ProjRow>
    /** The Employee-Project join table, as (employeeId, projectId) rows. */
    var assignments: set<(int, int)>

    function State(): Store
      reads this
    {
      Store(departments, employees, projects, assignments)
    }

    predicate Valid()
      reads this
    {
      Stores.Valid(State())
    }

    /** A store holding the rows a seeding step put there. */
    constructor (seed: Store)
      requires Stores.Valid(seed)
      ensures Valid() && State() == seed
    {
      departments := seed.depts;
      employees := seed.emps;
      projects := seed.projs;
      assignments := seed.edges;
    }

    /**
     * Brings employee `dto.id` to the requested state: its department, its
     * exact project set and every scalar. Returns the employee as a fresh
     * read of the committed store would show it.
     */
    method UpdateEmployee(dto: UpdateEmployeeDto) returns (r: Outcome<EmployeeView>)
      requires Valid()
      modifies this
      ensures Valid()
      ensures State() == After(old(State()), ApplyEmployee(old(State()), dto))
      ensures r.Err? <==> ApplyEmployee(old(State()), dto).Err?
      ensures r.Err? ==> State() == old(State()) && r.error == ApplyEmployee(old(State()), dto).error
      ensures r.Ok? ==> dto.id in employees && r.value == ReadEmployee(State(), dto.id)
      ensures r.Ok? ==> r.value.row.deptId == dto.departmentId &&
                        r.value.department == departments[dto.departmentId]
    {
      if dto.id !in employees {
        return Err(NotFound(EmployeeKind, dto.id));
      }
      var employee := employees[dto.id];
      // The loaded Projects collection.
      var joined := ProjectsOf(State(), dto.id);
      // Re-parent through the Department navigation.
      if dto.departmentId !in departments {
        return Err(NotFound(DepartmentKind, dto.departmentId));
      }
      var department := departments[dto.departmentId];
      employee := employee.(deptId := dto.departmentId);
      // Clear the collection, then add one entry per project found.
      joined := {};
      var found := Found(projects.Keys, dto.projectIds);
      if |dto.projectIds| != |found| {
        return Err(MissingReference(ProjectKind));
      }
      ResolveSpec(projects.Keys, dto.projectIds);
      var pending := found;
      while pending != {}
        invariant pending <= found
        invariant joined == found - pending
        decreases pending
      {
        var p :| p in pending;
        joined := joined + {p};
        pending := pending - {p};
      }
      employee := employee.(salary := dto.salary, email := dto.email, hireDate := dto.hireDate,
                            firstName := dto.firstName, lastName := dto.lastName);
      // Commit: the row, and this employee's join-table rows.
      employees := employees[dto.id := employee];
      assignments := ReplaceEmployeeEdges(assignments, dto.id, joined);
      r := Ok(EmployeeView(dto.id, employee, department, map p | p in joined :: projects[p]));
      assert State() == ApplyEmployee(old(State()), dto).value;
      forall p ensures p in joined <==> p in ProjectsOf(State(), dto.id) {
        InProjectsOf(State(), dto.id, p);
      }
    }

    /**
     * Brings project `dto.id` to the requested state: its exact employee set
     * and every scalar, the end date included. Returns the project as a
     * fresh read of the committed store would show it.
     */
    method UpdateProject(dto: UpdateProjectDto) returns (r: Outcome<ProjectView>)
      requires Valid()
      modifies this
      ensures Valid()
      ensures State() == After(old(State()), ApplyProject(old(State()), dto))
      ensures r.Err? <==> ApplyProject(old(State()), dto).Err?
      ensures r.Err? ==> State() == old(State()) && r.error == ApplyProject(old(State()), dto).error
      ensures r.Ok? ==> dto.id in projects && r.value == ReadProject(State(), dto.id)
    {
      if dto.id !in projects {
        return Err(NotFound(ProjectKind, dto.id));
      }
      var project := projects[dto.id];
      // The loaded Employees collection; clear it, then add one entry per employee found.
      var members := EmployeesOf(State(), dto.id);
      members := {};
      var found := Found(employees.Keys, dto.employeeIds);
      if |dto.employeeIds| != |found| {
        return Err(MissingReference(EmployeeKind));
      }
      ResolveSpec(employees.Keys, dto.employeeIds);
      var pending := found;
      while pending != {}
        invariant pending <= found
        invariant members == found - pending
        decreases pending
      {
        var e :| e in pending;
        members := members + {e};
        pending := pending - {e};
      }
      project := project.(budget := dto.budget, description := dto.description, name := dto.name,
                          endDate := dto.endDate, startDate := dto.startDate);
      // Commit: the row, and this project's join-table rows.
      projects := projects[dto.id := project];
      assignments := ReplaceProjectEdges(assignments, dto.id, members);
      r := Ok(ProjectView(dto.id, project, map e | e in members :: employees[e]));
      assert State() == ApplyProject(old(State()), dto).value;
      forall e ensures e in members <==> e in EmployeesOf(State(), dto.id) {
        InEmployeesOf(State(), dto.id, e);
      }
    }

    /**
     * Brings department `dto.id` to the requested state: every listed
     * employee's foreign key is pointed at it, and its scalars are
     * overwritten. Returns the department as a fresh read would show it.
     */
    method UpdateDepartment(dto: UpdateDepartmentDto) returns (r: Outcome<DepartmentView>)
      requires Valid() && NoneOrphaned(State(), dto)
      modifies this
      ensures Valid()
      ensures State() == After(old(State()), ApplyDepartment(old(State()), dto))
      ensures r.Err? <==> ApplyDepartment(old(State()), dto).Err?
      ensures r.Err? ==> State() == old(State()) && r.error == ApplyDepartment(old(State()), dto).error
      ensures r.Ok? ==> dto.id in departments && r.value == ReadDepartment(State(), dto.id)
    {
      if dto.id !in departments {
        return Err(NotFound(DepartmentKind, dto.id));
      }
      var department := departments[dto.id];
      // The loaded Employees collection.
      var members := Members(State(), dto.id);
      var desired := Found(employees.Keys, dto.employeeIds);
      if |desired| != |dto.employeeIds| {
        return Err(MissingReference(EmployeeKind));
      }
      ResolveSpec(employees.Keys, dto.employeeIds);
      // Clear the collection, then add each desired employee, re-pointing its foreign key.
      members := {};
      var staged := employees;
      var pending := desired;
      while pending != {}
        invariant pending <= desired
        invariant members == desired - pending
        invariant staged == Repoint(employees, desired - pending, dto.id)
        decreases pending
      {
        var e :| e in pending;
        members := members + {e};
        staged := staged[e := staged[e].(deptId := dto.id)];
        pending := pending - {e};
      }
      department := department.(budget := dto.budget, name := dto.name, location := dto.location);
      // Commit: the department row and the re-pointed employee rows.
      departments := departments[dto.id := department];
      employees := staged;
      r := Ok(DepartmentView(dto.id, department, map e | e in members :: staged[e]));
      assert State() == ApplyDepartment(old(State()), dto).value;
      assert members == Members(State(), dto.id);
    }
  }

  /**
   * Calling UpdateEmployee twice with the same request returns the same
   * outcome, snapshot included, and leaves the store as the first call did.
   */
  method UpdateEmployeeTwice(db: CompanyDb, dto: UpdateEmployeeDto)
    returns (first: Outcome<EmployeeView>, second: Outcome<EmployeeView>)
    requires db.Valid()
    modifies db
    ensures db.Valid() && second == first
    ensures db.State() == After(old(db.State()), ApplyEmployee(old(db.State()), dto))
  {
    ghost var s := db.State();
    first := db.UpdateEmployee(dto);
    if first.Ok? {
      EmployeeUpdate.EmployeeIdempotent(s, dto);
    }
    second := db.UpdateEmployee(dto);
  }

  /**
   * Calling UpdateProject twice with the same request returns the same
   * outcome, snapshot included, and leaves the store as the first call did.
   */
  method UpdateProjectTwice(db: CompanyDb, dto: UpdateProjectDto)
    returns (first: Outcome<ProjectView>, second: Outcome<ProjectView>)
    requires db.Valid()
    modifies db
    ensures db.Valid() && second == first
    ensures db.State() == After(old(db.State()), ApplyProject(old(db.State()), dto))
  {
    ghost var s := db.State();
    first := db.UpdateProject(dto);
    if first.Ok? {
      ProjectUpdate.ProjectIdempotent(s, dto);
    }
    second := db.UpdateProject(dto);
  }

  /**
   * Calling UpdateDepartment twice with the same request returns the same
   * outcome, snapshot included, and leaves the store as the first call did.
   */
  method UpdateDepartmentTwice(db: CompanyDb, dto: UpdateDepartmentDto)
    returns (first: Outcome<DepartmentView>, second: Outcome<DepartmentView>)
    requires db.Valid() && NoneOrphaned(db.State(), dto)
    modifies db
    ensures db.Valid() && second == first
    ensures db.State() == After(old(db.State()), ApplyDepartment(old(db.State()), dto))
  {
    ghost var s := db.State();
    first := db.UpdateDepartment(dto);
    if first.Ok? {
      DepartmentUpdate.DepartmentIdempotent(s, dto);
    }
    second := db.UpdateDepartment(dto);
  }
}
