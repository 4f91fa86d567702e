/** What UpdateProject guarantees, proved about its specification ApplyProject. */
module ProjectUpdate {
  import opened Dtos
  import opened Stores
  import opened Resolver
  import opened Reconcile

  /**
   * A request succeeds exactly when the project exists and the employee
   * list is duplicate-free with every employee existing; an unknown project
   * is reported before the employee list is looked at.
   */
  lemma ProjectOutcome(s: Store, dto: UpdateProjectDto)
    ensures ApplyProject(s, dto).Ok? <==>
      && dto.id in s.projs
      && Distinct(dto.employeeIds)
      && Elements(dto.employeeIds) <= s.emps.Keys
    ensures dto.id !in s.projs ==>
      ApplyProject(s, dto) == Err(NotFound(ProjectKind, dto.id))
    ensures dto.id in s.projs ==>
      (Distinct(dto.employeeIds) && Elements(dto.employeeIds) <= s.emps.Keys) ||
      ApplyProject(s, dto) == Err(MissingReference(EmployeeKind))
  {
    ResolveSpec(s.emps.Keys, dto.employeeIds);
  }

  /**
   * On success every scalar comes from the request, the end date included
   * (None clears a stored date); no row is created or deleted and the
   * departments, the employees and the other projects are untouched.
   */
  lemma ProjectRowsWritten(s: Store, dto: UpdateProjectDto)
    requires ApplyProject(s, dto).Ok?
    ensures var s' := ApplyProject(s, dto).value;
      && s'.depts == s.depts
      && s'.emps == s.emps
      && s'.projs.Keys == s.projs.Keys
      && s'.projs[dto.id].name == dto.name
      && s'.projs[dto.id].description == dto.description
      && s'.projs[dto.id].startDate == dto.startDate
      && s'.projs[dto.id].budget == dto.budget
      && s'.projs[dto.id].endDate == dto.endDate
      && (forall p | p in s.projs && p != dto.id :: s'.projs[p] == s.projs[p])
  {
  }

  /**
   * On success the project's employees are exactly the requested ones, one
   * edge per requested id, and every other project's employees are untouched.
   */
  lemma ProjectExactEmployees(s: Store, dto: UpdateProjectDto)
    requires ApplyProject(s, dto).Ok?
    ensures var s' := ApplyProject(s, dto).value;
      && EmployeesOf(s', dto.id) == Elements(dto.employeeIds)
      && |EmployeesOf(s', dto.id)| == |dto.employeeIds|
      && (forall p | p != dto.id :: EmployeesOf(s', p) == EmployeesOf(s, p))
  {
    var s' := ApplyProject(s, dto).value;
    ResolveSpec(s.emps.Keys, dto.employeeIds);
    var es := Elements(dto.employeeIds);
    assert s'.edges == ReplaceProjectEdges(s.edges, dto.id, es);
    forall e ensures e in EmployeesOf(s', dto.id) <==> e in es {
      InEmployeesOf(s', dto.id, e);
    }
    forall p | p != dto.id ensures EmployeesOf(s', p) == EmployeesOf(s, p) {
      forall e ensures e in EmployeesOf(s', p) <==> e in EmployeesOf(s, p) {
        InEmployeesOf(s', p, e);
        InEmployeesOf(s, p, e);
      }
    }
  }

  /** Idempotence: applying the same request to the store it produced changes nothing. */
  lemma ProjectIdempotent(s: Store, dto: UpdateProjectDto)
    requires ApplyProject(s, dto).Ok?
    ensures ApplyProject(ApplyProject(s, dto).value, dto) == ApplyProject(s, dto)
  {
    var s' := ApplyProject(s, dto).value;
    var es := Resolve(s.emps.Keys, dto.employeeIds).value;
    assert s'.projs[dto.id := ProjectRow(dto)] == s'.projs;
    assert ReplaceProjectEdges(s'.edges, dto.id, es) == s'.edges;
  }
}
