/** What UpdateEmployee guarantees, proved about its specification ApplyEmployee. */
module EmployeeUpdate {
  import opened Dtos
  import opened Stores
  import opened Resolver
  import opened Reconcile

  /**
   * A request succeeds exactly when the employee and the department exist
   * and the project list is duplicate-free with every project existing;
   * otherwise it fails with the first error in the order the lookups run.
   */
  lemma EmployeeOutcome(s: Store, dto: UpdateEmployeeDto)
    ensures ApplyEmployee(s, dto).Ok? <==>
      && dto.id in s.emps
      && dto.departmentId in s.depts
      && Distinct(dto.projectIds)
      && Elements(dto.projectIds) <= s.projs.Keys
    ensures dto.id !in s.emps ==>
      ApplyEmployee(s, dto) == Err(NotFound(EmployeeKind, dto.id))
    ensures dto.id in s.emps && dto.departmentId !in s.depts ==>
      ApplyEmployee(s, dto) == Err(NotFound(DepartmentKind, dto.departmentId))
    ensures dto.id in s.emps && dto.departmentId in s.depts ==>
      (Distinct(dto.projectIds) && Elements(dto.projectIds) <= s.projs.Keys) ||
      ApplyEmployee(s, dto) == Err(MissingReference(ProjectKind))
  {
    ResolveSpec(s.projs.Keys, dto.projectIds);
  }

  /**
   * On success every scalar and the foreign key come from the request, no
   * row of any table is created or deleted, and no other row changes.
   */
  lemma EmployeeRowsWritten(s: Store, dto: UpdateEmployeeDto)
    requires ApplyEmployee(s, dto).Ok?
    ensures var s' := ApplyEmployee(s, dto).value;
      && s'.depts == s.depts
      && s'.projs == s.projs
      && s'.emps.Keys == s.emps.Keys
      && s'.emps[dto.id].firstName == dto.firstName
      && s'.emps[dto.id].lastName == dto.lastName
      && s'.emps[dto.id].email == dto.email
      && s'.emps[dto.id].salary == dto.salary
      && s'.emps[dto.id].hireDate == dto.hireDate
      && s'.emps[dto.id].deptId == dto.departmentId
      && (forall e | e in s.emps && e != dto.id :: s'.emps[e] == s.emps[e])
  {
  }

  /**
   * On success the employee's projects are exactly the requested ones, one
   * edge per requested id, and every other employee's projects are untouched.
   */
  lemma EmployeeExactProjects(s: Store, dto: UpdateEmployeeDto)
    requires ApplyEmployee(s, dto).Ok?
    ensures var s' := ApplyEmployee(s, dto).value;
      && ProjectsOf(s', dto.id) == Elements(dto.projectIds)
      && |ProjectsOf(s', dto.id)| == |dto.projectIds|
      && (forall e | e != dto.id :: ProjectsOf(s', e) == ProjectsOf(s, e))
  {
    var s' := ApplyEmployee(s, dto).value;
    ResolveSpec(s.projs.Keys, dto.projectIds);
    var ps := Elements(dto.projectIds);
    assert s'.edges == ReplaceEmployeeEdges(s.edges, dto.id, ps);
    forall p ensures p in ProjectsOf(s', dto.id) <==> p in ps {
      InProjectsOf(s', dto.id, p);
    }
    forall e | e != dto.id ensures ProjectsOf(s', e) == ProjectsOf(s, e) {
      forall p ensures p in ProjectsOf(s', e) <==> p in ProjectsOf(s, e) {
        InProjectsOf(s', e, p);
        InProjectsOf(s, e, p);
      }
    }
  }

  /**
   * Re-parenting: the employee joins the requested department and leaves its
   * old one, so a transfer from A to B raises B's headcount by one and lowers
   * A's by one; every other department keeps its members.
   */
  lemma EmployeeTransfer(s: Store, dto: UpdateEmployeeDto)
    requires ApplyEmployee(s, dto).Ok?
    ensures var s' := ApplyEmployee(s, dto).value;
      var a := s.emps[dto.id].deptId;
      var b := dto.departmentId;
      && Members(s', b) == Members(s, b) + {dto.id}
      && (a != b ==>
           && Members(s', a) == Members(s, a) - {dto.id}
           && Headcount(s', b) == Headcount(s, b) + 1
           && Headcount(s', a) == Headcount(s, a) - 1)
      && (forall d | d != a && d != b :: Members(s', d) == Members(s, d))
  {
  }

  /** Idempotence: applying the same request to the store it produced changes nothing. */
  lemma EmployeeIdempotent(s: Store, dto: UpdateEmployeeDto)
    requires ApplyEmployee(s, dto).Ok?
    ensures ApplyEmployee(ApplyEmployee(s, dto).value, dto) == ApplyEmployee(s, dto)
  {
    var s' := ApplyEmployee(s, dto).value;
    var ps := Resolve(s.projs.Keys, dto.projectIds).value;
    assert s'.emps[dto.id := EmployeeRow(dto)] == s'.emps;
    assert ReplaceEmployeeEdges(s'.edges, dto.id, ps) == s'.edges;
  }
}
