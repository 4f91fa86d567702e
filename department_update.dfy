/** What UpdateDepartment guarantees, proved about its specification ApplyDepartment. */
module DepartmentUpdate {
  import opened Dtos
  import opened Stores
  import opened Resolver
  import opened Reconcile

  /**
   * A request succeeds exactly when the department exists and the employee
   * list is duplicate-free with every employee existing; an unknown
   * department is reported before the employee list is looked at.
   */
  lemma DepartmentOutcome(s: Store, dto: UpdateDepartmentDto)
    requires NoneOrphaned(s, dto)
    ensures ApplyDepartment(s, dto).Ok? <==>
      && dto.id in s.depts
      && Distinct(dto.employeeIds)
      && Elements(dto.employeeIds) <= s.emps.Keys
    ensures dto.id !in s.depts ==>
      ApplyDepartment(s, dto) == Err(NotFound(DepartmentKind, dto.id))
    ensures dto.id in s.depts ==>
      (Distinct(dto.employeeIds) && Elements(dto.employeeIds) <= s.emps.Keys) ||
      ApplyDepartment(s, dto) == Err(MissingReference(EmployeeKind))
  {
    ResolveSpec(s.emps.Keys, dto.employeeIds);
  }

  /**
   * On success the department's scalars come from the request; every listed
   * employee's foreign key names the department and nothing else of it
   * changes; every unlisted employee is untouched; no row is created or
   * deleted and the projects and the join table are untouched.
   */
  lemma DepartmentRowsWritten(s: Store, dto: UpdateDepartmentDto)
    requires NoneOrphaned(s, dto) && ApplyDepartment(s, dto).Ok?
    ensures var s' := ApplyDepartment(s, dto).value;
      && s'.depts.Keys == s.depts.Keys
      && s'.depts[dto.id].name == dto.name
      && s'.depts[dto.id].location == dto.location
      && s'.depts[dto.id].budget == dto.budget
      && (forall d | d in s.depts && d != dto.id :: s'.depts[d] == s.depts[d])
      && s'.emps.Keys == s.emps.Keys
      && (forall e | e in s.emps && e in dto.employeeIds ::
            s'.emps[e] == s.emps[e].(deptId := dto.id))
      && (forall e | e in s.emps && e !in dto.employeeIds :: s'.emps[e] == s.emps[e])
      && s'.projs == s.projs
      && s'.edges == s.edges
  {
    ResolveSpec(s.emps.Keys, dto.employeeIds);
  }

  /**
   * On success the department's members are exactly the requested
   * employees, and every other department keeps its members except those
   * that were pulled into this one.
   */
  lemma DepartmentExactMembers(s: Store, dto: UpdateDepartmentDto)
    requires NoneOrphaned(s, dto) && ApplyDepartment(s, dto).Ok?
    ensures var s' := ApplyDepartment(s, dto).value;
      && Members(s', dto.id) == Elements(dto.employeeIds)
      && Headcount(s', dto.id) == |dto.employeeIds|
      && (forall d | d != dto.id :: Members(s', d) == Members(s, d) - Elements(dto.employeeIds))
  {
    var s' := ApplyDepartment(s, dto).value;
    ResolveSpec(s.emps.Keys, dto.employeeIds);
    var es := Elements(dto.employeeIds);
    assert s'.emps == Repoint(s.emps, es, dto.id);
    assert Members(s', dto.id) == es;
    forall d | d != dto.id ensures Members(s', d) == Members(s, d) - es {
      assert Members(s', d) == Members(s, d) - es;
    }
  }

  /**
   * Idempotence: the store a request produced still satisfies its
   * precondition, and applying the same request to it changes nothing.
   */
  lemma DepartmentIdempotent(s: Store, dto: UpdateDepartmentDto)
    requires NoneOrphaned(s, dto) && ApplyDepartment(s, dto).Ok?
    ensures NoneOrphaned(ApplyDepartment(s, dto).value, dto)
    ensures ApplyDepartment(ApplyDepartment(s, dto).value, dto) == ApplyDepartment(s, dto)
  {
    var s' := ApplyDepartment(s, dto).value;
    DepartmentExactMembers(s, dto);
    var es := Resolve(s.emps.Keys, dto.employeeIds).value;
    assert s'.emps.Keys == s.emps.Keys;
    assert s'.depts[dto.id := DepartmentRow(dto)] == s'.depts;
    assert Repoint(s'.emps, es, dto.id) == s'.emps;
  }

  /**
   * Re-submitting the department's current members, each once, succeeds and
   * leaves every employee row (and so every membership) as it was.
   */
  lemma DepartmentResubmitMembers(s: Store, dto: UpdateDepartmentDto)
    requires dto.id in s.depts
    requires Distinct(dto.employeeIds) && Elements(dto.employeeIds) == Members(s, dto.id)
    ensures NoneOrphaned(s, dto) && ApplyDepartment(s, dto).Ok?
    ensures ApplyDepartment(s, dto).value.emps == s.emps
  {
    ResolveSpec(s.emps.Keys, dto.employeeIds);
    var es := Elements(dto.employeeIds);
    assert Repoint(s.emps, es, dto.id) == s.emps;
  }
}
