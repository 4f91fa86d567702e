/**
 * Desired-end-state requests. Every field is always supplied; an id list is
 * the exact final relationship and keeps the caller's order and duplicates.
 */
module Dtos {
  import opened Wrappers
  import opened Entities

  /** Target state of one employee: scalars, its department and its exact project set. */
  datatype UpdateEmployeeDto = UpdateEmployeeDto(
    id: int,
    firstName: string,
    lastName: string,
    email: string,
    salary: Double,
    hireDate: DateTime,
    departmentId: int,
    projectIds: seq<int>)

  /** Target state of one project; `endDate == None` stores null. */
  datatype UpdateProjectDto = UpdateProjectDto(
    id: int,
    name: string,
    description: string,
    startDate: DateTime,
    endDate: Option<DateTime>,
    budget: Double,
    employeeIds: seq<int>)

  /** Target state of one department: scalars and the employees that must belong to it. */
  datatype UpdateDepartmentDto = UpdateDepartmentDto(
    id: int,
    name: string,
    location: string,
    budget: Double,
    employeeIds: seq<int>)
}
