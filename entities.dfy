/**
 * Row shapes of the company schema. The identity of a row is the key it is
 * stored under (see module Stores), so no row carries its own id, and the
 * navigation collections (Department.Employees, Employee.Projects,
 * Project.Employees) are derived from foreign keys and the join table
 * rather than stored in the rows.
 */
module Entities {
  import opened Wrappers

  /** A C# `double`, kept as its 64 bits: the update engine only copies it. */
  datatype Double = Double(bits: bv64)

  /** A C# `DateTime`, kept as its 64-bit internal value: it is only copied. */
  datatype DateTime = DateTime(data: bv64)

  /** A Department row: name, location and budget. */
  datatype DeptRow = DeptRow(name: string, location: string, budget: Double)

  /**
   * An Employee row. `deptId` is the mandatory (non-nullable) foreign key to
   * the department the employee belongs to.
   */
  datatype EmpRow = EmpRow(
    firstName: string,
    lastName: string,
    email: string,
    salary: Double,
    hireDate: DateTime,
    deptId: int)

  /** A Project row; `endDate` is nullable. */
  datatype ProjRow = ProjRow(
    name: string,
    description: string,
    startDate: DateTime,
    endDate: Option<DateTime>,
    budget: Double)
}
