/** Wire shapes: what a client sends (requests) and what the services hand
    back (responses and summaries). */
module Dto {
  import opened Basics

  /** Body of a department create or update. The name is required, so it
      is a plain string; the other two fields may be null. */
  datatype DepartmentRequest = DepartmentRequest(
    name: string,
    description: Option<string>,
    location: Option<string>)

  datatype DepartmentResponse = DepartmentResponse(
    id: Option<Id>,
    name: string,
    description: Option<string>,
    location: Option<string>,
    employeeCount: nat,
    createdAt: Option<Time>,
    updatedAt: Option<Time>)

  /** The department as nested inside an employee response. */
  datatype DepartmentSummary = DepartmentSummary(
    id: Option<Id>,
    name: string,
    location: Option<string>,
    employeeCount: nat)

  /** Body of an employee create or update. First name, last name and email
      are required (non-null once validated); everything else may be null. */
  datatype EmployeeRequest = EmployeeRequest(
    firstName: string,
    lastName: string,
    email: string,
    phone: Option<string>,
    position: Option<string>,
    salary: Option<Decimal>,
    hireDate: Option<Date>,
    departmentId: Option<Id>)

  datatype EmployeeResponse = EmployeeResponse(
    id: Option<Id>,
    firstName: string,
    lastName: string,
    email: string,
    phone: Option<string>,
    position: Option<string>,
    salary: Option<Decimal>,
    hireDate: Option<Date>,
    department: Option<DepartmentSummary>,
    createdAt: Option<Time>,
    updatedAt: Option<Time>)

  datatype EmployeeSummary = EmployeeSummary(
    id: Option<Id>,
    firstName: string,
    lastName: string,
    email: string,
    position: Option<string>,
    departmentName: Option<string>)

  /** The seven scalar fields an employee request, entity and response
      share: the fields the mapping layer copies one for one. */
  datatype EmployeeFields = EmployeeFields(
    firstName: string,
    lastName: string,
    email: string,
    phone: Option<string>,
    position: Option<string>,
    salary: Option<Decimal>,
    hireDate: Option<Date>)

  function FieldsOfRequest(q: EmployeeRequest): EmployeeFields
  {
    EmployeeFields(q.firstName, q.lastName, q.email, q.phone, q.position, q.salary, q.hireDate)
  }

  function FieldsOfResponse(r: EmployeeResponse): EmployeeFields
  {
    EmployeeFields(r.firstName, r.lastName, r.email, r.phone, r.position, r.salary, r.hireDate)
  }
}
