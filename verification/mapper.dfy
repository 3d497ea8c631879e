/** The mapping layer: total, side-effect-free conversions between
    requests, entities and responses. The in-place setters of the source
    become functions returning the updated entity. */
module Mapper {
  import opened Basics
  import opened Entities
  import opened Dto
  import opened Db

  function FieldsOfEntity(e: Employee): EmployeeFields
  {
    EmployeeFields(e.firstName, e.lastName, e.email, e.phone, e.position, e.salary, e.hireDate)
  }

  /** Size of a department's employee collection, a null collection
      counting as empty. */
  function EmployeeCount(staff: Option<set<Id>>): nat
  {
    match staff
    case None => 0
    case Some(ids) => |ids|
  }

  // ----- Department mappings -----

  /** The full department response: every column of the entity, and the
      size of its employee list, or zero when the list is null. */
  function ToDepartmentResponse(d: LoadedDepartment): (r: DepartmentResponse)
    ensures r.id == d.entity.id && r.name == d.entity.name && r.description == d.entity.description
            && r.location == d.entity.location && r.createdAt == d.entity.createdAt && r.updatedAt == d.entity.updatedAt
    ensures d.employees.None? ==> r.employeeCount == 0
    ensures d.employees.Some? ==> r.employeeCount == |d.employees.value|
  {
    DepartmentResponse(d.entity.id, d.entity.name, d.entity.description, d.entity.location,
                       EmployeeCount(d.employees), d.entity.createdAt, d.entity.updatedAt)
  }

  /** A department whose employee list is null reports no employees, just
      like one whose list is empty. */
  lemma NullEmployeeListCountsZero(e: Department)
    ensures ToDepartmentResponse(Loaded(e, None)).employeeCount == 0
    ensures ToDepartmentResponse(Loaded(e, None)) == ToDepartmentResponse(Loaded(e, Some({})))
  {
  }

  /** The department nested in an employee response; null maps to null. */
  function ToDepartmentSummary(d: Option<LoadedDepartment>): (r: Option<DepartmentSummary>)
    ensures r.Some? <==> d.Some?
  {
    match d
    case None => None
    case Some(ld) => Some(DepartmentSummary(ld.entity.id, ld.entity.name, ld.entity.location, EmployeeCount(ld.employees)))
  }

  /** A new, not yet persisted department: only name, description and
      location come from the request; it has no id and no timestamps, and
      its employee collection starts as an empty list. */
  function ToDepartmentEntity(q: DepartmentRequest): (r: LoadedDepartment)
    ensures r.entity.id.None? && r.entity.createdAt.None? && r.entity.updatedAt.None?
    ensures r.employees == Some({})
  {
    Loaded(Department(None, q.name, q.description, q.location, None, None), Some({}))
  }

  /** Full replace of the three mutable fields, null values included; a
      null request leaves the entity as it is. */
  function UpdateDepartmentEntity(d: Department, q: Option<DepartmentRequest>): (r: Department)
    ensures r.id == d.id && r.createdAt == d.createdAt && r.updatedAt == d.updatedAt
    ensures q.None? ==> r == d
    ensures q.Some? ==> r.name == q.value.name && r.description == q.value.description && r.location == q.value.location
  {
    match q
    case None => d
    case Some(req) => d.(name := req.name, description := req.description, location := req.location)
  }

  /** The summary and the full response of a department agree on every
      field they share, including the employee count. */
  lemma SummaryAgreesWithResponse(d: LoadedDepartment)
    ensures var s := ToDepartmentSummary(Some(d)).value;
            var r := ToDepartmentResponse(d);
            s.id == r.id && s.name == r.name && s.location == r.location && s.employeeCount == r.employeeCount
  {
  }

  /** A request turned into an entity and straight back into a response
      shows the request's name, description and location, no id, no
      timestamps, and no employees. */
  lemma DepartmentRoundTrip(q: DepartmentRequest)
    ensures var r := ToDepartmentResponse(ToDepartmentEntity(q));
            r.name == q.name && r.description == q.description && r.location == q.location
            && r.id.None? && r.createdAt.None? && r.updatedAt.None? && r.employeeCount == 0
  {
  }

  /** Updating is full replace, not patch: a second update overwrites the
      first completely, and repeating an update changes nothing. */
  lemma UpdateDepartmentLastWriteWins(d: Department, q1: DepartmentRequest, q2: DepartmentRequest)
    ensures UpdateDepartmentEntity(UpdateDepartmentEntity(d, Some(q1)), Some(q2)) == UpdateDepartmentEntity(d, Some(q2))
    ensures UpdateDepartmentEntity(UpdateDepartmentEntity(d, Some(q2)), Some(q2)) == UpdateDepartmentEntity(d, Some(q2))
  {
  }

  // ----- Employee mappings -----

  /** The employee response: all scalar fields, the timestamps, and the
      summary of the employee's department, or null when unassigned. */
  function ToEmployeeResponse(s: Store, e: Employee): (r: EmployeeResponse)
    ensures FieldsOfResponse(r) == FieldsOfEntity(e)
    ensures r.id == e.id && r.createdAt == e.createdAt && r.updatedAt == e.updatedAt
    ensures r.department.Some? <==> e.department.Some? && e.department.value in s.departments
    ensures r.department.Some? ==>
              var d := s.departments[e.department.value];
              && r.department.value.id == d.id && r.department.value.name == d.name
              && r.department.value.location == d.location
              && r.department.value.employeeCount == |EmployeesOf(s, e.department.value)|
  {
    EmployeeResponse(e.id, e.firstName, e.lastName, e.email, e.phone, e.position, e.salary, e.hireDate,
                     ToDepartmentSummary(DepartmentOf(s, e)), e.createdAt, e.updatedAt)
  }

  function ToEmployeeSummary(s: Store, e: Employee): (r: EmployeeSummary)
    ensures r.departmentName.Some? <==> e.department.Some? && e.department.value in s.departments
  {
    var d := DepartmentOf(s, e);
    EmployeeSummary(e.id, e.firstName, e.lastName, e.email, e.position,
                    if d.Some? then Some(d.value.entity.name) else None)
  }

  /** A new, not yet persisted employee carrying the request's scalar
      fields; id, department and timestamps are left unset (the service
      attaches the department). */
  function ToEmployeeEntity(q: EmployeeRequest): (r: Employee)
    ensures FieldsOfEntity(r) == FieldsOfRequest(q)
    ensures r.id.None? && r.department.None? && r.createdAt.None? && r.updatedAt.None?
  {
    Employee(None, q.firstName, q.lastName, q.email, q.phone, q.position, q.salary, q.hireDate, None, None, None)
  }

  /** Overwrites exactly the seven scalar fields, null values included;
      id, department and timestamps are untouched, and a null request
      leaves the entity as it is. */
  function UpdateEmployeeEntity(e: Employee, q: Option<EmployeeRequest>): (r: Employee)
    ensures r.id == e.id && r.department == e.department && r.createdAt == e.createdAt && r.updatedAt == e.updatedAt
    ensures q.None? ==> r == e
    ensures q.Some? ==> FieldsOfEntity(r) == FieldsOfRequest(q.value)
  {
    match q
    case None => e
    case Some(req) =>
      e.(firstName := req.firstName, lastName := req.lastName, email := req.email, phone := req.phone,
         position := req.position, salary := req.salary, hireDate := req.hireDate)
  }

  /** Request to entity to response keeps every scalar field, and the
      response has no department, id or timestamps. */
  lemma EmployeeRoundTrip(s: Store, q: EmployeeRequest)
    ensures var r := ToEmployeeResponse(s, ToEmployeeEntity(q));
            FieldsOfResponse(r) == FieldsOfRequest(q) && r.department.None?
            && r.id.None? && r.createdAt.None? && r.updatedAt.None?
  {
  }

  /** Applying the same update twice is the same as applying it once, and
      an update leaves the same scalar fields as creating from the same
      request would. */
  lemma UpdateEmployeeIdempotent(e: Employee, q: EmployeeRequest)
    ensures UpdateEmployeeEntity(UpdateEmployeeEntity(e, Some(q)), Some(q)) == UpdateEmployeeEntity(e, Some(q))
    ensures FieldsOfEntity(UpdateEmployeeEntity(e, Some(q))) == FieldsOfEntity(ToEmployeeEntity(q))
  {
  }

  /** The employee summary names exactly the department the full response
      summarises. */
  lemma EmployeeSummaryAgreesWithResponse(s: Store, e: Employee)
    ensures var sum := ToEmployeeSummary(s, e);
            var r := ToEmployeeResponse(s, e);
            sum.id == r.id && sum.firstName == r.firstName && sum.lastName == r.lastName
            && sum.email == r.email && sum.position == r.position
            && (sum.departmentName.Some? <==> r.department.Some?)
            && (r.department.Some? ==> sum.departmentName.value == r.department.value.name)
  {
  }

  /** In a response built from the store, the department's employee count
      is the number of employees currently referencing it, which includes
      the employee itself. */
  lemma ResponseCountIsLive(s: Store, id: Id)
    requires id in s.employees
    requires s.employees[id].department.Some? && s.employees[id].department.value in s.departments
    ensures var r := ToEmployeeResponse(s, s.employees[id]);
            r.department.Some?
            && r.department.value.employeeCount == |EmployeesOf(s, s.employees[id].department.value)|
            && r.department.value.employeeCount >= 1
  {
    var d := s.employees[id].department.value;
    assert id in EmployeesOf(s, d);
  }
}
