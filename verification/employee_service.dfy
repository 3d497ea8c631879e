/** The employee use cases, as transactions over the store. Responses are
    built from the store after the change, so a nested department summary
    counts the employees referencing that department at that point. */
module EmployeeService {
  import opened Basics
  import opened Entities
  import opened Db
  import opened Dto
  import Mapper
  import EmployeeRepository

  /** Some employee other than `id` holds `email`. */
  ghost predicate EmailHeldByOther(s: Store, id: Id, email: string)
  {
    exists j :: j in s.employees && j != id && s.employees[j].email == email
  }

  /** `r` reports employee `id` as it is stored: its scalar columns, id and
      timestamps, and a summary of its department (with the number of
      employees currently referencing it) exactly when that department
      exists. */
  ghost predicate Reports(s: Store, id: Id, r: EmployeeResponse)
    requires id in s.employees
  {
    var e := s.employees[id];
    && r.id == e.id && FieldsOfResponse(r) == Mapper.FieldsOfEntity(e)
    && r.createdAt == e.createdAt && r.updatedAt == e.updatedAt
    && (r.department.Some? <==> e.department.Some? && e.department.value in s.departments)
    && (r.department.Some? ==>
          var d := s.departments[e.department.value];
          && r.department.value.id == d.id && r.department.value.name == d.name
          && r.department.value.location == d.location
          && r.department.value.employeeCount == |EmployeesOf(s, e.department.value)|)
  }

  /** `createEmployee`: the duplicate-email check comes first, then the
      department lookup, so a taken email is reported even when the
      department is missing too. The new row gets the next id, the
      request's scalar fields, and the given department or none. */
  function CreateEmployee(s: Store, q: EmployeeRequest, now: Time): (o: Outcome<EmployeeResponse>)
    ensures o.result.Err? ==> o.store == s
    ensures o.store.nextDepartmentId == s.nextDepartmentId
    ensures o.store.nextEmployeeId == if o.result.Ok? then s.nextEmployeeId + 1 else s.nextEmployeeId
    ensures EmployeeRepository.ExistsByEmail(s, q.email) ==> o.result == Err(DuplicateResource)
    ensures !EmployeeRepository.ExistsByEmail(s, q.email) && q.departmentId.Some? && q.departmentId.value !in s.departments
            ==> o.result == Err(NotFound)
    ensures o.result.Ok? <==> !EmployeeRepository.ExistsByEmail(s, q.email)
                              && (q.departmentId.None? || q.departmentId.value in s.departments)
    ensures o.result.Ok? ==>
              var id := s.nextEmployeeId;
              id in o.store.employees &&
              var row := o.store.employees[id];
              && o.store.departments == s.departments
              && o.store.employees == s.employees[id := row]
              && Mapper.FieldsOfEntity(row) == FieldsOfRequest(q)
              && row.id == Some(id) && row.department == q.departmentId
              && row.createdAt == Some(now) && row.updatedAt == Some(now)
              && o.result.value == Mapper.ToEmployeeResponse(o.store, row)
    ensures Valid(s) ==> Valid(o.store)
  {
    if EmployeeRepository.ExistsByEmail(s, q.email) then Rollback(s, DuplicateResource)
    else
      var e := Mapper.ToEmployeeEntity(q);
      if q.departmentId.Some? && q.departmentId.value !in s.departments then Rollback(s, NotFound)
      else
        var id := s.nextEmployeeId;
        var row := e.(id := Some(id), department := q.departmentId, createdAt := Some(now), updatedAt := Some(now));
        var s' := s.(employees := s.employees[id := row], nextEmployeeId := id + 1);
        InsertKeepsValid(s, row);
        Commit(s', Mapper.ToEmployeeResponse(s', row))
  }

  /** `getEmployeeById`. */
  function GetEmployeeById(s: Store, id: Id): (r: Result<EmployeeResponse>)
    ensures r.Err? <==> id !in s.employees
    ensures r.Err? ==> r.error == NotFound
    ensures r.Ok? ==> Reports(s, id, r.value)
  {
    if id !in s.employees then Err(NotFound)
    else Ok(Mapper.ToEmployeeResponse(s, s.employees[id]))
  }

  /** The responses for a set of rows. */
  function Responses(s: Store, ids: set<Id>): (r: map<Id, EmployeeResponse>)
    requires ids <= s.employees.Keys
    ensures r.Keys == ids
    ensures forall id :: id in r ==> Reports(s, id, r[id])
  {
    map id | id in ids :: Mapper.ToEmployeeResponse(s, s.employees[id])
  }

  /** `getAllEmployees` and `getAllEmployeesList`: every row. */
  function GetAllEmployees(s: Store): (r: map<Id, EmployeeResponse>)
    ensures r.Keys == s.employees.Keys
    ensures forall id :: id in r ==> Reports(s, id, r[id])
  {
    Responses(s, s.employees.Keys)
  }

  /** `searchEmployees`. */
  function SearchEmployees(s: Store, keyword: string): (r: map<Id, EmployeeResponse>)
    ensures r.Keys <= s.employees.Keys
    ensures forall id :: id in s.employees ==> (id in r <==> EmployeeRepository.MatchesSearch(s.employees[id], keyword))
    ensures forall id :: id in r ==> Reports(s, id, r[id])
  {
    Responses(s, EmployeeRepository.SearchEmployees(s, keyword))
  }

  /** `filterEmployees`. */
  function FilterEmployees(s: Store, departmentId: Option<Id>, position: Option<string>, keyword: Option<string>)
    : (r: map<Id, EmployeeResponse>)
    ensures r.Keys <= s.employees.Keys
    ensures forall id :: id in s.employees ==>
              (id in r <==> EmployeeRepository.MatchesFilter(s.employees[id], departmentId, position, keyword))
    ensures forall id :: id in r ==> Reports(s, id, r[id])
  {
    Responses(s, EmployeeRepository.FilterEmployees(s, departmentId, position, keyword))
  }

  /** `getEmployeesByDepartment`: an unknown department is an error, an
      existing one with no employees is an empty result. */
  function GetEmployeesByDepartment(s: Store, d: Id): (r: Result<map<Id, EmployeeResponse>>)
    ensures r.Err? <==> d !in s.departments
    ensures r.Err? ==> r.error == NotFound
    ensures r.Ok? ==> r.value.Keys == EmployeesOf(s, d)
    ensures r.Ok? ==> forall id :: id in r.value ==> id in s.employees && Reports(s, id, r.value[id])
    ensures r.Ok? && Valid(s) ==>
              forall id :: id in r.value ==> r.value[id].department.Some? && r.value[id].department.value.id == Some(d)
  {
    if d !in s.departments then Err(NotFound)
    else Ok(Responses(s, EmployeeRepository.FindByDepartmentId(s, d)))
  }

  /** Inserting a row under the next id keeps the invariant when the row
      is keyed by that id, has a creation time, takes no stored email, and
      references an existing department or none. */
  lemma InsertKeepsValid(s: Store, row: Employee)
    requires row.id == Some(s.nextEmployeeId) && row.createdAt.Some?
    requires !EmployeeRepository.ExistsByEmail(s, row.email)
    requires row.department.None? || row.department.value in s.departments
    ensures Valid(s) ==> Valid(s.(employees := s.employees[s.nextEmployeeId := row], nextEmployeeId := s.nextEmployeeId + 1))
  {
  }

  /** Replacing one employee row keeps the invariant when the new row keeps
      the id and creation time, takes no other employee's email, and
      references an existing department or none. */
  lemma ReplaceKeepsValid(s: Store, id: Id, row: Employee)
    requires id in s.employees
    requires row.id == s.employees[id].id && row.createdAt == s.employees[id].createdAt
    requires row.email == s.employees[id].email || !EmployeeRepository.ExistsByEmail(s, row.email)
    requires row.department.None? || row.department.value in s.departments
    ensures Valid(s) ==> Valid(s.(employees := s.employees[id := row]))
  {
  }

  /** `updateEmployee`: the uniqueness check runs only when the email
      changes; the seven scalar fields are replaced (null values included);
      the department is replaced by the requested one, which must exist,
      or cleared when the request names none. The store writes the row back
      only if a column changed, and only then stamps `updatedAt`. The
      response is built before that write: it shows the previous
      `updatedAt`, and the nested department's count is read from the rows
      as they were, so an employee who just moved into that department is
      not yet counted. */
  function UpdateEmployee(s: Store, id: Id, q: EmployeeRequest, now: Time): (o: Outcome<EmployeeResponse>)
    ensures o.result.Err? ==> o.store == s
    ensures o.store.nextDepartmentId == s.nextDepartmentId && o.store.nextEmployeeId == s.nextEmployeeId
    ensures id !in s.employees ==> o.result == Err(NotFound)
    ensures id in s.employees && s.employees[id].email == q.email ==> o.result != Err(DuplicateResource)
    ensures id in s.employees && s.employees[id].email != q.email && EmailHeldByOther(s, id, q.email)
            ==> o.result == Err(DuplicateResource)
    ensures id in s.employees && (s.employees[id].email == q.email || !EmailHeldByOther(s, id, q.email))
            && q.departmentId.Some? && q.departmentId.value !in s.departments
            ==> o.result == Err(NotFound)
    ensures o.result.Ok? <==> id in s.employees && (s.employees[id].email == q.email || !EmailHeldByOther(s, id, q.email))
                              && (q.departmentId.None? || q.departmentId.value in s.departments)
    ensures o.result.Ok? ==>
              id in s.employees && id in o.store.employees &&
              var row := o.store.employees[id];
              var before := s.employees[id];
              && o.store.departments == s.departments
              && o.store.employees == s.employees[id := row]
              && Mapper.FieldsOfEntity(row) == FieldsOfRequest(q)
              && row.department == q.departmentId
              && row.id == before.id && row.createdAt == before.createdAt
              && (Changes(before, q) ==> row.updatedAt == Some(now))
              && (!Changes(before, q) ==> row == before)
    ensures o.result.Ok? ==>
              id in s.employees && id in o.store.employees &&
              var r := o.result.value;
              var before := s.employees[id];
              && FieldsOfResponse(r) == FieldsOfRequest(q)
              && r.id == before.id && r.createdAt == before.createdAt && r.updatedAt == before.updatedAt
              && (r.department.Some? <==> q.departmentId.Some?)
              && (r.department.Some? ==>
                    var d := s.departments[q.departmentId.value];
                    && r.department.value.id == d.id && r.department.value.name == d.name
                    && r.department.value.location == d.location
                    && r.department.value.employeeCount == |EmployeesOf(s, q.departmentId.value)|)
    ensures Valid(s) ==> Valid(o.store)
  {
    if id !in s.employees then Rollback(s, NotFound)
    else
      var e := s.employees[id];
      if e.email != q.email && EmployeeRepository.ExistsByEmail(s, q.email) then Rollback(s, DuplicateResource)
      else
        var scalars := Mapper.UpdateEmployeeEntity(e, Some(q));
        if q.departmentId.Some? && q.departmentId.value !in s.departments then Rollback(s, NotFound)
        else
          var updated := scalars.(department := q.departmentId);
          var row := if updated == e then e else updated.(updatedAt := Some(now));
          var s' := s.(employees := s.employees[id := row]);
          ReplaceKeepsValid(s, id, row);
          Commit(s', Mapper.ToEmployeeResponse(s, updated))
  }

  /** The request differs from the stored row in a scalar column or in the
      department. */
  predicate Changes(e: Employee, q: EmployeeRequest)
  {
    Mapper.FieldsOfEntity(e) != FieldsOfRequest(q) || e.department != q.departmentId
  }

  /** `deleteEmployee`: only that row goes; no department changes. */
  function DeleteEmployee(s: Store, id: Id): (o: Outcome<()>)
    ensures o.result.Err? ==> o.store == s
    ensures o.store.nextDepartmentId == s.nextDepartmentId && o.store.nextEmployeeId == s.nextEmployeeId
    ensures o.result.Err? <==> id !in s.employees
    ensures o.result.Err? ==> o.result.error == NotFound
    ensures o.result.Ok? ==> o.store.employees == s.employees - {id} && o.store.departments == s.departments
    ensures Valid(s) ==> Valid(o.store)
  {
    if id !in s.employees then Rollback(s, NotFound)
    else Commit(s.(employees := s.employees - {id}), ())
  }
}
