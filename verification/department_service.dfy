/** The department use cases. Every mutating call is one transaction: it
    commits a new store, or rolls back and leaves the store as it was. The
    list operations drop their page envelope and return every matching
    row, keyed by id. */
module DepartmentService {
  import opened Basics
  import opened Entities
  import opened Db
  import opened Dto
  import Mapper
  import DepartmentRepository

  /** `r` reports department `id` as it is stored: every column, and the
      number of employees currently referencing it. */
  ghost predicate Reports(s: Store, id: Id, r: DepartmentResponse)
    requires id in s.departments
  {
    var d := s.departments[id];
    && r.id == d.id && r.name == d.name && r.description == d.description && r.location == d.location
    && r.createdAt == d.createdAt && r.updatedAt == d.updatedAt
    && r.employeeCount == |EmployeesOf(s, id)|
  }

  /** `createDepartment`: a taken name is refused before anything is
      built; otherwise the new row gets the next id and the clock's time
      as both timestamps, and the store refuses it if a column is too
      long. The response is built from the saved entity, whose employee
      collection is still its empty initial list. */
  function CreateDepartment(s: Store, q: DepartmentRequest, now: Time): (o: Outcome<DepartmentResponse>)
    ensures o.result.Err? ==> o.store == s
    ensures o.store.nextEmployeeId == s.nextEmployeeId
    ensures o.store.nextDepartmentId == if o.result.Ok? then s.nextDepartmentId + 1 else s.nextDepartmentId
    ensures DepartmentRepository.ExistsByName(s, q.name) ==> o.result == Err(DuplicateResource)
    ensures !DepartmentRepository.ExistsByName(s, q.name) && !DepartmentColumnsOk(Mapper.ToDepartmentEntity(q).entity)
            ==> o.result == Err(ConstraintViolation)
    ensures o.result.Ok? <==> !DepartmentRepository.ExistsByName(s, q.name)
                              && DepartmentColumnsOk(Mapper.ToDepartmentEntity(q).entity)
    ensures o.result.Ok? ==>
              var id := s.nextDepartmentId;
              id in o.store.departments &&
              var row := o.store.departments[id];
              && o.store.employees == s.employees
              && o.store.departments == s.departments[id := row]
              && row.id == Some(id) && row.name == q.name && row.description == q.description && row.location == q.location
              && row.createdAt == Some(now) && row.updatedAt == Some(now)
              && o.result.value == Mapper.ToDepartmentResponse(Loaded(row, Some({})))
              && o.result.value.employeeCount == 0
    ensures Valid(s) ==> Valid(o.store)
  {
    if DepartmentRepository.ExistsByName(s, q.name) then Rollback(s, DuplicateResource)
    else
      var built := Mapper.ToDepartmentEntity(q);
      var id := s.nextDepartmentId;
      var row := built.entity.(id := Some(id), createdAt := Some(now), updatedAt := Some(now));
      if !DepartmentColumnsOk(row) then Rollback(s, ConstraintViolation)
      else
        var s' := s.(departments := s.departments[id := row], nextDepartmentId := id + 1);
        Commit(s', Mapper.ToDepartmentResponse(built.(entity := row)))
  }

  /** `getDepartmentById`: the response counts the employees currently
      referencing the department. */
  function GetDepartmentById(s: Store, id: Id): (r: Result<DepartmentResponse>)
    ensures r.Err? <==> id !in s.departments
    ensures r.Err? ==> r.error == NotFound
    ensures r.Ok? ==> Reports(s, id, r.value)
  {
    if id !in s.departments then Err(NotFound)
    else Ok(Mapper.ToDepartmentResponse(Load(s, id)))
  }

  /** `getAllDepartments` and `getAllDepartmentsList`: every row. */
  function GetAllDepartments(s: Store): (r: map<Id, DepartmentResponse>)
    ensures r.Keys == s.departments.Keys
    ensures forall id :: id in r ==> Reports(s, id, r[id])
  {
    map id | id in s.departments :: Mapper.ToDepartmentResponse(Load(s, id))
  }

  /** `searchDepartments`: the rows whose name or location mentions the
      keyword. */
  function SearchDepartments(s: Store, keyword: string): (r: map<Id, DepartmentResponse>)
    ensures r.Keys == DepartmentRepository.SearchDepartments(s, keyword)
    ensures forall id :: id in s.departments ==> (id in r <==> DepartmentRepository.MatchesSearch(s.departments[id], keyword))
    ensures forall id :: id in r ==> Reports(s, id, r[id])
  {
    map id | id in DepartmentRepository.SearchDepartments(s, keyword) :: Mapper.ToDepartmentResponse(Load(s, id))
  }

  /** `updateDepartment`: the uniqueness check runs only when the name
      changes; name, description and location are replaced (null values
      included), the id, creation time and the department's employees stay
      as they were. The store writes the row back only if a column changed,
      and only then stamps `updatedAt` and checks the column limits. The
      response is built before that write, so it still shows the previous
      `updatedAt`. */
  function UpdateDepartment(s: Store, id: Id, q: DepartmentRequest, now: Time): (o: Outcome<DepartmentResponse>)
    ensures o.result.Err? ==> o.store == s
    ensures o.store.nextDepartmentId == s.nextDepartmentId && o.store.nextEmployeeId == s.nextEmployeeId
    ensures o.result == Err(NotFound) <==> id !in s.departments
    ensures id in s.departments && s.departments[id].name == q.name ==> o.result != Err(DuplicateResource)
    ensures Valid(s) && id in s.departments
            && (exists j :: j in s.departments && j != id && s.departments[j].name == q.name)
            ==> o.result == Err(DuplicateResource)
    ensures id in s.departments
            && (s.departments[id].name == q.name || !DepartmentRepository.ExistsByName(s, q.name))
            && Changes(s.departments[id], q) && !DepartmentColumnsOk(Mapper.UpdateDepartmentEntity(s.departments[id], Some(q)))
            ==> o.result == Err(ConstraintViolation)
    ensures o.result.Ok? <==>
              && id in s.departments
              && (s.departments[id].name == q.name || !DepartmentRepository.ExistsByName(s, q.name))
              && (!Changes(s.departments[id], q) || DepartmentColumnsOk(Mapper.UpdateDepartmentEntity(s.departments[id], Some(q))))
    ensures o.result.Ok? ==>
              id in s.departments && id in o.store.departments &&
              var row := o.store.departments[id];
              var before := s.departments[id];
              && o.store.employees == s.employees
              && o.store.departments == s.departments[id := row]
              && row.name == q.name && row.description == q.description && row.location == q.location
              && row.id == before.id && row.createdAt == before.createdAt
              && (Changes(before, q) ==> row.updatedAt == Some(now))
              && (!Changes(before, q) ==> row == before)
    ensures o.result.Ok? ==>
              id in s.departments &&
              var r := o.result.value;
              var before := s.departments[id];
              && r.id == before.id && r.name == q.name && r.description == q.description && r.location == q.location
              && r.createdAt == before.createdAt && r.updatedAt == before.updatedAt
              && r.employeeCount == |EmployeesOf(s, id)|
    ensures Valid(s) ==> Valid(o.store)
  {
    if id !in s.departments then Rollback(s, NotFound)
    else
      var d := s.departments[id];
      if d.name != q.name && DepartmentRepository.ExistsByName(s, q.name) then Rollback(s, DuplicateResource)
      else
        var updated := Mapper.UpdateDepartmentEntity(d, Some(q));
        if updated != d && !DepartmentColumnsOk(updated) then Rollback(s, ConstraintViolation)
        else
          var row := if updated == d then d else updated.(updatedAt := Some(now));
          var s' := s.(departments := s.departments[id := row]);
          assert EmployeesOf(s', id) == EmployeesOf(s, id);
          Commit(s', Mapper.ToDepartmentResponse(Loaded(updated, Some(EmployeesOf(s', id)))))
  }

  /** The request differs from the stored row in some column it sets. */
  predicate Changes(d: Department, q: DepartmentRequest)
  {
    d.name != q.name || d.description != q.description || d.location != q.location
  }

  /** `deleteDepartment`: removing the row cascades to every employee in
      its collection, i.e. every employee referencing it. */
  function DeleteDepartment(s: Store, id: Id): (o: Outcome<()>)
    ensures o.result.Err? ==> o.store == s
    ensures o.store.nextDepartmentId == s.nextDepartmentId && o.store.nextEmployeeId == s.nextEmployeeId
    ensures o.result.Err? <==> id !in s.departments
    ensures o.result.Err? ==> o.result.error == NotFound
    ensures o.result.Ok? ==>
              && o.store.departments == s.departments - {id}
              && o.store.employees.Keys == s.employees.Keys - EmployeesOf(s, id)
              && (forall k :: k in o.store.employees ==> o.store.employees[k] == s.employees[k])
              && (forall k :: k in o.store.employees ==> o.store.employees[k].department != Some(id))
    ensures Valid(s) ==> Valid(o.store)
  {
    if id !in s.departments then Rollback(s, NotFound)
    else
      var cascaded := EmployeesOf(s, id);
      Commit(s.(departments := s.departments - {id}, employees := s.employees - cascaded), ())
  }
}
