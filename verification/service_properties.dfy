/** Properties relating several service calls: reading back what was
    written, the cascade on department delete, the live employee count,
    and the invariant across any sequence of mutating calls. */
module ServiceProperties {
  import opened Basics
  import opened Entities
  import opened Db
  import opened Dto
  import Mapper
  import EmployeeRepository
  import DepartmentRepository
  import DepartmentService
  import EmployeeService

  /** A created employee reads back as exactly the response the create
      returned. */
  lemma CreateThenGetEmployee(s: Store, q: EmployeeRequest, now: Time)
    requires EmployeeService.CreateEmployee(s, q, now).result.Ok?
    ensures var o := EmployeeService.CreateEmployee(s, q, now);
            EmployeeService.GetEmployeeById(o.store, s.nextEmployeeId) == o.result
  {
  }

  /** A created department reads back as exactly the response the create
      returned: in a valid store no employee references the new id, so the
      live count agrees with the empty initial collection. */
  lemma CreateThenGetDepartment(s: Store, q: DepartmentRequest, now: Time)
    requires Valid(s)
    requires DepartmentService.CreateDepartment(s, q, now).result.Ok?
    ensures var o := DepartmentService.CreateDepartment(s, q, now);
            DepartmentService.GetDepartmentById(o.store, s.nextDepartmentId) == o.result
  {
    var o := DepartmentService.CreateDepartment(s, q, now);
    FreshDepartmentHasNoEmployees(s, s.nextDepartmentId);
    assert EmployeesOf(o.store, s.nextDepartmentId) == EmployeesOf(s, s.nextDepartmentId);
  }

  /** Reading a department back after an update gives the update's
      response, except that `updatedAt` now shows the time the store
      stamped on the write. */
  lemma UpdateThenGetDepartment(s: Store, id: Id, q: DepartmentRequest, now: Time)
    requires DepartmentService.UpdateDepartment(s, id, q, now).result.Ok?
    ensures var o := DepartmentService.UpdateDepartment(s, id, q, now);
            id in o.store.departments
            && DepartmentService.GetDepartmentById(o.store, id)
               == Ok(o.result.value.(updatedAt := o.store.departments[id].updatedAt))
  {
    var o := DepartmentService.UpdateDepartment(s, id, q, now);
    assert EmployeesOf(o.store, id) == EmployeesOf(s, id);
  }

  /** Reading an employee back after an update that keeps its department
      gives the update's response, except for the `updatedAt` the store
      stamped. */
  lemma UpdateThenGetEmployee(s: Store, id: Id, q: EmployeeRequest, now: Time)
    requires EmployeeService.UpdateEmployee(s, id, q, now).result.Ok?
    requires s.employees[id].department == q.departmentId
    ensures var o := EmployeeService.UpdateEmployee(s, id, q, now);
            id in o.store.employees
            && EmployeeService.GetEmployeeById(o.store, id)
               == Ok(o.result.value.(updatedAt := o.store.employees[id].updatedAt))
  {
    var o := EmployeeService.UpdateEmployee(s, id, q, now);
    if q.departmentId.Some? {
      var d := q.departmentId.value;
      assert EmployeesOf(o.store, d) == EmployeesOf(s, d);
    }
  }

  /** An employee moved into another department is missing from the count
      the update reports for it: the count is read before the move is
      written, so it is one less than the count a read afterwards gives. */
  lemma MovedEmployeeNotYetCounted(s: Store, id: Id, q: EmployeeRequest, now: Time, d: Id)
    requires EmployeeService.UpdateEmployee(s, id, q, now).result.Ok?
    requires q.departmentId == Some(d) && s.employees[id].department != Some(d)
    ensures var o := EmployeeService.UpdateEmployee(s, id, q, now);
            && o.result.value.department.Some?
            && o.result.value.department.value.employeeCount + 1 == |EmployeesOf(o.store, d)|
            && EmployeeService.GetEmployeeById(o.store, id).Ok?
            && EmployeeService.GetEmployeeById(o.store, id).value.department.value.employeeCount
               == o.result.value.department.value.employeeCount + 1
  {
    var o := EmployeeService.UpdateEmployee(s, id, q, now);
    assert id !in EmployeesOf(s, d);
    assert EmployeesOf(o.store, d) == EmployeesOf(s, d) + {id};
  }

  /** After a department is deleted, every employee that referenced it is
      gone, and every other employee is still there. */
  lemma DeleteDepartmentCascades(s: Store, d: Id, k: Id)
    requires d in s.departments
    requires k in s.employees
    ensures var o := DepartmentService.DeleteDepartment(s, d);
            (s.employees[k].department == Some(d) ==> EmployeeService.GetEmployeeById(o.store, k) == Err(NotFound))
            && (s.employees[k].department != Some(d) ==> EmployeeService.GetEmployeeById(o.store, k).Ok?)
  {
  }

  /** Deleting an assigned employee leaves its department's row as it was
      and lowers that department's employee count by exactly one. */
  lemma DeleteEmployeeDecrementsCount(s: Store, id: Id, d: Id)
    requires id in s.employees && s.employees[id].department == Some(d)
    ensures var o := EmployeeService.DeleteEmployee(s, id);
            && o.store.departments == s.departments
            && |EmployeesOf(o.store, d)| == |EmployeesOf(s, d)| - 1
  {
    var o := EmployeeService.DeleteEmployee(s, id);
    assert EmployeesOf(o.store, d) == EmployeesOf(s, d) - {id};
  }

  /** Creating an employee in a department raises that department's count
      by exactly one, and the response's nested summary reports the new
      count. */
  lemma CreateEmployeeIncrementsCount(s: Store, q: EmployeeRequest, now: Time, d: Id)
    requires Valid(s)
    requires q.departmentId == Some(d)
    requires EmployeeService.CreateEmployee(s, q, now).result.Ok?
    ensures var o := EmployeeService.CreateEmployee(s, q, now);
            && |EmployeesOf(o.store, d)| == |EmployeesOf(s, d)| + 1
            && o.result.value.department.Some?
            && o.result.value.department.value.employeeCount == |EmployeesOf(o.store, d)|
  {
    var o := EmployeeService.CreateEmployee(s, q, now);
    var id := s.nextEmployeeId;
    assert id !in s.employees;
    assert EmployeesOf(o.store, d) == EmployeesOf(s, d) + {id};
  }

  /** Ids are never reused: after an employee is deleted, the next create
      hands out a fresh id, never the deleted one. */
  lemma DeletedIdNotReissued(s: Store, id: Id, q: EmployeeRequest, now: Time)
    requires Valid(s) && id in s.employees
    ensures var s1 := EmployeeService.DeleteEmployee(s, id).store;
            var o := EmployeeService.CreateEmployee(s1, q, now);
            o.result.Ok? ==> o.result.value.id != Some(id) && s1.nextEmployeeId in o.store.employees
  {
  }

  /** Updating with no department detaches the employee from whichever
      department it was in: full replace, not patch. */
  lemma UpdateWithoutDepartmentDetaches(s: Store, id: Id, q: EmployeeRequest, now: Time, d: Id)
    requires q.departmentId.None?
    requires EmployeeService.UpdateEmployee(s, id, q, now).result.Ok?
    ensures var o := EmployeeService.UpdateEmployee(s, id, q, now);
            && EmployeesOf(o.store, d) == EmployeesOf(s, d) - {id}
            && o.result.value.department.None?
  {
    var o := EmployeeService.UpdateEmployee(s, id, q, now);
    assert EmployeesOf(o.store, d) == EmployeesOf(s, d) - {id};
  }

  /** Renaming a department to a name no department holds succeeds as far
      as uniqueness goes: the only failure left is a column constraint. */
  lemma RenameToUnusedNameSucceeds(s: Store, id: Id, q: DepartmentRequest, now: Time)
    requires id in s.departments
    requires !DepartmentRepository.ExistsByName(s, q.name)
    ensures DepartmentService.UpdateDepartment(s, id, q, now).result.Ok?
            || DepartmentService.UpdateDepartment(s, id, q, now).result == Err(ConstraintViolation)
  {
  }

  /** A worked example from an empty database: a department, an employee
      in it whose response nests the department with a count of one, and a
      second employee with the same email refused as a duplicate. */
  lemma EngineeringExample()
    ensures
      var o1 := DepartmentService.CreateDepartment(Empty, DepartmentRequest("Engineering", None, Some("Austin")), 0);
      var ada := EmployeeRequest("Ada", "Lovelace", "ada@x.com", None, None, None, None, Some(1));
      var o2 := EmployeeService.CreateEmployee(o1.store, ada, 1);
      var grace := EmployeeRequest("Grace", "Hopper", "ada@x.com", None, None, None, None, None);
      var o3 := EmployeeService.CreateEmployee(o2.store, grace, 2);
      && o1.result.Ok? && o1.result.value.id == Some(1) && o1.result.value.employeeCount == 0
      && o2.result.Ok? && o2.result.value.department == Some(DepartmentSummary(Some(1), "Engineering", Some("Austin"), 1))
      && o3.result == Err(DuplicateResource) && o3.store == o2.store
  {
    var o1 := DepartmentService.CreateDepartment(Empty, DepartmentRequest("Engineering", None, Some("Austin")), 0);
    var ada := EmployeeRequest("Ada", "Lovelace", "ada@x.com", None, None, None, None, Some(1));
    var o2 := EmployeeService.CreateEmployee(o1.store, ada, 1);
    assert EmployeesOf(o2.store, 1) == {1};
    assert EmployeeRepository.ExistsByEmail(o2.store, "ada@x.com") by {
      assert o2.store.employees[1].email == "ada@x.com";
    }
  }

  // ----- Sequences of mutating calls -----

  /** A mutating service call. */
  datatype Command =
    | CreateDepartment(dq: DepartmentRequest)
    | UpdateDepartment(id: Id, dq: DepartmentRequest)
    | DeleteDepartment(id: Id)
    | CreateEmployee(eq: EmployeeRequest)
    | UpdateEmployee(id: Id, eq: EmployeeRequest)
    | DeleteEmployee(id: Id)

  /** The store a command leaves behind, whether it committed or rolled back. */
  function Apply(s: Store, c: Command, now: Time): (s': Store)
    ensures Valid(s) ==> Valid(s')
    ensures s'.nextDepartmentId >= s.nextDepartmentId && s'.nextEmployeeId >= s.nextEmployeeId
  {
    match c
    case CreateDepartment(q) => DepartmentService.CreateDepartment(s, q, now).store
    case UpdateDepartment(id, q) => DepartmentService.UpdateDepartment(s, id, q, now).store
    case DeleteDepartment(id) => DepartmentService.DeleteDepartment(s, id).store
    case CreateEmployee(q) => EmployeeService.CreateEmployee(s, q, now).store
    case UpdateEmployee(id, q) => EmployeeService.UpdateEmployee(s, id, q, now).store
    case DeleteEmployee(id) => EmployeeService.DeleteEmployee(s, id).store
  }

  /** Runs commands in order, each at its own clock time. */
  function Run(s: Store, cs: seq<(Command, Time)>): Store
    decreases |cs|
  {
    if cs == [] then s else Run(Apply(s, cs[0].0, cs[0].1), cs[1..])
  }

  /** Every sequence of calls keeps the invariant: unique emails, unique
      department names, resolvable department references, keyed rows and
      department column constraints. */
  lemma {:induction false} RunPreservesValid(s: Store, cs: seq<(Command, Time)>)
    requires Valid(s)
    ensures Valid(Run(s, cs))
    decreases |cs|
  {
    if cs != [] {
      RunPreservesValid(Apply(s, cs[0].0, cs[0].1), cs[1..]);
    }
  }

  /** Every store reachable from the empty database is valid. */
  lemma ReachableStoresAreValid(cs: seq<(Command, Time)>)
    ensures Valid(Run(Empty, cs))
  {
    EmptyValid();
    RunPreservesValid(Empty, cs);
  }
}
