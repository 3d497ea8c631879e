/** The relational store as an immutable value: two tables keyed by id and
    the IDENTITY counters that generate fresh ids. A service call is one
    transaction: it either commits a new store or rolls back to the old
    one. */
module Db {
  import opened Basics
  import opened Entities

  datatype Store = Store(
    departments: map<Id, Department>,
    employees: map<Id, Employee>,
    nextDepartmentId: Id,
    nextEmployeeId: Id)

  /** The empty database; IDENTITY columns start at 1. */
  const Empty: Store := Store(map[], map[], 1, 1)

  /** Ids of the employees referencing department `d`: the contents of
      `d`'s `employees` collection. */
  function EmployeesOf(s: Store, d: Id): set<Id>
  {
    set id | id in s.employees && s.employees[id].department == Some(d)
  }

  /** Department `d` with its employee collection loaded from the store. */
  function Load(s: Store, d: Id): LoadedDepartment
    requires d in s.departments
  {
    Loaded(s.departments[d], Some(EmployeesOf(s, d)))
  }

  /** Following an employee's department reference: None for an
      unassigned employee (and for a dangling reference, which `Valid`
      rules out). */
  function DepartmentOf(s: Store, e: Employee): (r: Option<LoadedDepartment>)
    ensures r.Some? <==> e.department.Some? && e.department.value in s.departments
    ensures r.Some? ==> r.value.entity == s.departments[e.department.value]
  {
    match e.department
    case None => None
    case Some(d) => if d in s.departments then Some(Load(s, d)) else None
  }

  /** Every row sits under its own id, below the IDENTITY counter, with its
      creation timestamp set. */
  ghost predicate RowsKeyed(s: Store)
  {
    && (forall id :: id in s.departments ==>
          s.departments[id].id == Some(id) && id < s.nextDepartmentId && s.departments[id].createdAt.Some?)
    && (forall id :: id in s.employees ==>
          s.employees[id].id == Some(id) && id < s.nextEmployeeId && s.employees[id].createdAt.Some?)
  }

  /** The unique index on `employees.email`. */
  ghost predicate UniqueEmails(s: Store)
  {
    forall i, j :: i in s.employees && j in s.employees && s.employees[i].email == s.employees[j].email ==> i == j
  }

  /** The unique index on `departments.name`. */
  ghost predicate UniqueDepartmentNames(s: Store)
  {
    forall i, j :: i in s.departments && j in s.departments && s.departments[i].name == s.departments[j].name ==> i == j
  }

  /** Referential integrity of `employees.department_id`: every assigned
      employee's department exists. */
  ghost predicate ReferencesResolve(s: Store)
  {
    forall id :: id in s.employees && s.employees[id].department.Some? ==> s.employees[id].department.value in s.departments
  }

  /** Every department row meets its column constraints. */
  ghost predicate ColumnsHold(s: Store)
  {
    forall id :: id in s.departments ==> DepartmentColumnsOk(s.departments[id])
  }

  /** The invariant every service operation preserves. */
  ghost predicate Valid(s: Store)
  {
    RowsKeyed(s) && UniqueEmails(s) && UniqueDepartmentNames(s) && ReferencesResolve(s) && ColumnsHold(s)
  }

  lemma EmptyValid()
    ensures Valid(Empty)
  {
  }

  /** A department id the counter has not yet handed out is referenced by
      no employee, so a freshly created department has no employees. */
  lemma FreshDepartmentHasNoEmployees(s: Store, d: Id)
    requires Valid(s)
    requires d >= s.nextDepartmentId
    ensures EmployeesOf(s, d) == {}
  {
    assert forall k :: k in EmployeesOf(s, d) ==> d in s.departments;
  }

  /** What a transactional service call leaves behind: the store as
      committed (or as it was, after a rollback) and the call's return
      value or exception. */
  datatype Outcome<T> = Outcome(store: Store, result: Result<T>)

  function Commit<T>(s: Store, v: T): Outcome<T>
  {
    Outcome(s, Ok(v))
  }

  function Rollback<T>(s: Store, e: Error): Outcome<T>
  {
    Outcome(s, Err(e))
  }
}
