/** The two persisted records. Ids and timestamps are nullable because an
    entity built from a request has neither until the store assigns them. */
module Entities {
  import opened Basics

  /** Maximum length of the `name` and `location` columns of `departments`. */
  const MaxColumnLength: nat := 100

  /** A row of `departments`. Its employees are not stored here: they are
      the employees whose department reference names this row. */
  datatype Department = Department(
    id: Option<Id>,
    name: string,
    description: Option<string>,
    location: Option<string>,
    createdAt: Option<Time>,
    updatedAt: Option<Time>)

  /** A row of `employees`. `department` is a weak reference by id: the
      employee neither owns the department nor keeps it alive. */
  datatype Employee = Employee(
    id: Option<Id>,
    firstName: string,
    lastName: string,
    email: string,
    phone: Option<string>,
    position: Option<string>,
    salary: Option<Decimal>,
    hireDate: Option<Date>,
    department: Option<Id>,
    createdAt: Option<Time>,
    updatedAt: Option<Time>)

  /** A department entity as the mapping layer sees it, together with its
      `employees` collection: the ids of the employees it holds, or None
      when the collection reference is null. */
  datatype LoadedDepartment = Loaded(entity: Department, employees: Option<set<Id>>)

  /** The column constraints the store enforces on a department row: the
      name (non-null by its type here) and a present location are at most
      100 characters long. Uniqueness of the name is a property of the
      whole table, stated in `Db.UniqueDepartmentNames`. */
  predicate DepartmentColumnsOk(d: Department)
  {
    |d.name| <= MaxColumnLength
    && (d.location.None? || |d.location.value| <= MaxColumnLength)
  }
}
