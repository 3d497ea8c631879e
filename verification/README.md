# Employee Management System: service core in Dafny

This project models the service core of a Spring Boot employee management
system. Departments own employees. Employees have a unique email and may
belong to one department. Department names are unique.

The model has five layers:

- The relational store is an immutable value: a `departments` table, an
  `employees` table, and the two IDENTITY counters. Each service use case is
  one transaction. It returns an `Outcome` that either commits a new store
  with a result, or rolls back: the store stays as it was and the result is
  the error.
- An employee's link to its department is the foreign-key column. A
  department's employee collection is derived from that column. The mapper
  receives it as a possibly-null set, so the "null list counts as zero"
  branch is kept.
- The repository queries are written out as their JPQL WHERE clauses in
  SQL three-valued logic (`Sql.Tri`). Each one is proved to keep exactly the
  rows described by a plain predicate.
- The request validation annotations on the employee request form a
  predicate. An independent quantifier form of it is proved equivalent.
- The database invariant `Db.Valid` holds in the empty store and is kept
  by every mutating call. Therefore it holds after any sequence of calls.
  The invariant covers unique emails, unique department names, every
  employee's department existing, rows keyed by their own id, counters
  ahead of every id, and the department column limits.

Files: `basics.dfy` (Option, Result, errors), `text.dfy` (ASCII LOWER,
substring search, Java trim), `sql.dfy` (three-valued logic), `entities.dfy`,
`db.dfy` (store and invariant), `dto.dfy`, `mapper.dfy`, `validation.dfy`,
`employee_repository.dfy`, `department_repository.dfy`,
`department_service.dfy`, `employee_service.dfy`, `service_properties.dfy`.

Some reading choices:

- `e.department.id` reads the foreign-key column; it does not join. So an
  unassigned employee passes the filter query's null department parameter.
- The 100-character limits on a department's name and location are
  enforced by the store. An over-long value makes the transaction fail with
  `ConstraintViolation` and roll back. PostgreSQL's exception for excess
  trailing spaces is under "Left out".
- The two updates build their response from the managed entity before
  the transaction commits. Hibernate writes the row and applies
  `@UpdateTimestamp` only at that commit, and only if a column changed.
  So the stored row gets the new time, while the response still shows the
  previous `updatedAt`. A department's column limits are likewise checked
  only when its row is written. For the same reason, the count nested in
  `updateEmployee`'s response is read from the rows as they were before the
  update: it leaves out an employee who has just moved into that department.
- The clock is a parameter (`now`) of each mutating call. The "today" of
  `@PastOrPresent` is a parameter of the validation predicate.

## Model

| member | source | states |
|---|---|---|
| Text.ContainsIff | src/main/java/com/ems/repository/EmployeeRepository.java:30-33 | the substring scan behind `LIKE '%k%'` succeeds exactly when the keyword occurs at some position of the text |
| Text.NotBlankIff | src/main/java/com/ems/dto/EmployeeRequestDTO.java:16-26 | `@NotBlank`: a string is accepted exactly when some character is above the space character, so trimming leaves something |
| Sql.LikeContains | src/main/java/com/ems/repository/EmployeeRepository.java:30-33 | `LIKE CONCAT('%', k, '%')` is Unknown when either side is NULL; otherwise it is True exactly when k occurs in the text |
| Sql.LowerLike | src/main/java/com/ems/repository/EmployeeRepository.java:30-33 | `LOWER(x) LIKE LOWER('%'+k+'%')` is True exactly when the lower-cased keyword occurs in the lower-cased non-null field |
| Db.FreshDepartmentHasNoEmployees | src/main/java/com/ems/entity/Department.java:34-35 | in a valid store no employee references the next department id, so a new department starts with an empty collection |
| Mapper.ToDepartmentSummary | src/main/java/com/ems/util/MapperUtil.java:30-42 | a null department maps to a null summary and a present one to a present summary |
| Mapper.ToDepartmentEntity | src/main/java/com/ems/util/MapperUtil.java:44-55 | a new department has no id and no timestamps, and its employee list starts empty (not null) |
| Mapper.UpdateDepartmentEntity | src/main/java/com/ems/util/MapperUtil.java:57-65 | name, description and location are replaced, nulls included; id and timestamps are kept; a null request changes nothing |
| Mapper.SummaryAgreesWithResponse | src/main/java/com/ems/util/MapperUtil.java:13-42 | the department summary and the full response agree on id, name, location and employee count |
| Mapper.ToDepartmentResponse | src/main/java/com/ems/util/MapperUtil.java:13-28 | the response copies every column of the department, and its employee count is the size of the employee list, or zero when the list is null |
| Mapper.NullEmployeeListCountsZero | src/main/java/com/ems/util/MapperUtil.java:23 | a department whose employee list is null reports the same response as one with an empty list, with a count of zero |
| Mapper.DepartmentRoundTrip | src/main/java/com/ems/util/MapperUtil.java:13-55 | request to entity to response shows the request's three fields, no id or timestamps, and a count of zero |
| Mapper.UpdateDepartmentLastWriteWins | src/main/java/com/ems/util/MapperUtil.java:57-65 | the update is a full replace: a second update overrides the first entirely, and repeating an update is idempotent |
| Mapper.ToEmployeeResponse | src/main/java/com/ems/util/MapperUtil.java:68-87 | the response carries the seven scalar fields, id and timestamps; it has a department summary exactly when the employee's department exists, and that summary shows the department's id, name, location and the number of employees referencing it |
| Mapper.ToEmployeeSummary | src/main/java/com/ems/util/MapperUtil.java:89-103 | the summary names a department exactly when the employee has an existing one |
| Mapper.ToEmployeeEntity | src/main/java/com/ems/util/MapperUtil.java:105-120 | a new employee carries the request's scalar fields, with no id, department or timestamps |
| Mapper.UpdateEmployeeEntity | src/main/java/com/ems/util/MapperUtil.java:122-134 | exactly the seven scalar fields are overwritten, nulls included; id, department and timestamps are kept; a null request changes nothing |
| Mapper.EmployeeRoundTrip | src/main/java/com/ems/util/MapperUtil.java:68-120 | request to entity to response keeps every scalar field and has no department, id or timestamps |
| Mapper.UpdateEmployeeIdempotent | src/main/java/com/ems/util/MapperUtil.java:105-134 | applying an update twice equals applying it once, and it leaves the same scalar fields as creating from that request |
| Mapper.EmployeeSummaryAgreesWithResponse | src/main/java/com/ems/util/MapperUtil.java:68-103 | the employee summary and response agree on shared fields, and the summary's department name is the name in the response's nested summary |
| Mapper.ResponseCountIsLive | src/main/java/com/ems/util/MapperUtil.java:30-42 | the nested employee count is the number of employees referencing that department, which is at least one |
| Validation.PhonePatternIff | src/main/java/com/ems/dto/EmployeeRequestDTO.java:28-29 | the phone regex `^[0-9-+()\s]*$` accepts a string exactly when every character is a digit, one of `-+()` or a regex whitespace character |
| Validation.NameValidIff | src/main/java/com/ems/dto/EmployeeRequestDTO.java:16-22 | a name is valid exactly when it has a non-blank character and a length from 2 to 50 |
| Validation.PhoneValidIff | src/main/java/com/ems/dto/EmployeeRequestDTO.java:28-29 | a null phone is valid; a present one is valid exactly when every character is a phone character |
| Validation.EmployeeRequestValidIff | src/main/java/com/ems/dto/EmployeeRequestDTO.java:16-41 | the whole request is valid exactly when each field meets its constraint: names, email non-blank, phone characters, position at most 100, salary strictly positive, hire date not after today |
| Validation.ValidityPersists | src/main/java/com/ems/dto/EmployeeRequestDTO.java:37-39 | a request valid today stays valid on every later day |
| Validation.BlankNameRejected | src/main/java/com/ems/dto/EmployeeRequestDTO.java:16-18 | a name of two spaces has the right length but is rejected as blank |
| Validation.LetterInPhoneRejected | src/main/java/com/ems/dto/EmployeeRequestDTO.java:28-29 | a phone number containing letters is rejected |
| EmployeeRepository.ExistsByEmail | src/main/java/com/ems/repository/EmployeeRepository.java:22 | true exactly when the email is among the stored emails (case-sensitive) |
| EmployeeRepository.FindByDepartmentId | src/main/java/com/ems/repository/EmployeeRepository.java:26-27 | selects exactly the employees referencing the department; unassigned employees are never selected |
| EmployeeRepository.SearchWhere | src/main/java/com/ems/repository/EmployeeRepository.java:29-33 | the WHERE clause is True exactly when the keyword occurs, ignoring case, in the first name, last name, email or a non-null position |
| EmployeeRepository.SearchEmployees | src/main/java/com/ems/repository/EmployeeRepository.java:29-34 | selects exactly the matching employees |
| EmployeeRepository.FilterWhere | src/main/java/com/ems/repository/EmployeeRepository.java:36-42 | True exactly when each non-null parameter holds: the same department, the position equal ignoring case, and the keyword in first name, last name or email (an empty keyword is ignored) |
| EmployeeRepository.FilterEmployees | src/main/java/com/ems/repository/EmployeeRepository.java:36-48 | selects exactly the employees meeting the filter |
| EmployeeRepository.FilterWithoutParametersKeepsAll | src/main/java/com/ems/repository/EmployeeRepository.java:37-39 | with every parameter null, or only an empty keyword, every employee is kept, including unassigned ones |
| EmployeeRepository.FilterByDepartmentIsFindByDepartment | src/main/java/com/ems/repository/EmployeeRepository.java:26-37 | filtering by department alone selects the same rows as the department query |
| EmployeeRepository.FilterNarrows | src/main/java/com/ems/repository/EmployeeRepository.java:36-42 | each added parameter can only narrow the result |
| EmployeeRepository.PositionFilterIsExact | src/main/java/com/ems/repository/EmployeeRepository.java:33-38 | the position filter is case-insensitive equality, not containment: "Dev" misses "Sr Dev", which the search query finds |
| EmployeeRepository.FilterKeywordIgnoresPosition | src/main/java/com/ems/repository/EmployeeRepository.java:39-42 | the filter's keyword ignores the position, unlike the search query's |
| DepartmentRepository.ExistsByName | src/main/java/com/ems/repository/DepartmentRepository.java:20 | true exactly when the name is among the stored department names (case-sensitive) |
| DepartmentRepository.FindByName | src/main/java/com/ems/repository/DepartmentRepository.java:18 | finds a department exactly when one has that name; under unique names it is the only such one |
| DepartmentRepository.SearchWhere | src/main/java/com/ems/repository/DepartmentRepository.java:22-24 | True exactly when the keyword occurs, ignoring case, in the name or a non-null location |
| DepartmentRepository.SearchDepartments | src/main/java/com/ems/repository/DepartmentRepository.java:22-25 | selects exactly the matching departments |
| DepartmentRepository.NullLocationMatchesOnlyByName | src/main/java/com/ems/repository/DepartmentRepository.java:23-24 | with a null location, only the name can make a department match, and the clause is never False |
| DepartmentService.CreateDepartment | src/main/java/com/ems/service/impl/DepartmentServiceImpl.java:33-45 | a taken name fails as a duplicate and changes nothing; a free name with an over-long column fails as a constraint violation; success holds exactly when neither applies and adds exactly one row with the next id, the request's fields, both timestamps and a count of zero; the invariant is kept; the department counter advances by one exactly on success and the employee counter is untouched |
| DepartmentService.GetDepartmentById | src/main/java/com/ems/service/impl/DepartmentServiceImpl.java:49-56 | fails with not-found exactly when the id is absent; otherwise reports every column of the row and its live employee count |
| DepartmentService.GetAllDepartments | src/main/java/com/ems/service/impl/DepartmentServiceImpl.java:60-69 | one response per department (also the list variant, lines 116-122), each reporting every column of its row and its live employee count |
| DepartmentService.SearchDepartments | src/main/java/com/ems/service/impl/DepartmentServiceImpl.java:73-82 | responses for exactly the departments the search query matches, each reporting every column of its row and its live employee count |
| DepartmentService.UpdateDepartment | src/main/java/com/ems/service/impl/DepartmentServiceImpl.java:85-101 | fails with not-found exactly when the id is absent; keeping the name never fails as a duplicate, taking another department's name does; a changed row with an over-long column fails as a constraint violation; success holds exactly when none of these applies; success replaces the three fields and keeps id, creation time and employees; only a changed row is stamped with the new time; the response still shows the previous `updatedAt`; the invariant is kept; neither id counter changes, so no id is ever handed out twice |
| DepartmentService.DeleteDepartment | src/main/java/com/ems/service/impl/DepartmentServiceImpl.java:104-112 | a missing id fails with not-found; otherwise the department and every employee referencing it are removed, other rows are unchanged, and the invariant is kept; neither id counter changes, so no id is ever handed out twice |
| EmployeeService.CreateEmployee | src/main/java/com/ems/service/impl/EmployeeServiceImpl.java:36-55 | a taken email fails as a duplicate before a missing department fails as not-found; success holds exactly when neither applies; it adds one row with the next id and the request's fields; the invariant is kept; the employee counter advances by one exactly on success and the department counter is untouched |
| EmployeeService.GetEmployeeById | src/main/java/com/ems/service/impl/EmployeeServiceImpl.java:59-66 | fails with not-found exactly when the id is absent; otherwise reports the row's scalar fields, id and timestamps, and, exactly when it has a department, that department's id, name, location and live count |
| EmployeeService.GetAllEmployees | src/main/java/com/ems/service/impl/EmployeeServiceImpl.java:70-79 | one response per employee (also the list variant, lines 165-171), each reporting its row as the single-row read does |
| EmployeeService.SearchEmployees | src/main/java/com/ems/service/impl/EmployeeServiceImpl.java:83-92 | responses for exactly the employees the search query matches, each reporting its row as the single-row read does |
| EmployeeService.FilterEmployees | src/main/java/com/ems/service/impl/EmployeeServiceImpl.java:96-105 | responses for exactly the employees the filter query matches, each reporting its row as the single-row read does |
| EmployeeService.GetEmployeesByDepartment | src/main/java/com/ems/service/impl/EmployeeServiceImpl.java:109-122 | fails with not-found exactly when the department is absent; otherwise returns exactly its employees, each reported as the single-row read does and nesting that department |
| EmployeeService.UpdateEmployee | src/main/java/com/ems/service/impl/EmployeeServiceImpl.java:125-150 | a missing id fails with not-found; the email check applies only to a changed email, and the department lookup follows it; success holds exactly when both checks pass; success replaces the scalar fields and the department, and keeps id and creation time; only a changed row is stamped with the new time; the response shows the previous `updatedAt`, and the nested department's id, name, location and its count as it was before the update; the invariant is kept; neither id counter changes, so no id is ever handed out twice |
| EmployeeService.DeleteEmployee | src/main/java/com/ems/service/impl/EmployeeServiceImpl.java:153-161 | a missing id fails with not-found; otherwise exactly that row is removed and the departments are unchanged; neither id counter changes, so no id is ever handed out twice |
| ServiceProperties.CreateThenGetEmployee | src/main/java/com/ems/service/impl/EmployeeServiceImpl.java:36-66 | reading back a created employee yields exactly the response of the create |
| ServiceProperties.CreateThenGetDepartment | src/main/java/com/ems/service/impl/DepartmentServiceImpl.java:33-56 | reading back a created department yields exactly the response of the create, including the count of zero |
| ServiceProperties.UpdateThenGetDepartment | src/main/java/com/ems/service/impl/DepartmentServiceImpl.java:85-100 | reading back an updated department gives the update's response, except that `updatedAt` shows the time stamped when the row was written |
| ServiceProperties.UpdateThenGetEmployee | src/main/java/com/ems/service/impl/EmployeeServiceImpl.java:125-149 | reading back an updated employee that kept its department gives the update's response, except that `updatedAt` shows the time stamped when the row was written |
| ServiceProperties.MovedEmployeeNotYetCounted | src/main/java/com/ems/service/impl/EmployeeServiceImpl.java:136-149 | an employee moved into a department is missing from the count the update reports: that count is one less than the department's count after the update, which a read-back reports |
| ServiceProperties.DeleteDepartmentCascades | src/main/java/com/ems/entity/Department.java:34 | after a department is deleted, its employees are not found, and every other employee still is |
| ServiceProperties.DeleteEmployeeDecrementsCount | src/main/java/com/ems/service/impl/EmployeeServiceImpl.java:153-161 | deleting an assigned employee lowers its department's count by exactly one |
| ServiceProperties.DeletedIdNotReissued | src/main/java/com/ems/service/impl/EmployeeServiceImpl.java:51-54 | after an employee is deleted, the next create hands out a fresh id, never the deleted one, as an identity sequence does |
| ServiceProperties.CreateEmployeeIncrementsCount | src/main/java/com/ems/service/impl/EmployeeServiceImpl.java:43-54 | creating an employee in a department raises its count by one, and the response reports the new count |
| ServiceProperties.UpdateWithoutDepartmentDetaches | src/main/java/com/ems/service/impl/EmployeeServiceImpl.java:136-144 | an update naming no department detaches the employee from its old department |
| ServiceProperties.RenameToUnusedNameSucceeds | src/main/java/com/ems/service/impl/DepartmentServiceImpl.java:91-97 | renaming to a name no department holds can fail only through a column constraint |
| ServiceProperties.EngineeringExample | src/main/java/com/ems/service/impl/EmployeeServiceImpl.java:36-55 | worked example: from an empty database a department gets id 1 and count 0; an employee in it nests that department with count 1; a second employee with the same email is refused and changes nothing |
| ServiceProperties.Apply | src/main/java/com/ems/entity/Department.java:25-35 | any single mutating call, whether it commits or rolls back, keeps the store invariant; neither id counter ever moves backwards |
| ServiceProperties.RunPreservesValid | src/main/java/com/ems/entity/Department.java:25-35 | every sequence of mutating calls keeps the store invariant: unique emails and names, and references that resolve |
| ServiceProperties.ReachableStoresAreValid | src/main/java/com/ems/entity/Department.java:25-35 | every store reachable from the empty database satisfies the invariant |

## Left out

- Controllers, HTTP status codes and the OpenAPI configuration: they are outside the service core.
- The `@Valid` gate is not modelled: services are not gated on `EmployeeRequestValid`. The predicate is modelled on its own, and the services accept any request, as the service code does.
- Pagination and sorting: list operations return every matching row keyed by id. The page and list variants of "get all" are one function.
- The syntax check of `@Email` (EmployeeRequestDTO.java:25): Hibernate Validator's email grammar is not modelled. Email is only required to be non-blank.
- LOWER is ASCII lower-casing: Unicode case mapping and the database collation are not modelled.
- Search keywords are literal substrings: `%` and `_` inside a keyword are not treated as LIKE wildcards, and neither is PostgreSQL's default LIKE escape character, the backslash.
- Lengths count characters, not UTF-16 code units.
- Concurrency and isolation: calls run one after another. Two concurrent creates racing past the same uniqueness check are not modelled.
- Storage failures other than the department column limits (connection loss and the like) are not modelled.
- Rolled-back inserts: the model rewinds its id counter when a transaction rolls back. A PostgreSQL identity column draws from a sequence, which keeps the value a rejected insert consumed. After a department insert refused by a column limit, the program's next id is therefore one higher than the model's. Ids stay fresh in both.
- Timestamps: Hibernate's dirty check is modelled at row level: a row is written and stamped exactly when one of its columns changed. The clock value is a parameter, and precision or time zones are not modelled.
- EmployeeService.UpdateEmployee: its stale count, which leaves out a just-moved employee, is modelled. Other persistence-context effects are not. For example, a collection already loaded earlier in the same session would keep its loaded contents; no service path does this.
- Null required fields: first name, last name, email and department name are non-null strings. A null there is rejected by validation before the service runs.
- Mapper null arguments: no service passes null to the mappers, so most null guards are not modelled. This covers the null guards of `toDepartmentResponseDTO`, `toEmployeeResponseDTO`, `toEmployeeSummaryDTO`, `toEmployeeEntity` and `toDepartmentEntity`. It also covers the null-entity half of the guards in `updateDepartmentEntity` and `updateEmployeeEntity` (MapperUtil.java:58, :123): both functions take a non-null entity. Only the null-request half of those two guards, and the null guard of `toDepartmentSummaryDTO`, are modelled.
- `findByEmail` (EmployeeRepository.java:20): no service calls it.
- `findByDepartmentId` has a list overload (EmployeeRepository.java:24) with the same WHERE clause. It is covered by the same function.
- Employee.java, DepartmentRequestDTO.java and the exception classes are not part of this model. The employee's column constraints and the department request's validation annotations are therefore not modelled.
- Entities.DepartmentColumnsOk (the column check behind `DepartmentService.CreateDepartment` and `DepartmentService.UpdateDepartment`): PostgreSQL stores an over-long `varchar(100)` value whose excess characters are all spaces by truncating it to 100 characters, without an error. The model rejects such a value with `ConstraintViolation`. For example, "Sales" followed by 96 spaces commits in the program and is refused by the model. The truncated name could also collide with an existing name, and the unique index would then reject it; neither path is modelled.
- Ids are unbounded integers: the 64-bit range of `Long` is not modelled. Zero and negative ids are accepted and answered like any absent id.
- Logging is not modelled.
