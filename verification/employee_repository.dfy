/** Queries over the `employees` table. Each JPQL WHERE clause is written
    out in SQL's three-valued logic, and its ensures says in plain terms
    which rows it keeps. Keywords are literal substrings (no `%` or `_`
    wildcards) and LOWER is ASCII lower-casing. */
module EmployeeRepository {
  import opened Basics
  import opened Entities
  import opened Db
  import Sql
  import Text

  /** Every email in the table. */
  function Emails(s: Store): set<string>
  {
    set id | id in s.employees :: s.employees[id].email
  }

  /** `existsByEmail`: case-sensitive exact match against the stored emails. */
  function ExistsByEmail(s: Store, email: string): (b: bool)
    ensures b <==> email in Emails(s)
  {
    exists id :: id in s.employees && s.employees[id].email == email
  }

  /** `findByDepartmentId`: WHERE e.department.id = :departmentId. The path
      reads the foreign-key column, so an unassigned employee compares NULL
      and is never selected. */
  function FindByDepartmentId(s: Store, d: Id): (r: set<Id>)
    ensures r == EmployeesOf(s, d)
    ensures forall id :: id in r ==> s.employees[id].department.Some?
  {
    set id | id in s.employees && Sql.Equals(s.employees[id].department, Some(d)) == Sql.True
  }

  /** The rows `searchEmployees` keeps: the keyword occurs in the first
      name, last name, email or a non-null position. */
  ghost predicate MatchesSearch(e: Employee, keyword: string)
  {
    Text.Mentions(e.firstName, keyword) || Text.Mentions(e.lastName, keyword) || Text.Mentions(e.email, keyword)
    || (e.position.Some? && Text.Mentions(e.position.value, keyword))
  }

  /** The WHERE clause of `searchEmployees`. A null position makes its
      disjunct Unknown, which can only help if another disjunct is True. */
  function SearchWhere(e: Employee, keyword: string): (t: Sql.Tri)
    ensures t == Sql.True <==> MatchesSearch(e, keyword)
  {
    var k := Some(keyword);
    Sql.Or(Sql.Or(Sql.Or(
      Sql.LowerLike(Some(e.firstName), k),
      Sql.LowerLike(Some(e.lastName), k)),
      Sql.LowerLike(Some(e.email), k)),
      Sql.LowerLike(e.position, k))
  }

  /** `searchEmployees` without its page envelope: the ids of the matching rows. */
  function SearchEmployees(s: Store, keyword: string): (r: set<Id>)
    ensures r <= s.employees.Keys
    ensures forall id :: id in s.employees ==> (id in r <==> MatchesSearch(s.employees[id], keyword))
  {
    set id | id in s.employees && SearchWhere(s.employees[id], keyword) == Sql.True
  }

  /** The rows `filterEmployees` keeps. Each parameter is a conjunct that
      a null argument switches off: exact department id, case-insensitive
      equality of position (not a substring test), and a keyword searched
      in first name, last name and email only (an empty keyword switches
      it off too). */
  ghost predicate MatchesFilter(e: Employee, departmentId: Option<Id>, position: Option<string>, keyword: Option<string>)
  {
    && (departmentId.None? || e.department == departmentId)
    && (position.None? || (e.position.Some? && Text.Lower(e.position.value) == Text.Lower(position.value)))
    && (keyword.None? || keyword.value == ""
        || Text.Mentions(e.firstName, keyword.value) || Text.Mentions(e.lastName, keyword.value) || Text.Mentions(e.email, keyword.value))
  }

  /** The WHERE clause of `filterEmployees`. */
  function FilterWhere(e: Employee, departmentId: Option<Id>, position: Option<string>, keyword: Option<string>): (t: Sql.Tri)
    ensures t == Sql.True <==> MatchesFilter(e, departmentId, position, keyword)
  {
    Sql.And(Sql.And(
      Sql.Or(Sql.IsNull(departmentId), Sql.Equals(e.department, departmentId)),
      Sql.Or(Sql.IsNull(position), Sql.Equals(Sql.Lower(e.position), Sql.Lower(position)))),
      Sql.Or(Sql.FromBool(Sql.Coalesce(keyword, "") == ""),
        Sql.Or(Sql.Or(
          Sql.LowerLike(Some(e.firstName), keyword),
          Sql.LowerLike(Some(e.lastName), keyword)),
          Sql.LowerLike(Some(e.email), keyword))))
  }

  /** `filterEmployees` without its page envelope. */
  function FilterEmployees(s: Store, departmentId: Option<Id>, position: Option<string>, keyword: Option<string>): (r: set<Id>)
    ensures r <= s.employees.Keys
    ensures forall id :: id in s.employees ==> (id in r <==> MatchesFilter(s.employees[id], departmentId, position, keyword))
  {
    set id | id in s.employees && FilterWhere(s.employees[id], departmentId, position, keyword) == Sql.True
  }

  /** With every parameter null, or only an empty keyword, the filter keeps
      every employee, assigned or not. */
  lemma FilterWithoutParametersKeepsAll(s: Store)
    ensures FilterEmployees(s, None, None, None) == s.employees.Keys
    ensures FilterEmployees(s, None, None, Some("")) == s.employees.Keys
  {
  }

  /** Filtering on a department id alone is `findByDepartmentId`. */
  lemma FilterByDepartmentIsFindByDepartment(s: Store, d: Id)
    ensures FilterEmployees(s, Some(d), None, None) == FindByDepartmentId(s, d)
  {
  }

  /** The three conjuncts are independent: adding a parameter can only
      narrow the result. */
  lemma FilterNarrows(s: Store, d: Id, position: string, keyword: string)
    ensures FilterEmployees(s, Some(d), Some(position), Some(keyword)) <= FilterEmployees(s, Some(d), None, None)
    ensures FilterEmployees(s, Some(d), Some(position), Some(keyword)) <= FilterEmployees(s, None, Some(position), None)
    ensures FilterEmployees(s, Some(d), Some(position), Some(keyword)) <= FilterEmployees(s, None, None, Some(keyword))
  {
  }

  /** The position filter is equality ignoring case, not containment: a
      "Dev" filter misses a "Sr Dev", while the search query finds that
      employee by the same word. */
  lemma PositionFilterIsExact()
    ensures var e := Employee(Some(1), "Ada", "Lee", "a@x.io", None, Some("Sr Dev"),
                              None, None, None, Some(0), Some(0));
            && !MatchesFilter(e, None, Some("Dev"), None)
            && MatchesFilter(e, None, Some("SR DEV"), None)
            && MatchesSearch(e, "Dev")
  {
    var e := Employee(Some(1), "Ada", "Lee", "a@x.io", None, Some("Sr Dev"),
                      None, None, None, Some(0), Some(0));
    LowerSrDev();
    LowerDev();
    assert !MatchesFilter(e, None, Some("Dev"), None) by {
      assert |Text.Lower("Sr Dev")| != |Text.Lower("Dev")|;
    }
    assert MatchesSearch(e, "Dev") by {
      assert Text.OccursAt(Text.Lower("Sr Dev"), Text.Lower("Dev"), 3) by {
        assert "sr dev"[3..6] == "dev";
      }
    }
  }

  /** The filter's keyword ignores the position: an employee found by
      `searchEmployees` only through the position is not kept by
      `filterEmployees` with the same keyword. */
  lemma FilterKeywordIgnoresPosition()
    ensures var e := Employee(Some(1), "Ada", "Lee", "a@x.io", None, Some("Analyst"),
                              None, None, None, Some(0), Some(0));
            && MatchesSearch(e, "analyst")
            && !MatchesFilter(e, None, None, Some("analyst"))
  {
    LowerAnalyst();
    assert Text.OccursAt("analyst", "analyst", 0);
  }

  lemma LowerSrDev()
    ensures Text.Lower("SR DEV") == "sr dev" && Text.Lower("Sr Dev") == "sr dev"
  {
  }

  lemma LowerDev()
    ensures Text.Lower("Dev") == "dev"
  {
  }

  lemma LowerAnalyst()
    ensures Text.Lower("Analyst") == "analyst" && Text.Lower("analyst") == "analyst"
  {
  }
}
