/** Queries over the `departments` table, read the same way as the
    employee queries: literal keywords, ASCII LOWER, three-valued logic. */
module DepartmentRepository {
  import opened Basics
  import opened Entities
  import opened Db
  import Sql
  import Text

  /** Every department name in the table. */
  function Names(s: Store): set<string>
  {
    set id | id in s.departments :: s.departments[id].name
  }

  /** `existsByName`: case-sensitive exact match against the stored names. */
  function ExistsByName(s: Store, name: string): (b: bool)
    ensures b <==> name in Names(s)
  {
    exists id :: id in s.departments && s.departments[id].name == name
  }

  /** Some member of a non-empty set of keys. */
  method Pick<T>(u: set<T>) returns (x: T)
    requires u != {}
    ensures x in u
  {
    x :| x in u;
  }

  /** `findByName`: scans the table for a row with this exact name. It
      finds one exactly when `existsByName` holds, and under the unique
      index on the name that row is the only one. */
  method FindByName(s: Store, name: string) returns (r: Option<Department>)
    ensures r.None? <==> !ExistsByName(s, name)
    ensures r.Some? ==> r.value.name == name && r.value in s.departments.Values
    ensures r.Some? && UniqueDepartmentNames(s) ==>
              forall id :: id in s.departments && s.departments[id].name == name ==> s.departments[id] == r.value
  {
    var unseen := s.departments.Keys;
    while unseen != {}
      invariant unseen <= s.departments.Keys
      invariant forall id :: id in s.departments && id !in unseen ==> s.departments[id].name != name
      decreases unseen
    {
      var id := Pick(unseen);
      if s.departments[id].name == name {
        return Some(s.departments[id]);
      }
      unseen := unseen - {id};
    }
    return None;
  }

  /** The rows `searchDepartments` keeps: the keyword occurs in the name or
      in a non-null location. */
  ghost predicate MatchesSearch(d: Department, keyword: string)
  {
    Text.Mentions(d.name, keyword)
    || (d.location.Some? && Text.Mentions(d.location.value, keyword))
  }

  /** The WHERE clause of `searchDepartments`. */
  function SearchWhere(d: Department, keyword: string): (t: Sql.Tri)
    ensures t == Sql.True <==> MatchesSearch(d, keyword)
  {
    Sql.Or(Sql.LowerLike(Some(d.name), Some(keyword)),
           Sql.LowerLike(d.location, Some(keyword)))
  }

  /** `searchDepartments` without its page envelope. */
  function SearchDepartments(s: Store, keyword: string): (r: set<Id>)
    ensures r <= s.departments.Keys
    ensures forall id :: id in s.departments ==> (id in r <==> MatchesSearch(s.departments[id], keyword))
  {
    set id | id in s.departments && SearchWhere(s.departments[id], keyword) == Sql.True
  }

  /** A department without a location can match only through its name:
      the location disjunct is Unknown, never True. */
  lemma NullLocationMatchesOnlyByName(d: Department, keyword: string)
    requires d.location.None?
    ensures SearchWhere(d, keyword) == Sql.True <==> Text.Mentions(d.name, keyword)
    ensures SearchWhere(d, keyword) != Sql.False
  {
  }
}
