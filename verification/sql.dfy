/** The fragment of SQL the repository queries use, with SQL's
    three-valued logic: a comparison involving NULL is Unknown, and a WHERE
    clause keeps a row only when it evaluates to True. */
module Sql {
  import opened Basics
  import Text

  datatype Tri = True | False | Unknown

  function FromBool(b: bool): Tri
  {
    if b then True else False
  }

  /** Kleene conjunction: False wins over Unknown. */
  function And(a: Tri, b: Tri): (r: Tri)
    ensures r == True <==> a == True && b == True
    ensures r == False <==> a == False || b == False
  {
    if a == False || b == False then False
    else if a == True && b == True then True
    else Unknown
  }

  /** Kleene disjunction: True wins over Unknown. */
  function Or(a: Tri, b: Tri): (r: Tri)
    ensures r == True <==> a == True || b == True
    ensures r == False <==> a == False && b == False
  {
    if a == True || b == True then True
    else if a == False && b == False then False
    else Unknown
  }

  /** `x IS NULL`: never Unknown. */
  function IsNull<T>(x: Option<T>): (r: Tri)
    ensures r != Unknown
    ensures r == True <==> x.None?
  {
    if x.None? then True else False
  }

  /** `a = b`: Unknown as soon as one side is NULL. */
  function Equals<T(==)>(a: Option<T>, b: Option<T>): (r: Tri)
    ensures r == Unknown <==> a.None? || b.None?
    ensures r == True <==> a.Some? && b.Some? && a.value == b.value
  {
    if a.None? || b.None? then Unknown else FromBool(a.value == b.value)
  }

  /** `LOWER(x)`: NULL stays NULL. */
  function Lower(x: Option<string>): (r: Option<string>)
    ensures r.None? <==> x.None?
    ensures r.Some? ==> |r.value| == |x.value|
  {
    match x
    case None => None
    case Some(v) => Some(Text.Lower(v))
  }

  /** `COALESCE(x, d)`. */
  function Coalesce(x: Option<string>, d: string): string
  {
    match x
    case None => d
    case Some(v) => v
  }

  /** `x LIKE CONCAT('%', k, '%')` with `k` read as a literal: Unknown when
      either side is NULL, otherwise whether `k` occurs in `x`. */
  function LikeContains(x: Option<string>, k: Option<string>): (r: Tri)
    ensures r == Unknown <==> x.None? || k.None?
    ensures r == True <==> x.Some? && k.Some? && exists i :: Text.OccursAt(x.value, k.value, i)
  {
    if x.None? || k.None? then Unknown
    else
      Text.ContainsIff(x.value, k.value);
      FromBool(Text.Contains(x.value, k.value))
  }

  /** `LOWER(x) LIKE LOWER(CONCAT('%', k, '%'))`: case-insensitive
      containment, Unknown when either side is NULL. */
  function LowerLike(x: Option<string>, k: Option<string>): (r: Tri)
    ensures r == Unknown <==> x.None? || k.None?
    ensures r == True <==> x.Some? && k.Some? && Text.Mentions(x.value, k.value)
  {
    LikeContains(Lower(x), Lower(k))
  }
}
