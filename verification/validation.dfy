/** Field validation of an employee request, checked before the request
    reaches the service. `today` is the caller's current date. */
module Validation {
  import opened Basics
  import opened Dto
  import Text

  const NameMinLength: nat := 2
  const NameMaxLength: nat := 50
  const PositionMaxLength: nat := 100

  /** `\s` of a Java regular expression: space, tab, line feed, vertical
      tab, form feed, carriage return. */
  predicate IsRegexSpace(c: char)
  {
    c == ' ' || c == '\t' || c == '\n' || c as int == 0x0B || c as int == 0x0C || c == '\r'
  }

  /** The character class `[0-9-+()\s]`: the '-' after the range `0-9` is
      a literal. */
  predicate IsPhoneChar(c: char)
  {
    ('0' <= c <= '9') || c == '-' || c == '+' || c == '(' || c == ')' || IsRegexSpace(c)
  }

  /** The anchored pattern `^[0-9-+()\s]*$` as a matcher: the star takes
      one class character at a time until the input is used up. */
  function MatchesPhonePattern(s: string): bool
    decreases |s|
  {
    |s| == 0 || (IsPhoneChar(s[0]) && MatchesPhonePattern(s[1..]))
  }

  /** The matcher accepts exactly the strings made only of class
      characters, the empty string included. */
  lemma {:induction false} PhonePatternIff(s: string)
    ensures MatchesPhonePattern(s) <==> forall i :: 0 <= i < |s| ==> IsPhoneChar(s[i])
    decreases |s|
  {
    if |s| > 0 {
      PhonePatternIff(s[1..]);
      assert forall i :: 1 <= i < |s| ==> s[i] == s[1..][i - 1];
    }
  }

  /** `@NotBlank @Size(min = 2, max = 50)`. */
  predicate NameValid(s: string)
  {
    Text.NotBlank(s) && NameMinLength <= |s| <= NameMaxLength
  }

  /** `@Pattern`: a null phone passes. */
  predicate PhoneValid(p: Option<string>)
  {
    p.None? || MatchesPhonePattern(p.value)
  }

  /** `@Size(max = 100)`: a null position passes. */
  predicate PositionValid(p: Option<string>)
  {
    p.None? || |p.value| <= PositionMaxLength
  }

  /** `@DecimalMin(value = "0.0", inclusive = false)`: a null salary passes. */
  predicate SalaryValid(x: Option<Decimal>)
  {
    x.None? || x.value > 0.0
  }

  /** `@PastOrPresent`: a null hire date passes. */
  predicate HireDateValid(d: Option<Date>, today: Date)
  {
    d.None? || d.value <= today
  }

  /** All constraints of an employee request. The email's syntax check is
      not part of this model, only its `@NotBlank`; `departmentId` is
      unconstrained. */
  predicate EmployeeRequestValid(q: EmployeeRequest, today: Date)
  {
    && NameValid(q.firstName)
    && NameValid(q.lastName)
    && Text.NotBlank(q.email)
    && PhoneValid(q.phone)
    && PositionValid(q.position)
    && SalaryValid(q.salary)
    && HireDateValid(q.hireDate, today)
  }

  /** A name passes exactly when it has 2 to 50 characters, one of them
      beyond the space character. */
  lemma NameValidIff(s: string)
    ensures NameValid(s) <==> (exists i :: 0 <= i < |s| && s[i] > ' ') && 2 <= |s| <= 50
  {
    Text.NotBlankIff(s);
  }

  /** A phone passes exactly when it is null or made only of class
      characters. */
  lemma PhoneValidIff(p: Option<string>)
    ensures PhoneValid(p) <==> (p.Some? ==> forall i :: 0 <= i < |p.value| ==> IsPhoneChar(p.value[i]))
  {
    if p.Some? {
      PhonePatternIff(p.value);
    }
  }

  /** The validity rules restated with plain quantifiers, independently of
      how `trim` and the pattern matcher work. */
  lemma EmployeeRequestValidIff(q: EmployeeRequest, today: Date)
    ensures EmployeeRequestValid(q, today) <==>
      && (exists i :: 0 <= i < |q.firstName| && q.firstName[i] > ' ') && 2 <= |q.firstName| <= 50
      && (exists i :: 0 <= i < |q.lastName| && q.lastName[i] > ' ') && 2 <= |q.lastName| <= 50
      && (exists i :: 0 <= i < |q.email| && q.email[i] > ' ')
      && (q.phone.Some? ==> forall i :: 0 <= i < |q.phone.value| ==> IsPhoneChar(q.phone.value[i]))
      && (q.position.Some? ==> |q.position.value| <= 100)
      && (q.salary.Some? ==> q.salary.value > 0.0)
      && (q.hireDate.Some? ==> q.hireDate.value <= today)
  {
    NameValidIff(q.firstName);
    NameValidIff(q.lastName);
    Text.NotBlankIff(q.email);
    PhoneValidIff(q.phone);
  }

  /** A request valid on one day stays valid on every later day: only the
      hire date depends on the date, and only through an upper bound. */
  lemma ValidityPersists(q: EmployeeRequest, today: Date, later: Date)
    requires today <= later
    requires EmployeeRequestValid(q, today)
    ensures EmployeeRequestValid(q, later)
  {
  }

  /** A two-character name made of spaces has the right length but is
      blank, so it is rejected. */
  lemma BlankNameRejected()
    ensures !NameValid("  ")
  {
    NameValidIff("  ");
  }

  /** A phone with a letter in it is rejected. */
  lemma LetterInPhoneRejected()
    ensures !PhoneValid(Some("555-CALL"))
  {
    PhoneValidIff(Some("555-CALL"));
    assert !IsPhoneChar("555-CALL"[4]);
  }
}
