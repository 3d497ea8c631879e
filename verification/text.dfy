/** String operations the queries and the validation rules rely on:
    lower-casing, substring containment, and Java's `String.trim`. */
module Text {

  /** Lower-casing of one character, restricted to ASCII: letters 'A'..'Z'
      become 'a'..'z' and every other character is left alone. */
  function LowerChar(c: char): (r: char)
    ensures !('A' <= r <= 'Z')
    ensures 'a' <= r <= 'z' ==> r == c || r as int == c as int + 32
  {
    if 'A' <= c <= 'Z' then (c as int + 32) as char else c
  }

  /** Lower-casing of a whole string, one character at a time. */
  function Lower(s: string): (r: string)
    ensures |r| == |s|
    ensures forall i :: 0 <= i < |s| ==> r[i] == LowerChar(s[i])
    ensures forall i :: 0 <= i < |r| ==> !('A' <= r[i] <= 'Z')
  {
    if s == [] then [] else [LowerChar(s[0])] + Lower(s[1..])
  }

  /** `k` is a prefix of `s`. */
  predicate IsPrefix(k: string, s: string)
  {
    |k| <= |s| && s[..|k|] == k
  }

  /** `k` occurs in `s` starting at position `i`. */
  ghost predicate OccursAt(s: string, k: string, i: int)
  {
    0 <= i && i + |k| <= |s| && s[i..i + |k|] == k
  }

  /** Substring test, as SQL's `x LIKE '%' || k || '%'` reads it when `k`
      holds no wildcard: try every start position from left to right. */
  function Contains(s: string, k: string): bool
    decreases |s|
  {
    IsPrefix(k, s) || (|s| > 0 && Contains(s[1..], k))
  }

  /** The scan in `Contains` finds `k` exactly when it occurs somewhere. */
  lemma {:induction false} ContainsIff(s: string, k: string)
    ensures Contains(s, k) <==> exists i :: OccursAt(s, k, i)
    decreases |s|
  {
    // Every occurrence is either at the front or an occurrence in the tail.
    forall i | OccursAt(s, k, i)
      ensures (i == 0 && IsPrefix(k, s)) || (|s| > 0 && OccursAt(s[1..], k, i - 1))
    {
      if i == 0 {
        assert s[..|k|] == s[0..0 + |k|];
      } else {
        assert s[1..][i - 1..i - 1 + |k|] == s[i..i + |k|];
      }
    }
    if IsPrefix(k, s) {
      assert OccursAt(s, k, 0);
    } else if |s| > 0 {
      ContainsIff(s[1..], k);
      if Contains(s[1..], k) {
        var i :| OccursAt(s[1..], k, i);
        assert s[1..][i..i + |k|] == s[i + 1..i + 1 + |k|];
        assert OccursAt(s, k, i + 1);
      }
    }
  }

  /** Case-insensitive containment: the lower-cased keyword occurs in the
      lower-cased field. */
  ghost predicate Mentions(field: string, keyword: string)
  {
    exists i :: OccursAt(Lower(field), Lower(keyword), i)
  }

  /** Characters Java's `String.trim` removes: every code point up to and
      including the space character. */
  predicate IsTrimmed(c: char)
  {
    c <= ' '
  }

  /** Every character of `s` is one `trim` removes. */
  ghost predicate AllTrimmed(s: string)
  {
    forall i :: 0 <= i < |s| ==> IsTrimmed(s[i])
  }

  /** Drops leading characters up to and including the space character. */
  function TrimStart(s: string): (r: string)
    ensures |r| <= |s| && r == s[|s| - |r|..]
    ensures |r| > 0 ==> !IsTrimmed(r[0])
    decreases |s|
  {
    if |s| > 0 && IsTrimmed(s[0]) then TrimStart(s[1..]) else s
  }

  /** Drops trailing characters up to and including the space character. */
  function TrimEnd(s: string): (r: string)
    ensures |r| <= |s| && r == s[..|r|]
    ensures |r| > 0 ==> !IsTrimmed(r[|r| - 1])
    decreases |s|
  {
    if |s| > 0 && IsTrimmed(s[|s| - 1]) then TrimEnd(s[..|s| - 1]) else s
  }

  /** Java's `String.trim`. */
  function Trim(s: string): string
  {
    TrimEnd(TrimStart(s))
  }

  /** Bean Validation's `@NotBlank` on a non-null string: something is
      left after `trim`. */
  predicate NotBlank(s: string)
  {
    |Trim(s)| > 0
  }

  lemma {:induction false} TrimStartEmptyIff(s: string)
    ensures |TrimStart(s)| == 0 <==> AllTrimmed(s)
    decreases |s|
  {
    if |s| > 0 && IsTrimmed(s[0]) {
      TrimStartEmptyIff(s[1..]);
      assert AllTrimmed(s[1..]) <==> AllTrimmed(s) by {
        if AllTrimmed(s[1..]) {
          forall i | 0 <= i < |s|
            ensures IsTrimmed(s[i])
          {
            if i > 0 { assert s[i] == s[1..][i - 1]; }
          }
        }
      }
    }
  }

  lemma {:induction false} TrimEndEmptyIff(s: string)
    ensures |TrimEnd(s)| == 0 <==> AllTrimmed(s)
    decreases |s|
  {
    if |s| > 0 && IsTrimmed(s[|s| - 1]) {
      var t := s[..|s| - 1];
      TrimEndEmptyIff(t);
      assert AllTrimmed(t) <==> AllTrimmed(s) by {
        if AllTrimmed(t) {
          forall i | 0 <= i < |s|
            ensures IsTrimmed(s[i])
          {
            if i < |s| - 1 { assert s[i] == t[i]; }
          }
        }
      }
    } else if |s| > 0 {
      assert !IsTrimmed(s[|s| - 1]);
    }
  }

  /** A string is blank exactly when it holds nothing but characters that
      `trim` removes; in particular the empty string is blank. */
  lemma NotBlankIff(s: string)
    ensures NotBlank(s) <==> exists i :: 0 <= i < |s| && s[i] > ' '
  {
    var t := TrimStart(s);
    TrimStartEmptyIff(s);
    TrimEndEmptyIff(t);
    if |t| > 0 {
      assert !IsTrimmed(t[0]);
      assert !AllTrimmed(t);
      assert t[0] == s[|s| - |t|];
    }
  }
}
