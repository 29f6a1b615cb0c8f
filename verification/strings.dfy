/** The JavaScript string built-ins the search box relies on:
    `toLowerCase`, folded on the ASCII letters only, and `includes`. */
module Strings {

  predicate IsUpper(c: char)
  {
    'A' <= c <= 'Z'
  }

  /** The lower-case form of one character; only `A`..`Z` change. */
  function LowerChar(c: char): (d: char)
    ensures !IsUpper(d)
    ensures !IsUpper(c) ==> d == c
    ensures IsUpper(c) ==> d as int - c as int == 'a' as int - 'A' as int
  {
    if IsUpper(c) then (c as int + ('a' as int - 'A' as int)) as char else c
  }

  /** `s.toLowerCase()` on the ASCII letters: no upper-case letter is
      left, every other character stays, and each upper-case letter becomes
      its lower-case partner. */
  function Lower(s: string): (r: string)
    ensures |r| == |s|
    ensures forall i :: 0 <= i < |r| ==> !IsUpper(r[i])
    ensures forall i :: 0 <= i < |s| && !IsUpper(s[i]) ==> r[i] == s[i]
    ensures forall i :: 0 <= i < |s| && IsUpper(s[i]) ==> r[i] as int - s[i] as int == 'a' as int - 'A' as int
  {
    seq(|s|, i requires 0 <= i < |s| => LowerChar(s[i]))
  }

  /** Lower-casing a lower-case string changes nothing. */
  lemma LowerIdempotent(s: string)
    ensures Lower(Lower(s)) == Lower(s)
  {
  }

  /** `s.includes(pat)`, searched from the front. */
  predicate Includes(s: string, pat: string)
    decreases |s|
  {
    pat <= s || (|s| > 0 && Includes(s[1..], pat))
  }

  /** `pat` occurs in `s` starting at position `i`. */
  ghost predicate OccursAt(s: string, pat: string, i: int)
  {
    0 <= i && i + |pat| <= |s| && s[i..i + |pat|] == pat
  }

  /** Every occurrence is found by the search. */
  lemma {:induction false} OccurrenceIsIncluded(s: string, pat: string, i: int)
    requires OccursAt(s, pat, i)
    ensures Includes(s, pat)
    decreases |s|
  {
    if i == 0 {
      assert s[..|pat|] == pat;
    } else {
      assert s[1..][i - 1..i - 1 + |pat|] == s[i..i + |pat|];
      OccurrenceIsIncluded(s[1..], pat, i - 1);
    }
  }

  /** The search only succeeds on an actual occurrence, returned as `i`. */
  lemma {:induction false} IncludedOccurs(s: string, pat: string) returns (i: int)
    requires Includes(s, pat)
    ensures OccursAt(s, pat, i)
    decreases |s|
  {
    if pat <= s {
      i := 0;
    } else {
      var j := IncludedOccurs(s[1..], pat);
      assert s[1..][j..j + |pat|] == s[j + 1..j + 1 + |pat|];
      i := j + 1;
    }
  }

  /** `Includes` finds exactly the patterns that occur somewhere in `s`,
      which in particular makes the empty pattern occur everywhere. */
  lemma IncludesIff(s: string, pat: string)
    ensures Includes(s, pat) <==> exists i :: OccursAt(s, pat, i)
  {
    if Includes(s, pat) {
      var i := IncludedOccurs(s, pat);
    }
    if exists i :: OccursAt(s, pat, i) {
      var i :| OccursAt(s, pat, i);
      OccurrenceIsIncluded(s, pat, i);
    }
  }

  /** The case-insensitive `includes` of the search box: both sides are
      lower-cased first. */
  predicate IncludesIgnoringCase(s: string, pat: string)
  {
    Includes(Lower(s), Lower(pat))
  }

  /** Changing the case of either side does not change the outcome. */
  lemma IgnoresCase(s: string, pat: string)
    ensures IncludesIgnoringCase(Lower(s), pat) == IncludesIgnoringCase(s, pat)
    ensures IncludesIgnoringCase(s, Lower(pat)) == IncludesIgnoringCase(s, pat)
  {
    LowerIdempotent(s);
    LowerIdempotent(pat);
  }
}
