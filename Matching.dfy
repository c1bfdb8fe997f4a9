/** Header-value matching as the request handler does it: plain,
    case-sensitive substring containment (JavaScript's String.prototype.includes). */
module Matching {

  /** pat occurs in s starting at index i. */
  ghost predicate OccursAt(s: string, pat: string, i: int)
  {
    0 <= i && i + |pat| <= |s| && s[i..i + |pat|] == pat
  }

  /** Shifting the search window one character to the right. */
  lemma OccursShift(s: string, pat: string, i: int)
    requires |s| >= 1 && i >= 0
    ensures OccursAt(s, pat, i + 1) <==> OccursAt(s[1..], pat, i)
  {
  }

  /** s.includes(pat): scans s left to right for an occurrence of pat. */
  function Includes(s: string, pat: string): (r: bool)
    ensures r <==> exists i :: OccursAt(s, pat, i)
    decreases |s|
  {
    if |s| < |pat| then false
    else if s[..|pat|] == pat then
      assert OccursAt(s, pat, 0);
      true
    else
      IncludesStep(s, pat);
      Includes(s[1..], pat)
  }

  /** When pat is not a prefix of s, an occurrence in s is an occurrence in s[1..]. */
  lemma IncludesStep(s: string, pat: string)
    requires |s| >= |pat| && s[..|pat|] != pat
    ensures (exists i :: OccursAt(s, pat, i)) <==> (exists j :: OccursAt(s[1..], pat, j))
  {
    if i :| OccursAt(s, pat, i) {
      assert i != 0;
      OccursShift(s, pat, i - 1);
    }
    if j :| OccursAt(s[1..], pat, j) {
      OccursShift(s, pat, j);
    }
  }

  /** Any value that contains pat somewhere matches, whatever surrounds it. */
  lemma IncludesInContext(prefix: string, pat: string, suffix: string)
    ensures Includes(prefix + pat + suffix, pat)
  {
    var s := prefix + pat + suffix;
    assert s[|prefix|..|prefix| + |pat|] == pat;
    assert OccursAt(s, pat, |prefix|);
  }

  /** Every string contains the empty string, and a string contains itself. */
  lemma IncludesReflexive(s: string)
    ensures Includes(s, "")
    ensures Includes(s, s)
  {
  }

  /** A value shorter than pat never matches it. */
  lemma IncludesNeedsLength(s: string, pat: string)
    requires |s| < |pat|
    ensures !Includes(s, pat)
  {
  }

  /** Matching is case-sensitive: an upper-cased media type does not match. */
  lemma CaseSensitive()
    ensures !Includes("Application/JSON", "application/json")
  {
    var s, pat := "Application/JSON", "application/json";
    if i :| OccursAt(s, pat, i) {
      assert i == 0;
      assert s[0..16][0] == 'A';
    }
  }
}
