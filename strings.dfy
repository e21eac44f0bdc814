/**
 * String helpers of the model, over `seq<char>`: `IndexOf` finds the occurrence
 * that the string-pattern `replace` swaps, and `EndsWith` states the `/\.tsx?$/` guard.
 */
module Strings {
  import opened Wrappers

  /** `pat` occurs in `s` starting at index `i`. */
  predicate OccursAt(s: string, pat: string, i: nat)
  {
    i + |pat| <= |s| && s[i..i + |pat|] == pat
  }

  /** `i` is the first index at which `pat` occurs in `s`. */
  predicate FirstOccurrence(s: string, pat: string, i: nat)
  {
    OccursAt(s, pat, i) && forall j: nat :: j < i ==> !OccursAt(s, pat, j)
  }

  /** The first occurrence of `pat` in `s` at or after index `from`. */
  function IndexFrom(s: string, pat: string, from: nat): (r: Option<nat>)
    decreases |s| - from
    ensures r.Some? ==> from <= r.value && OccursAt(s, pat, r.value)
    ensures r.Some? ==> forall j: nat :: from <= j < r.value ==> !OccursAt(s, pat, j)
    ensures r.None? ==> forall j: nat :: from <= j ==> !OccursAt(s, pat, j)
  {
    if from + |pat| > |s| then None
    else if s[from..from + |pat|] == pat then Some(from)
    else IndexFrom(s, pat, from + 1)
  }

  /** The index of the first occurrence of `pat` in `s`, or `None` when there is none. */
  function IndexOf(s: string, pat: string): (r: Option<nat>)
    ensures r.Some? ==> FirstOccurrence(s, pat, r.value)
    ensures r.None? ==> forall j: nat :: !OccursAt(s, pat, j)
  {
    IndexFrom(s, pat, 0)
  }

  /**
   * `s.replace(pat, rep)` with a string pattern: only the first occurrence
   * of `pat` is replaced, and `s` is returned unchanged when there is none.
   */
  function ReplaceFirst(s: string, pat: string, rep: string): (r: string)
    ensures (forall j: nat :: !OccursAt(s, pat, j)) ==> r == s
    ensures forall i: nat :: FirstOccurrence(s, pat, i) ==> r == s[..i] + rep + s[i + |pat|..]
  {
    match IndexOf(s, pat)
    case None => s
    case Some(i) => s[..i] + rep + s[i + |pat|..]
  }

  /** `s` ends with `suffix`. */
  predicate EndsWith(s: string, suffix: string)
  {
    |suffix| <= |s| && s[|s| - |suffix|..] == suffix
  }

  /** A string that begins with `pat` has its first occurrence at 0, so `replace` swaps exactly that prefix. */
  lemma ReplaceLeadingOccurrence(s: string, pat: string, rep: string)
    requires |pat| <= |s| && s[..|pat|] == pat
    ensures ReplaceFirst(s, pat, rep) == rep + s[|pat|..]
  {
    assert s[0..|pat|] == s[..|pat|];
    assert OccursAt(s, pat, 0);
    assert FirstOccurrence(s, pat, 0);
    assert s[..0] + rep + s[|pat|..] == rep + s[|pat|..];
  }
}
