/**
 * The two JavaScript string primitives the search relies on:
 * `String.prototype.toLowerCase` (on the ASCII range) and
 * `String.prototype.indexOf` with the default start position 0.
 */
module Text {

  predicate IsUpper(c: char) {
    'A' <= c <= 'Z'
  }

  /** toLowerCase of one character: ASCII capitals map to small letters, all else is kept. */
  function LowerChar(c: char): (d: char)
    ensures !IsUpper(d)
    ensures IsUpper(c) ==> d as int == c as int + 32
    ensures !IsUpper(c) ==> d == c
  {
    if IsUpper(c) then (c as int + 32) as char else c
  }

  /**
   * toLowerCase of a whole string: same length, no ASCII capital left, and each
   * character either kept or replaced by the small letter of its capital.
   */
  function Lower(s: string): (r: string)
    ensures |r| == |s|
    ensures forall i :: 0 <= i < |r| ==> !IsUpper(r[i])
    ensures forall i :: 0 <= i < |s| ==> SameIgnoringCase(s[i], r[i])
  {
    seq(|s|, i requires 0 <= i < |s| => LowerChar(s[i]))
  }

  /** The two characters are equal, or one is an ASCII capital and the other its small letter. */
  predicate SameIgnoringCase(a: char, b: char) {
    || a == b
    || (IsUpper(a) && b as int == a as int + 32)
    || (IsUpper(b) && a as int == b as int + 32)
  }

  /**
   * Lower-casing both sides is ASCII case-insensitive comparison: two strings
   * lower-case to the same string exactly when they have the same length and agree
   * at each index up to the case of an ASCII letter. Lower-casing twice is
   * lower-casing once.
   */
  lemma LowerIsCaseFolding(s: string, t: string)
    ensures Lower(s) == Lower(t) <==>
              |s| == |t| && forall i :: 0 <= i < |s| ==> SameIgnoringCase(s[i], t[i])
    ensures Lower(Lower(s)) == Lower(s)
  {
  }

  /** `sub` occurs in `s` starting at index `k`. */
  predicate OccursAt(s: string, sub: string, k: int) {
    0 <= k && k + |sub| <= |s| && s[k..k + |sub|] == sub
  }

  /** indexOf searching from index `k`: the first occurrence at or after `k`, or -1. */
  function IndexOfFrom(s: string, sub: string, k: nat): (r: int)
    requires k <= |s|
    ensures r == -1 || (k <= r && OccursAt(s, sub, r))
    ensures r >= 0 ==> forall j :: k <= j < r ==> !OccursAt(s, sub, j)
    ensures r == -1 ==> forall j :: k <= j ==> !OccursAt(s, sub, j)
    decreases |s| - k
  {
    if k + |sub| > |s| then -1
    else if s[k..k + |sub|] == sub then k
    else IndexOfFrom(s, sub, k + 1)
  }

  /** `s.indexOf(sub)`: the least index at which `sub` occurs in `s`, or -1 if it occurs nowhere. */
  function IndexOf(s: string, sub: string): (r: int)
    ensures -1 <= r
    ensures r >= 0 ==> OccursAt(s, sub, r) && forall j :: 0 <= j < r ==> !OccursAt(s, sub, j)
    ensures r == -1 <==> forall j :: !OccursAt(s, sub, j)
    ensures sub == "" ==> r == 0
  {
    IndexOfFrom(s, sub, 0)
  }

  /** `s.indexOf(sub) > -1`: `sub` is a substring of `s`. */
  predicate Contains(s: string, sub: string) {
    IndexOf(s, sub) > -1
  }

}
