/**
 The three operations of Python's `str` that the splitter relies on, written
 as pure functions over `seq<char>`: `find` (lowest index of a substring),
 slicing with non-negative bounds (`s[lo:hi]`, which clamps instead of
 failing), and `strip()` with no argument (removes leading and trailing
 whitespace).
 */
module Strings {

  /** The code points CPython's `str.isspace` (and therefore `str.strip()`)
      treats as whitespace. */
  const SpaceChars: set<char> := {
    '\t', '\n', '\U{000B}', '\U{000C}', '\r',
    '\U{001C}', '\U{001D}', '\U{001E}', '\U{001F}', ' ',
    '\U{0085}', '\U{00A0}', '\U{1680}',
    '\U{2000}', '\U{2001}', '\U{2002}', '\U{2003}', '\U{2004}', '\U{2005}',
    '\U{2006}', '\U{2007}', '\U{2008}', '\U{2009}', '\U{200A}',
    '\U{2028}', '\U{2029}', '\U{202F}', '\U{205F}', '\U{3000}'
  }

  predicate IsSpace(c: char) {
    c in SpaceChars
  }

  predicate AllSpace(s: string) {
    forall k | 0 <= k < |s| :: IsSpace(s[k])
  }

  function Min(a: nat, b: nat): nat {
    if a <= b then a else b
  }

  // ---------------------------------------------------------------- find

  /** `pat` occurs in `text` starting at index `i`. */
  predicate OccursAt(text: string, pat: string, i: nat) {
    i + |pat| <= |text| && text[i..i + |pat|] == pat
  }

  ghost predicate Occurs(text: string, pat: string) {
    exists i: nat :: OccursAt(text, pat, i)
  }

  /** `i` is where `pat` occurs first in `text`. */
  predicate IsFirstOccurrence(text: string, pat: string, i: nat) {
    OccursAt(text, pat, i) && forall j: nat | j < i :: !OccursAt(text, pat, j)
  }

  /** Scans `text` from index `from` for the first occurrence of `pat`. */
  function FindFrom(text: string, pat: string, from: nat): (r: Option<nat>)
    ensures r.Some? ==> from <= r.value && OccursAt(text, pat, r.value)
    ensures r.Some? ==> forall j: nat | from <= j < r.value :: !OccursAt(text, pat, j)
    ensures r.None? ==> forall j: nat | from <= j :: !OccursAt(text, pat, j)
    decreases |text| - from
  {
    if from + |pat| > |text| then None
    else if OccursAt(text, pat, from) then Some(from)
    else FindFrom(text, pat, from + 1)
  }

  /** Python's `text.find(pat)`, with `None` standing for the result -1. */
  function Find(text: string, pat: string): (r: Option<nat>)
    ensures r.Some? <==> Occurs(text, pat)
    ensures r.Some? ==> IsFirstOccurrence(text, pat, r.value)
  {
    FindFrom(text, pat, 0)
  }

  datatype Option<+T> = None | Some(value: T)

  // ---------------------------------------------------------------- slicing

  /** Python's `s[lo:hi]` for non-negative bounds: both bounds are clamped to
      `len(s)`, and a slice whose end is not after its start is empty. */
  function Slice(s: string, lo: nat, hi: nat): (r: string)
    ensures |r| == if Min(hi, |s|) <= lo then 0 else Min(hi, |s|) - lo
    ensures forall k | 0 <= k < |r| :: r[k] == s[lo + k]
  {
    var a := Min(lo, |s|);
    var b := Min(hi, |s|);
    if b <= a then [] else s[a..b]
  }

  lemma SliceInRange(s: string, lo: nat, hi: nat)
    requires lo <= hi <= |s|
    ensures Slice(s, lo, hi) == s[lo..hi]
  {
  }

  // ---------------------------------------------------------------- strip

  /** Number of whitespace characters at the start of `s`. */
  function LeadingSpaces(s: string): (n: nat)
    ensures n <= |s|
    ensures forall k | 0 <= k < n :: IsSpace(s[k])
    ensures n < |s| ==> !IsSpace(s[n])
  {
    if |s| > 0 && IsSpace(s[0]) then 1 + LeadingSpaces(s[1..]) else 0
  }

  /** Number of whitespace characters at the end of `s`. */
  function TrailingSpaces(s: string): (n: nat)
    ensures n <= |s|
    ensures forall k | |s| - n <= k < |s| :: IsSpace(s[k])
    ensures n < |s| ==> !IsSpace(s[|s| - 1 - n])
  {
    if |s| > 0 && IsSpace(s[|s| - 1]) then 1 + TrailingSpaces(s[..|s| - 1]) else 0
  }

  /** `r` is `s[lo..hi]`, everything outside `[lo, hi)` is whitespace, and a
      non-empty `r` neither starts nor ends with whitespace. */
  predicate StripBounds(s: string, r: string, lo: nat, hi: nat) {
    && lo <= hi <= |s|
    && r == s[lo..hi]
    && AllSpace(s[..lo])
    && AllSpace(s[hi..])
    && (lo < hi ==> !IsSpace(s[lo]) && !IsSpace(s[hi - 1]))
  }

  /** Independent description of what `s.strip()` returns. */
  ghost predicate IsStripOf(s: string, r: string) {
    exists lo: nat, hi: nat :: StripBounds(s, r, lo, hi)
  }

  /** Python's `s.strip()`: drop whitespace at the front, then at the back. */
  function Strip(s: string): (r: string)
    ensures IsStripOf(s, r)
    ensures r == [] || (!IsSpace(r[0]) && !IsSpace(r[|r| - 1]))
  {
    var lo := LeadingSpaces(s);
    var hi := |s| - TrailingSpaces(s[lo..]);
    assert StripBounds(s, s[lo..hi], lo, hi);
    s[lo..hi]
  }

  /** Any strip of `s` is `Strip(s)`: `IsStripOf` pins down `Strip`
      completely. */
  lemma StripUnique(s: string, a: string)
    requires IsStripOf(s, a)
    ensures a == Strip(s)
  {
    var b := Strip(s);
    var lo1: nat, hi1: nat :| StripBounds(s, a, lo1, hi1);
    var lo2: nat, hi2: nat :| StripBounds(s, b, lo2, hi2);
    SpacesBefore(s, lo1);
    SpacesBefore(s, lo2);
    SpacesFrom(s, hi1);
    SpacesFrom(s, hi2);
  }

  lemma SpacesBefore(s: string, m: nat)
    requires m <= |s| && AllSpace(s[..m])
    ensures forall j | 0 <= j < m :: IsSpace(s[j])
  {
    forall j | 0 <= j < m ensures IsSpace(s[j]) {
      assert s[..m][j] == s[j];
    }
  }

  lemma SpacesFrom(s: string, m: nat)
    requires m <= |s| && AllSpace(s[m..])
    ensures forall j | m <= j < |s| :: IsSpace(s[j])
  {
    forall j | m <= j < |s| ensures IsSpace(s[j]) {
      assert s[m..][j - m] == s[j];
    }
  }

  lemma StripIdempotent(s: string)
    ensures Strip(Strip(s)) == Strip(s)
  {
    var r := Strip(s);
    assert StripBounds(r, r, 0, |r|);
    StripUnique(r, r);
  }

  lemma StripEmptyIffAllSpace(s: string)
    ensures Strip(s) == [] <==> AllSpace(s)
  {
    var r := Strip(s);
    var lo: nat, hi: nat :| StripBounds(s, r, lo, hi);
    SpacesBefore(s, lo);
    SpacesFrom(s, hi);
  }

  /** A prefix of `s` that neither starts nor ends with whitespace survives
      `strip()` intact at the front of the result. */
  lemma StripKeepsSolidPrefix(s: string, p: string)
    requires 0 < |p| <= |s| && s[..|p|] == p
    requires !IsSpace(p[0]) && !IsSpace(p[|p| - 1])
    ensures |p| <= |Strip(s)| && Strip(s)[..|p|] == p
  {
    var r := Strip(s);
    var lo: nat, hi: nat :| StripBounds(s, r, lo, hi);
    SpacesBefore(s, lo);
    SpacesFrom(s, hi);
    assert s[0] == p[0] && s[|p| - 1] == p[|p| - 1];
  }
}
