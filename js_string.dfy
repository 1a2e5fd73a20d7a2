/**
 * The pieces of JavaScript's string semantics the game relies on: the white-space
 * class `\s` and `String.prototype.trim`, the line terminators that `.` refuses to
 * match, `indexOf` and `lastIndexOf` for one character, and `substring` with its
 * clamping and argument swapping (ECMA-262, section 22.1.3.25 "String.prototype.substring").
 *
 * A JavaScript string is a sequence of UTF-16 code units; here a string is a
 * sequence of Unicode scalar values. A position here counts characters, so it is
 * smaller than JavaScript's index when a character outside the Basic Multilingual
 * Plane comes before it. Every character the game searches for or strips lies in
 * that plane, so the texts cut out, trimmed and compared are the same.
 */
module JsString {

  /** The characters of ECMAScript's WhiteSpace and LineTerminator productions:
      the set `\s` matches and `trim()` strips. */
  predicate IsWhitespace(c: char) {
    c == '\t' || c == '\n' || c == '\U{000B}' || c == '\U{000C}' || c == '\r' || c == ' '
    || c == '\U{00A0}' || c == '\U{1680}' || ('\U{2000}' <= c <= '\U{200A}')
    || c == '\U{2028}' || c == '\U{2029}' || c == '\U{202F}' || c == '\U{205F}'
    || c == '\U{3000}' || c == '\U{FEFF}'
  }

  /** The characters a regular-expression `.` does not match. */
  predicate IsLineTerminator(c: char) {
    c == '\n' || c == '\r' || c == '\U{2028}' || c == '\U{2029}'
  }

  predicate AllWhitespace(s: string) {
    forall k :: 0 <= k < |s| ==> IsWhitespace(s[k])
  }

  /** `r` occurs in `s` as one contiguous run of characters. */
  ghost predicate IsSliceOf(r: string, s: string) {
    exists i, j :: 0 <= i <= j <= |s| && r == s[i..j]
  }

  /** The end of the run of white space that starts at `i`, looking no further than `end`. */
  function WhiteRunEnd(s: string, i: nat, end: nat): (j: nat)
    requires i <= end <= |s|
    decreases end - i
    ensures i <= j <= end
    ensures forall m :: i <= m < j ==> IsWhitespace(s[m])
    ensures j == end || !IsWhitespace(s[j])
  {
    if i == end || !IsWhitespace(s[i]) then i else WhiteRunEnd(s, i + 1, end)
  }

  /** The start of the run of white space that ends at `j`. */
  function WhiteRunStart(s: string, j: nat): (i: nat)
    requires j <= |s|
    ensures i <= j
    ensures forall m :: i <= m < j ==> IsWhitespace(s[m])
    ensures i == 0 || !IsWhitespace(s[i - 1])
  {
    if j == 0 || !IsWhitespace(s[j - 1]) then j else WhiteRunStart(s, j - 1)
  }

  /** `String.prototype.trim`: white space removed from both ends. The result is
      empty exactly when `s` is all white space, and otherwise it neither starts
      nor ends with white space; it is the middle of `s` between two white runs. */
  function Trim(s: string): (r: string)
    ensures r == [] <==> AllWhitespace(s)
    ensures r != [] ==> !IsWhitespace(r[0]) && !IsWhitespace(r[|r| - 1])
    ensures exists i, j :: 0 <= i <= j <= |s| && r == s[i..j]
                           && AllWhitespace(s[..i]) && AllWhitespace(s[j..])
  {
    var j := WhiteRunStart(s, |s|);
    var i := WhiteRunEnd(s, 0, j);
    assert AllWhitespace(s[..i]) && AllWhitespace(s[j..]);
    assert i == j && AllWhitespace(s) ==> j == 0;
    s[i..j]
  }

  /** A string with no white space at either end is its own trim. */
  lemma TrimUnchanged(s: string)
    requires s != [] ==> !IsWhitespace(s[0]) && !IsWhitespace(s[|s| - 1])
    ensures Trim(s) == s
  {
  }

  /** The first position at or after `k` holding `c`, or -1. */
  function FirstFrom(s: string, c: char, k: nat): (r: int)
    requires k <= |s|
    decreases |s| - k
    ensures r == -1 || (k <= r < |s| && s[r] == c)
    ensures forall m :: k <= m < |s| && (r == -1 || m < r) ==> s[m] != c
  {
    if k == |s| then -1 else if s[k] == c then k else FirstFrom(s, c, k + 1)
  }

  /** The last position before `k` holding `c`, or -1. */
  function LastBefore(s: string, c: char, k: nat): (r: int)
    requires k <= |s|
    ensures -1 <= r < k && (r >= 0 ==> s[r] == c)
    ensures forall m :: r < m < k ==> s[m] != c
  {
    if k == 0 then -1 else if s[k - 1] == c then k - 1 else LastBefore(s, c, k - 1)
  }

  /** `s.indexOf(c)` for a one-character search string: the first position of `c`, or -1. */
  function IndexOf(s: string, c: char): (r: int)
    ensures -1 <= r < |s|
    ensures r == -1 <==> c !in s
    ensures r >= 0 ==> s[r] == c && c !in s[..r]
    ensures forall m :: 0 <= m < |s| && s[m] == c ==> 0 <= r <= m
  {
    FirstFrom(s, c, 0)
  }

  /** `s.lastIndexOf(c)` for a one-character search string: the last position of `c`, or -1. */
  function LastIndexOf(s: string, c: char): (r: int)
    ensures -1 <= r < |s|
    ensures r == -1 <==> c !in s
    ensures r >= 0 ==> s[r] == c && c !in s[r + 1..]
    ensures forall m :: 0 <= m < |s| && s[m] == c ==> m <= r
  {
    LastBefore(s, c, |s|)
  }

  /** A search string absent from a prefix is found where the rest starts with it. */
  lemma IndexOfAfterPrefix(p: string, q: string, c: char)
    requires c !in p && q != [] && q[0] == c
    ensures IndexOf(p + q, c) == |p|
  {
    var s := p + q;
    assert s[|p|] == c;
    assert forall m :: 0 <= m < |p| ==> s[m] == p[m];
  }

  /** A search string absent from a suffix is found last where the part before it ends with it. */
  lemma LastIndexOfBeforeSuffix(p: string, q: string, c: char)
    requires c !in q && p != [] && p[|p| - 1] == c
    ensures LastIndexOf(p + q, c) == |p| - 1
  {
    var s := p + q;
    assert s[|p| - 1] == c;
    assert forall m :: |p| <= m < |s| ==> s[m] == q[m - |p|];
  }

  /** An integer argument clamped to the positions of a string of length `n`. */
  function Clamp(x: int, n: nat): (r: nat)
    ensures r <= n
    ensures 0 <= x <= n ==> r == x
  {
    if x < 0 then 0 else if x > n then n else x
  }

  /** `s.substring(start, end)`: both arguments are clamped to `[0, |s|]` and the
      smaller one starts the slice, so the result is always a run of `s`. */
  function Substring(s: string, start: int, end: int): (r: string)
    ensures |r| <= |s|
    ensures IsSliceOf(r, s)
  {
    var a := Clamp(start, |s|);
    var b := Clamp(end, |s|);
    var from := if a <= b then a else b;
    var to := if a <= b then b else a;
    s[from..to]
  }

  /** `substring` does not care about the order of its arguments. */
  lemma SubstringSymmetric(s: string, start: int, end: int)
    ensures Substring(s, start, end) == Substring(s, end, start)
  {
  }

  /** In-range, ordered arguments give exactly the slice between them. */
  lemma SubstringInRange(s: string, start: int, end: int)
    requires 0 <= start <= end <= |s|
    ensures Substring(s, start, end) == s[start..end]
  {
  }

  /** A negative argument counts as 0; an argument past the end counts as `|s|`. */
  lemma SubstringClamps(s: string, start: int, end: int)
    ensures Substring(s, start, end) == Substring(s, Clamp(start, |s|), Clamp(end, |s|))
  {
  }
}
