/**
 * The string primitives of JavaScript that the employee directory relies on:
 * the white-space class shared by `String.prototype.trim` and the regular
 * expression escape `\s`, `trim`, `toLowerCase` (restricted to ASCII letters),
 * `includes`, and the `<` order on strings.
 */
module Text {

  /**
   * The class `\s` of regular expressions, which is also what `trim` removes:
   * the WhiteSpace and LineTerminator code points of ECMA-262 (sections 12.2 and 12.3),
   * that is U+0009 to U+000D, U+0020, U+00A0, U+1680, U+2000 to U+200A, U+2028,
   * U+2029, U+202F, U+205F, U+3000 and U+FEFF.
   */
  predicate IsSpace(c: char) {
    || ('\t' <= c <= '\r') || c == ' ' || c == '\U{00A0}' || c == '\U{1680}'
    || ('\U{2000}' <= c <= '\U{200A}') || c == '\U{2028}' || c == '\U{2029}'
    || c == '\U{202F}' || c == '\U{205F}' || c == '\U{3000}' || c == '\U{FEFF}'
  }

  predicate AllSpace(s: string) {
    forall i :: 0 <= i < |s| ==> IsSpace(s[i])
  }

  predicate NoSpace(s: string) {
    forall i :: 0 <= i < |s| ==> !IsSpace(s[i])
  }

  /** Index of the first non-space character at or after `k` (or `|s|`). */
  function SkipSpaces(s: string, k: nat): (i: nat)
    requires k <= |s|
    ensures k <= i <= |s|
    ensures forall m :: k <= m < i ==> IsSpace(s[m])
    ensures i < |s| ==> !IsSpace(s[i])
    decreases |s| - k
  {
    if k == |s| || !IsSpace(s[k]) then k else SkipSpaces(s, k + 1)
  }

  /** The end of the last non-space character before `k` that is at or after `lo` (or `lo`). */
  function SkipSpacesBack(s: string, lo: nat, k: nat): (j: nat)
    requires lo <= k <= |s|
    ensures lo <= j <= k
    ensures forall m :: j <= m < k ==> IsSpace(s[m])
    ensures j > lo ==> !IsSpace(s[j - 1])
    decreases k
  {
    if k == lo || !IsSpace(s[k - 1]) then k else SkipSpacesBack(s, lo, k - 1)
  }

  /** Where `trim` cuts: everything before the first bound and from the second bound on is white space. */
  function TrimBounds(s: string): (b: (nat, nat))
    ensures b.0 <= b.1 <= |s|
    ensures forall m :: 0 <= m < b.0 ==> IsSpace(s[m])
    ensures forall m :: b.1 <= m < |s| ==> IsSpace(s[m])
    ensures b.0 < b.1 ==> !IsSpace(s[b.0]) && !IsSpace(s[b.1 - 1])
    ensures b.0 == b.1 ==> b.1 == |s|
  {
    var i := SkipSpaces(s, 0);
    (i, SkipSpacesBack(s, i, |s|))
  }

  /** `String.prototype.trim`. */
  function Trim(s: string): (r: string)
    ensures r == [] <==> AllSpace(s)
    ensures r != [] ==> !IsSpace(r[0]) && !IsSpace(r[|r| - 1])
  {
    var b := TrimBounds(s);
    assert b.0 == b.1 ==> AllSpace(s);
    s[b.0..b.1]
  }

  /** A string is its leading white space, its trim, and its trailing white space. */
  lemma TrimParts(s: string)
    ensures var b := TrimBounds(s);
      && s == s[..b.0] + Trim(s) + s[b.1..]
      && AllSpace(s[..b.0]) && AllSpace(s[b.1..])
  {
    var b := TrimBounds(s);
    SplitThree(s, b.0, b.1);
    LeadingSpace(s);
    TrailingSpace(s);
  }

  lemma LeadingSpace(s: string)
    ensures AllSpace(s[..TrimBounds(s).0])
  {
    var lead := s[..TrimBounds(s).0];
    forall m | 0 <= m < |lead| ensures IsSpace(lead[m]) {
      assert lead[m] == s[m];
    }
  }

  lemma TrailingSpace(s: string)
    ensures AllSpace(s[TrimBounds(s).1..])
  {
    var b := TrimBounds(s);
    var tail := s[b.1..];
    forall m | 0 <= m < |tail| ensures IsSpace(tail[m]) {
      assert tail[m] == s[b.1 + m];
    }
  }

  lemma SplitThree<T>(s: seq<T>, i: int, j: int)
    requires 0 <= i <= j <= |s|
    ensures s == s[..i] + s[i..j] + s[j..]
  {
  }

  /** A string with no white space is its own trim. */
  lemma TrimNoSpace(s: string)
    requires NoSpace(s)
    ensures Trim(s) == s
  {
    var b := TrimBounds(s);
    assert |s| > 0 ==> !IsSpace(s[0]) && !IsSpace(s[|s| - 1]);
  }

  /** Trimming twice trims nothing more. */
  lemma TrimIdempotent(s: string)
    ensures Trim(Trim(s)) == Trim(s)
  {
    var r := Trim(s);
    var b := TrimBounds(r);
    assert r != [] ==> !IsSpace(r[0]) && !IsSpace(r[|r| - 1]);
  }

  /** `toLowerCase` on one character; only the ASCII letters are mapped. */
  function LowerChar(c: char): char {
    if 'A' <= c <= 'Z' then (c as int + 32) as char else c
  }

  /** `String.prototype.toLowerCase`, restricted to ASCII letters. */
  function ToLower(s: string): (r: string)
    ensures |r| == |s|
    ensures forall i :: 0 <= i < |s| ==> r[i] == LowerChar(s[i])
  {
    if s == [] then [] else [LowerChar(s[0])] + ToLower(s[1..])
  }

  lemma ToLowerIdempotent(s: string)
    ensures ToLower(ToLower(s)) == ToLower(s)
  {
  }

  /** `hay.includes(needle)`: `needle` occurs in `hay` as a contiguous block. */
  predicate Contains(hay: string, needle: string) {
    exists i :: 0 <= i <= |hay| - |needle| && needle <= hay[i..]
  }

  /** The empty string occurs in every string. */
  lemma ContainsEmpty(hay: string)
    ensures Contains(hay, [])
  {
    assert [] <= hay[0..];
  }

  /**
   * The `<` of JavaScript on strings, as lexicographic order on characters
   * (Unicode code points), a proper prefix first. JavaScript compares UTF-16
   * code units instead; the two orders differ only between a character above
   * U+FFFF and one in U+E000..U+FFFF.
   */
  predicate StrLess(a: string, b: string)
    decreases |a|
  {
    if a == [] then b != []
    else if b == [] then false
    else if a[0] != b[0] then a[0] < b[0]
    else StrLess(a[1..], b[1..])
  }

  lemma {:induction false} StrLessIrreflexive(a: string)
    ensures !StrLess(a, a)
    decreases |a|
  {
    if a != [] { StrLessIrreflexive(a[1..]); }
  }

  lemma {:induction false} StrLessTransitive(a: string, b: string, c: string)
    requires StrLess(a, b) && StrLess(b, c)
    ensures StrLess(a, c)
    decreases |a|
  {
    if a != [] && b != [] && c != [] && a[0] == b[0] && b[0] == c[0] {
      StrLessTransitive(a[1..], b[1..], c[1..]);
    }
  }

  /** Any two different strings are ordered one way or the other. */
  lemma {:induction false} StrLessTotal(a: string, b: string)
    requires a != b
    ensures StrLess(a, b) || StrLess(b, a)
    decreases |a|
  {
    if a != [] && b != [] && a[0] == b[0] {
      assert a == [a[0]] + a[1..] && b == [b[0]] + b[1..];
      StrLessTotal(a[1..], b[1..]);
    }
  }

  lemma {:induction false} StrLessAsymmetric(a: string, b: string)
    requires StrLess(a, b)
    ensures !StrLess(b, a)
  {
    if StrLess(b, a) {
      StrLessTransitive(a, b, a);
      StrLessIrreflexive(a);
    }
  }
}
