/** Python's `str.strip()` with no argument: removal of leading and trailing whitespace. */
module Whitespace {

  /**
   * Python's whitespace characters (`str.isspace`): U+0009..U+000D,
   * U+001C..U+001F, U+0020, U+0085, U+00A0, U+1680, U+2000..U+200A,
   * U+2028, U+2029, U+202F, U+205F and U+3000.
   */
  predicate IsSpace(c: char)
  {
    || ('\t' <= c <= '\r')
    || ('\U{1C}' <= c <= '\U{1F}')
    || c == ' '
    || c == '\U{85}'
    || c == '\U{A0}'
    || c == '\U{1680}'
    || ('\U{2000}' <= c <= '\U{200A}')
    || c == '\U{2028}'
    || c == '\U{2029}'
    || c == '\U{202F}'
    || c == '\U{205F}'
    || c == '\U{3000}'
  }

  predicate AllSpace(s: string)
  {
    forall i :: 0 <= i < |s| ==> IsSpace(s[i])
  }

  /** Length of the longest all-whitespace prefix. */
  function LeadingSpaces(s: string): (k: nat)
    ensures k <= |s|
    ensures AllSpace(s[..k])
    ensures k < |s| ==> !IsSpace(s[k])
  {
    if s == [] || !IsSpace(s[0]) then 0
    else
      var k := 1 + LeadingSpaces(s[1..]);
      assert forall i :: 1 <= i < k ==> s[i] == s[1..][i - 1];
      k
  }

  /** Length of the longest all-whitespace suffix. */
  function TrailingSpaces(s: string): (k: nat)
    ensures k <= |s|
    ensures AllSpace(s[|s| - k..])
    ensures k < |s| ==> !IsSpace(s[|s| - k - 1])
  {
    if s == [] || !IsSpace(s[|s| - 1]) then 0
    else
      var init := s[..|s| - 1];
      var k := 1 + TrailingSpaces(init);
      assert forall i :: |s| - k <= i < |s| - 1 ==> s[i] == init[i];
      k
  }

  /**
   * `s` with surrounding whitespace removed: the result starts right after
   * the longest whitespace prefix, only whitespace follows it, and it
   * neither starts nor ends with whitespace; it is empty exactly when `s` is
   * all whitespace.
   */
  function Strip(s: string): (r: string)
    ensures LeadingSpaces(s) + |r| <= |s|
    ensures r == s[LeadingSpaces(s)..LeadingSpaces(s) + |r|]
    ensures AllSpace(s[LeadingSpaces(s) + |r|..])
    ensures r != [] ==> !IsSpace(r[0]) && !IsSpace(r[|r| - 1])
    ensures r == [] <==> AllSpace(s)
  {
    var lo := LeadingSpaces(s);
    var t := s[lo..];
    var r := t[..|t| - TrailingSpaces(t)];
    CutFacts(s, lo, t, r);
    r
  }

  /** What cutting `s` at the longest whitespace prefix and then at the longest whitespace suffix gives. */
  lemma CutFacts(s: string, lo: nat, t: string, r: string)
    requires lo <= |s| && t == s[lo..] && |r| <= |t| && r == t[..|r|]
    requires AllSpace(s[..lo]) && AllSpace(t[|r|..])
    requires lo < |s| ==> !IsSpace(s[lo])
    requires 0 < |r| ==> !IsSpace(t[|r| - 1])
    ensures lo + |r| <= |s|
    ensures r == s[lo..lo + |r|]
    ensures AllSpace(s[lo + |r|..])
    ensures r != [] ==> !IsSpace(r[0]) && !IsSpace(r[|r| - 1])
    ensures r == [] <==> AllSpace(s)
  {
    assert t[|r|..] == s[lo + |r|..];
    if r == [] {
      assert s == s[..lo] + t;
      AllSpaceConcat(s[..lo], t);
    } else {
      assert r[0] == s[lo];
      assert r[|r| - 1] == t[|r| - 1];
    }
  }

  lemma AllSpaceConcat(a: string, b: string)
    requires AllSpace(a) && AllSpace(b)
    ensures AllSpace(a + b)
  {
  }
}
