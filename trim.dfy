/** `String.prototype.trim` as the send guard uses it: leading and trailing
    white space and line terminators are removed, nothing else. */
module Trimming {

  /** The ECMAScript WhiteSpace and LineTerminator code points: tab, line feed,
      vertical tab, form feed, carriage return, space, no-break space, the
      byte-order mark, the line and paragraph separators and the other
      space separators of Unicode category Zs. */
  predicate IsSpace(c: char)
  {
    || c == '\t' || c == '\n' || c == '\U{000B}' || c == '\U{000C}' || c == '\r'
    || c == ' ' || c == '\U{00A0}' || c == '\U{FEFF}'
    || c == '\U{1680}' || ('\U{2000}' <= c <= '\U{200A}')
    || c == '\U{2028}' || c == '\U{2029}'
    || c == '\U{202F}' || c == '\U{205F}' || c == '\U{3000}'
  }

  ghost predicate AllSpace(s: string)
  {
    forall i :: 0 <= i < |s| ==> IsSpace(s[i])
  }

  /** The first index at or after i that holds no white space (|s| if none):
      everything from i up to it is white space. */
  function SkipSpaceFrom(s: string, i: nat): (a: nat)
    requires i <= |s|
    ensures i <= a <= |s|
    ensures forall k :: i <= k < a ==> IsSpace(s[k])
    ensures a == |s| || !IsSpace(s[a])
    decreases |s| - i
  {
    if i < |s| && IsSpace(s[i]) then SkipSpaceFrom(s, i + 1) else i
  }

  /** The index just past the last non-space of s[lo..j] (lo if none):
      everything from it up to j is white space. */
  function SkipSpaceBack(s: string, lo: nat, j: nat): (b: nat)
    requires lo <= j <= |s|
    ensures lo <= b <= j
    ensures forall k :: b <= k < j ==> IsSpace(s[k])
    ensures b == lo || !IsSpace(s[b - 1])
    decreases j
  {
    if lo < j && IsSpace(s[j - 1]) then SkipSpaceBack(s, lo, j - 1) else j
  }

  /** Where the trimmed text starts and ends in s. */
  function TrimStart(s: string): nat
  {
    SkipSpaceFrom(s, 0)
  }

  function TrimEnd(s: string): nat
  {
    SkipSpaceBack(s, TrimStart(s), |s|)
  }

  function Trim(s: string): string
  {
    s[TrimStart(s)..TrimEnd(s)]
  }

  /** The trimmed text is the slice s[a..b] with only white space outside it,
      and it neither starts nor ends with white space. */
  lemma TrimIsSlice(s: string) returns (a: nat, b: nat)
    ensures a <= b <= |s| && Trim(s) == s[a..b]
    ensures forall k :: 0 <= k < a ==> IsSpace(s[k])
    ensures forall k :: b <= k < |s| ==> IsSpace(s[k])
    ensures Trim(s) == [] || (!IsSpace(Trim(s)[0]) && !IsSpace(Trim(s)[|Trim(s)| - 1]))
  {
    a, b := TrimStart(s), TrimEnd(s);
  }

  /** The send guard's condition: the text trims to nothing exactly when every
      character of it is white space (in particular the empty text). */
  lemma TrimEmptyIffAllSpace(s: string)
    ensures Trim(s) == [] <==> AllSpace(s)
  {
    var a, b := TrimStart(s), TrimEnd(s);
    if Trim(s) != [] {
      assert s[a] == Trim(s)[0];
    }
  }

  /** Trimming twice is trimming once. */
  lemma TrimIdempotent(s: string)
    ensures Trim(Trim(s)) == Trim(s)
  {
    var t := Trim(s);
    if t != [] {
      assert t[0] == s[TrimStart(s)];
      assert t[|t| - 1] == s[TrimEnd(s) - 1];
      assert TrimStart(t) == 0;
      assert TrimEnd(t) == |t|;
    } else {
      assert TrimStart(t) == TrimEnd(t) == 0;
    }
    assert t[0..|t|] == t;
  }
}
