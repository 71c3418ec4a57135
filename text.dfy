/** Character classes and string helpers with JavaScript's definitions (ECMAScript, section 22.2
    for regular expressions and section 22.1.3.32 for String.prototype.trim). A JavaScript string
    is modelled as a sequence of characters; none of the patterns used by the conversion tells a
    UTF-16 code unit from a code point. */
module Text {

  /** LineTerminator: what `.` in a regular expression does not match. */
  predicate IsLineTerminator(c: char)
  {
    c == '\n' || c == '\r' || c == '\U{2028}' || c == '\U{2029}'
  }

  /** `\s`, and the characters `trim` removes: WhiteSpace (including U+FEFF and the
      space separators) together with LineTerminator. */
  predicate IsSpace(c: char)
  {
    c == '\t' || c == '\U{000B}' || c == '\U{000C}' || c == ' ' || c == '\U{00A0}' ||
    c == '\U{1680}' || ('\U{2000}' <= c <= '\U{200A}') || c == '\U{202F}' ||
    c == '\U{205F}' || c == '\U{3000}' || c == '\U{FEFF}' || IsLineTerminator(c)
  }

  /** `\w`: the ASCII word characters. */
  predicate IsWordChar(c: char)
  {
    ('a' <= c <= 'z') || ('A' <= c <= 'Z') || ('0' <= c <= '9') || c == '_'
  }

  /** Whether a word character sits immediately before, and at, position i. Outside the
      string there is no word character. */
  predicate WordBefore(s: string, i: nat)
  {
    0 < i <= |s| && IsWordChar(s[i - 1])
  }

  predicate WordAt(s: string, i: nat)
  {
    i < |s| && IsWordChar(s[i])
  }

  /** `\b` at position i: exactly one side is a word character. `\B` is its negation. */
  predicate IsBoundary(s: string, i: nat)
  {
    WordBefore(s, i) != WordAt(s, i)
  }

  /** Every character of s[from..to] is in the class. */
  predicate AllIn(s: string, from: nat, to: nat, inClass: char -> bool)
    requires from <= to <= |s|
  {
    forall k :: from <= k < to ==> inClass(s[k])
  }

  /** s[at..] begins with the literal w. */
  predicate StartsWithAt(s: string, at: nat, w: string)
  {
    at + |w| <= |s| && s[at..at + |w|] == w
  }

  /** A literal cannot start where its first character is not. */
  lemma HeadMismatch(s: string, at: nat, w: string)
    requires |w| > 0 && at < |s| && s[at] != w[0]
    ensures !StartsWithAt(s, at, w)
  {
    if at + |w| <= |s| {
      assert s[at..at + |w|][0] == s[at];
    }
  }

  /** The end of the longest run of class characters that starts at `from`: what a greedy
      `[...]*` reaches. */
  function RunEnd(s: string, from: nat, inClass: char -> bool): (e: nat)
    requires from <= |s|
    ensures from <= e <= |s|
    ensures AllIn(s, from, e, inClass)
    ensures e == |s| || !inClass(s[e])
    decreases |s| - from
  {
    if from == |s| || !inClass(s[from]) then from else RunEnd(s, from + 1, inClass)
  }

  /** Only whitespace in s[from..hi]. */
  predicate SpaceIn(s: string, from: nat, hi: nat)
    requires hi <= |s|
  {
    forall k :: from <= k < hi ==> IsSpace(s[k])
  }

  /** Where `trim` starts: the first character at or after `from` that is not whitespace, or
      the end. */
  function SkipSpace(s: string, from: nat): (e: nat)
    requires from <= |s|
    ensures from <= e <= |s| && SpaceIn(s, from, e)
    ensures e == |s| || !IsSpace(s[e])
    decreases |s| - from
  {
    if from == |s| || !IsSpace(s[from]) then from else SkipSpace(s, from + 1)
  }

  /** Where `trim` ends: just after the last character of s[lo..hi] that is not whitespace,
      or lo. */
  function SkipSpaceBack(s: string, lo: nat, hi: nat): (e: nat)
    requires lo <= hi <= |s|
    ensures lo <= e <= hi && SpaceIn(s, e, hi)
    ensures e == lo || !IsSpace(s[e - 1])
    decreases hi
  {
    if hi == lo || !IsSpace(s[hi - 1]) then hi else SkipSpaceBack(s, lo, hi - 1)
  }

  /** String.prototype.trim: the part of s left after removing the leading and trailing
      whitespace and line terminators; only whitespace is removed. */
  function Trim(s: string): (r: string)
    ensures r == [] || (!IsSpace(r[0]) && !IsSpace(r[|r| - 1]))
    ensures exists a: nat :: a + |r| <= |s| && r == s[a..a + |r|] && SpaceIn(s, 0, a) && SpaceIn(s, a + |r|, |s|)
    ensures r == [] <==> SpaceIn(s, 0, |s|)
  {
    var a := SkipSpace(s, 0);
    var e := SkipSpaceBack(s, a, |s|);
    assert a < e ==> s[a..e][0] == s[a] && s[a..e][e - a - 1] == s[e - 1];
    assert a + (e - a) == e;
    s[a..e]
  }

  lemma TrimIdempotent(s: string)
    ensures Trim(Trim(s)) == Trim(s)
  {
    var r := Trim(s);
    if r != [] {
      assert SkipSpace(r, 0) == 0;
      assert SkipSpaceBack(r, 0, |r|) == |r|;
      assert r[0..|r|] == r;
    }
  }
}
