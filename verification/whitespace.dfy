/**
 * `String.prototype.trim`: removal of leading and trailing white space and
 * line terminators, as ECMAScript defines both character classes.
 */
module Whitespace {

  /**
   * ECMAScript WhiteSpace (tab, vertical tab, form feed, space, no-break space,
   * byte order mark and the other space separators) and LineTerminator
   * (line feed, carriage return, line and paragraph separators).
   */
  predicate IsSpace(c: char) {
    || c == '\t' || c == '\U{000B}' || c == '\U{000C}' || c == ' '
    || c == '\U{00A0}' || c == '\U{FEFF}' || c == '\U{1680}'
    || ('\U{2000}' <= c <= '\U{200A}')
    || c == '\U{202F}' || c == '\U{205F}' || c == '\U{3000}'
    || c == '\n' || c == '\r' || c == '\U{2028}' || c == '\U{2029}'
  }

  predicate AllSpace(s: string) {
    forall i :: 0 <= i < |s| ==> IsSpace(s[i])
  }

  /** Neither end of `s` is white space (the empty text included). */
  predicate Bare(s: string) {
    |s| == 0 || (!IsSpace(s[0]) && !IsSpace(s[|s| - 1]))
  }

  /** The first position at or after `i` that is not white space, or `|s|`. */
  function SkipSpace(s: string, i: nat): (k: nat)
    requires i <= |s|
    ensures i <= k <= |s|
    ensures forall j :: i <= j < k ==> IsSpace(s[j])
    ensures k < |s| ==> !IsSpace(s[k])
    decreases |s| - i
  {
    if i == |s| || !IsSpace(s[i]) then i else SkipSpace(s, i + 1)
  }

  /** Going back from `e` no further than `lo`: the end of the last non-space character, or `lo`. */
  function SkipSpaceBack(s: string, lo: nat, e: nat): (k: nat)
    requires lo <= e <= |s|
    ensures lo <= k <= e
    ensures forall j :: k <= j < e ==> IsSpace(s[j])
    ensures k > lo ==> !IsSpace(s[k - 1])
    decreases e
  {
    if e == lo || !IsSpace(s[e - 1]) then e else SkipSpaceBack(s, lo, e - 1)
  }

  /** The text with its leading and trailing white space removed. */
  function Trim(s: string): (r: string)
    ensures Bare(r)
    ensures |r| <= |s|
    ensures AllSpace(s) <==> |r| == 0
  {
    var a := SkipSpace(s, 0);
    var b := SkipSpaceBack(s, a, |s|);
    s[a..b]
  }

  /** Every text is its trimmed core surrounded by white space only. */
  lemma TrimSplits(s: string)
    ensures exists w1, w2 :: AllSpace(w1) && AllSpace(w2) && s == w1 + Trim(s) + w2
  {
    var a := SkipSpace(s, 0);
    var b := SkipSpaceBack(s, a, |s|);
    var w1, m, w2 := s[..a], s[a..b], s[b..];
    assert Trim(s) == m;
    forall i | 0 <= i < |w1|
      ensures IsSpace(w1[i])
    {
      assert w1[i] == s[i];
    }
    forall i | 0 <= i < |w2|
      ensures IsSpace(w2[i])
    {
      assert w2[i] == s[b + i];
    }
    assert s == w1 + m + w2;
    assert AllSpace(w1) && AllSpace(w2) && s == w1 + Trim(s) + w2;
  }

  /** Trimming white space around a bare core yields exactly that core. */
  lemma TrimOfPadded(w1: string, m: string, w2: string)
    requires AllSpace(w1) && AllSpace(w2) && Bare(m)
    ensures Trim(w1 + m + w2) == m
  {
    var s := w1 + m + w2;
    var a := SkipSpace(s, 0);
    var b := SkipSpaceBack(s, a, |s|);
    if |m| == 0 {
      assert AllSpace(s);
      assert a == |s|;
    } else {
      assert s[|w1|] == m[0];
      assert forall j :: 0 <= j < |w1| ==> s[j] == w1[j];
      assert a == |w1|;
      assert s[|w1| + |m| - 1] == m[|m| - 1];
      assert forall j :: |w1| + |m| <= j < |s| ==> s[j] == w2[j - |w1| - |m|];
      assert b == |w1| + |m|;
      assert s[a..b] == m;
    }
  }

  /** Trimming twice is trimming once. */
  lemma TrimIdempotent(s: string)
    ensures Trim(Trim(s)) == Trim(s)
  {
    TrimOfPadded("", Trim(s), "");
    assert "" + Trim(s) + "" == Trim(s);
  }
}
