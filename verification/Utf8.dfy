/** UTF-8 text as byte strings: one character at a time, with the control
    characters a header value may not hold. */
module Utf8 {
  import opened Bytes

  predicate IsContinuation(b: Byte) {
    0x80 <= b < 0xC0
  }

  predicate Continues(s: seq<Byte>, i: nat, low: int, high: int) {
    i < |s| && low <= s[i] <= high
  }

  /** The length of the well-formed character at the front, or 0. */
  function CharLen(s: seq<Byte>): (n: nat)
    ensures n <= 4 && n <= |s|
    ensures 0 < n ==> !IsContinuation(s[0]) && forall i :: 0 < i < n ==> IsContinuation(s[i])
  {
    if s == [] then 0
    else if s[0] < 0x80 then 1
    else if 0xC2 <= s[0] <= 0xDF then
      (if Continues(s, 1, 0x80, 0xBF) then 2 else 0)
    else if 0xE0 <= s[0] <= 0xEF then
      (if Continues(s, 1, if s[0] == 0xE0 then 0xA0 else 0x80, if s[0] == 0xED then 0x9F else 0xBF) &&
          Continues(s, 2, 0x80, 0xBF) then 3 else 0)
    else if 0xF0 <= s[0] <= 0xF4 then
      (if Continues(s, 1, if s[0] == 0xF0 then 0x90 else 0x80, if s[0] == 0xF4 then 0x8F else 0xBF) &&
          Continues(s, 2, 0x80, 0xBF) && Continues(s, 3, 0x80, 0xBF) then 4 else 0)
    else 0
  }

  predicate IsUtf8(s: seq<Byte>) {
    s == [] || (0 < CharLen(s) && IsUtf8(s[CharLen(s)..]))
  }

  /** The character at the front is a control character other than TAB. */
  predicate StartsWithControl(s: seq<Byte>) {
    s != [] &&
    ((s[0] < 0x20 && s[0] != TAB) || s[0] == 0x7F || (s[0] == 0xC2 && Continues(s, 1, 0x80, 0x9F)))
  }

  /** Well-formed and free of control characters, TAB excepted. */
  predicate IsText(s: seq<Byte>) {
    s == [] || (0 < CharLen(s) && !StartsWithControl(s) && IsText(s[CharLen(s)..]))
  }

  lemma {:induction false} TextIsUtf8(s: seq<Byte>)
    requires IsText(s)
    ensures IsUtf8(s)
    decreases |s|
  {
    if s != [] {
      TextIsUtf8(s[CharLen(s)..]);
    }
  }

  /** `is_char_boundary`. */
  predicate Boundary(s: seq<Byte>, i: nat) {
    i <= |s| && (i == |s| || !IsContinuation(s[i]))
  }

  /** A character is read from its own bytes only. */
  lemma CharLenPrefix(s: seq<Byte>, t: seq<Byte>)
    requires 0 < CharLen(s) <= |t|
    requires forall i :: 0 <= i < CharLen(s) ==> t[i] == s[i]
    ensures CharLen(t) == CharLen(s) && (StartsWithControl(t) <==> StartsWithControl(s))
  {
    assert t[0] == s[0];
    if 1 < CharLen(s) {
      assert t[1] == s[1];
    }
    if 2 < CharLen(s) {
      assert t[2] == s[2];
    }
    if 3 < CharLen(s) {
      assert t[3] == s[3];
    }
  }

  /** The facts about a cut beyond the first character. */
  lemma CutAfter(s: seq<Byte>, n: nat, j: nat)
    requires n <= j <= |s|
    ensures s[n..][j - n..] == s[j..] && s[..j][n..] == s[n..][..j - n]
    ensures Boundary(s, j) ==> Boundary(s[n..], j - n)
  {
  }

  /** Cutting text at a boundary leaves text on both sides. */
  lemma {:induction false} SplitText(s: seq<Byte>, j: nat)
    requires IsText(s) && Boundary(s, j)
    ensures IsText(s[..j]) && IsText(s[j..])
    decreases |s|
  {
    if j == 0 {
      assert s[0..] == s;
    } else {
      var n := CharLen(s);
      CutAfter(s, n, j);
      SplitText(s[n..], j - n);
      CharLenPrefix(s, s[..j]);
    }
  }

  lemma TextFrom(s: seq<Byte>, j: nat)
    requires IsText(s) && Boundary(s, j)
    ensures IsText(s[j..])
  {
    SplitText(s, j);
  }

  lemma TextUpTo(s: seq<Byte>, j: nat)
    requires IsText(s) && Boundary(s, j)
    ensures IsText(s[..j])
  {
    SplitText(s, j);
  }

  lemma SliceText(s: seq<Byte>, i: nat, j: nat)
    requires IsText(s) && i <= j && Boundary(s, i) && Boundary(s, j)
    ensures IsText(s[i..j])
  {
    TextFrom(s, i);
    CutAfter(s, i, j);
    TextUpTo(s[i..], j - i);
    assert s[i..][..j - i] == s[i..j];
  }

  /** Text is a boundary at its start. */
  lemma TextStarts(s: seq<Byte>)
    requires IsText(s)
    ensures Boundary(s, 0)
  {
  }

  /** Among any four neighbouring positions there is a character boundary. */
  lemma {:induction false} BoundaryNear(s: seq<Byte>, j: nat) returns (k: nat)
    requires IsText(s) && 4 <= j <= |s|
    ensures j - 3 <= k <= j && Boundary(s, k)
    decreases |s|
  {
    var n := CharLen(s);
    var rest := s[n..];
    TextStarts(rest);
    assert n < |s| ==> rest[0] == s[n];
    if j - 3 <= n {
      k := n;
    } else {
      k := BoundaryNear(rest, j - n);
      assert k < |rest| ==> rest[k] == s[n + k];
      k := n + k;
    }
  }
}
