/** Physical lines: LF-terminated runs of bytes, the last one possibly unterminated. */
module PhysicalLines {
  import opened Bytes

  /** The length of the first line of `s`, its LF included. */
  function LineLen(s: seq<Byte>): (n: nat)
    ensures n <= |s| && (s != [] ==> 0 < n)
    ensures forall j :: 0 <= j < n - 1 ==> s[j] != LF
    ensures n < |s| ==> s[n - 1] == LF
  {
    LineEnd(s, 0)
  }

  /** The index just after the first LF at or after `i`, or the end. */
  function LineEnd(s: seq<Byte>, i: nat): (n: nat)
    requires i <= |s|
    ensures i <= n <= |s| && (i < |s| ==> i < n)
    ensures forall j :: i <= j < n - 1 ==> s[j] != LF
    ensures n < |s| ==> s[n - 1] == LF
    decreases |s| - i
  {
    if i == |s| then i else if s[i] == LF then i + 1 else LineEnd(s, i + 1)
  }

  /** The index of the first LF at or after `i`. */
  function FindLF(s: seq<Byte>, i: nat): (r: Option<nat>)
    requires i <= |s|
    ensures r.Some? ==> i <= r.value < |s| && s[r.value] == LF && forall j :: i <= j < r.value ==> s[j] != LF
    ensures r.None? ==> forall j :: i <= j < |s| ==> s[j] != LF
    decreases |s| - i
  {
    if i == |s| then None else if s[i] == LF then Some(i) else FindLF(s, i + 1)
  }

  function FirstLine(s: seq<Byte>): seq<Byte> {
    s[..LineLen(s)]
  }

  function RestLines(s: seq<Byte>): seq<Byte> {
    s[LineLen(s)..]
  }

  function LinesOf(s: seq<Byte>): seq<seq<Byte>> {
    if s == [] then [] else [FirstLine(s)] + LinesOf(RestLines(s))
  }

  /** One line: not empty, and LF nowhere but possibly at its end. */
  predicate IsLine(l: seq<Byte>) {
    l != [] && forall j :: 0 <= j < |l| - 1 ==> l[j] != LF
  }

  predicate EndsLine(l: seq<Byte>) {
    l != [] && l[|l| - 1] == LF
  }

  /** The first line of `l + rest` is `l` when `l` is a finished line, or all there is. */
  lemma FirstLineIs(l: seq<Byte>, rest: seq<Byte>)
    requires IsLine(l) && (EndsLine(l) || rest == [])
    ensures LineLen(l + rest) == |l| && FirstLine(l + rest) == l && RestLines(l + rest) == rest
  {
    var s := l + rest;
    LineLenIs(s, |l|);
    assert s[..|l|] == l && s[|l|..] == rest;
  }

  lemma LineLenIs(s: seq<Byte>, n: nat)
    requires 0 < n <= |s| && (forall j :: 0 <= j < n - 1 ==> s[j] != LF) && (n < |s| ==> s[n - 1] == LF)
    ensures LineLen(s) == n
  {
  }

  lemma FirstLineIsLine(s: seq<Byte>)
    requires s != []
    ensures IsLine(FirstLine(s)) && s == FirstLine(s) + RestLines(s)
    ensures RestLines(s) != [] ==> EndsLine(FirstLine(s))
    ensures |RestLines(s)| < |s|
  {
  }

  /** Every line but the last is finished. */
  ghost predicate Splits(ls: seq<seq<Byte>>) {
    (forall i :: 0 <= i < |ls| ==> IsLine(ls[i])) &&
    (forall i :: 0 <= i < |ls| - 1 ==> EndsLine(ls[i]))
  }

  ghost predicate Finished(ls: seq<seq<Byte>>) {
    forall i :: 0 <= i < |ls| ==> IsLine(ls[i]) && EndsLine(ls[i])
  }

  /** Splitting undoes joining. */
  lemma {:induction false} LinesOfFlatten(ls: seq<seq<Byte>>)
    requires Splits(ls)
    ensures LinesOf(Flatten(ls)) == ls
    decreases |ls|
  {
    if ls != [] {
      var rest := ls[1..];
      if |ls| == 1 {
        assert rest == [];
      } else {
        assert EndsLine(ls[0]);
      }
      LinesOfFlatten(rest);
      FirstLineIs(ls[0], Flatten(rest));
    }
  }

  /** Joining undoes splitting. */
  lemma {:induction false} FlattenOfLines(s: seq<Byte>)
    ensures Flatten(LinesOf(s)) == s && Splits(LinesOf(s))
    decreases |s|
  {
    if s != [] {
      FirstLineIsLine(s);
      FlattenOfLines(RestLines(s));
      SplitsCons(FirstLine(s), LinesOf(RestLines(s)));
    }
  }

  lemma SplitsCons(l: seq<Byte>, ls: seq<seq<Byte>>)
    requires IsLine(l) && Splits(ls) && (ls != [] ==> EndsLine(l))
    ensures Splits([l] + ls) && ([l] + ls)[1..] == ls
  {
  }

  lemma FinishedAppend(a: seq<seq<Byte>>, b: seq<seq<Byte>>)
    requires Finished(a) && Finished(b)
    ensures Finished(a + b)
  {
  }

  /** A text that ends a line splits into finished lines. */
  lemma {:induction false} FinishedLines(s: seq<Byte>)
    requires s == [] || EndsLine(s)
    ensures Finished(LinesOf(s))
    decreases |s|
  {
    if s != [] {
      FirstLineIsLine(s);
      var l, rest := FirstLine(s), RestLines(s);
      if rest == [] {
        NoneRight(l);
      } else {
        assert rest[|rest| - 1] == s[|s| - 1];
      }
      FinishedLines(rest);
      FinishedAppend([l], LinesOf(rest));
    }
  }
}
