/** The matching form of a header: every folding line ending becomes one space. */
module FoldNormalize {
  import opened Bytes
  import opened PhysicalLines
  import opened IngestSpec

  /** A folding LF: the next line continues the field. */
  predicate FoldAt(raw: seq<Byte>, i: nat) {
    i + 1 < |raw| && raw[i] == LF && IsBlank(raw[i + 1])
  }

  ghost predicate HasFold(raw: seq<Byte>) {
    exists i: nat :: FoldAt(raw, i)
  }

  /** `raw` from `i` on with each folding LF, and the CR before it, replaced by one space. */
  function Normal(raw: seq<Byte>, i: nat): seq<Byte>
    requires i <= |raw|
    decreases |raw| - i
  {
    if i == |raw| then []
    else if FoldAt(raw, i) then [SPACE] + Normal(raw, i + 1)
    else if raw[i] == CR && FoldAt(raw, i + 1) then Normal(raw, i + 1)
    else [raw[i]] + Normal(raw, i + 1)
  }

  function Normalized(raw: seq<Byte>): seq<Byte> {
    Normal(raw, 0)
  }

  // ----- Size -----

  lemma {:induction false} NormalSize(raw: seq<Byte>, i: nat)
    requires i <= |raw|
    ensures |Normal(raw, i)| <= |raw| - i
    decreases |raw| - i
  {
    if i < |raw| {
      NormalSize(raw, i + 1);
    }
  }

  // ----- When folds are left -----

  /** Line endings at `i` and just after it, the second one folding: an empty line before a continuation. */
  predicate EmptyBeforeFold(raw: seq<Byte>, i: nat) {
    i < |raw| && raw[i] == LF && (FoldAt(raw, i + 1) || (i + 1 < |raw| && raw[i + 1] == CR && FoldAt(raw, i + 2)))
  }

  /** The first byte of the matching form from `i` on. */
  lemma NormalHead(raw: seq<Byte>, i: nat)
    requires i < |raw|
    ensures Normal(raw, i) != []
    ensures var blank := FoldAt(raw, i) || (raw[i] == CR && FoldAt(raw, i + 1));
            Normal(raw, i)[0] == if blank then SPACE else raw[i]
  {
  }

  /** The matching form has a fold exactly where an empty line came before a continuation. */
  lemma {:induction false} FoldsLeft(raw: seq<Byte>, i: nat)
    requires i <= |raw|
    ensures HasFold(Normal(raw, i)) <==> exists j: nat :: i <= j && EmptyBeforeFold(raw, j)
    decreases |raw| - i
  {
    if i < |raw| {
      FoldsLeft(raw, i + 1);
      if raw[i] == CR && FoldAt(raw, i + 1) && !FoldAt(raw, i) {
        assert Normal(raw, i) == Normal(raw, i + 1);
        FoldsLeftSkip(raw, i);
      } else {
        var b := if FoldAt(raw, i) then SPACE else raw[i];
        FoldInCons(b, Normal(raw, i + 1));
        if i + 1 < |raw| {
          NormalHead(raw, i + 1);
        }
        FoldsLeftKeep(raw, i, b, Normal(raw, i + 1));
      }
    } else if exists j: nat :: i <= j && EmptyBeforeFold(raw, j) {
      assert false;
    }
  }

  lemma FoldsLeftSkip(raw: seq<Byte>, i: nat)
    requires i < |raw| && raw[i] == CR
    ensures (exists j: nat :: i <= j && EmptyBeforeFold(raw, j)) <==> (exists j: nat :: i + 1 <= j && EmptyBeforeFold(raw, j))
  {
    if j: nat :| i <= j && EmptyBeforeFold(raw, j) {
      assert i + 1 <= j;
    }
  }

  lemma FoldInCons(b: Byte, rest: seq<Byte>)
    ensures HasFold([b] + rest) <==> (b == LF && rest != [] && IsBlank(rest[0])) || HasFold(rest)
  {
    var s := [b] + rest;
    if i: nat :| FoldAt(s, i) {
      if 0 < i {
        assert FoldAt(rest, i - 1);
      }
    }
    if i: nat :| FoldAt(rest, i) {
      assert FoldAt(s, i + 1);
    }
    if b == LF && rest != [] && IsBlank(rest[0]) {
      assert FoldAt(s, 0);
    }
  }

  lemma FoldsLeftKeep(raw: seq<Byte>, i: nat, b: Byte, rest: seq<Byte>)
    requires i < |raw| && b == (if FoldAt(raw, i) then SPACE else raw[i])
    requires (rest == [] <==> i + 1 == |raw|)
    requires rest != [] ==> rest[0] == if FoldAt(raw, i + 1) || (raw[i + 1] == CR && FoldAt(raw, i + 2)) then SPACE else raw[i + 1]
    requires HasFold(rest) <==> exists j: nat :: i + 1 <= j && EmptyBeforeFold(raw, j)
    ensures (b == LF && rest != [] && IsBlank(rest[0])) || HasFold(rest) <==> exists j: nat :: i <= j && EmptyBeforeFold(raw, j)
  {
    assert EmptyBeforeFold(raw, i) <==> b == LF && rest != [] && IsBlank(rest[0]);
    if j: nat :| i <= j && EmptyBeforeFold(raw, j) {
      assert j == i || i + 1 <= j;
    }
  }

  // ----- Accepted headers -----

  /** A header as the reader returns it: nothing follows its first empty line. */
  ghost predicate IsHeader(raw: seq<Byte>) {
    forall j: nat :: 0 < j < |raw| ==> !EmptyLineEnds(raw, j)
  }

  lemma ReadHeadersAreHeaders(input: seq<Byte>)
    ensures IsHeader(input[..HeaderEnd(input, 0)])
  {
    HeaderIsShortest(input, 0);
    var h := HeaderEnd(input, 0);
    var raw := input[..h];
    forall j: nat | 0 < j < |raw| ensures !EmptyLineEnds(raw, j) {
      assert !EmptyLineEnds(input, j);
    }
  }

  lemma NoEmptyBeforeFold(raw: seq<Byte>, j: nat)
    requires IsHeader(raw)
    ensures !EmptyBeforeFold(raw, j)
  {
    if j + 3 <= |raw| {
      assert EmptyLineEnds(raw, j + 2) ==> j + 2 == |raw|;
      assert EmptyLineEnds(raw, j + 3) ==> j + 3 == |raw|;
    }
  }

  /** On every header the reader accepts, normalizing leaves no fold, so that
      normalizing again would find nothing to do; and it never grows. */
  lemma NormalizedIsComplete(input: seq<Byte>)
    ensures var raw := input[..HeaderEnd(input, 0)];
            !HasFold(Normalized(raw)) && |Normalized(raw)| <= |raw|
  {
    var raw := input[..HeaderEnd(input, 0)];
    ReadHeadersAreHeaders(input);
    FoldsLeft(raw, 0);
    NormalSize(raw, 0);
    forall j: nat ensures !EmptyBeforeFold(raw, j) {
      NoEmptyBeforeFold(raw, j);
    }
  }

  /** The reader's guarantee is needed: this input keeps a fold. */
  lemma IncompleteWithoutReader() returns (raw: seq<Byte>)
    ensures HasFold(Normalized(raw)) && !IsHeader(raw)
  {
    raw := [65, LF, LF, SPACE, 66];
    assert EmptyBeforeFold(raw, 1);
    FoldsLeft(raw, 0);
    assert EmptyLineEnds(raw, 3);
  }

  // ----- The loop -----

  predicate NoFoldIn(raw: seq<Byte>, from: nat, to: nat) {
    forall i: nat :: from <= i < to ==> !FoldAt(raw, i)
  }

  lemma {:induction false} CopyToEnd(raw: seq<Byte>, from: nat)
    requires from <= |raw| && NoFoldIn(raw, from, |raw|)
    ensures Normal(raw, from) == raw[from..]
    decreases |raw| - from
  {
    if from < |raw| {
      assert !FoldAt(raw, from) && !FoldAt(raw, from + 1);
      CopyToEnd(raw, from + 1);
      assert raw[from..] == [raw[from]] + raw[from + 1..];
    }
  }

  /** Where the line ending of the fold at `fold` starts, in the text from `from` on. */
  function EndingStart(raw: seq<Byte>, from: nat, fold: nat): nat
    requires from <= fold < |raw|
  {
    if from < fold && raw[fold - 1] == CR then fold - 1 else fold
  }

  lemma {:induction false} CopyToFold(raw: seq<Byte>, from: nat, fold: nat)
    requires from <= fold < |raw| && NoFoldIn(raw, from, fold) && FoldAt(raw, fold)
    ensures Normal(raw, from) == raw[from..EndingStart(raw, from, fold)] + ([SPACE] + Normal(raw, fold + 1))
    decreases fold - from
  {
    var rest := [SPACE] + Normal(raw, fold + 1);
    if from == fold {
      NoneLeft(rest);
    } else if from + 1 == fold {
      assert !FoldAt(raw, from);
      assert Normal(raw, fold) == rest;
      if raw[from] == CR {
        NoneLeft(rest);
      } else {
        assert raw[from..fold] == [raw[from]];
      }
    } else {
      assert !FoldAt(raw, from) && !FoldAt(raw, from + 1);
      CopyToFold(raw, from + 1, fold);
      CopyOne(raw, from, EndingStart(raw, from, fold), rest);
    }
  }

  lemma CopyOne(raw: seq<Byte>, from: nat, to: nat, rest: seq<Byte>)
    requires from < to <= |raw|
    ensures [raw[from]] + (raw[from + 1..to] + rest) == raw[from..to] + rest
  {
  }

  lemma CopyAndSpace(raw: seq<Byte>, from: nat, fold: nat, done: seq<Byte>)
    requires from <= fold < |raw| && NoFoldIn(raw, from, fold) && FoldAt(raw, fold)
    ensures done + Normal(raw, from) ==
            (done + raw[from..EndingStart(raw, from, fold)] + [SPACE]) + Normal(raw, fold + 1)
  {
    CopyToFold(raw, from, fold);
    var part, rest := raw[from..EndingStart(raw, from, fold)], Normal(raw, fold + 1);
    Assoc(done, part, [SPACE] + rest);
    MoveOne(done + part, SPACE, rest);
  }

  lemma NoFoldBefore(raw: seq<Byte>, copied: nat, scanned: nat, newline: nat)
    requires copied <= scanned <= newline <= |raw| && NoFoldIn(raw, copied, scanned)
    requires forall i :: scanned <= i < newline ==> raw[i] != LF
    ensures NoFoldIn(raw, copied, newline)
  {
  }

  /** `normalize_folded_header`: None when there is nothing to unfold. */
  method NormalizeFolded(raw: seq<Byte>) returns (r: Option<seq<Byte>>)
    ensures r.Some? <==> HasFold(raw)
    ensures r.Some? ==> r.value == Normalized(raw)
    ensures r.None? ==> Normalized(raw) == raw
  {
    var folded := FindFold(raw);
    if !folded {
      CopyToEnd(raw, 0);
      return None;
    }
    var normalized := CopyUnfolded(raw);
    r := Some(normalized);
  }

  /** The copying loop. */
  method CopyUnfolded(raw: seq<Byte>) returns (r: seq<Byte>)
    ensures r == Normalized(raw)
  {
    var normalized: seq<Byte> := [];
    var copied, scanned := 0, 0;
    NoneLeft(Normal(raw, 0));
    var next := FindLF(raw, scanned);
    while next.Some?
      invariant 0 <= copied <= scanned <= |raw| && NoFoldIn(raw, copied, scanned) && next == FindLF(raw, scanned)
      invariant normalized + Normal(raw, copied) == Normalized(raw)
      decreases |raw| - scanned
    {
      var newline := next.value;
      NoFoldBefore(raw, copied, scanned, newline);
      scanned := newline + 1;
      if scanned < |raw| && IsBlank(raw[scanned]) {
        var start := if newline > copied && raw[newline - 1] == CR then newline - 1 else newline;
        assert FoldAt(raw, newline) && start == EndingStart(raw, copied, newline);
        CopyAndSpace(raw, copied, newline, normalized);
        normalized := normalized + raw[copied..start] + [SPACE];
        copied := scanned;
      }
      next := FindLF(raw, scanned);
    }
    NoFoldBefore(raw, copied, scanned, |raw|);
    CopyToEnd(raw, copied);
    r := normalized + raw[copied..];
  }

  method FindFold(raw: seq<Byte>) returns (found: bool)
    ensures found <==> HasFold(raw)
  {
    for i := 0 to |raw|
      invariant forall j: nat :: j < i ==> !FoldAt(raw, j)
    {
      if FoldAt(raw, i) {
        return true;
      }
    }
    found := false;
  }

  // ----- Fold by fold -----

  lemma {:induction false} NoFoldsNormal(raw: seq<Byte>, i: nat)
    requires i <= |raw| && !HasFold(raw)
    ensures Normal(raw, i) == raw[i..]
    decreases |raw| - i
  {
    if i < |raw| {
      NoFoldsNormal(raw, i + 1);
      assert !FoldAt(raw, i) && !FoldAt(raw, i + 1);
      assert raw[i..] == [raw[i]] + raw[i + 1..];
    }
  }

  predicate IsEnding(eol: seq<Byte>) {
    eol == [LF] || eol == [CR, LF]
  }

  lemma {:induction false} NormalSuffix(raw: seq<Byte>, i: nat, n: nat)
    requires n <= i <= |raw|
    ensures Normal(raw, i) == Normal(raw[n..], i - n)
    decreases |raw| - i
  {
    if i < |raw| {
      NormalSuffix(raw, i + 1, n);
      assert raw[n..][i - n] == raw[i];
      assert FoldAt(raw, i) == FoldAt(raw[n..], i - n) && FoldAt(raw, i + 1) == FoldAt(raw[n..], i + 1 - n);
    }
  }

  /** Up to the first fold nothing changes, and the line ending there becomes one space. */
  lemma FoldBetween(a: seq<Byte>, eol: seq<Byte>, b: seq<Byte>)
    requires !HasFold(a) && IsEnding(eol) && b != [] && IsBlank(b[0])
    requires a != [] && eol == [LF] ==> a[|a| - 1] != CR
    ensures Normalized(a + eol + b) == a + [SPACE] + Normalized(b)
  {
    var raw, n := a + eol + b, |a| + |eol|;
    Cuts(a, eol, b);
    NormalSuffix(raw, n, n);
    FoldIsSpace(raw, |a|, eol, b);
    BeforeFold(raw, 0, a, eol, b);
    assert a[0..] == a;
    Assoc(a, [SPACE], Normalized(b));
  }

  lemma Cuts(a: seq<Byte>, b: seq<Byte>, c: seq<Byte>)
    ensures (a + b + c)[|a|..] == b + c && (a + b + c)[|a| + |b|..] == c
  {
  }

  lemma FoldIsSpace(raw: seq<Byte>, i: nat, eol: seq<Byte>, b: seq<Byte>)
    requires i + |eol| < |raw| && raw[i..] == eol + b && IsEnding(eol) && IsBlank(b[0])
    ensures Normal(raw, i) == [SPACE] + Normal(raw, i + |eol|)
  {
    assert forall k :: 0 <= k < |eol| ==> raw[i + k] == raw[i..][k] == eol[k];
    assert raw[i + |eol|] == raw[i..][|eol|] == b[0];
    assert FoldAt(raw, i + |eol| - 1);
    if eol == [CR, LF] {
      assert raw[i] == eol[0] && raw[i + 1] == eol[1];
    }
  }

  lemma {:induction false} BeforeFold(raw: seq<Byte>, i: nat, a: seq<Byte>, eol: seq<Byte>, b: seq<Byte>)
    requires raw == a + eol + b && i <= |a| && !HasFold(a) && IsEnding(eol)
    requires a != [] && eol == [LF] ==> a[|a| - 1] != CR
    ensures Normal(raw, i) == a[i..] + Normal(raw, |a|)
    decreases |a| - i
  {
    if i == |a| {
      NoneLeft(Normal(raw, |a|));
    } else {
      BeforeFold(raw, i + 1, a, eol, b);
      assert forall k :: 0 <= k < |a| ==> raw[k] == a[k];
      assert raw[|a|] == eol[0];
      assert !FoldAt(a, i) && !FoldAt(a, i + 1);
      assert a[i..] == [a[i]] + a[i + 1..];
      Assoc([a[i]], a[i + 1..], Normal(raw, |a|));
    }
  }
}
