/** What a message reader accepts, stated of the whole input: where its header
    ends, and the limits on its lines, fields, header, body and total size. */
module IngestSpec {
  import opened Bytes
  import opened PhysicalLines

  datatype Limits = Limits(message: nat, headers: nat, body: nat, line: nat, field: nat)

  predicate IsSeparator(line: seq<Byte>) {
    line == [LF] || line == [CR, LF]
  }

  /** The index after the first empty line at or after `i`, or the end. */
  function HeaderEnd(s: seq<Byte>, i: nat): (h: nat)
    requires i <= |s|
    ensures i <= h <= |s|
    decreases |s| - i
  {
    if i == |s| then i
    else
      var e := LineEnd(s, i);
      if IsSeparator(s[i..e]) then e else HeaderEnd(s, e)
  }

  /** The index where that empty line starts, or the end. */
  function ContentEnd(s: seq<Byte>, i: nat): (c: nat)
    requires i <= |s|
    ensures i <= c <= HeaderEnd(s, i)
    decreases |s| - i
  {
    if i == |s| then i
    else
      var e := LineEnd(s, i);
      if IsSeparator(s[i..e]) then i else ContentEnd(s, e)
  }

  /** Every line from `i` on keeps the limits; the field the line at `i` may
      continue starts at `start`. */
  predicate HeaderFits(s: seq<Byte>, i: nat, start: nat, limits: Limits)
    requires start <= i <= |s|
    decreases |s| - i
  {
    i == |s| ||
    var e := LineEnd(s, i);
    e - i <= limits.line && e <= limits.headers && e <= limits.message &&
    (IsSeparator(s[i..e]) ||
     (e - FieldStart(s, i, start) <= limits.field && HeaderFits(s, e, FieldStart(s, i, start), limits)))
  }

  function FieldStart(s: seq<Byte>, i: nat, start: nat): nat
    requires start <= i < |s|
  {
    if IsBlank(s[i]) then start else i
  }

  predicate BodyFits(s: seq<Byte>, h: nat, limits: Limits)
    requires h <= |s|
  {
    h == |s| || (|s| - h <= limits.body && |s| <= limits.message)
  }

  /** The whole input keeps all five limits. */
  predicate Accepts(s: seq<Byte>, limits: Limits) {
    HeaderFits(s, 0, 0, limits) && BodyFits(s, HeaderEnd(s, 0), limits)
  }

  // ----- The header is the shortest prefix through an empty line -----

  predicate IsLineStart(s: seq<Byte>, p: nat) {
    p <= |s| && (p == 0 || s[p - 1] == LF)
  }

  /** An empty line ends just before `h`. */
  predicate EmptyLineEnds(s: seq<Byte>, h: nat) {
    h <= |s| &&
    ((1 <= h && s[h - 1] == LF && IsLineStart(s, h - 1)) ||
     (2 <= h && s[h - 1] == LF && s[h - 2] == CR && IsLineStart(s, h - 2)))
  }

  lemma LineKinds(s: seq<Byte>, i: nat)
    requires i < |s| && IsLineStart(s, i)
    ensures var e := LineEnd(s, i);
            (IsSeparator(s[i..e]) <==> EmptyLineEnds(s, e)) && (forall j :: i < j < e ==> !EmptyLineEnds(s, j)) &&
            (e < |s| ==> IsLineStart(s, e))
  {
    var e := LineEnd(s, i);
    var line := s[i..e];
    assert line[0] == s[i] && line[|line| - 1] == s[e - 1];
    if e == i + 1 {
      assert line == [s[i]];
    } else if e == i + 2 {
      assert line == [s[i], s[i + 1]];
    }
  }

  lemma {:induction false} HeaderIsShortest(s: seq<Byte>, i: nat)
    requires i <= |s| && (i < |s| ==> IsLineStart(s, i))
    ensures var h := HeaderEnd(s, i);
            (h == |s| || EmptyLineEnds(s, h)) && forall j :: i < j < h ==> !EmptyLineEnds(s, j)
    decreases |s| - i
  {
    if i < |s| {
      LineKinds(s, i);
      var e := LineEnd(s, i);
      if !IsSeparator(s[i..e]) {
        HeaderIsShortest(s, e);
      }
    }
  }

  // ----- The limits, without the scan -----

  /** One whole line lies between `a` and `b`. */
  predicate LineSpan(s: seq<Byte>, a: nat, b: nat) {
    a < b <= |s| && IsLineStart(s, a) && b == LineEnd(s, a)
  }

  /** Between `a` and `b` lie whole lines, of which every one after the first is
      a continuation. */
  ghost predicate FieldSpan(s: seq<Byte>, a: nat, b: nat) {
    a < b <= |s| && IsLineStart(s, a) && (b == |s| || IsLineStart(s, b)) &&
    forall p :: a < p < b && IsLineStart(s, p) ==> IsBlank(s[p])
  }

  ghost predicate LinesKeep(s: seq<Byte>, from: nat, to: nat, limit: nat) {
    forall a: nat, b: nat :: from <= a && b <= to && LineSpan(s, a, b) ==> b - a <= limit
  }

  ghost predicate FieldsKeep(s: seq<Byte>, from: nat, past: nat, to: nat, limit: nat) {
    forall a: nat, b: nat :: from <= a && past < b <= to && FieldSpan(s, a, b) ==> b - a <= limit
  }

  lemma NoLineStartInside(s: seq<Byte>, i: nat, p: nat)
    requires i < |s| && i < p < LineEnd(s, i)
    ensures !IsLineStart(s, p)
  {
  }

  /** A line span starting at or after the line start `i` is that line or starts after it. */
  lemma LinesKeepStep(s: seq<Byte>, i: nat, to: nat, limit: nat)
    requires i < |s| && IsLineStart(s, i) && LineEnd(s, i) <= to <= |s|
    ensures LinesKeep(s, i, to, limit) <==> LineEnd(s, i) - i <= limit && LinesKeep(s, LineEnd(s, i), to, limit)
  {
    var e := LineEnd(s, i);
    if LinesKeep(s, i, to, limit) {
      assert LineSpan(s, i, e);
    }
    if e - i <= limit && LinesKeep(s, e, to, limit) {
      forall a: nat, b: nat | i <= a && b <= to && LineSpan(s, a, b) ensures b - a <= limit {
        if i < a < e {
          NoLineStartInside(s, i, a);
        }
      }
    }
  }

  /** `start` is where the field continued at `i` began. */
  ghost predicate Continues(s: seq<Byte>, start: nat, i: nat) {
    start <= i <= |s| && IsLineStart(s, start) && forall p :: start < p < i && IsLineStart(s, p) ==> IsBlank(s[p])
  }

  lemma ContinuesNext(s: seq<Byte>, start: nat, i: nat)
    requires i < |s| && IsLineStart(s, i) && Continues(s, start, i)
    ensures var e, first := LineEnd(s, i), FieldStart(s, i, start);
            Continues(s, first, e) && FieldSpan(s, first, e)
  {
    var e, first := LineEnd(s, i), FieldStart(s, i, start);
    forall p: nat | i < p < e ensures !IsLineStart(s, p) {
      NoLineStartInside(s, i, p);
    }
    LineKinds(s, i);
  }

  lemma FieldsKeepStep(s: seq<Byte>, start: nat, i: nat, to: nat, limit: nat)
    requires i < |s| && IsLineStart(s, i) && Continues(s, start, i) && LineEnd(s, i) <= to <= |s|
    ensures var e, first := LineEnd(s, i), FieldStart(s, i, start);
            FieldsKeep(s, start, i, to, limit) <==> e - first <= limit && FieldsKeep(s, first, e, to, limit)
  {
    var e, first := LineEnd(s, i), FieldStart(s, i, start);
    ContinuesNext(s, start, i);
    if e - first <= limit && FieldsKeep(s, first, e, to, limit) {
      forall a: nat, b: nat | start <= a && i < b <= to && FieldSpan(s, a, b) ensures b - a <= limit {
        if a < i {
          assert IsBlank(s[i]);
        }
        if b < e {
          NoLineStartInside(s, i, b);
        }
      }
    }
  }

  /** Reading line by line accepts exactly the headers whose every line, every
      field and whole size keep their limits. */
  lemma {:induction false} HeaderFitsMeans(s: seq<Byte>, i: nat, start: nat, limits: Limits)
    requires start <= i <= |s| && (i < |s| ==> IsLineStart(s, i)) && Continues(s, start, i)
    ensures HeaderFits(s, i, start, limits) <==>
            i == |s| ||
            (HeaderEnd(s, i) <= limits.headers && HeaderEnd(s, i) <= limits.message &&
             LinesKeep(s, i, HeaderEnd(s, i), limits.line) && FieldsKeep(s, start, i, ContentEnd(s, i), limits.field))
    decreases |s| - i
  {
    if i < |s| {
      var e, first := LineEnd(s, i), FieldStart(s, i, start);
      LineKinds(s, i);
      LinesKeepStep(s, i, HeaderEnd(s, i), limits.line);
      if !IsSeparator(s[i..e]) {
        ContinuesNext(s, start, i);
        FieldsKeepStep(s, start, i, ContentEnd(s, i), limits.field);
        HeaderFitsMeans(s, e, first, limits);
      }
    }
  }

  /** The five limits of an accepted message. */
  lemma AcceptsMeans(s: seq<Byte>, limits: Limits)
    ensures var h, c := HeaderEnd(s, 0), ContentEnd(s, 0);
            Accepts(s, limits) <==>
            |s| <= limits.message && h <= limits.headers && |s| - h <= limits.body &&
            LinesKeep(s, 0, h, limits.line) && FieldsKeep(s, 0, 0, c, limits.field)
  {
    HeaderFitsMeans(s, 0, 0, limits);
  }
}
