/** The streaming quoter of formail: it sees the body chunk by chunk and holds
    back at most a short line prefix. */
module StreamQuote {
  import opened Bytes
  import opened PhysicalLines
  import opened Mbox

  const MAX_ARROWS: nat := 1024

  // ----- The line-by-line meaning -----

  predicate IsShortFromLine(l: seq<Byte>) {
    Arrows(l, 0) <= MAX_ARROWS && IsFromLine(l)
  }

  function QuoteShort(l: seq<Byte>, quote: seq<Byte>): seq<Byte> {
    if IsShortFromLine(l) then quote + l else l
  }

  function StreamText(s: seq<Byte>, quote: seq<Byte>): seq<Byte> {
    if s == [] then [] else QuoteShort(FirstLine(s), quote) + StreamText(RestLines(s), quote)
  }

  lemma {:induction false} StreamAddLine(done: seq<Byte>, l: seq<Byte>, quote: seq<Byte>)
    requires (done == [] || EndsLine(done)) && IsLine(l)
    ensures StreamText(done + l, quote) == StreamText(done, quote) + QuoteShort(l, quote)
    decreases |done|
  {
    if done == [] {
      NoneLeft(l);
      FirstLineIs(l, []);
      NoneRight(l);
      NoneRight(QuoteShort(l, quote));
      NoneLeft(QuoteShort(l, quote));
    } else {
      var first, rest := FirstLine(done), RestLines(done);
      FirstLineIsLine(done);
      if rest == [] {
        NoneRight(first);
      } else {
        assert rest[|rest| - 1] == done[|done| - 1];
      }
      Assoc(first, rest, l);
      FirstLineIs(first, rest + l);
      StreamAddLine(rest, l, quote);
      Assoc(QuoteShort(first, quote), StreamText(rest, quote), QuoteShort(l, quote));
    }
  }

  // ----- What is known from the start of a line -----

  /** The bytes from `k` on agree with `From ` as far as they go. */
  predicate PartialFrom(l: seq<Byte>, k: nat) {
    forall i :: 0 <= i < 5 && k + i < |l| ==> l[k + i] == FROM[i]
  }

  /** The held-back prefix: it may still become a line to quote. */
  predicate Pending(p: seq<Byte>) {
    Arrows(p, 0) <= MAX_ARROWS && PartialFrom(p, Arrows(p, 0)) && |p| < Arrows(p, 0) + 5
  }

  /** No continuation of `l` is a line to quote. */
  predicate NeverFrom(l: seq<Byte>) {
    Arrows(l, 0) > MAX_ARROWS || !PartialFrom(l, Arrows(l, 0))
  }

  predicate Decided(l: seq<Byte>) {
    IsShortFromLine(l) || NeverFrom(l)
  }

  lemma ArrowsExtend(l: seq<Byte>, x: seq<Byte>)
    ensures Arrows(l, 0) < |l| ==> Arrows(l + x, 0) == Arrows(l, 0)
    ensures Arrows(l, 0) == |l| ==> Arrows(l + x, 0) >= |l|
  {
    var t, k := l + x, Arrows(l, 0);
    assert forall j :: 0 <= j < |l| ==> t[j] == l[j];
    if k < |l| {
      ArrowsAre(t, k);
    }
  }

  /** Once decided, the rest of the line is copied. */
  lemma DecidedExtends(l: seq<Byte>, x: seq<Byte>, quote: seq<Byte>)
    requires Decided(l)
    ensures QuoteShort(l + x, quote) == QuoteShort(l, quote) + x && Decided(l + x)
  {
    var t, k := l + x, Arrows(l, 0);
    ArrowsExtend(l, x);
    if IsShortFromLine(l) {
      assert t[k] == l[k] && t[k + 1] == l[k + 1] && t[k + 2] == l[k + 2] && t[k + 3] == l[k + 3] && t[k + 4] == l[k + 4];
      Assoc(quote, l, x);
    } else if k <= MAX_ARROWS {
      var i :| 0 <= i < 5 && k + i < |l| && l[k + i] != FROM[i];
      assert t[k + i] == l[k + i];
    }
  }

  lemma PendingIsPlain(p: seq<Byte>)
    requires Pending(p)
    ensures !IsShortFromLine(p) && forall j :: 0 <= j < |p| ==> p[j] != LF
  {
    forall j | 0 <= j < |p|
      ensures p[j] != LF
    {
      var k := Arrows(p, 0);
      if k <= j {
        assert p[k + (j - k)] == FROM[j - k];
      }
    }
  }

  /** The four things that can happen to the held-back prefix. */
  lemma PrefixStep(p: seq<Byte>, b: Byte)
    requires Pending(p)
    ensures var k, q := Arrows(p, 0), p + [b];
            if k == |p| && b == GT then
              if |p| < MAX_ARROWS then Pending(q) else NeverFrom(q)
            else if |p| - k < 5 && b == FROM[|p| - k] then
              Arrows(q, 0) == k && (if |q| - k == 5 then IsShortFromLine(q) else Pending(q))
            else NeverFrom(q)
  {
    var k, q := Arrows(p, 0), p + [b];
    assert q[|p|] == b && forall j :: 0 <= j < |p| ==> q[j] == p[j];
    if k == |p| && b == GT {
      ArrowsAre(q, |q|);
    } else {
      ArrowsAre(q, k);
      var m := |p| - k;
      if b == FROM[m] {
        forall i | 0 <= i < 5 && k + i < |q|
          ensures q[k + i] == FROM[i]
        {
          if k + i < |p| {
            assert q[k + i] == p[k + i];
          }
        }
      } else {
        assert q[k + m] != FROM[m];
      }
    }
  }

  // ----- The streaming state -----

  /** After consuming `done`, whole lines, and `line`, the start of the next. */
  ghost predicate Streaming(atStart: bool, prefix: seq<Byte>, out: seq<Byte>, done: seq<Byte>, line: seq<Byte>, quote: seq<Byte>) {
    (done == [] || EndsLine(done)) &&
    (forall j :: 0 <= j < |line| ==> line[j] != LF) &&
    (if atStart then prefix == line && Pending(line) && out == StreamText(done, quote)
     else prefix == [] && line != [] && Decided(line) && out == StreamText(done, quote) + QuoteShort(line, quote))
  }

  lemma FinishLine(done: seq<Byte>, line: seq<Byte>, segment: seq<Byte>, quote: seq<Byte>)
    requires (done == [] || EndsLine(done)) && forall j :: 0 <= j < |line| ==> line[j] != LF
    requires IsLine(segment) && EndsLine(segment) && Decided(line + segment[..1])
    ensures StreamText(done, quote) + QuoteShort(line + segment[..1], quote) + segment[1..] == StreamText(done + (line + segment), quote)
    ensures EndsLine(done + (line + segment))
  {
    var head, tail, l := line + segment[..1], segment[1..], line + segment;
    assert l == head + tail by {
      assert segment == segment[..1] + tail;
      Assoc(line, segment[..1], tail);
    }
    DecidedExtends(head, tail, quote);
    assert IsLine(l);
    assert EndsLine(l);
    StreamAddLine(done, l, quote);
    Assoc(StreamText(done, quote), QuoteShort(head, quote), tail);
  }

  /** The `InLine` part of the loop: copy up to the next LF or the end of the buffer. */
  method CopyLine(available: seq<Byte>, offset: nat, out: seq<Byte>) returns (next: nat, copied: seq<Byte>, found: bool)
    requires offset < |available|
    ensures offset < next <= |available| && copied == out + available[offset..next]
    ensures forall j :: offset <= j < next - 1 ==> available[j] != LF
    ensures found == (available[next - 1] == LF) && (!found ==> next == |available|)
  {
    var position := FindLF(available, offset);
    found := position.Some?;
    next := if found then position.value + 1 else |available|;
    copied := out + available[offset..next];
  }

  /** One byte offered while a prefix is held back. */
  method OfferByte(prefix: seq<Byte>, b: Byte, out: seq<Byte>, quote: seq<Byte>)
    returns (held: seq<Byte>, written: seq<Byte>, atStart: bool, taken: bool)
    requires Pending(prefix)
    ensures taken && atStart ==> held == prefix + [b] && Pending(held) && written == out
    ensures taken && !atStart ==> held == [] && IsShortFromLine(prefix + [b]) && written == out + (quote + (prefix + [b]))
    ensures !taken ==> !atStart && held == [] && NeverFrom(prefix + [b]) && written == out + prefix
  {
    PrefixStep(prefix, b);
    var arrows := Arrows(prefix, 0);
    if arrows == |prefix| && b == GT {
      if |prefix| < MAX_ARROWS {
        return prefix + [b], out, true, true;
      }
      return [], out + prefix, false, false;
    }
    var matched := |prefix| - arrows;
    if matched < 5 && b == FROM[matched] {
      var grown := prefix + [b];
      if |grown| - arrows == 5 {
        return [], out + (quote + grown), false, true;
      }
      return grown, out, true, true;
    }
    return [], out + prefix, false, false;
  }

  /** The next byte `b` settles the line: what is written for it continues `out`. */
  ghost predicate Ready(out: seq<Byte>, done: seq<Byte>, line: seq<Byte>, b: Byte, quote: seq<Byte>) {
    Decided(line + [b]) && out + [b] == StreamText(done, quote) + QuoteShort(line + [b], quote)
  }

  lemma ReadyWhenDecided(out: seq<Byte>, done: seq<Byte>, line: seq<Byte>, b: Byte, quote: seq<Byte>)
    requires Streaming(false, [], out, done, line, quote)
    ensures Ready(out, done, line, b, quote)
  {
    DecidedExtends(line, [b], quote);
    Assoc(StreamText(done, quote), QuoteShort(line, quote), [b]);
  }

  lemma NeverFromIsPlain(l: seq<Byte>)
    requires NeverFrom(l)
    ensures !IsShortFromLine(l)
  {
    var k := Arrows(l, 0);
    if k <= MAX_ARROWS {
      var i :| 0 <= i < 5 && k + i < |l| && l[k + i] != FROM[i];
    }
  }

  lemma ReadyWhenRefused(out: seq<Byte>, done: seq<Byte>, line: seq<Byte>, b: Byte, quote: seq<Byte>)
    requires out == StreamText(done, quote) + line && NeverFrom(line + [b])
    ensures Ready(out, done, line, b, quote)
  {
    NeverFromIsPlain(line + [b]);
    Assoc(StreamText(done, quote), line, [b]);
  }

  lemma StreamingAfterLine(out: seq<Byte>, done: seq<Byte>, line: seq<Byte>, segment: seq<Byte>, quote: seq<Byte>)
    requires (done == [] || EndsLine(done)) && (forall j :: 0 <= j < |line| ==> line[j] != LF)
    requires IsLine(segment) && EndsLine(segment) && Ready(out, done, line, segment[0], quote)
    ensures Streaming(true, [], out + segment, done + (line + segment), [], quote)
  {
    var b, tail := segment[0], segment[1..];
    assert segment[..1] == [b];
    assert segment == [b] + tail;
    Assoc(out, [b], tail);
    FinishLine(done, line, segment, quote);
  }

  lemma StreamingInLine(out: seq<Byte>, done: seq<Byte>, line: seq<Byte>, segment: seq<Byte>, quote: seq<Byte>)
    requires (done == [] || EndsLine(done)) && (forall j :: 0 <= j < |line| ==> line[j] != LF)
    requires IsLine(segment) && !EndsLine(segment) && Ready(out, done, line, segment[0], quote)
    ensures Streaming(false, [], out + segment, done, line + segment, quote)
  {
    var b, tail := segment[0], segment[1..];
    var head := line + [b];
    assert segment == [b] + tail;
    Assoc(out, [b], tail);
    Assoc(line, [b], tail);
    Assoc(StreamText(done, quote), QuoteShort(head, quote), tail);
    DecidedExtends(head, tail, quote);
    NoLineEnd(line, segment);
  }

  lemma NoLineEnd(line: seq<Byte>, segment: seq<Byte>)
    requires (forall j :: 0 <= j < |line| ==> line[j] != LF) && IsLine(segment) && !EndsLine(segment)
    ensures forall j :: 0 <= j < |line + segment| ==> (line + segment)[j] != LF
  {
  }

  /** One turn of the inner loop. */
  method StreamStep(available: seq<Byte>, offset: nat, start: bool, held: seq<Byte>, written: seq<Byte>, quote: seq<Byte>,
                    ghost done0: seq<Byte>, ghost line0: seq<Byte>)
    returns (next: nat, atStart: bool, prefix: seq<Byte>, out: seq<Byte>, ghost done: seq<Byte>, ghost line: seq<Byte>)
    requires offset < |available| && Streaming(start, held, written, done0, line0, quote)
    ensures offset < next <= |available|
    ensures Streaming(atStart, prefix, out, done, line, quote)
    ensures done + line == (done0 + line0) + available[offset..next]
  {
    atStart, prefix, out := start, held, written;
    done, line := done0, line0;
    var b := available[offset];
    if atStart {
      var taken: bool;
      prefix, out, atStart, taken := OfferByte(prefix, b, out, quote);
      if taken {
        PendingOrQuoted(line, b);
        Assoc(done, line, [b]);
        assert available[offset..offset + 1] == [b];
        line := line + [b];
        next := offset + 1;
        return;
      }
      ReadyWhenRefused(out, done, line, b, quote);
    } else {
      ReadyWhenDecided(out, done, line, b, quote);
    }
    ghost var before := out;
    next, out, atStart := CopyLine(available, offset, out);
    ghost var segment := available[offset..next];
    Assoc(done, line, segment);
    assert IsLine(segment);
    if atStart {
      StreamingAfterLine(before, done, line, segment, quote);
      done, line := done + (line + segment), [];
      NoneRight(done);
    } else {
      StreamingInLine(before, done, line, segment, quote);
      line := line + segment;
    }
  }

  /** The inner loop: consume one buffer. */
  method StreamChunk(available: seq<Byte>, start: bool, held: seq<Byte>, written: seq<Byte>, quote: seq<Byte>,
                     ghost done0: seq<Byte>, ghost line0: seq<Byte>)
    returns (atStart: bool, prefix: seq<Byte>, out: seq<Byte>, ghost done: seq<Byte>, ghost line: seq<Byte>)
    requires Streaming(start, held, written, done0, line0, quote)
    ensures Streaming(atStart, prefix, out, done, line, quote)
    ensures done + line == (done0 + line0) + available
  {
    atStart, prefix, out := start, held, written;
    done, line := done0, line0;
    var offset := 0;
    NoneRight(done0 + line0);
    while offset < |available|
      invariant 0 <= offset <= |available|
      invariant Streaming(atStart, prefix, out, done, line, quote)
      invariant done + line == (done0 + line0) + available[..offset]
    {
      var next;
      next, atStart, prefix, out, done, line := StreamStep(available, offset, atStart, prefix, out, quote, done, line);
      Assoc(done0 + line0, available[..offset], available[offset..next]);
      assert available[..next] == available[..offset] + available[offset..next];
      offset := next;
    }
    TakeAll(available);
  }

  lemma PendingOrQuoted(line: seq<Byte>, b: Byte)
    requires Pending(line) && (Pending(line + [b]) || IsShortFromLine(line + [b]))
    ensures forall j :: 0 <= j < |line + [b]| ==> (line + [b])[j] != LF
  {
    PendingIsPlain(line);
    PrefixStep(line, b);
    assert (line + [b])[|line|] == b;
  }

  /** `stream_body` with escaping on: whatever the buffer boundaries, the output is
      the line-by-line quoting of the whole body. */
  method StreamBody(chunks: seq<seq<Byte>>, quote: seq<Byte>) returns (out: seq<Byte>)
    requires forall i :: 0 <= i < |chunks| ==> chunks[i] != []
    ensures out == StreamText(Flatten(chunks), quote)
  {
    var atStart, prefix := true, [];
    out := [];
    ghost var done: seq<Byte>, line: seq<Byte> := [], [];
    var index := 0;
    while index < |chunks|
      invariant 0 <= index <= |chunks|
      invariant Streaming(atStart, prefix, out, done, line, quote)
      invariant done + line == Flatten(chunks[..index])
    {
      atStart, prefix, out, done, line := StreamChunk(chunks[index], atStart, prefix, out, quote, done, line);
      FlattenNext(chunks, index);
      index := index + 1;
    }
    TakeAll(chunks);
    if atStart && prefix != [] {
      PendingIsPlain(line);
    }
    if line != [] {
      StreamAddLine(done, line, quote);
    } else {
      NoneRight(done);
      NoneRight(out);
    }
    out := out + prefix;
  }

  // ----- Against the mailbox quoter -----

  /** Every line to quote has at most 1024 leading `>`. */
  predicate ShortRuns(s: seq<Byte>) {
    s == [] || ((IsFromLine(FirstLine(s)) ==> Arrows(FirstLine(s), 0) <= MAX_ARROWS) && ShortRuns(RestLines(s)))
  }

  lemma {:induction false} QuoterLengths(s: seq<Byte>)
    ensures |StreamText(s, [GT])| <= |QuoteText(s)|
    ensures |StreamText(s, [GT])| == |QuoteText(s)| <==> ShortRuns(s)
    ensures ShortRuns(s) ==> StreamText(s, [GT]) == QuoteText(s)
    decreases |s|
  {
    if s != [] {
      FirstLineIsLine(s);
      QuoterLengths(RestLines(s));
    }
  }

  /** With `>` as the quote, formail and the mailbox writer quote a body alike
      exactly when no line to quote starts with more than 1024 `>`. */
  lemma QuotersAgreeExactly(s: seq<Byte>)
    ensures StreamText(s, [GT]) == QuoteText(s) <==> ShortRuns(s)
  {
    QuoterLengths(s);
  }
}
