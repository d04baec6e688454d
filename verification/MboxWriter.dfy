/** Writing a record from a message held in two pieces. */
module MboxWriter {
  import opened Bytes
  import opened PhysicalLines
  import opened Mbox

  /** Where bytes go: it accepts `room` more of them, then every write fails after
      taking what still fits. Any pattern of short and failed writes of a
      `write_all` loop is some value of `room`. */
  class ByteSink {
    var data: seq<Byte>
    var room: nat

    constructor (room: nat)
      ensures data == [] && this.room == room
    {
      data, this.room := [], room;
    }

    method WriteAll(bytes: seq<Byte>) returns (ok: bool)
      modifies this
      ensures Took(old(data), old(room), data, room, bytes, ok)
    {
      if |bytes| <= room {
        data, room := data + bytes, room - |bytes|;
        return true;
      }
      data, room := data + bytes[..room], 0;
      return false;
    }
  }

  /** The sink took all of `text`, or exactly the part of it that fitted. */
  predicate Took(before: seq<Byte>, room: nat, after: seq<Byte>, left: nat, text: seq<Byte>, ok: bool) {
    ok == (|text| <= room) &&
    (if ok then after == before + text && left == room - |text|
     else after == before + text[..room] && left == 0)
  }

  /** Two writes in a row are one write of both texts. */
  lemma TookBoth(d0: seq<Byte>, r0: nat, d1: seq<Byte>, r1: nat, d2: seq<Byte>, r2: nat, a: seq<Byte>, b: seq<Byte>, ok: bool)
    requires Took(d0, r0, d1, r1, a, true) && Took(d1, r1, d2, r2, b, ok)
    ensures Took(d0, r0, d2, r2, a + b, ok)
  {
    if ok {
      Assoc(d0, a, b);
    } else {
      assert (a + b)[..r0] == a + b[..r1];
      Assoc(d0, a, b[..r1]);
    }
  }

  /** A write that failed would also have failed with more text after it. */
  lemma TookLess(d0: seq<Byte>, r0: nat, d1: seq<Byte>, r1: nat, a: seq<Byte>, b: seq<Byte>)
    requires Took(d0, r0, d1, r1, a, false)
    ensures Took(d0, r0, d1, r1, a + b, false)
  {
    assert (a + b)[..r0] == a[..r0];
  }

  /** `MessageBytes::ends_with`: compare from the back across both pieces. */
  predicate EndsWith(first: seq<Byte>, second: seq<Byte>, suffix: seq<Byte>) {
    var backwards := Reverse(second) + Reverse(first);
    backwards[..Min(|suffix|, |backwards|)] == Reverse(suffix)
  }

  lemma EndsWithIsSuffix(first: seq<Byte>, second: seq<Byte>, suffix: seq<Byte>)
    ensures EndsWith(first, second, suffix) <==> IsSuffix(suffix, first + second)
  {
    var s := first + second;
    assert Reverse(second) + Reverse(first) == Reverse(s);
    if |suffix| <= |s| {
      ReverseTake(s, |suffix|);
      var tail := s[|s| - |suffix|..];
      if Reverse(tail) == Reverse(suffix) {
        forall i | 0 <= i < |suffix|
          ensures tail[i] == suffix[i]
        {
          assert Reverse(tail)[|suffix| - 1 - i] == Reverse(suffix)[|suffix| - 1 - i];
        }
        assert tail == suffix;
      }
    }
  }

  lemma CutFirst(a: seq<Byte>, b: seq<Byte>, n: nat)
    requires n <= |a|
    ensures (a + b)[..n] == a[..n] && (a + b)[n..] == a[n..] + b
  {
  }

  lemma CutSecond(a: seq<Byte>, b: seq<Byte>, n: nat)
    requires n <= |b|
    ensures (a + b)[..|a| + n] == a + b[..n] && (a + b)[|a| + n..] == b[n..]
  {
  }

  /** Cutting the next line off a message in two pieces. */
  method NextLine(first: seq<Byte>, second: seq<Byte>)
    returns (lineFirst: seq<Byte>, lineSecond: seq<Byte>, restFirst: seq<Byte>, restSecond: seq<Byte>)
    requires first + second != []
    ensures lineFirst + lineSecond == FirstLine(first + second)
    ensures restFirst + restSecond == RestLines(first + second)
    ensures |restFirst| + |restSecond| < |first| + |second|
  {
    var a, b := first, second;
    if a == [] {
      NoneLeft(second);
      a, b := second, [];
      NoneRight(second);
    }
    ghost var s := a + b;
    var inFirst := FindLF(a, 0);
    if inFirst.Some? {
      var n := inFirst.value + 1;
      LineLenIs(s, n);
      lineFirst, lineSecond, restFirst, restSecond := a[..n], [], a[n..], b;
      CutFirst(a, b, n);
      NoneRight(a[..n]);
    } else {
      var inSecond := FindLF(b, 0);
      var end := if inSecond.Some? then inSecond.value + 1 else |b|;
      LineLenIs(s, |a| + end);
      lineFirst, lineSecond, restFirst, restSecond := a, b[..end], [], b[end..];
      CutSecond(a, b, end);
      NoneLeft(b[end..]);
    }
  }

  method WriteLine(sink: ByteSink, lineFirst: seq<Byte>, lineSecond: seq<Byte>) returns (ok: bool)
    modifies sink
    ensures Took(old(sink.data), old(sink.room), sink.data, sink.room, QuoteLine(lineFirst + lineSecond), ok)
  {
    ghost var d0, r0 := sink.data, sink.room;
    ghost var text := lineFirst + lineSecond;
    ghost var lead: seq<Byte> := [];
    if IsFromLine(lineFirst + lineSecond) {
      ok := sink.WriteAll([GT]);
      if !ok {
        TookLess(d0, r0, sink.data, sink.room, [GT], text);
        return;
      }
      lead := [GT];
    } else {
      NoneLeft(text);
      NoneRight(d0);
    }
    ghost var d1, r1 := sink.data, sink.room;
    ok := sink.WriteAll(lineFirst);
    if !ok {
      TookLess(d1, r1, sink.data, sink.room, lineFirst, lineSecond);
      TookBoth(d0, r0, d1, r1, sink.data, sink.room, lead, text, false);
      return;
    }
    ghost var d2, r2 := sink.data, sink.room;
    ok := sink.WriteAll(lineSecond);
    TookBoth(d1, r1, d2, r2, sink.data, sink.room, lineFirst, lineSecond, ok);
    TookBoth(d0, r0, d1, r1, sink.data, sink.room, lead, text, ok);
  }

  method WriteTrailer(sink: ByteSink, first: seq<Byte>, second: seq<Byte>, ending: OutputEnding) returns (ok: bool)
    modifies sink
    ensures Took(old(sink.data), old(sink.room), sink.data, sink.room, Trailer(first + second, ending), ok)
  {
    ghost var d0, r0 := sink.data, sink.room;
    EndsWithIsSuffix(first, second, [LF]);
    EndsWithIsSuffix(first, second, [LF, LF]);
    NoneRight(d0);
    if ending.Normalize? {
      if EndsWith(first, second, [LF, LF]) {
        return true;
      }
      if !EndsWith(first, second, [LF]) {
        ok := sink.WriteAll([LF]);
        if !ok {
          TookLess(d0, r0, sink.data, sink.room, [LF], [LF]);
          return;
        }
        ghost var d1, r1 := sink.data, sink.room;
        ok := sink.WriteAll([LF]);
        TookBoth(d0, r0, d1, r1, sink.data, sink.room, [LF], [LF], ok);
      } else {
        ok := sink.WriteAll([LF]);
      }
    } else if (first != [] || second != []) && !EndsWith(first, second, [LF]) {
      ok := sink.WriteAll([LF]);
    } else {
      ok := true;
    }
  }

  /** Every line of the message, wherever the two pieces were cut. */
  method WriteLines(sink: ByteSink, firstPiece: seq<Byte>, secondPiece: seq<Byte>) returns (ok: bool)
    modifies sink
    ensures Took(old(sink.data), old(sink.room), sink.data, sink.room, QuoteText(firstPiece + secondPiece), ok)
  {
    ghost var d0, r0, message := sink.data, sink.room, firstPiece + secondPiece;
    var first, second := firstPiece, secondPiece;
    ghost var written: seq<Byte> := [];
    NoneRight(d0);
    NoneLeft(QuoteText(message));
    while first != [] || second != []
      invariant Took(d0, r0, sink.data, sink.room, written, true)
      invariant QuoteText(message) == written + QuoteText(first + second)
      decreases |first| + |second|
    {
      ghost var d1, r1 := sink.data, sink.room;
      ghost var left := first + second;
      var lineFirst, lineSecond;
      lineFirst, lineSecond, first, second := NextLine(first, second);
      ghost var line, rest := QuoteLine(lineFirst + lineSecond), QuoteText(first + second);
      Assoc(written, line, rest);
      ok := WriteLine(sink, lineFirst, lineSecond);
      TookBoth(d0, r0, d1, r1, sink.data, sink.room, written, line, ok);
      if !ok {
        TookLess(d0, r0, sink.data, sink.room, written + line, rest);
        return;
      }
      written := written + line;
    }
    NoneLeft(second);
    NoneRight(written);
    ok := true;
  }

  /** `write_record`: a sink that can hold the record gets exactly the record; any
      other gets exactly the part of it that fits. */
  method WriteRecord(sink: ByteSink, postmark: seq<Byte>, first: seq<Byte>, second: seq<Byte>, ending: OutputEnding)
    returns (ok: bool)
    modifies sink
    ensures Took(old(sink.data), old(sink.room), sink.data, sink.room, Record(postmark, first + second, ending), ok)
  {
    ghost var d0, r0 := sink.data, sink.room;
    ghost var body, tail := QuoteText(first + second), Trailer(first + second, ending);
    ok := sink.WriteAll(postmark);
    ghost var d1, r1 := sink.data, sink.room;
    if !ok {
      TookLess(d0, r0, d1, r1, postmark, body);
      TookLess(d0, r0, d1, r1, postmark + body, tail);
      return;
    }
    ok := WriteLines(sink, first, second);
    ghost var d2, r2 := sink.data, sink.room;
    TookBoth(d0, r0, d1, r1, d2, r2, postmark, body, ok);
    if !ok {
      TookLess(d0, r0, d2, r2, postmark + body, tail);
      return;
    }
    ok := WriteTrailer(sink, first, second, ending);
    TookBoth(d0, r0, d2, r2, sink.data, sink.room, postmark + body, tail, ok);
  }
}
