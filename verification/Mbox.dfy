/** mboxrd records: quoting, record layout, and reading a mailbox back. */
module Mbox {
  import opened Bytes
  import opened PhysicalLines

  const GT: Byte := 62
  const FROM: seq<Byte> := [70, 114, 111, 109, 32]
  const MAX_POSTMARK_LEN: nat := 512

  datatype OutputEnding = Normalize | Preserve

  /** How many `>` bytes stand at `i` in a row. */
  function Arrows(l: seq<Byte>, i: nat): (n: nat)
    requires i <= |l|
    ensures i + n <= |l| && forall j :: i <= j < i + n ==> l[j] == GT
    ensures i + n < |l| ==> l[i + n] != GT
    decreases |l| - i
  {
    if i < |l| && l[i] == GT then 1 + Arrows(l, i + 1) else 0
  }

  predicate FromAt(l: seq<Byte>, i: nat) {
    i + 5 <= |l| && l[i] == FROM[0] && l[i + 1] == FROM[1] && l[i + 2] == FROM[2] && l[i + 3] == FROM[3] && l[i + 4] == FROM[4]
  }

  /** Zero or more `>` bytes, then `From `. */
  predicate IsFromLine(l: seq<Byte>) {
    FromAt(l, Arrows(l, 0))
  }

  function QuoteLine(l: seq<Byte>): seq<Byte> {
    if IsFromLine(l) then [GT] + l else l
  }

  /** What an mboxrd reader does to a line of a message. */
  function UnquoteLine(l: seq<Byte>): seq<Byte> {
    if l != [] && l[0] == GT && IsFromLine(l) then l[1..] else l
  }

  /** What makes a reader start a new message. */
  predicate StartsMessage(l: seq<Byte>) {
    FromAt(l, 0)
  }

  function QuoteText(s: seq<Byte>): seq<Byte> {
    if s == [] then [] else QuoteLine(FirstLine(s)) + QuoteText(RestLines(s))
  }

  datatype PostmarkError = TooLong | InvalidShape | NonAscii

  predicate IsPrintable(b: Byte) {
    32 <= b <= 126
  }

  /** The checks of `Postmark::new`, in order. */
  function CheckPostmark(bytes: seq<Byte>): Option<PostmarkError> {
    if |bytes| > MAX_POSTMARK_LEN then Some(TooLong)
    else if !FromAt(bytes, 0) || !EndsLine(bytes) || LF in bytes[..|bytes| - 1] then Some(InvalidShape)
    else if exists i :: 0 <= i < |bytes| - 1 && !IsPrintable(bytes[i]) then Some(NonAscii)
    else None
  }

  predicate IsPostmark(bytes: seq<Byte>) {
    CheckPostmark(bytes).None?
  }

  function Trailer(message: seq<Byte>, ending: OutputEnding): seq<Byte> {
    if ending.Normalize? then
      if IsSuffix([LF, LF], message) then []
      else if IsSuffix([LF], message) then [LF]
      else [LF, LF]
    else if message != [] && !IsSuffix([LF], message) then [LF]
    else []
  }

  /** One mailbox record. */
  function Record(postmark: seq<Byte>, message: seq<Byte>, ending: OutputEnding): seq<Byte> {
    postmark + QuoteText(message) + Trailer(message, ending)
  }

  // ----- Quoting one line -----

  lemma ArrowsAre(l: seq<Byte>, n: nat)
    requires n <= |l| && (forall j :: 0 <= j < n ==> l[j] == GT) && (n < |l| ==> l[n] != GT)
    ensures Arrows(l, 0) == n
  {
  }

  lemma FromAtShift(l: seq<Byte>, i: nat)
    ensures FromAt([GT] + l, i + 1) <==> FromAt(l, i)
  {
    var q := [GT] + l;
    if i + 5 <= |l| {
      assert q[i + 1] == l[i] && q[i + 2] == l[i + 1] && q[i + 3] == l[i + 2] && q[i + 4] == l[i + 3] && q[i + 5] == l[i + 4];
    }
  }

  /** One more `>` in front changes the run length by one and nothing else. */
  lemma FromLineShift(l: seq<Byte>)
    ensures IsFromLine([GT] + l) <==> IsFromLine(l)
  {
    var n := Arrows(l, 0);
    ArrowsAre([GT] + l, n + 1);
    FromAtShift(l, n);
  }

  /** Quoting is undone by unquoting, and hides every line from the message split. */
  lemma QuoteLineRoundTrip(l: seq<Byte>)
    ensures UnquoteLine(QuoteLine(l)) == l
    ensures !StartsMessage(QuoteLine(l))
  {
    FromLineShift(l);
    if IsFromLine(l) {
      assert ([GT] + l)[1..] == l;
    } else if l != [] && l[0] != GT {
      ArrowsAre(l, 0);
    }
  }

  lemma QuoteLineKeepsShape(l: seq<Byte>)
    requires IsLine(l)
    ensures IsLine(QuoteLine(l)) && (EndsLine(l) ==> EndsLine(QuoteLine(l)))
  {
    var q := [GT] + l;
    forall j | 0 <= j < |q| - 1
      ensures q[j] != LF
    {
      if 0 < j {
        assert q[j] == l[j - 1];
      }
    }
    assert q[|q| - 1] == l[|l| - 1];
  }

  lemma FromLineAppendLF(l: seq<Byte>)
    ensures IsFromLine(l + [LF]) <==> IsFromLine(l)
  {
    var t, n := l + [LF], Arrows(l, 0);
    ArrowsAre(t, n);
    if n + 5 <= |l| {
      assert t[n] == l[n] && t[n + 1] == l[n + 1] && t[n + 2] == l[n + 2] && t[n + 3] == l[n + 3] && t[n + 4] == l[n + 4];
    } else if n + 5 == |l| + 1 {
      assert t[n + 4] == LF;
    }
  }

  /** A missing final LF can be added before or after quoting. */
  lemma {:induction false} QuoteTextAppendLF(s: seq<Byte>)
    ensures QuoteText(s + [LF]) == QuoteText(s) + [LF]
    decreases |s|
  {
    if s == [] {
      FirstLineIs([LF], []);
      NoneRight([LF]);
      assert s + [LF] == [LF];
      assert QuoteText([]) == [];
    } else {
      var l, rest := FirstLine(s), RestLines(s);
      FirstLineIsLine(s);
      if EndsLine(l) {
        FirstLineIs(l, rest + [LF]);
        Assoc(l, rest, [LF]);
        QuoteTextAppendLF(rest);
        Assoc(QuoteLine(l), QuoteText(rest), [LF]);
      } else {
        FromLineAppendLF(s);
        FirstLineIs(s + [LF], []);
        NoneRight(s + [LF]);
        NoneRight(QuoteLine(s));
        NoneRight(QuoteLine(s + [LF]));
        Assoc([GT], s, [LF]);
      }
    }
  }

  // ----- The trailer -----

  /** How the record of a message has to end. */
  predicate EndsWell(text: seq<Byte>, ending: OutputEnding) {
    if ending.Normalize? then IsSuffix([LF, LF], text) else text == [] || IsSuffix([LF], text)
  }

  function LineFeeds(n: nat): seq<Byte> {
    seq(n, i requires 0 <= i < n => LF)
  }

  lemma EndsInLineFeeds(text: seq<Byte>)
    ensures IsSuffix([LF], text) <==> text != [] && text[|text| - 1] == LF
    ensures IsSuffix([LF, LF], text) <==> 2 <= |text| && text[|text| - 2] == LF && text[|text| - 1] == LF
  {
    if text != [] {
      assert text[|text| - 1..] == [text[|text| - 1]];
    }
    if 2 <= |text| {
      assert text[|text| - 2..] == [text[|text| - 2], text[|text| - 1]];
    }
  }

  lemma AfterLineFeeds(message: seq<Byte>)
    ensures LineFeeds(0) == [] && LineFeeds(1) == [LF] && LineFeeds(2) == [LF, LF] && message + LineFeeds(0) == message
    ensures IsSuffix([LF], message + [LF]) && (IsSuffix([LF, LF], message + [LF]) <==> IsSuffix([LF], message))
    ensures IsSuffix([LF, LF], message + [LF, LF])
  {
    EndsInLineFeeds(message);
    EndsInLineFeeds(message + [LF]);
    EndsInLineFeeds(message + [LF, LF]);
  }

  /** The trailer adds the fewest LFs with which the message ends as it has to: with
      an empty line, or only with a whole line when endings are preserved. */
  lemma TrailerIsLeast(message: seq<Byte>, ending: OutputEnding)
    ensures var trailer := Trailer(message, ending);
            trailer == LineFeeds(|trailer|) && EndsWell(message + trailer, ending) &&
            forall n :: 0 <= n < |trailer| ==> !EndsWell(message + LineFeeds(n), ending)
  {
    AfterLineFeeds(message);
    EndsInLineFeeds(message);
    NoneRight(message);
    var trailer := Trailer(message, ending);
    assert |trailer| <= 2 && trailer == LineFeeds(|trailer|);
    forall n | 0 <= n < |trailer| ensures !EndsWell(message + LineFeeds(n), ending) {
      assert n == 0 || n == 1;
    }
  }
}
