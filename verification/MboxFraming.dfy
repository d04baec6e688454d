/** A mailbox written by any history of appends reads back as that history. */
module MboxFraming {
  import opened Bytes
  import opened PhysicalLines
  import opened Mbox

  datatype Delivery = Delivery(postmark: seq<Byte>, message: seq<Byte>, ending: OutputEnding)

  datatype Entry = Entry(postmark: seq<Byte>, text: seq<Byte>)

  function RecordOf(d: Delivery): seq<Byte> {
    Record(d.postmark, d.message, d.ending)
  }

  /** What the first `k` deliveries of a history contribute, in order. */
  function Gather<T>(part: Delivery -> seq<T>, history: seq<Delivery>, k: nat): seq<T>
    requires k <= |history|
  {
    if k == 0 then [] else Gather(part, history, k - 1) + part(history[k - 1])
  }

  /** The contents of a mailbox after the first `k` deliveries of a history. */
  function Mailbox(history: seq<Delivery>, k: nat): seq<Byte>
    requires k <= |history|
  {
    Gather(RecordOf, history, k)
  }

  // ----- The reader: a `From ` line starts a message, other lines are unquoted -----

  function AddLine(entries: seq<Entry>, l: seq<Byte>): seq<Entry> {
    if StartsMessage(l) then entries + [Entry(l, [])]
    else if entries == [] then []
    else
      var last := entries[|entries| - 1];
      entries[|entries| - 1 := Entry(last.postmark, last.text + UnquoteLine(l))]
  }

  function ReadLines(entries: seq<Entry>, ls: seq<seq<Byte>>): seq<Entry>
    decreases |ls|
  {
    if ls == [] then entries else ReadLines(AddLine(entries, ls[0]), ls[1..])
  }

  function ReadMailbox(box: seq<Byte>): seq<Entry> {
    ReadLines([], LinesOf(box))
  }

  /** What a reader should get back for one delivery: the message itself, then at
      most two LFs. */
  function EntryOf(d: Delivery): Entry {
    Entry(d.postmark, d.message + Trailer(d.message, d.ending))
  }

  function Entries(history: seq<Delivery>, k: nat): seq<Entry>
    requires k <= |history|
  {
    Gather(d => [EntryOf(d)], history, k)
  }

  // ----- The lines of one record -----

  function QuoteLines(ls: seq<seq<Byte>>): seq<seq<Byte>> {
    if ls == [] then [] else [QuoteLine(ls[0])] + QuoteLines(ls[1..])
  }

  lemma {:induction false} QuoteTextByLines(s: seq<Byte>)
    ensures QuoteText(s) == Flatten(QuoteLines(LinesOf(s)))
    decreases |s|
  {
    if s != [] {
      FirstLineIsLine(s);
      QuoteTextByLines(RestLines(s));
      var rest := LinesOf(RestLines(s));
      assert ([FirstLine(s)] + rest)[1..] == rest;
      assert ([QuoteLine(FirstLine(s))] + QuoteLines(rest))[1..] == QuoteLines(rest);
    }
  }

  lemma {:induction false} QuoteLinesFinished(ls: seq<seq<Byte>>)
    requires Finished(ls)
    ensures Finished(QuoteLines(ls))
    decreases |ls|
  {
    if ls != [] {
      QuoteLineKeepsShape(ls[0]);
      QuoteLinesFinished(ls[1..]);
      FinishedAppend([QuoteLine(ls[0])], QuoteLines(ls[1..]));
    }
  }

  /** The separator can be seen as part of the quoted text. */
  lemma QuoteTextTrailer(message: seq<Byte>, ending: OutputEnding)
    ensures QuoteText(message) + Trailer(message, ending) == QuoteText(message + Trailer(message, ending))
  {
    var t := Trailer(message, ending);
    if t == [] {
      NoneRight(message);
      NoneRight(QuoteText(message));
    } else if t == [LF] {
      QuoteTextAppendLF(message);
    } else {
      assert [LF, LF] == [LF] + [LF];
      QuoteTextAppendLF(message);
      QuoteTextAppendLF(message + [LF]);
      Assoc(message, [LF], [LF]);
      Assoc(QuoteText(message), [LF], [LF]);
    }
  }

  lemma TrailerEndsLine(message: seq<Byte>, ending: OutputEnding)
    ensures var text := message + Trailer(message, ending); text == [] || EndsLine(text)
    ensures |Trailer(message, ending)| <= 2
  {
    if Trailer(message, ending) == [] {
      NoneRight(message);
      SuffixEndsLine(message);
    }
  }

  lemma SuffixEndsLine(message: seq<Byte>)
    ensures IsSuffix([LF], message) || IsSuffix([LF, LF], message) ==> EndsLine(message)
  {
    if IsSuffix([LF], message) {
      assert message[|message| - 1..][0] == message[|message| - 1];
    }
    if IsSuffix([LF, LF], message) {
      assert message[|message| - 2..][1] == message[|message| - 1];
    }
  }

  function RecordLines(d: Delivery): seq<seq<Byte>> {
    [d.postmark] + QuoteLines(LinesOf(d.message + Trailer(d.message, d.ending)))
  }

  lemma PostmarkIsLine(p: seq<Byte>)
    requires IsPostmark(p)
    ensures IsLine(p) && EndsLine(p) && StartsMessage(p)
  {
    forall j | 0 <= j < |p| - 1
      ensures p[j] != LF
    {
      assert p[j] == p[..|p| - 1][j];
    }
  }

  lemma RecordByLines(d: Delivery)
    requires IsPostmark(d.postmark)
    ensures RecordOf(d) == Flatten(RecordLines(d)) && Finished(RecordLines(d))
  {
    var t := Trailer(d.message, d.ending);
    var body := QuoteLines(LinesOf(d.message + t));
    PostmarkIsLine(d.postmark);
    TrailerEndsLine(d.message, d.ending);
    FinishedLines(d.message + t);
    QuoteLinesFinished(LinesOf(d.message + t));
    FinishedAppend([d.postmark], body);
    QuoteTextTrailer(d.message, d.ending);
    QuoteTextByLines(d.message + t);
    Assoc(d.postmark, QuoteText(d.message), t);
    assert ([d.postmark] + body)[1..] == body;
  }

  // ----- The lines of a whole mailbox -----

  ghost predicate ValidHistory(history: seq<Delivery>) {
    forall i :: 0 <= i < |history| ==> IsPostmark(history[i].postmark)
  }

  lemma {:induction false} ReadAppend(entries: seq<Entry>, a: seq<seq<Byte>>, b: seq<seq<Byte>>)
    ensures ReadLines(entries, a + b) == ReadLines(ReadLines(entries, a), b)
    decreases |a|
  {
    if a == [] {
      NoneLeft(b);
    } else {
      assert (a + b)[0] == a[0] && (a + b)[1..] == a[1..] + b;
      ReadAppend(AddLine(entries, a[0]), a[1..], b);
    }
  }

  /** Quoted lines never start a message and come back as they were. */
  lemma {:induction false} ReadQuoted(entries: seq<Entry>, e: Entry, ls: seq<seq<Byte>>)
    ensures ReadLines(entries + [e], QuoteLines(ls)) == entries + [Entry(e.postmark, e.text + Flatten(ls))]
    decreases |ls|
  {
    if ls == [] {
      NoneRight(e.text);
    } else {
      QuoteLineRoundTrip(ls[0]);
      var next := Entry(e.postmark, e.text + ls[0]);
      assert (entries + [e])[|entries| := next] == entries + [next];
      assert AddLine(entries + [e], QuoteLine(ls[0])) == entries + [next];
      assert QuoteLines(ls)[1..] == QuoteLines(ls[1..]);
      ReadQuoted(entries, next, ls[1..]);
      Assoc(e.text, ls[0], Flatten(ls[1..]));
    }
  }

  lemma ReadRecord(entries: seq<Entry>, d: Delivery)
    requires IsPostmark(d.postmark)
    ensures ReadLines(entries, RecordLines(d)) == entries + [EntryOf(d)]
  {
    var text := d.message + Trailer(d.message, d.ending);
    var body := QuoteLines(LinesOf(text));
    PostmarkIsLine(d.postmark);
    assert ([d.postmark] + body)[1..] == body;
    ReadQuoted(entries, Entry(d.postmark, []), LinesOf(text));
    FlattenOfLines(text);
    NoneLeft(text);
  }

  /** Lines that make up the bytes of every delivery make up the bytes of all. */
  lemma {:induction false} GatherBytes(lines: Delivery -> seq<seq<Byte>>, bytes: Delivery -> seq<Byte>,
                                       history: seq<Delivery>, k: nat)
    requires k <= |history|
    requires forall i :: 0 <= i < |history| ==> Finished(lines(history[i])) && Flatten(lines(history[i])) == bytes(history[i])
    ensures Finished(Gather(lines, history, k)) && Flatten(Gather(lines, history, k)) == Gather(bytes, history, k)
  {
    if 0 < k {
      GatherBytes(lines, bytes, history, k - 1);
      var before, last := Gather(lines, history, k - 1), lines(history[k - 1]);
      FlattenAppend(before, last);
      FinishedAppend(before, last);
    }
  }

  /** A reader that goes on where it stopped, and reads the lines of every
      delivery as its entries, reads the lines of all as all entries. */
  lemma {:induction false} GatherEntries(read: (seq<Entry>, seq<seq<Byte>>) -> seq<Entry>,
                                         lines: Delivery -> seq<seq<Byte>>, entries: Delivery -> seq<Entry>,
                                         history: seq<Delivery>, k: nat)
    requires k <= |history| && read([], []) == []
    requires forall e, a, b {:trigger read(e, a + b)} :: read(e, a + b) == read(read(e, a), b)
    requires forall i, before :: 0 <= i < |history| ==> read(before, lines(history[i])) == before + entries(history[i])
    ensures read([], Gather(lines, history, k)) == Gather(entries, history, k)
  {
    if 0 < k {
      GatherEntries(read, lines, entries, history, k - 1);
    }
  }

  /** The lines a history leaves in the mailbox make up its bytes and read back
      as its entries. */
  lemma HistoryLines(history: seq<Delivery>) returns (ls: seq<seq<Byte>>)
    requires ValidHistory(history)
    ensures Finished(ls) && Flatten(ls) == Mailbox(history, |history|) && ReadLines([], ls) == Entries(history, |history|)
  {
    ls := Gather(RecordLines, history, |history|);
    forall i | 0 <= i < |history|
      ensures Finished(RecordLines(history[i])) && Flatten(RecordLines(history[i])) == RecordOf(history[i])
    {
      RecordByLines(history[i]);
    }
    GatherBytes(RecordLines, RecordOf, history, |history|);
    var entries := (d: Delivery) => [EntryOf(d)];
    forall i, before | 0 <= i < |history|
      ensures ReadLines(before, RecordLines(history[i])) == before + entries(history[i])
    {
      ReadRecord(before, history[i]);
    }
    forall e, a, b ensures ReadLines(e, a + b) == ReadLines(ReadLines(e, a), b) {
      ReadAppend(e, a, b);
    }
    GatherEntries(ReadLines, RecordLines, entries, history, |history|);
    SameEntries(history, entries, |history|);
  }

  lemma {:induction false} SameEntries(history: seq<Delivery>, entries: Delivery -> seq<Entry>, k: nat)
    requires k <= |history| && forall d :: entries(d) == [EntryOf(d)]
    ensures Gather(entries, history, k) == Entries(history, k)
  {
    if 0 < k {
      SameEntries(history, entries, k - 1);
    }
  }

  /** Framing over a whole run: whatever was delivered, in whatever ending mode,
      reading the mailbox gives back exactly the postmarks and the messages, in
      order, each followed by at most two LFs. */
  lemma MailboxReadsBack(history: seq<Delivery>)
    requires ValidHistory(history)
    ensures ReadMailbox(Mailbox(history, |history|)) == Entries(history, |history|)
  {
    var ls := HistoryLines(history);
    LinesOfFlatten(ls);
  }
}
