/** Reading the body: retained, retained and copied to a writer, or only copied. */
module IngestBody {
  import opened Bytes
  import opened PhysicalLines
  import opened IngestSpec
  import opened MboxWriter
  import opened Ingest

  /** `total` bytes came before `body`, which has to keep the limits. */
  predicate BodyKeeps(body: seq<Byte>, before: nat, limits: Limits) {
    body == [] || (|body| <= limits.body && before + |body| <= limits.message)
  }

  predicate BodyBlamed(error: ReadError, body: seq<Byte>, before: nat, broken: bool, room: Option<nat>, limits: Limits) {
    match error
    case InputFailed => broken
    case OutputFailed => room.Some? && |body| > room.value
    case LimitExceeded(BodySize) => |body| > limits.body
    case LimitExceeded(MessageSize) => before + |body| > limits.message
    case _ => false
  }

  /** The bytes already read and those still to come. */
  lemma NextChunk(done: seq<Byte>, chunks: seq<seq<Byte>>, body: seq<Byte>)
    requires chunks != [] && body == done + Flatten(chunks)
    ensures After(chunks, |chunks[0]|) == Flatten(chunks[1..])
    ensures body == (done + chunks[0]) + After(chunks, |chunks[0]|)
  {
    NoneLeft(Flatten(chunks[1..]));
    Assoc(done, chunks[0], Flatten(chunks[1..]));
  }

  /** `read_body`. `total` counts what was written before when there is a writer. */
  method ReadBody(source: Source, limits: Limits, raw: seq<Byte>, retain: bool, total: nat, writer: ByteSink?)
      returns (r: Result<(seq<Byte>, nat), ReadError>)
    requires source.Valid() && (retain || writer != null)
    modifies source, writer
    ensures source.Valid()
    ensures var body := old(source.Rest());
            var before := if writer == null then |raw| else total;
            var room := if writer == null then None else Some(old(writer.room));
            (r.Ok? <==> !source.broken && BodyKeeps(body, before, limits) &&
                        (writer != null ==> |body| <= old(writer.room))) &&
            (r.Ok? ==> r.value == (if retain then raw + body else raw, if writer == null then total else total + |body|)) &&
            (r.Ok? && writer != null ==> writer.data == old(writer.data) + body) &&
            (r.Err? ==> BodyBlamed(r.error, body, before, source.broken, room, limits))
  {
    ghost var body, done := source.Rest(), [];
    ghost var before := if writer == null then |raw| else total;
    var kept, written, bodySize := raw, total, 0;
    NoneLeft(body);
    NoneRight(raw);
    if writer != null {
      NoneRight(writer.data);
    }
    while true
      invariant source.Valid() && body == done + source.Rest() && bodySize == |done|
      invariant kept == if retain then raw + done else raw
      invariant written == if writer == null then total else total + |done|
      invariant BodyKeeps(done, before, limits)
      invariant writer != null ==> |done| <= old(writer.room) && writer.room == old(writer.room) - |done| &&
                                   writer.data == old(writer.data) + done
      decreases |source.Rest()|
    {
      var buffer := source.FillBuf();
      if buffer.None? {
        return Err(InputFailed);
      }
      var available := buffer.value;
      if available == [] {
        NoneRight(done);
        return Ok((kept, written));
      }
      NextChunk(done, source.chunks, body);
      ghost var now := done + available;
      var size := if writer == null then |kept| else written;
      if bodySize + |available| > limits.body {
        return Err(LimitExceeded(BodySize));
      }
      if size + |available| > limits.message {
        return Err(LimitExceeded(MessageSize));
      }
      if retain {
        Assoc(raw, done, available);
        kept := kept + available;
      }
      if writer != null {
        ghost var start := old(writer.data);
        Assoc(start, done, available);
        var ok := writer.WriteAll(available);
        if !ok {
          return Err(OutputFailed);
        }
        written := written + |available|;
      }
      bodySize, done := bodySize + |available|, now;
      source.Consume(|available|);
    }
  }

  // ----- Whole messages -----

  datatype Message = Message(raw: seq<Byte>, bodyStart: nat)

  datatype Streamed = Streamed(header: seq<Byte>, len: nat)

  lemma AcceptsParts(input: seq<Byte>, limits: Limits)
    ensures var h := HeaderEnd(input, 0);
            input[..h] + input[h..] == input &&
            (Accepts(input, limits) <==> HeaderFits(input, 0, 0, limits) && BodyKeeps(input[h..], h, limits)) &&
            (ContentEnd(input, 0) == h ==> h == |input|)
  {
    NoSeparatorNoBody(input, 0);
  }

  lemma {:induction false} NoSeparatorNoBody(input: seq<Byte>, i: nat)
    requires i <= |input|
    ensures ContentEnd(input, i) == HeaderEnd(input, i) ==> HeaderEnd(input, i) == |input|
    decreases |input| - i
  {
    if i < |input| && ContentEnd(input, i) == HeaderEnd(input, i) {
      NoSeparatorNoBody(input, LineEnd(input, i));
    }
  }

  /** `read_from`: the whole message is kept. */
  method ReadMessage(source: Source, limits: Limits) returns (r: Result<Message, ReadError>)
    requires source.Valid()
    modifies source
    ensures var input := old(source.Rest());
            (r.Ok? <==> !source.broken && Accepts(input, limits)) &&
            (r.Ok? ==> r.value == Message(input, HeaderEnd(input, 0))) &&
            (r.Err? && r.error.LimitExceeded? ==> Exceeded(r.error.kind, input, limits))
  {
    ghost var input := source.Rest();
    AcceptsParts(input, limits);
    var head := ReadHeaders(source, limits);
    if head.Err? {
      return Err(head.error);
    }
    var whole := ReadBody(source, limits, head.value, true, 0, null);
    if whole.Err? {
      return Err(whole.error);
    }
    r := Ok(Message(whole.value.0, |head.value|));
  }

  /** `read_headers` and `read_body_to`: kept and copied. */
  method TeeMessage(source: Source, limits: Limits, writer: ByteSink) returns (r: Result<Message, ReadError>)
    requires source.Valid()
    modifies source, writer
    ensures var input := old(source.Rest());
            (r.Ok? <==> !source.broken && Accepts(input, limits) && |input| <= old(writer.room)) &&
            (r.Ok? ==> r.value == Message(input, HeaderEnd(input, 0)) && writer.data == old(writer.data) + input) &&
            (r.Err? && r.error.LimitExceeded? ==> Exceeded(r.error.kind, input, limits))
  {
    ghost var input := source.Rest();
    AcceptsParts(input, limits);
    var head := ReadHeaders(source, limits);
    if head.Err? {
      return Err(head.error);
    }
    ghost var body := source.Rest();
    Assoc(writer.data, head.value, body);
    var ok := writer.WriteAll(head.value);
    if !ok {
      return Err(OutputFailed);
    }
    var whole := ReadBody(source, limits, head.value, true, |head.value|, writer);
    if whole.Err? {
      return Err(whole.error);
    }
    r := Ok(Message(whole.value.0, |head.value|));
  }

  /** `read_headers` and `stream_to`: only copied. */
  method StreamMessage(source: Source, limits: Limits, writer: ByteSink) returns (r: Result<Streamed, ReadError>)
    requires source.Valid()
    modifies source, writer
    ensures var input := old(source.Rest());
            (r.Ok? <==> !source.broken && Accepts(input, limits) && |input| <= old(writer.room)) &&
            (r.Ok? ==> r.value == Streamed(input[..HeaderEnd(input, 0)], |input|) && writer.data == old(writer.data) + input) &&
            (r.Err? && r.error.LimitExceeded? ==> Exceeded(r.error.kind, input, limits))
  {
    ghost var input := source.Rest();
    AcceptsParts(input, limits);
    var head := ReadHeaders(source, limits);
    if head.Err? {
      return Err(head.error);
    }
    ghost var body := source.Rest();
    Assoc(writer.data, head.value, body);
    var ok := writer.WriteAll(head.value);
    if !ok {
      return Err(OutputFailed);
    }
    var whole := ReadBody(source, limits, [], false, |head.value|, writer);
    if whole.Err? {
      return Err(whole.error);
    }
    r := Ok(Streamed(head.value, whole.value.1));
  }
}
