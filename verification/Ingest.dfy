/** Reading a message from a buffered source: the header line by line, then the
    body in one of three ways. */
module Ingest {
  import opened Bytes
  import opened PhysicalLines
  import opened IngestSpec

  datatype LimitKind = MessageSize | HeadersSize | BodySize | LineSize | FieldSize

  datatype ReadError = InputFailed | OutputFailed | LimitExceeded(kind: LimitKind)

  /** A buffered reader: the chunks its buffer will hold one after another, then
      the end of the input or, when `broken`, an error. */
  class Source {
    var chunks: seq<seq<Byte>>
    const broken: bool

    ghost predicate Valid()
      reads this
    {
      forall i :: 0 <= i < |chunks| ==> chunks[i] != []
    }

    ghost function Rest(): seq<Byte>
      reads this
    {
      Flatten(chunks)
    }

    constructor (chunks: seq<seq<Byte>>, broken: bool)
      requires forall i :: 0 <= i < |chunks| ==> chunks[i] != []
      ensures Valid() && this.chunks == chunks && this.broken == broken
    {
      this.chunks, this.broken := chunks, broken;
    }

    /** `fill_buf`: None is an input error, an empty buffer the end. */
    method FillBuf() returns (available: Option<seq<Byte>>)
      requires Valid()
      ensures available == if chunks != [] then Some(chunks[0]) else if broken then None else Some([])
    {
      if chunks != [] {
        return Some(chunks[0]);
      }
      return if broken then None else Some([]);
    }

    method Consume(n: nat)
      requires Valid() && chunks != [] && 0 < n <= |chunks[0]|
      modifies this
      ensures Valid() && Rest() == old(After(chunks, n))
    {
      if n == |chunks[0]| {
        NoneLeft(Flatten(chunks[1..]));
        chunks := chunks[1..];
      } else {
        ghost var more := chunks[1..];
        chunks := [chunks[0][n..]] + chunks[1..];
        assert chunks[1..] == more;
      }
    }
  }

  /** What is left of the chunks when `n` bytes of the first one are used up. */
  ghost function After(chunks: seq<seq<Byte>>, n: nat): seq<Byte>
    requires chunks != [] && n <= |chunks[0]|
  {
    chunks[0][n..] + Flatten(chunks[1..])
  }

  lemma SplitFront(chunks: seq<seq<Byte>>, n: nat)
    requires chunks != [] && n <= |chunks[0]|
    ensures Flatten(chunks) == chunks[0][..n] + After(chunks, n)
  {
    var front := chunks[0];
    assert front == front[..n] + front[n..];
    Assoc(front[..n], front[n..], Flatten(chunks[1..]));
  }

  // ----- One header line -----

  /** The line at the front of `rest` can be read, `read` header bytes before it. */
  predicate LineReadable(rest: seq<Byte>, broken: bool, limits: Limits, read: nat) {
    if rest == [] then !broken
    else
      var n := LineLen(rest);
      n <= limits.line && read + n <= limits.headers && read + n <= limits.message &&
      (broken ==> EndsLine(FirstLine(rest)))
  }

  /** Why it cannot. */
  predicate LineBlamed(error: ReadError, rest: seq<Byte>, broken: bool, limits: Limits, read: nat) {
    match error
    case InputFailed => broken && (rest == [] || !EndsLine(FirstLine(rest)))
    case OutputFailed => false
    case LimitExceeded(kind) =>
      rest != [] &&
      var n := LineLen(rest);
      match kind
      case LineSize => n > limits.line
      case HeadersSize => read + n > limits.headers
      case MessageSize => read + n > limits.message
      case _ => false
  }

  lemma LineReaches(rest: seq<Byte>, n: nat)
    requires n <= |rest| && forall j :: 0 <= j < n - 1 ==> rest[j] != LF
    ensures n <= LineLen(rest)
  {
  }

  /** What part of the line the loop holds. */
  ghost predicate PartOfLine(line: seq<Byte>, more: seq<Byte>, rest: seq<Byte>) {
    rest == line + more && forall j :: 0 <= j < |line| ==> line[j] != LF
  }

  /** Taking the next bytes, through the first LF among them. */
  lemma LineGrows(line: seq<Byte>, taken: seq<Byte>, more: seq<Byte>, rest: seq<Byte>)
    requires PartOfLine(line, taken + more, rest) && IsLine(taken)
    ensures rest == (line + taken) + more && |line + taken| <= LineLen(rest)
    ensures EndsLine(taken) ==> EndsLine(line + taken) && FirstLine(rest) == line + taken && RestLines(rest) == more
    ensures !EndsLine(taken) ==> PartOfLine(line + taken, more, rest)
  {
    Assoc(line, taken, more);
    var longer := line + taken;
    assert forall j :: 0 <= j < |longer| - 1 ==> longer[j] == rest[j] && longer[j] != LF;
    LineReaches(rest, |longer|);
    if EndsLine(taken) {
      FirstLineIs(longer, more);
    }
  }

  predicate Within(size: nat, limits: Limits, read: nat) {
    size <= limits.line && read + size <= limits.headers && read + size <= limits.message
  }

  /** The limit that a line of `size` bytes exceeds. */
  predicate Over(kind: LimitKind, size: nat, limits: Limits, read: nat) {
    match kind
    case LineSize => size > limits.line
    case HeadersSize => read + size > limits.headers
    case MessageSize => read + size > limits.message
    case _ => false
  }

  /** The loop has the whole line: it ends in LF, or the input ends. */
  ghost predicate Gathered(line: seq<Byte>, more: seq<Byte>, rest: seq<Byte>) {
    if EndsLine(line) then rest == line + more && FirstLine(rest) == line && RestLines(rest) == more
    else PartOfLine(line, [], rest) && more == []
  }

  lemma GatheredLine(line: seq<Byte>, more: seq<Byte>, rest: seq<Byte>)
    requires Gathered(line, more, rest)
    ensures RestLines(rest) == more && (rest == [] <==> line == []) && (rest != [] ==> FirstLine(rest) == line)
  {
    if !EndsLine(line) {
      NoneRight(line);
      if rest != [] {
        FirstLineIs(line, []);
      }
    }
  }

  /** One round of the loop: the bytes of the next chunk through its first LF. */
  lemma LineAdvances(chunks: seq<seq<Byte>>, line: seq<Byte>, rest: seq<Byte>) returns (more: seq<Byte>)
    requires chunks != [] && chunks[0] != [] && PartOfLine(line, Flatten(chunks), rest)
    ensures var take := LineLen(chunks[0]);
            var longer := line + chunks[0][..take];
            0 < take && more == After(chunks, take) && |more| < |Flatten(chunks)| && |longer| <= LineLen(rest) &&
            (if longer[|longer| - 1] == LF then EndsLine(longer) && Gathered(longer, more, rest)
             else PartOfLine(longer, more, rest))
  {
    var take := LineLen(chunks[0]);
    var taken := chunks[0][..take];
    more := After(chunks, take);
    SplitFront(chunks, take);
    LineGrows(line, taken, more, rest);
  }

  datatype Progress = More | Whole | Failed(error: ReadError)

  /** Where one round, or all of them, leave the line. */
  ghost predicate Stands(progress: Progress, line: seq<Byte>, left: seq<Byte>, rest: seq<Byte>, broken: bool,
                         limits: Limits, read: nat) {
    match progress
    case More => PartOfLine(line, left, rest) && (line != [] ==> Within(|line|, limits, read))
    case Whole => Gathered(line, left, rest) && (line != [] ==> Within(|line|, limits, read)) && (EndsLine(line) || !broken)
    case Failed(InputFailed) => broken && PartOfLine(line, [], rest)
    case Failed(OutputFailed) => false
    case Failed(LimitExceeded(kind)) => 0 < |line| <= LineLen(rest) && Over(kind, |line|, limits, read)
  }

  /** One round of the loop of `read_header_line`. */
  method GatherMore(source: Source, limits: Limits, headersRead: nat, part: seq<Byte>, ghost rest: seq<Byte>)
      returns (line: seq<Byte>, progress: Progress)
    requires source.Valid() && Stands(More, part, source.Rest(), rest, source.broken, limits, headersRead)
    modifies source
    ensures source.Valid() && Stands(progress, line, source.Rest(), rest, source.broken, limits, headersRead)
    ensures progress.More? ==> |source.Rest()| < |old(source.Rest())|
  {
    line := part;
    var buffer := source.FillBuf();
    if buffer == Some([]) {
      return line, Whole;
    }
    if buffer.None? {
      return line, Failed(InputFailed);
    }
    var available := buffer.value;
    var take := LineLen(available);
    ghost var more := LineAdvances(source.chunks, line, rest);
    line := line + available[..take];
    if |line| > limits.line {
      return line, Failed(LimitExceeded(LineSize));
    }
    if headersRead + |line| > limits.headers {
      return line, Failed(LimitExceeded(HeadersSize));
    }
    if headersRead + |line| > limits.message {
      return line, Failed(LimitExceeded(MessageSize));
    }
    source.Consume(take);
    progress := if line[|line| - 1] == LF then Whole else More;
  }

  /** `read_header_line`. */
  method ReadHeaderLine(source: Source, limits: Limits, headersRead: nat) returns (r: Result<Option<seq<Byte>>, ReadError>)
    requires source.Valid()
    modifies source
    ensures source.Valid()
    ensures r.Ok? <==> LineReadable(old(source.Rest()), source.broken, limits, headersRead)
    ensures r.Ok? ==> r.value == (if old(source.Rest()) == [] then None else Some(FirstLine(old(source.Rest()))))
    ensures r.Ok? ==> source.Rest() == RestLines(old(source.Rest()))
    ensures r.Err? ==> LineBlamed(r.error, old(source.Rest()), source.broken, limits, headersRead)
  {
    ghost var rest := source.Rest();
    NoneLeft(rest);
    var line, progress := [], More;
    while progress.More?
      invariant source.Valid() && Stands(progress, line, source.Rest(), rest, source.broken, limits, headersRead)
      decreases progress.More?, |source.Rest()|
    {
      line, progress := GatherMore(source, limits, headersRead, line, rest);
    }
    if progress.Failed? {
      if progress.error.InputFailed? {
        GatheredLine(line, [], rest);
      }
      return Err(progress.error);
    }
    GatheredLine(line, source.Rest(), rest);
    r := Ok(if line == [] then None else Some(line));
  }

  // ----- The header -----

  /** The input really exceeds the limit an error names. */
  ghost predicate Exceeded(kind: LimitKind, input: seq<Byte>, limits: Limits) {
    match kind
    case MessageSize => |input| > limits.message
    case HeadersSize => HeaderEnd(input, 0) > limits.headers
    case BodySize => |input| - HeaderEnd(input, 0) > limits.body
    case LineSize => !LinesKeep(input, 0, HeaderEnd(input, 0), limits.line)
    case FieldSize => !FieldsKeep(input, 0, 0, ContentEnd(input, 0), limits.field)
  }

  /** The loop has read `i` bytes of whole lines and found no empty line; the
      current field began at `start`. */
  ghost predicate Scanned(input: seq<Byte>, i: nat, start: nat, limits: Limits) {
    start <= i <= |input| && (i < |input| ==> IsLineStart(input, i)) && Continues(input, start, i) &&
    HeaderEnd(input, i) == HeaderEnd(input, 0) && ContentEnd(input, i) == ContentEnd(input, 0) &&
    (HeaderFits(input, i, start, limits) <==> HeaderFits(input, 0, 0, limits))
  }

  lemma LineAt(input: seq<Byte>, i: nat)
    requires i < |input|
    ensures var e, rest := LineEnd(input, i), input[i..];
            LineLen(rest) == e - i && FirstLine(rest) == input[i..e] && RestLines(rest) == input[e..] &&
            input[..i] + input[i..e] == input[..e]
  {
    var e := LineEnd(input, i);
    LineLenIs(input[i..], e - i);
    CutMiddle(input, i, e);
  }

  lemma CutMiddle(input: seq<Byte>, i: nat, e: nat)
    requires i <= e <= |input|
    ensures input[i..][..e - i] == input[i..e] && input[i..][e - i..] == input[e..]
    ensures input[..i] + input[i..e] == input[..e]
  {
  }

  lemma ScanOn(input: seq<Byte>, i: nat, start: nat, limits: Limits)
    requires i < |input| && Scanned(input, i, start, limits)
    requires LineReadable(input[i..], false, limits, i) && !IsSeparator(FirstLine(input[i..]))
    ensures var e, first := LineEnd(input, i), FieldStart(input, i, start);
            if e - first <= limits.field then Scanned(input, e, first, limits)
            else !HeaderFits(input, 0, 0, limits) && Exceeded(FieldSize, input, limits)
  {
    var e, first := LineEnd(input, i), FieldStart(input, i, start);
    LineAt(input, i);
    LineKinds(input, i);
    ContinuesNext(input, start, i);
  }

  lemma ScanStops(input: seq<Byte>, i: nat, start: nat, limits: Limits, read: bool)
    requires i <= |input| && Scanned(input, i, start, limits)
    requires read ==> LineReadable(input[i..], false, limits, i) && (i < |input| ==> IsSeparator(FirstLine(input[i..])))
    ensures i < |input| ==> LineLen(input[i..]) == LineEnd(input, i) - i
    ensures read ==> HeaderFits(input, 0, 0, limits)
    ensures read ==> HeaderEnd(input, 0) == if i == |input| then i else LineEnd(input, i)
    ensures read ==> ContentEnd(input, 0) == i
    ensures i < |input| ==> LineEnd(input, i) <= HeaderEnd(input, 0)
    ensures i < |input| ==> (LineReadable(input[i..], false, limits, i) <==>
                             LineEnd(input, i) - i <= limits.line && LineEnd(input, i) <= limits.headers &&
                             LineEnd(input, i) <= limits.message)
  {
    if i < |input| {
      LineAt(input, i);
    }
  }

  /** A line that could not be read. */
  lemma ScanFails(input: seq<Byte>, i: nat, start: nat, limits: Limits, error: ReadError, broken: bool)
    requires i <= |input| && Scanned(input, i, start, limits) && LineBlamed(error, input[i..], broken, limits, i)
    ensures error.InputFailed? ==> broken && ContentEnd(input, 0) == HeaderEnd(input, 0)
    ensures error.LimitExceeded? ==> !HeaderFits(input, 0, 0, limits) && Exceeded(error.kind, input, limits)
  {
    ScanStops(input, i, start, limits, false);
    if i < |input| {
      LineAt(input, i);
      var e := LineEnd(input, i);
      if error == LimitExceeded(LineSize) {
        assert LineSpan(input, i, e);
      } else if error.InputFailed? {
        assert input[i..e][e - i - 1] == input[e - 1];
        UnendedLine(input, i);
      }
    }
  }

  lemma UnendedLine(input: seq<Byte>, i: nat)
    requires i < |input| && input[LineEnd(input, i) - 1] != LF
    ensures HeaderEnd(input, i) == ContentEnd(input, i) == |input|
  {
    var e := LineEnd(input, i);
    var line := input[i..e];
    assert line[|line| - 1] == input[e - 1];
  }

  /** `read_headers`. */
  method ReadHeaders(source: Source, limits: Limits) returns (r: Result<seq<Byte>, ReadError>)
    requires source.Valid()
    modifies source
    ensures source.Valid()
    ensures var input := old(source.Rest());
            var h := HeaderEnd(input, 0);
            (r.Ok? <==> HeaderFits(input, 0, 0, limits) && (source.broken ==> ContentEnd(input, 0) < h)) &&
            (r.Ok? ==> r.value == input[..h] && source.Rest() == input[h..]) &&
            (r.Err? ==> !r.error.OutputFailed?) &&
            (r == Err(InputFailed) ==> source.broken) &&
            (r.Err? && r.error.LimitExceeded? ==> Exceeded(r.error.kind, input, limits))
  {
    var raw, fieldSize := [], 0;
    ghost var input, start := source.Rest(), 0;
    assert input[0..] == input;
    while true
      invariant source.Valid() && |raw| <= |input| && raw == input[..|raw|] && source.Rest() == input[|raw|..]
      invariant Scanned(input, |raw|, start, limits) && fieldSize == |raw| - start
      decreases |source.Rest()|
    {
      ghost var i := |raw|;
      var next := ReadHeaderLine(source, limits, |raw|);
      if next.Err? {
        ScanFails(input, i, start, limits, next.error, source.broken);
        return Err(next.error);
      }
      if next.value.None? {
        ScanStops(input, i, start, limits, true);
        return Ok(raw);
      }
      var line := next.value.value;
      LineAt(input, i);
      if IsSeparator(line) {
        ScanStops(input, i, start, limits, true);
        return Ok(raw + line);
      }
      fieldSize := if IsBlank(line[0]) then fieldSize + |line| else |line|;
      ScanOn(input, i, start, limits);
      start := FieldStart(input, i, start);
      if fieldSize > limits.field {
        return Err(LimitExceeded(FieldSize));
      }
      raw := raw + line;
    }
  }
}
