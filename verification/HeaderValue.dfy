/** Generated header fields: validation, and the encoded-word form of a value
    that is not ASCII. */
module HeaderValue {
  import opened Bytes
  import opened Utf8
  import opened EncodedWord
  import Base64

  const COLON: Byte := 58
  const HYPHEN: Byte := 45
  const MAX_LINE: nat := 998
  const MAX_WORD_LINE: nat := 76
  const MAX_CHUNK: nat := 45

  datatype GeneratedError = InvalidValue | LineTooLong

  /** A line ends in LF or in CRLF. */
  predicate IsEnding(ending: seq<Byte>) {
    ending == [LF] || ending == [CR, LF]
  }

  // ----- Names -----

  function CanonicalFrom(name: seq<Byte>, i: nat, beginning: bool): seq<Byte>
    requires i <= |name|
    decreases |name| - i
  {
    if i == |name| then []
    else [if beginning then Uppercase(name[i]) else Lowercase(name[i])] + CanonicalFrom(name, i + 1, name[i] == HYPHEN)
  }

  /** The first letter of every part upper-case, the others lower-case. */
  function Canonical(name: seq<Byte>): seq<Byte> {
    CanonicalFrom(name, 0, true)
  }

  /** Only letter case changes. */
  lemma {:induction false} CanonicalKeepsName(name: seq<Byte>, i: nat, beginning: bool)
    requires i <= |name|
    ensures SameName(CanonicalFrom(name, i, beginning), name[i..])
    decreases |name| - i
  {
    if i < |name| {
      var next := name[i] == HYPHEN;
      CanonicalKeepsName(name, i + 1, next);
      var rest := CanonicalFrom(name, i + 1, next);
      SameNameCons(if beginning then Uppercase(name[i]) else Lowercase(name[i]), name[i], rest, name[i + 1..]);
      assert name[i..] == [name[i]] + name[i + 1..];
    }
  }

  /** The first letter, and every letter after a hyphen, is a capital; the others are small. */
  lemma {:induction false} CanonicalLetters(name: seq<Byte>, i: nat, beginning: bool)
    requires i <= |name| && (i < |name| ==> beginning == (i == 0 || name[i - 1] == HYPHEN))
    ensures var r := CanonicalFrom(name, i, beginning);
            |r| == |name| - i &&
            forall k :: 0 <= k < |r| ==>
              var b, capital := name[i + k], i + k == 0 || name[i + k - 1] == HYPHEN;
              r[k] == if capital && 97 <= b <= 122 then b - 32 else if !capital && 65 <= b <= 90 then b + 32 else b
    decreases |name| - i
  {
    if i < |name| {
      var rest := CanonicalFrom(name, i + 1, name[i] == HYPHEN);
      CanonicalLetters(name, i + 1, name[i] == HYPHEN);
      var r := CanonicalFrom(name, i, beginning);
      assert forall k :: 0 < k < |r| ==> r[k] == rest[k - 1];
    }
  }

  lemma SameNameCons(a: Byte, b: Byte, s: seq<Byte>, t: seq<Byte>)
    requires Uppercase(a) == Uppercase(b) && SameName(s, t)
    ensures SameName([a] + s, [b] + t)
  {
  }

  method CanonicalName(output: seq<Byte>, name: seq<Byte>) returns (r: seq<Byte>)
    ensures r == output + Canonical(name)
  {
    r := output;
    var beginning := true;
    for i := 0 to |name|
      invariant r + CanonicalFrom(name, i, beginning) == output + Canonical(name)
    {
      var letter := if beginning then Uppercase(name[i]) else Lowercase(name[i]);
      MoveOne(r, letter, CanonicalFrom(name, i + 1, name[i] == HYPHEN));
      r := r + [letter];
      beginning := name[i] == HYPHEN;
    }
    NoneRight(r);
  }

  // ----- Chunks -----

  /** The last character boundary at or before `j`. */
  function BackUp(value: seq<Byte>, j: nat): (k: nat)
    requires j <= |value|
    ensures k <= j && (0 < k ==> Boundary(value, k))
  {
    if j == 0 || Boundary(value, j) then j else BackUp(value, j - 1)
  }

  lemma {:induction false} BackUpReaches(value: seq<Byte>, j: nat, k: nat)
    requires k <= j <= |value| && Boundary(value, k)
    ensures k <= BackUp(value, j)
    decreases j
  {
    if j != 0 && !Boundary(value, j) {
      BackUpReaches(value, j - 1, k);
    }
  }

  function ChunkEnd(value: seq<Byte>, start: nat): nat
    requires start <= |value|
  {
    BackUp(value, Min(start + MAX_CHUNK, |value|))
  }

  lemma ChunkBounds(value: seq<Byte>, start: nat)
    requires IsText(value) && start < |value|
    ensures var end := ChunkEnd(value, start);
            start < end <= |value| && end <= start + MAX_CHUNK && Boundary(value, end) &&
            (end < |value| ==> start + 42 <= end)
  {
    var j := Min(start + MAX_CHUNK, |value|);
    var k := j;
    if j < |value| {
      k := BoundaryNear(value, j);
    }
    BackUpReaches(value, j, k);
  }

  /** The chunks of `value` from `start` on. */
  function ChunksFrom(value: seq<Byte>, start: nat): seq<seq<Byte>>
    requires start <= |value|
    decreases |value| - start
  {
    var end := ChunkEnd(value, start);
    if end <= start then [] else [value[start..end]] + ChunksFrom(value, end)
  }

  function Chunks(value: seq<Byte>): seq<seq<Byte>> {
    ChunksFrom(value, 0)
  }

  /** Whole characters that fit one encoded-word. */
  predicate IsChunk(chunk: seq<Byte>) {
    chunk != [] && |chunk| <= MAX_CHUNK && IsText(chunk)
  }

  ghost predicate AreChunks(chunks: seq<seq<Byte>>) {
    forall i :: 0 <= i < |chunks| ==> IsChunk(chunks[i])
  }

  lemma AreChunksCons(chunk: seq<Byte>, rest: seq<seq<Byte>>)
    requires IsChunk(chunk) && AreChunks(rest)
    ensures AreChunks([chunk] + rest) && ([chunk] + rest)[1..] == rest
  {
  }

  lemma SliceRest(value: seq<Byte>, start: nat, end: nat)
    requires start <= end <= |value|
    ensures value[start..end] + value[end..] == value[start..]
  {
  }

  /** Cutting loses nothing and splits no character. */
  lemma {:induction false} ChunksJoin(value: seq<Byte>, start: nat)
    requires IsText(value) && start <= |value| && Boundary(value, start)
    ensures AreChunks(ChunksFrom(value, start)) && Flatten(ChunksFrom(value, start)) == value[start..]
    decreases |value| - start
  {
    if start < |value| {
      ChunkBounds(value, start);
      var end := ChunkEnd(value, start);
      SliceText(value, start, end);
      ChunksJoin(value, end);
      AreChunksCons(value[start..end], ChunksFrom(value, end));
      SliceRest(value, start, end);
    }
  }

  /** Every chunk but the last is at least 42 bytes. */
  lemma {:induction false} ChunkCount(value: seq<Byte>, start: nat)
    requires IsText(value) && start <= |value|
    ensures 42 * |ChunksFrom(value, start)| <= |value| - start + 41
    ensures start < |value| ==> ChunksFrom(value, start) != []
    decreases |value| - start
  {
    if start < |value| {
      ChunkBounds(value, start);
      ChunkCount(value, ChunkEnd(value, start));
    }
  }

  // ----- Words and lines -----

  function Word(chunk: seq<Byte>): seq<Byte> {
    PREFIX + Base64.Encode(chunk) + SUFFIX
  }

  lemma WordLength(chunk: seq<Byte>)
    ensures |Word(chunk)| == 12 + (|chunk| + 2) / 3 * 4
    ensures |chunk| <= MAX_CHUNK ==> |Word(chunk)| <= 72
  {
    Base64.EncodeLength(chunk);
  }

  /** The encoded-words of the chunks. */
  function Words(chunks: seq<seq<Byte>>): (words: seq<seq<Byte>>)
    ensures |words| == |chunks| && forall i :: 0 <= i < |words| ==> words[i] == Word(chunks[i])
  {
    seq(|chunks|, i requires 0 <= i < |chunks| => Word(chunks[i]))
  }

  function WordLine(word: seq<Byte>, ending: seq<Byte>): seq<Byte> {
    [SPACE] + word + ending
  }

  /** The lines that carry the words from `i` on, one each. */
  function WordLines(words: seq<seq<Byte>>, i: nat, ending: seq<Byte>): seq<Byte>
    requires i <= |words|
    decreases |words| - i
  {
    if i == |words| then [] else WordLine(words[i], ending) + WordLines(words, i + 1, ending)
  }

  /** The first word follows the name when that line stays within 76 bytes. */
  predicate FitsFirstLine(name: seq<Byte>, words: seq<seq<Byte>>) {
    words != [] && |name| + 1 + 1 + |words[0]| <= MAX_WORD_LINE
  }

  /** What follows the colon. */
  function EncodedTail(name: seq<Byte>, words: seq<seq<Byte>>, ending: seq<Byte>): seq<Byte> {
    (if FitsFirstLine(name, words) then [] else ending) + WordLines(words, 0, ending)
  }

  function EncodedField(name: seq<Byte>, value: seq<Byte>, ending: seq<Byte>): seq<Byte> {
    Canonical(name) + [COLON] + EncodedTail(name, Words(Chunks(value)), ending)
  }

  function AsciiField(name: seq<Byte>, value: seq<Byte>, ending: seq<Byte>): seq<Byte> {
    Canonical(name) + [COLON] + ([SPACE] + value + ending)
  }

  /** What `serialize_generated_header` promises for every well-formed value. */
  function Generated(name: seq<Byte>, value: seq<Byte>, ending: seq<Byte>): Result<seq<Byte>, GeneratedError> {
    if !IsText(value) then Err(InvalidValue)
    else if !AllAscii(value) then Ok(EncodedField(name, value, ending))
    else if |name| + 2 + |value| > MAX_LINE then Err(LineTooLong)
    else Ok(AsciiField(name, value, ending))
  }

  // ----- The loops -----

  method AppendWord(field: seq<Byte>, chunk: seq<Byte>) returns (r: seq<Byte>)
    ensures r == field + Word(chunk)
  {
    r := Base64.AppendBase64(field + PREFIX, chunk);
    r := r + SUFFIX;
    JoinFour(field, PREFIX, Base64.Encode(chunk), SUFFIX);
  }

  lemma JoinFour(a: seq<Byte>, b: seq<Byte>, c: seq<Byte>, d: seq<Byte>)
    ensures a + b + c + d == a + (b + c + d)
  {
  }

  /** Writing line `i` when its predecessor still lacks its ending. */
  lemma NextWord(words: seq<seq<Byte>>, i: nat, ending: seq<Byte>, field: seq<Byte>)
    requires i < |words|
    ensures field + WordLines(words, i, ending) ==
            (field + [SPACE] + words[i]) + (ending + WordLines(words, i + 1, ending))
  {
    Regroup(field, words[i], ending, WordLines(words, i + 1, ending));
  }

  lemma Regroup(field: seq<Byte>, word: seq<Byte>, ending: seq<Byte>, rest: seq<Byte>)
    ensures field + ([SPACE] + word + ending + rest) == (field + [SPACE] + word) + (ending + rest)
  {
  }

  method BackUpTo(value: seq<Byte>, j: nat) returns (end: nat)
    requires j <= |value|
    ensures end == BackUp(value, j)
  {
    end := j;
    while end != 0 && !Boundary(value, end)
      invariant end <= j && BackUp(value, end) == BackUp(value, j)
    {
      end := end - 1;
    }
  }

  /** `chunks` from `i` on are the chunks of `value` from `start` on. */
  ghost predicate ChunksAt(value: seq<Byte>, start: nat, chunks: seq<seq<Byte>>, i: nat) {
    start <= |value| && i <= |chunks| && chunks[i..] == ChunksFrom(value, start)
  }

  lemma NextChunk(value: seq<Byte>, start: nat, chunks: seq<seq<Byte>>, i: nat)
    requires IsText(value) && start < |value| && ChunksAt(value, start, chunks, i)
    ensures var end := ChunkEnd(value, start);
            start < end <= |value| && i < |chunks| && chunks[i] == value[start..end] && ChunksAt(value, end, chunks, i + 1)
  {
    ChunkBounds(value, start);
    var end := ChunkEnd(value, start);
    var rest := chunks[i..];
    assert rest == [value[start..end]] + ChunksFrom(value, end);
    assert rest[0] == chunks[i] && rest[1..] == chunks[i + 1..];
  }

  /** `serialize_rfc2047`. */
  method SerializeRfc2047(name: seq<Byte>, value: seq<Byte>, ending: seq<Byte>) returns (field: seq<Byte>)
    requires IsText(value)
    ensures field == EncodedField(name, value, ending)
  {
    field := CanonicalName([], name);
    NoneLeft(Canonical(name));
    field := field + [COLON];
    ghost var head, chunks := field, Chunks(value);
    ghost var words := Words(chunks);
    ghost var target, i := head + EncodedTail(name, words, ending), 0;
    CanonicalKeepsName(name, 0, true);
    assert name[0..] == name && chunks[0..] == chunks;
    var start, first := 0, true;
    while start < |value|
      invariant ChunksAt(value, start, chunks, i) && (first <==> i == 0)
      invariant if first then field == head && start == 0 else
                field + (ending + WordLines(words, i, ending)) == target
      decreases |value| - start
    {
      NextChunk(value, start, chunks, i);
      var end := BackUpTo(value, Min(start + MAX_CHUNK, |value|));
      var chunk := value[start..end];
      WordLength(chunk);
      var wordLen := 10 + (end - start + 2) / 3 * 4 + 2;
      if !(first && |field| + 1 + wordLen <= MAX_WORD_LINE) {
        Assoc(field, ending, WordLines(words, i, ending));
        field := field + ending;
      } else {
        NoneLeft(WordLines(words, i, ending));
      }
      assert field + WordLines(words, i, ending) == target;
      NextWord(words, i, ending, field);
      field := field + [SPACE];
      field := AppendWord(field, chunk);
      start, first, i := end, false, i + 1;
    }
    assert chunks[i..] == [];
    NoneRight(ending);
    field := field + ending;
  }

  /** `validate_generated_header_value`: whether the value needs encoded-words. */
  method ValidateGenerated(name: seq<Byte>, value: seq<Byte>) returns (r: Result<bool, GeneratedError>)
    requires IsUtf8(value)
    ensures r == if !IsText(value) then Err(InvalidValue)
                 else if !AllAscii(value) then Ok(true)
                 else if |name| + 2 + |value| > MAX_LINE then Err(LineTooLong)
                 else Ok(false)
  {
    var nonAscii := false;
    var rest := value;
    while rest != []
      invariant IsUtf8(rest) && (IsText(rest) <==> IsText(value))
      invariant nonAscii ==> !AllAscii(value)
      invariant !nonAscii ==> (AllAscii(rest) <==> AllAscii(value))
      decreases |rest|
    {
      if StartsWithControl(rest) {
        return Err(InvalidValue);
      }
      AsciiStep(rest);
      nonAscii := nonAscii || rest[0] >= 0x80;
      rest := rest[CharLen(rest)..];
    }
    if nonAscii {
      return Ok(true);
    }
    if |name| + 2 + |value| > MAX_LINE {
      return Err(LineTooLong);
    }
    r := Ok(false);
  }

  lemma AsciiStep(s: seq<Byte>)
    requires 0 < CharLen(s)
    ensures AllAscii(s) <==> s[0] < 0x80 && AllAscii(s[CharLen(s)..])
  {
    var rest := s[CharLen(s)..];
    if s[0] < 0x80 && AllAscii(rest) {
      forall i | 0 <= i < |s| ensures s[i] < 0x80 {
        assert i == 0 || s[i] == rest[i - 1];
      }
    }
    if AllAscii(s) {
      forall i | 0 <= i < |rest| ensures rest[i] < 0x80 {
        assert rest[i] == s[CharLen(s) + i];
      }
    }
  }

  /** `serialize_generated_header`. */
  method SerializeGenerated(name: seq<Byte>, value: seq<Byte>, ending: seq<Byte>)
      returns (r: Result<seq<Byte>, GeneratedError>)
    requires IsUtf8(value)
    ensures r == Generated(name, value, ending)
  {
    var encoding := ValidateGenerated(name, value);
    if encoding.Err? {
      return Err(encoding.error);
    }
    var field: seq<Byte>;
    if encoding.value {
      field := SerializeRfc2047(name, value, ending);
    } else {
      field := CanonicalName([], name);
      NoneLeft(Canonical(name));
      field := field + [COLON] + ([SPACE] + value + ending);
    }
    r := Ok(field);
  }
}
