/** A generated field read back: what `serialize_generated_header` writes, the
    decoding extraction returns, and where it does not. */
module HeaderRoundTrip {
  import opened Bytes
  import opened Utf8
  import opened PhysicalLines
  import opened EncodedWord
  import opened HeaderValue
  import opened HeaderExtract
  import Base64

  // ----- One word -----

  lemma WordSlices(chunk: seq<Byte>, rest: seq<Byte>)
    ensures var input, letters := Word(chunk) + rest, Base64.Encode(chunk);
            |input| >= 12 + |letters| && input[2..7] == UTF_8 && input[8..9] == [66] &&
            input[10..10 + |letters|] == letters && input[12 + |letters|..] == rest
  {
    var letters := Base64.Encode(chunk);
    FourParts(PREFIX, letters, SUFFIX, rest);
    assert PREFIX[2..7] == UTF_8 && PREFIX[8..9] == [66];
  }

  lemma FourParts(a: seq<Byte>, b: seq<Byte>, c: seq<Byte>, d: seq<Byte>)
    ensures var s := (a + b + c) + d;
            s[..|a|] == a && s[|a|..|a| + |b|] == b && s[|a| + |b| + |c|..] == d
    ensures var s := (a + b + c) + d;
            forall i, j :: 0 <= i <= j <= |a| ==> s[i..j] == a[i..j]
  {
  }

  lemma WordCutIs(chunk: seq<Byte>, rest: seq<Byte>)
    ensures |Word(chunk) + rest| >= 2 && StartsWord(Word(chunk) + rest)
    ensures WordCut(Word(chunk) + rest) == Some(Cut(7, 9, 10 + |Base64.Encode(chunk)|))
  {
    var letters := Base64Letters(chunk);
    var input := Word(chunk) + rest;
    var close := 10 + |letters|;
    WordSlices(chunk, rest);
    assert input[0] == EQUALS && input[1] == MARK && input[7] == MARK && input[9] == MARK;
    assert input[8] == input[8..9][0];
    assert forall j :: 2 <= j < 7 ==> input[j] == UTF_8[j - 2];
    IndexIs(input, MARK, 2, 7);
    IndexIs(input, MARK, 8, 9);
    assert forall j :: 10 <= j < close ==> input[j] == letters[j - 10];
    assert PairAt(input, MARK, EQUALS, close);
    PairIs(input, MARK, EQUALS, 10, close);
  }

  lemma WordTextIs(chunk: seq<Byte>)
    requires chunk != [] && IsText(chunk)
    ensures WordText(UTF_8, [66], Base64.Encode(chunk)) == Ok(chunk)
  {
    var letters := Base64Letters(chunk);
    Base64.EncodeLength(chunk);
    Base64.RoundTrip(chunk);
    TextIsUtf8(chunk);
    assert Unpacked(66, letters) == Ok(chunk);
    assert SameName(UTF_8, UTF_8);
  }

  lemma WordPiece(chunk: seq<Byte>, rest: seq<Byte>, after: bool)
    requires IsChunk(chunk)
    ensures PieceAt(Word(chunk) + rest, after) == Ok(Piece(|Word(chunk)|, chunk, true))
  {
    WordCutIs(chunk, rest);
    WordSlices(chunk, rest);
    WordTextIs(chunk);
    WordLength(chunk);
    Base64.EncodeLength(chunk);
  }

  lemma BlankPiece(rest: seq<Byte>, after: bool)
    requires StartsWord(rest)
    ensures PieceAt([SPACE] + rest, after) == Ok(Piece(1, if after then [] else [SPACE], after))
  {
    var input := [SPACE] + rest;
    assert input[0] == SPACE && input[1] == rest[0] && input[2] == rest[1];
    PairIs(input, EQUALS, MARK, 0, 1);
    assert input[..1] == [SPACE];
    assert IsText([SPACE]) by {
      assert CharLen([SPACE]) == 1 && [SPACE][1..] == [];
    }
  }

  /** `read` reads each word as its chunk, and a blank before a word as nothing
      exactly when it follows another word. */
  ghost predicate ReadsWords(read: Reader, words: seq<seq<Byte>>, chunks: seq<seq<Byte>>) {
    |words| == |chunks| &&
    (forall i, rest, after {:trigger read(words[i] + rest, after)} :: 0 <= i < |words| ==>
       read(words[i] + rest, after) == Ok(Piece(|words[i]|, chunks[i], true))) &&
    (forall i, rest, after {:trigger read([SPACE] + (words[i] + rest), after)} :: 0 <= i < |words| ==>
       read([SPACE] + (words[i] + rest), after) == Ok(Piece(1, if after then [] else [SPACE], after)))
  }

  lemma PieceAtReadsWords(chunks: seq<seq<Byte>>)
    requires AreChunks(chunks)
    ensures ReadsWords(PieceAt, Words(chunks), chunks)
  {
    var words := Words(chunks);
    forall i, rest, after | 0 <= i < |words|
      ensures PieceAt(words[i] + rest, after) == Ok(Piece(|words[i]|, chunks[i], true))
    {
      WordPiece(chunks[i], rest, after);
    }
    forall i, rest, after | 0 <= i < |words|
      ensures PieceAt([SPACE] + (words[i] + rest), after) == Ok(Piece(1, if after then [] else [SPACE], after))
    {
      WordCutIs(chunks[i], rest);
      BlankPiece(words[i] + rest, after);
    }
  }

  // ----- A whole value -----

  /** A piece, then the rest. */
  lemma JoinPiece(read: Reader, input: seq<Byte>, cursor: nat, after: bool, room: nat, piece: Piece, rest: seq<Byte>)
    requires Reads(read) && cursor < |input| && read(input[cursor..], after) == Ok(piece)
    requires cursor + piece.len <= |input| && |piece.text| <= room
    requires DecodedFrom(read, input, cursor + piece.len, piece.after, room - |piece.text|) == Ok(rest)
    ensures DecodedFrom(read, input, cursor, after, room) == Ok(piece.text + rest)
  {
  }

  lemma AfterPrefix(input: seq<Byte>, cursor: nat, a: seq<Byte>, b: seq<Byte>)
    requires cursor <= |input| && input[cursor..] == a + b
    ensures cursor + |a| <= |input| && input[cursor + |a|..] == b
  {
    assert b == (a + b)[|a|..] == input[cursor..][|a|..];
  }

  ghost predicate NoneEmpty(words: seq<seq<Byte>>) {
    forall i :: 0 <= i < |words| ==> words[i] != []
  }

  /** Decoding from word `i` on. */
  lemma {:induction false} DecodeWords(read: Reader, input: seq<Byte>, cursor: nat, words: seq<seq<Byte>>,
                                       chunks: seq<seq<Byte>>, i: nat, after: bool, room: nat)
    requires Reads(read) && ReadsWords(read, words, chunks) && NoneEmpty(words) && i < |words| && cursor <= |input|
    requires input[cursor..] == words[i] + Spaced(words, i + 1) && |JoinedFrom(chunks, i)| <= room
    ensures DecodedFrom(read, input, cursor, after, room) == Ok(JoinedFrom(chunks, i))
    decreases |words| - i, 0
  {
    var chunk, word, rest := chunks[i], words[i], Spaced(words, i + 1);
    AfterPrefix(input, cursor, word, rest);
    if i + 1 < |words| {
      DecodeSpaced(read, input, cursor + |word|, words, chunks, i + 1, true, room - |chunk|);
      NoneLeft(JoinedFrom(chunks, i + 1));
    }
    JoinPiece(read, input, cursor, after, room, Piece(|word|, chunk, true), JoinedFrom(chunks, i + 1));
  }

  /** The same from the space before that word: it stays exactly when no word precedes it. */
  lemma {:induction false} DecodeSpaced(read: Reader, input: seq<Byte>, cursor: nat, words: seq<seq<Byte>>,
                                        chunks: seq<seq<Byte>>, i: nat, after: bool, room: nat)
    requires Reads(read) && ReadsWords(read, words, chunks) && NoneEmpty(words) && i < |words| && cursor <= |input|
    requires input[cursor..] == Spaced(words, i) && |JoinedFrom(chunks, i)| + (if after then 0 else 1) <= room
    ensures DecodedFrom(read, input, cursor, after, room) ==
            Ok((if after then [] else [SPACE]) + JoinedFrom(chunks, i))
    decreases |words| - i, 1
  {
    var text := if after then [] else [SPACE];
    AfterPrefix(input, cursor, [SPACE], words[i] + Spaced(words, i + 1));
    DecodeWords(read, input, cursor + 1, words, chunks, i, after, room - |text|);
    JoinPiece(read, input, cursor, after, room, Piece(1, text, after), JoinedFrom(chunks, i));
  }

  /** Words are longer than what they carry, by a bounded amount. */
  lemma {:induction false} SpacedLength(words: seq<seq<Byte>>, chunks: seq<seq<Byte>>, i: nat)
    requires i <= |words| == |chunks|
    requires forall k :: 0 <= k < |words| ==> |chunks[k]| + 12 <= |words[k]| <= 72
    ensures |JoinedFrom(chunks, i)| + 13 * (|chunks| - i) <= |Spaced(words, i)| <= 73 * (|chunks| - i)
    decreases |chunks| - i
  {
    if i < |chunks| {
      SpacedLength(words, chunks, i + 1);
    }
  }

  /** The chunks of a text and their words. */
  lemma WordsOfText(value: seq<Byte>) returns (chunks: seq<seq<Byte>>, words: seq<seq<Byte>>)
    requires IsText(value)
    ensures chunks == Chunks(value) && words == Words(chunks) && |words| == |chunks|
    ensures AreChunks(chunks) && JoinedFrom(chunks, 0) == value && (value != [] ==> words != [])
    ensures AreCarried(words) && forall k :: 0 <= k < |words| ==> |chunks[k]| + 12 <= |words[k]| <= 72
    ensures 42 * |chunks| <= |value| + 41
  {
    chunks := Chunks(value);
    words := Words(chunks);
    TextStarts(value);
    ChunksJoin(value, 0);
    ChunkCount(value, 0);
    WordsAreCarried(chunks);
    JoinedIsFlatten(chunks, 0);
    assert value[0..] == value && chunks[0..] == chunks;
    forall k | 0 <= k < |words| ensures |chunks[k]| + 12 <= |words[k]| <= 72 {
      assert IsChunk(chunks[k]);
      WordLength(chunks[k]);
    }
  }

  /** The encoded-words a value is written as. */
  function WordsOf(value: seq<Byte>): seq<seq<Byte>> {
    Words(Chunks(value))
  }

  /** Reading a generated field back gives the value, after one space when the
      first word had to go to a line of its own, unless the unfolded words are
      over the extraction limit. */
  lemma EncodedRoundTrip(name: seq<Byte>, value: seq<Byte>, ending: seq<Byte>)
    requires IsName(name) && IsEnding(ending) && IsText(value) && value != []
    ensures var words := WordsOf(value);
            var lead := if FitsFirstLine(name, words) then [] else [SPACE];
            Extracted(EncodedField(name, value, ending)) ==
            if |lead| + |Spaced(words, 0)| - 1 <= MAX_ASSIGNMENT_VALUE_LEN then Ok(lead + value) else Err(ValueTooLong)
  {
    var chunks, words := WordsOfText(value);
    var tail, lead := EncodedTail(name, words, ending), if FitsFirstLine(name, words) then [] else [SPACE];
    ValueOfField(name, tail);
    UnfoldEncoded(name, words, ending);
    SpacedLength(words, chunks, 0);
    if |Unfolded(tail, true)| <= MAX_ASSIGNMENT_VALUE_LEN {
      PieceAtReadsWords(chunks);
      DecodeEncoded(PieceAt, words, chunks, lead);
    }
  }

  lemma DecodeEncoded(read: Reader, words: seq<seq<Byte>>, chunks: seq<seq<Byte>>, lead: seq<Byte>)
    requires Reads(read) && ReadsWords(read, words, chunks) && NoneEmpty(words)
    requires words != [] && (lead == [] || lead == [SPACE]) && |lead| + |JoinedFrom(chunks, 0)| <= MAX_ASSIGNMENT_VALUE_LEN
    ensures DecodedFrom(read, lead + (words[0] + Spaced(words, 1)), 0, false, MAX_ASSIGNMENT_VALUE_LEN) == Ok(lead + JoinedFrom(chunks, 0))
  {
    var text := words[0] + Spaced(words, 1);
    var unfolded := lead + text;
    assert unfolded[0..] == unfolded;
    if lead == [] {
      NoneLeft(text);
      NoneLeft(JoinedFrom(chunks, 0));
      DecodeWords(read, unfolded, 0, words, chunks, 0, false, MAX_ASSIGNMENT_VALUE_LEN);
    } else {
      DecodeSpaced(read, unfolded, 0, words, chunks, 0, false, MAX_ASSIGNMENT_VALUE_LEN);
    }
  }

  /** A size a caller can check: no value of up to 37000 bytes is too long to read back. */
  lemma ShortValuesFit(value: seq<Byte>)
    requires IsText(value) && |value| <= 37000
    ensures |Spaced(WordsOf(value), 0)| <= MAX_ASSIGNMENT_VALUE_LEN
  {
    var chunks, words := WordsOfText(value);
    SpacedLength(words, chunks, 0);
  }

  // ----- Lines -----

  lemma WordLinesSplit(words: seq<seq<Byte>>, i: nat, ending: seq<Byte>)
    requires i <= |words| && IsEnding(ending) && AreCarried(words)
    ensures LinesOf(WordLines(words, i, ending)) == WordLineList(words, ending)[i..]
  {
    var lines := WordLineList(words, ending);
    CarriedLines(words, ending);
    WordLinesJoined(words, i, ending);
    JoinedIsFlatten(lines, i);
    SplitsFrom(lines, i);
    LinesOfFlatten(lines[i..]);
  }

  lemma SplitsFrom(lines: seq<seq<Byte>>, i: nat)
    requires Finished(lines) && i <= |lines|
    ensures Splits(lines[i..])
  {
  }

  lemma PrefixedLine(prefix: seq<Byte>, line: seq<Byte>, rest: seq<Byte>)
    requires IsLine(line) && EndsLine(line) && forall i :: 0 <= i < |prefix| ==> prefix[i] != LF
    ensures LinesOf(prefix + (line + rest)) == [prefix + line] + LinesOf(rest)
  {
    Assoc(prefix, line, rest);
    var whole := prefix + line;
    assert forall j :: 0 <= j < |whole| - 1 ==> whole[j] != LF;
    FirstLineIs(whole, rest);
  }

  /** How many words stand on the line of the name. */
  function OnFirstLine(name: seq<Byte>, words: seq<seq<Byte>>): nat {
    if FitsFirstLine(name, words) then 1 else 0
  }

  function NameLine(name: seq<Byte>, words: seq<seq<Byte>>, ending: seq<Byte>): seq<Byte> {
    Canonical(name) + [COLON] + (if FitsFirstLine(name, words) then WordLine(words[0], ending) else ending)
  }

  /** The physical lines of a generated field: the name, with the first word when
      both fit in 76 bytes, then every other word on a line of its own. */
  lemma EncodedFieldLines(name: seq<Byte>, words: seq<seq<Byte>>, ending: seq<Byte>)
    requires IsName(name) && IsEnding(ending) && AreCarried(words)
    ensures LinesOf(Canonical(name) + [COLON] + EncodedTail(name, words, ending)) ==
            [NameLine(name, words, ending)] + WordLineList(words, ending)[OnFirstLine(name, words)..]
  {
    CanonicalIsName(name);
    var head := Canonical(name) + [COLON];
    if FitsFirstLine(name, words) {
      NoneLeft(WordLines(words, 0, ending));
      WordLineContent(words[0], ending);
      PrefixedLine(head, WordLine(words[0], ending), WordLines(words, 1, ending));
      WordLinesSplit(words, 1, ending);
    } else {
      PrefixedLine(head, ending, WordLines(words, 0, ending));
      WordLinesSplit(words, 0, ending);
    }
  }

  /** The limits of section 2 of RFC 2047: an encoded-word has at most 75 bytes,
      and a line that holds one at most 76, its ending not counted. */
  lemma EncodedLinesAreShort(name: seq<Byte>, value: seq<Byte>, ending: seq<Byte>)
    requires IsName(name) && IsEnding(ending) && IsText(value)
    ensures var words, lines := WordsOf(value), LinesOf(EncodedField(name, value, ending));
            (forall i :: 0 <= i < |words| ==> |words[i]| <= MAX_WORD) &&
            lines != [] &&
            (lines[0] == Canonical(name) + [COLON] + ending || |lines[0]| - |ending| <= MAX_WORD_LINE) &&
            (forall k :: 1 <= k < |lines| ==> |lines[k]| - |ending| <= MAX_WORD_LINE)
  {
    var chunks, words := WordsOfText(value);
    EncodedFieldLines(name, words, ending);
    CanonicalIsName(name);
  }
}
