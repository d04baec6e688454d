/** Values that mix encoded-words and plain text: what the whole decodes to. */
module MixedText {
  import opened Bytes
  import opened Utf8
  import opened EncodedWord
  import HeaderRoundTrip
  import QSpelling

  /** A stretch of plain text, or an encoded-word and what it stands for. */
  datatype Segment = Plain(text: seq<Byte>) | Coded(word: seq<Byte>, value: seq<Byte>) {
    function Written(): seq<Byte> {
      if Plain? then text else word
    }
  }

  /** Plain text does not start a word anywhere; a word is read as such whatever follows. */
  ghost predicate IsSegment(s: Segment) {
    match s
    case Plain(text) => text != [] && IsText(text) && forall k :: !PairAt(text, EQUALS, MARK, k)
    case Coded(word, value) =>
      StartsWord(word) && IsText(value) && forall rest :: WordAt(word + rest) == Ok((|word|, value))
  }

  /** No two stretches of plain text stand side by side. */
  ghost predicate AreSegments(ss: seq<Segment>) {
    (forall i :: 0 <= i < |ss| ==> IsSegment(ss[i])) &&
    forall i :: 0 < i < |ss| ==> ss[i - 1].Coded? || ss[i].Coded?
  }

  function WrittenFrom(ss: seq<Segment>, i: nat): seq<Byte>
    requires i <= |ss|
    decreases |ss| - i
  {
    if i == |ss| then [] else ss[i].Written() + WrittenFrom(ss, i + 1)
  }

  /** Spaces and TABs between two words. */
  predicate IsGap(ss: seq<Segment>, i: nat)
    requires i < |ss|
  {
    ss[i].Plain? && 0 < i < |ss| - 1 && forall k :: 0 <= k < |ss[i].text| ==> ss[i].text[k] == SPACE || ss[i].text[k] == TAB
  }

  /** What a segment contributes: a gap nothing, other text itself, a word its value. */
  function Shown(ss: seq<Segment>, i: nat): seq<Byte>
    requires i < |ss|
  {
    if ss[i].Coded? then ss[i].value else if IsGap(ss, i) then [] else ss[i].text
  }

  function ShownFrom(ss: seq<Segment>, i: nat): seq<Byte>
    requires i <= |ss|
    decreases |ss| - i
  {
    if i == |ss| then [] else Shown(ss, i) + ShownFrom(ss, i + 1)
  }

  // ----- One segment -----

  lemma TextStops(text: seq<Byte>, rest: seq<Byte>)
    requires text != [] && forall k :: !PairAt(text, EQUALS, MARK, k)
    requires rest == [] || StartsWord(rest)
    ensures !StartsWord(text + rest) && TextLen(text + rest) == |text|
  {
    var input := text + rest;
    forall k | 0 <= k < |text| ensures !PairAt(input, EQUALS, MARK, k) {
      if k + 1 < |text| {
        assert !PairAt(text, EQUALS, MARK, k);
        assert input[k] == text[k] && input[k + 1] == text[k + 1];
      } else if rest != [] {
        assert input[k + 1] == rest[0];
      }
    }
    if rest == [] {
      NoPair(input, EQUALS, MARK, 0);
    } else {
      assert input[|text|] == rest[0] && input[|text| + 1] == rest[1];
      PairIs(input, EQUALS, MARK, 0, |text|);
    }
  }

  lemma WordIsPiece(s: Segment, rest: seq<Byte>, after: bool)
    requires IsSegment(s) && s.Coded?
    ensures s.word != [] && PieceAt(s.word + rest, after) == Ok(Piece(|s.word|, s.value, true))
  {
    var input := s.word + rest;
    assert input[0] == s.word[0] && input[1] == s.word[1];
  }

  lemma PlainIsPiece(ss: seq<Segment>, i: nat)
    requires AreSegments(ss) && i < |ss| && ss[i].Plain?
    ensures PieceAt(WrittenFrom(ss, i), 0 < i) == Ok(Piece(|ss[i].text|, Shown(ss, i), IsGap(ss, i)))
  {
    var text, rest := ss[i].text, WrittenFrom(ss, i + 1);
    assert IsSegment(ss[i]);
    if i + 1 < |ss| {
      assert ss[i + 1].Coded? && IsSegment(ss[i + 1]);
      var word := ss[i + 1].word;
      assert rest[0] == word[0] && rest[1] == word[1];
    }
    TextStops(text, rest);
    var input := text + rest;
    assert input[..|text|] == text;
    assert AllBlank(text) <==> forall k :: 0 <= k < |text| ==> text[k] == SPACE || text[k] == TAB;
    assert |text| < |input| <==> i < |ss| - 1;
  }

  /** Any word that is delimited, short enough and decodes to text is a segment. */
  lemma WordIsSegment(charset: seq<Byte>, encoding: Byte, text: seq<Byte>, value: seq<Byte>)
    requires MARK !in charset && encoding != MARK && MARK !in text && charset != [] && text != []
    requires |QSpelling.WordOf(charset, encoding, text)| <= MAX_WORD
    requires WordText(charset, [encoding], text) == Ok(value) && IsText(value)
    ensures IsSegment(Coded(QSpelling.WordOf(charset, encoding, text), value))
  {
    var word := QSpelling.WordOf(charset, encoding, text);
    forall rest ensures WordAt(word + rest) == Ok((|word|, value)) {
      QSpelling.WordIsRead(charset, encoding, text, rest);
    }
  }

  // ----- The whole -----

  /** `read` takes the segments one by one. */
  ghost predicate ReadsSegments(read: Reader, ss: seq<Segment>) {
    (forall i, after {:trigger read(WrittenFrom(ss, i), after)} :: 0 <= i < |ss| && ss[i].Coded? ==>
       read(WrittenFrom(ss, i), after) == Ok(Piece(|ss[i].word|, ss[i].value, true))) &&
    (forall i {:trigger WrittenFrom(ss, i)} :: 0 <= i < |ss| && ss[i].Plain? ==>
       read(WrittenFrom(ss, i), 0 < i) == Ok(Piece(|ss[i].text|, Shown(ss, i), IsGap(ss, i))))
  }

  lemma PieceAtReadsSegments(ss: seq<Segment>)
    requires AreSegments(ss)
    ensures ReadsSegments(PieceAt, ss)
  {
    forall i: nat, after | i < |ss| && ss[i].Coded?
      ensures PieceAt(WrittenFrom(ss, i), after) == Ok(Piece(|ss[i].word|, ss[i].value, true))
    {
      assert IsSegment(ss[i]);
      WordIsPiece(ss[i], WrittenFrom(ss, i + 1), after);
    }
    forall i: nat | i < |ss| && ss[i].Plain?
      ensures PieceAt(WrittenFrom(ss, i), 0 < i) == Ok(Piece(|ss[i].text|, Shown(ss, i), IsGap(ss, i)))
    {
      PlainIsPiece(ss, i);
    }
  }

  lemma {:induction false} DecodeSegments(read: Reader, input: seq<Byte>, cursor: nat, ss: seq<Segment>, i: nat, after: bool,
                                          room: nat)
    requires Reads(read) && ReadsSegments(read, ss) && (forall k :: 0 <= k < |ss| ==> ss[k].Written() != [])
    requires i <= |ss| && cursor <= |input| && input[cursor..] == WrittenFrom(ss, i)
    requires i < |ss| && ss[i].Plain? ==> after == (0 < i)
    requires forall k :: 0 < k < |ss| ==> ss[k - 1].Coded? || ss[k].Coded?
    ensures DecodedFrom(read, input, cursor, after, room) ==
            if |ShownFrom(ss, i)| <= room then Ok(ShownFrom(ss, i)) else Err(TooLong)
    decreases |ss| - i
  {
    if i < |ss| {
      var written, text := ss[i].Written(), Shown(ss, i);
      HeaderRoundTrip.AfterPrefix(input, cursor, written, WrittenFrom(ss, i + 1));
      var piece := read(input[cursor..], after).value;
      assert piece.len == |written| && piece.text == text;
      if |text| <= room {
        DecodeSegments(read, input, cursor + |written|, ss, i + 1, piece.after, room - |text|);
      }
    } else {
      assert |input[cursor..]| == 0;
    }
  }

  /** Words and plain text in any order decode to the values of the words and the
      text between them, except that blanks between two words count for nothing;
      and are too long exactly when that is over the limit. */
  lemma MixedTextDecodes(ss: seq<Segment>, limit: nat)
    requires AreSegments(ss)
    ensures Decoded(WrittenFrom(ss, 0), limit) ==
            if |ShownFrom(ss, 0)| <= limit then Ok(ShownFrom(ss, 0)) else Err(TooLong)
  {
    var input := WrittenFrom(ss, 0);
    PieceAtReadsSegments(ss);
    assert input[0..] == input;
    forall k | 0 <= k < |ss| ensures ss[k].Written() != [] {
      assert IsSegment(ss[k]);
    }
    DecodeSegments(PieceAt, input, 0, ss, 0, false, limit);
  }
}
