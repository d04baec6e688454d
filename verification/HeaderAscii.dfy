/** Reading an ASCII field back. It is written as it is, so a value that looks
    encoded is decoded when it is read. */
module HeaderAscii {
  import opened Bytes
  import opened Utf8
  import opened EncodedWord
  import opened HeaderValue
  import opened HeaderExtract
  import opened PhysicalLines
  import Base64

  // ----- Decoding shortens ASCII -----

  lemma {:induction false} QDecodedLength(s: seq<Byte>)
    ensures QDecoded(s).Some? ==> |QDecoded(s).value| <= |s|
    decreases |s|
  {
    if s != [] && QItem(s).Some? {
      QDecodedLength(s[QItem(s).value.1..]);
    }
  }

  lemma {:induction false} Base64DecodedLength(t: seq<Byte>)
    ensures Base64.Decode(t).Some? ==> |Base64.Decode(t).value| <= |t|
    decreases |t|
  {
    if 4 <= |t| {
      Base64DecodedLength(t[4..]);
    }
  }

  lemma AsciiAppend(a: seq<Byte>, b: seq<Byte>)
    requires AllAscii(a + b)
    ensures AllAscii(a) && AllAscii(b)
  {
    assert forall i :: 0 <= i < |a| ==> a[i] == (a + b)[i];
    assert forall i :: 0 <= i < |b| ==> b[i] == (a + b)[|a| + i];
  }

  lemma {:induction false} Latin1Length(s: seq<Byte>)
    requires AllAscii(Latin1(s))
    ensures |Latin1(s)| == |s|
  {
    if s != [] {
      AsciiAppend(Latin1Char(s[0]), Latin1(s[1..]));
      assert Latin1Char(s[0])[0] < 0x80;
      Latin1Length(s[1..]);
    }
  }

  lemma WordTextLength(charset: seq<Byte>, encoding: seq<Byte>, encoded: seq<Byte>)
    ensures var text := WordText(charset, encoding, encoded);
            text.Ok? && AllAscii(text.value) ==> |text.value| <= |encoded|
  {
    var text := WordText(charset, encoding, encoded);
    if text.Ok? && AllAscii(text.value) {
      QDecodedLength(encoded);
      Base64DecodedLength(encoded);
      var bytes := Unpacked(encoding[0], encoded).value;
      if text.value != bytes {
        Latin1Length(bytes);
      }
    }
  }

  /** What is known of a piece: ASCII text never grows, a word shrinks, and plain
      text stops before the next word. */
  ghost predicate Shrinks(piece: Result<Piece, DecodeError>, input: seq<Byte>) {
    piece.Ok? && AllAscii(piece.value.text) ==>
      |piece.value.text| <= piece.value.len &&
      (StartsWord(input) ==> |piece.value.text| < piece.value.len) &&
      (!StartsWord(input) ==> forall k :: PairAt(input, EQUALS, MARK, k) ==> piece.value.len <= k)
  }

  lemma {:induction false} FirstPair(s: seq<Byte>, a: Byte, b: Byte, i: nat, k: nat)
    requires i <= k && PairAt(s, a, b, k)
    ensures PairIndex(s, a, b, i).Some? && PairIndex(s, a, b, i).value <= k
    decreases k - i
  {
    if i < k && !PairAt(s, a, b, i) {
      FirstPair(s, a, b, i + 1, k);
    }
  }

  lemma WordShrinks(input: seq<Byte>)
    requires 2 <= |input| && WordAt(input).Ok? && AllAscii(WordAt(input).value.1)
    ensures |WordAt(input).value.1| < WordAt(input).value.0
  {
    var cut := WordCut(input).value;
    WordTextLength(input[2..cut.first], input[cut.first + 1..cut.second], input[cut.second + 1..cut.close]);
  }

  lemma PieceShrinks(input: seq<Byte>, after: bool)
    ensures Shrinks(PieceAt(input, after), input)
  {
    if input == [] {
    } else if StartsWord(input) {
      if WordAt(input).Ok? && AllAscii(WordAt(input).value.1) {
        WordShrinks(input);
      }
    } else {
      forall k | PairAt(input, EQUALS, MARK, k) ensures TextLen(input) <= k {
        FirstPair(input, EQUALS, MARK, 0, k);
      }
    }
  }

  ghost predicate ReadsShrink(read: Reader) {
    forall input, after :: Shrinks(read(input, after), input)
  }

  lemma PairAfter(input: seq<Byte>, cursor: nat, k: nat)
    requires cursor <= |input| && cursor <= k
    ensures PairAt(input, EQUALS, MARK, k) <==> PairAt(input[cursor..], EQUALS, MARK, k - cursor)
  {
  }

  /** Decoding to ASCII never makes a value longer, and makes it shorter when
      `=?` stands anywhere in it. */
  lemma {:induction false} DecodedShrinks(read: Reader, input: seq<Byte>, cursor: nat, after: bool, room: nat,
                                          pair: Option<nat>)
    requires Reads(read) && ReadsShrink(read) && cursor <= |input|
    requires DecodedFrom(read, input, cursor, after, room).Ok? &&
             AllAscii(DecodedFrom(read, input, cursor, after, room).value)
    requires pair.Some? ==> cursor <= pair.value && PairAt(input, EQUALS, MARK, pair.value)
    ensures |DecodedFrom(read, input, cursor, after, room).value| <= |input| - cursor
    ensures pair.Some? ==> |DecodedFrom(read, input, cursor, after, room).value| < |input| - cursor
    decreases |input| - cursor
  {
    if cursor < |input| {
      var rest := input[cursor..];
      var piece := read(rest, after).value;
      assert IsPiece(read(rest, after), rest) && Shrinks(read(rest, after), rest);
      var next, left := cursor + piece.len, room - |piece.text|;
      AsciiAppend(piece.text, DecodedFrom(read, input, next, piece.after, left).value);
      if pair.Some? {
        PairAfter(input, cursor, pair.value);
      }
      DecodedShrinks(read, input, next, piece.after, left,
                     if pair.Some? && StartsWord(rest) then None else pair);
    }
  }

  // ----- The field -----

  predicate HasWordMark(value: seq<Byte>) {
    exists k :: 0 <= k < |value| && PairAt(value, EQUALS, MARK, k)
  }

  lemma {:induction false} TextIsBare(value: seq<Byte>)
    requires IsText(value)
    ensures forall i :: 0 <= i < |value| ==> value[i] != LF && value[i] != CR
    decreases |value|
  {
    if value != [] {
      var n := CharLen(value);
      TextIsBare(value[n..]);
      forall i | 0 <= i < |value| ensures value[i] != LF && value[i] != CR {
        if n <= i {
          assert value[i] == value[n..][i - n];
        }
      }
    }
  }

  lemma UnfoldAscii(value: seq<Byte>, ending: seq<Byte>)
    requires IsText(value) && IsEnding(ending)
    ensures Unfolded([SPACE] + value + ending, true) == StripBlanks(value)
  {
    TextIsBare(value);
    var line := [SPACE] + value;
    StripAddedEnding(line, ending);
    NoneRight(line + ending);
    FirstLineIs(line + ending, []);
    assert line[1..] == value;
    NoneLeft(StripBlanks(value));
    NoneRight(StripBlanks(value));
  }

  lemma PlainPiece(value: seq<Byte>)
    requires value != [] && IsText(value) && !HasWordMark(value)
    ensures PieceAt(value, false) == Ok(Piece(|value|, value, false))
  {
    assert !PairAt(value, EQUALS, MARK, 0);
    NoPair(value, EQUALS, MARK, 0);
    assert TextLen(value) == |value|;
    TakeAll(value);
  }

  lemma OnePiece(read: Reader, value: seq<Byte>, room: nat)
    requires Reads(read) && |value| <= room && (value != [] ==> read(value, false) == Ok(Piece(|value|, value, false)))
    ensures DecodedFrom(read, value, 0, false, room) == Ok(value)
  {
    assert value[0..] == value;
    NoneRight(value);
  }

  lemma DecodePlain(value: seq<Byte>)
    requires IsText(value) && !HasWordMark(value) && |value| <= MAX_ASSIGNMENT_VALUE_LEN
    ensures Decoded(value, MAX_ASSIGNMENT_VALUE_LEN) == Ok(value)
  {
    if value != [] {
      PlainPiece(value);
    }
    OnePiece(PieceAt, value, MAX_ASSIGNMENT_VALUE_LEN);
  }

  lemma ExtractAscii(name: seq<Byte>, value: seq<Byte>, ending: seq<Byte>)
    requires IsName(name) && IsEnding(ending) && IsText(value) && |value| <= MAX_LINE
    ensures Extracted(AsciiField(name, value, ending)) == Ok(value) <==> Decoded(StripBlanks(value), MAX_ASSIGNMENT_VALUE_LEN) == Ok(value)
  {
    ValueOfField(name, [SPACE] + value + ending);
    UnfoldAscii(value, ending);
  }

  /** An ASCII value is read back as it was written exactly when it starts with
      no blank and holds no `=?`. */
  lemma AsciiRoundTrip(name: seq<Byte>, value: seq<Byte>, ending: seq<Byte>)
    requires IsName(name) && IsEnding(ending) && IsText(value) && AllAscii(value) && |value| <= MAX_LINE
    ensures Extracted(AsciiField(name, value, ending)) == Ok(value) <==>
            !(value != [] && IsBlank(value[0])) && !HasWordMark(value)
  {
    ExtractAscii(name, value, ending);
    var text := StripBlanks(value);
    if value != [] && IsBlank(value[0]) {
      assert |text| < |value|;
      NeverLonger(text, None);
    } else if HasWordMark(value) {
      var k :| 0 <= k < |value| && PairAt(value, EQUALS, MARK, k);
      NeverLonger(value, Some(k));
    } else {
      DecodePlain(value);
    }
  }

  lemma NeverLonger(text: seq<Byte>, pair: Option<nat>)
    requires pair.Some? ==> PairAt(text, EQUALS, MARK, pair.value)
    ensures var r := Decoded(text, MAX_ASSIGNMENT_VALUE_LEN);
            r.Ok? && AllAscii(r.value) ==> |r.value| <= |text| && (pair.Some? ==> |r.value| < |text|)
  {
    var r := Decoded(text, MAX_ASSIGNMENT_VALUE_LEN);
    if r.Ok? && AllAscii(r.value) {
      forall input, after ensures Shrinks(PieceAt(input, after), input) {
        PieceShrinks(input, after);
      }
      DecodedShrinks(PieceAt, text, 0, false, MAX_ASSIGNMENT_VALUE_LEN, pair);
    }
  }
}
