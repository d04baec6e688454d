/** Decoding the encoded-words of section 2 of RFC 2047. */
module EncodedWord {
  import opened Bytes
  import opened Utf8
  import Base64

  const EQUALS: Byte := 61
  const MARK: Byte := 63
  const MAX_WORD: nat := 75

  /** `=?UTF-8?B?` and `?=` */
  const PREFIX: seq<Byte> := [61, 63, 85, 84, 70, 45, 56, 63, 66, 63]
  const SUFFIX: seq<Byte> := [63, 61]

  const UTF_8: seq<Byte> := [85, 84, 70, 45, 56]
  const US_ASCII: seq<Byte> := [85, 83, 45, 65, 83, 67, 73, 73]
  const ISO_8859_1: seq<Byte> := [73, 83, 79, 45, 56, 56, 53, 57, 45, 49]

  datatype DecodeError = MalformedWord | UnsupportedCharset | UnsupportedEncoding | InvalidText | TooLong

  predicate SameName(a: seq<Byte>, b: seq<Byte>) {
    |a| == |b| && forall i :: 0 <= i < |a| ==> Uppercase(a[i]) == Uppercase(b[i])
  }

  predicate AllBlank(s: seq<Byte>) {
    forall i :: 0 <= i < |s| ==> IsBlank(s[i])
  }

  predicate AllAscii(s: seq<Byte>) {
    forall i :: 0 <= i < |s| ==> s[i] < 0x80
  }

  // ----- Searching -----

  /** The first index of `b` at or after `i`. */
  function IndexOf(s: seq<Byte>, b: Byte, i: nat): (r: Option<nat>)
    requires i <= |s|
    ensures r.Some? ==> i <= r.value < |s| && s[r.value] == b
    decreases |s| - i
  {
    if i == |s| then None else if s[i] == b then Some(i) else IndexOf(s, b, i + 1)
  }

  lemma {:induction false} IndexIs(s: seq<Byte>, b: Byte, i: nat, k: nat)
    requires i <= k < |s| && s[k] == b && forall j :: i <= j < k ==> s[j] != b
    ensures IndexOf(s, b, i) == Some(k)
    decreases k - i
  {
    if i < k {
      IndexIs(s, b, i + 1, k);
    }
  }

  predicate PairAt(s: seq<Byte>, a: Byte, b: Byte, i: nat) {
    i + 1 < |s| && s[i] == a && s[i + 1] == b
  }

  /** The first index of `a` followed by `b` at or after `i`. */
  function PairIndex(s: seq<Byte>, a: Byte, b: Byte, i: nat): (r: Option<nat>)
    requires i <= |s|
    ensures r.Some? ==> i <= r.value && PairAt(s, a, b, r.value)
    decreases |s| - i
  {
    if i == |s| then None else if PairAt(s, a, b, i) then Some(i) else PairIndex(s, a, b, i + 1)
  }

  lemma {:induction false} PairIs(s: seq<Byte>, a: Byte, b: Byte, i: nat, k: nat)
    requires i <= k && PairAt(s, a, b, k) && forall j :: i <= j < k ==> !PairAt(s, a, b, j)
    ensures PairIndex(s, a, b, i) == Some(k)
    decreases k - i
  {
    if i < k {
      PairIs(s, a, b, i + 1, k);
    }
  }

  lemma {:induction false} NoPair(s: seq<Byte>, a: Byte, b: Byte, i: nat)
    requires i <= |s| && forall j :: i <= j < |s| ==> !PairAt(s, a, b, j)
    ensures PairIndex(s, a, b, i) == None
    decreases |s| - i
  {
    if i < |s| {
      NoPair(s, a, b, i + 1);
    }
  }

  predicate StartsWord(s: seq<Byte>) {
    PairAt(s, EQUALS, MARK, 0)
  }

  // ----- One encoded-word -----

  function HexValue(b: Byte): Option<int> {
    if 48 <= b <= 57 then Some(b - 48)
    else if 97 <= b <= 102 then Some(b - 97 + 10)
    else if 65 <= b <= 70 then Some(b - 65 + 10)
    else None
  }

  /** The bytes of one Q-encoded item and the letters it takes. */
  function QItem(s: seq<Byte>): (r: Option<(Byte, nat)>)
    requires s != []
    ensures r.Some? ==> 1 <= r.value.1 <= |s|
  {
    if s[0] == 95 then Some((SPACE, 1))
    else if s[0] == EQUALS then
      var high := if 1 < |s| then HexValue(s[1]) else None;
      var low := if 2 < |s| then HexValue(s[2]) else None;
      if high.None? || low.None? then None else Some((high.value * 16 + low.value, 3))
    else if 33 <= s[0] <= 126 then Some((s[0], 1))
    else None
  }

  function QDecoded(s: seq<Byte>): Option<seq<Byte>>
    decreases |s|
  {
    if s == [] then Some([])
    else
      var item := QItem(s);
      if item.None? then None
      else
        var rest := QDecoded(s[item.value.1..]);
        if rest.None? then None else Some([item.value.0] + rest.value)
  }

  /** The UTF-8 form of the character with code `b`. */
  function Latin1Char(b: Byte): seq<Byte> {
    if b < 0x80 then [b] else [0xC0 + b / 64, 0x80 + b % 64]
  }

  function Latin1(s: seq<Byte>): seq<Byte> {
    if s == [] then [] else Latin1Char(s[0]) + Latin1(s[1..])
  }

  function Transcoded(charset: seq<Byte>, bytes: seq<Byte>): Result<seq<Byte>, DecodeError> {
    if SameName(charset, UTF_8) then
      if IsUtf8(bytes) then Ok(bytes) else Err(InvalidText)
    else if SameName(charset, US_ASCII) then
      if AllAscii(bytes) then Ok(bytes) else Err(InvalidText)
    else if SameName(charset, ISO_8859_1) then Ok(Latin1(bytes))
    else Err(UnsupportedCharset)
  }

  function Unpacked(encoding: Byte, encoded: seq<Byte>): Result<seq<Byte>, DecodeError> {
    if Uppercase(encoding) == 66 then
      var bytes := Base64.Decode(encoded);
      if bytes.None? then Err(MalformedWord) else Ok(bytes.value)
    else if Uppercase(encoding) == 81 then
      var bytes := QDecoded(encoded);
      if bytes.None? then Err(MalformedWord) else Ok(bytes.value)
    else Err(UnsupportedEncoding)
  }

  function WordText(charset: seq<Byte>, encoding: seq<Byte>, encoded: seq<Byte>): Result<seq<Byte>, DecodeError> {
    if charset == [] || |encoding| != 1 || encoded == [] || MARK in encoded then Err(MalformedWord)
    else
      var bytes :- Unpacked(encoding[0], encoded);
      Transcoded(charset, bytes)
  }

  datatype Cut = Cut(first: nat, second: nat, close: nat)

  /** Where the question marks of the word at the front of `input` are. */
  function WordCut(input: seq<Byte>): (r: Option<Cut>)
    requires 2 <= |input|
    ensures r.Some? ==> 2 <= r.value.first < r.value.second < r.value.close && r.value.close + 2 <= |input|
  {
    var first := IndexOf(input, MARK, 2);
    if first.None? then None
    else
      var second := IndexOf(input, MARK, first.value + 1);
      if second.None? then None
      else
        var close := PairIndex(input, MARK, EQUALS, second.value + 1);
        if close.None? then None else Some(Cut(first.value, second.value, close.value))
  }

  /** The word at the front of `input`: the bytes it takes and the text it stands for. */
  function WordAt(input: seq<Byte>): (r: Result<(nat, seq<Byte>), DecodeError>)
    requires 2 <= |input|
    ensures r.Ok? ==> 2 < r.value.0 <= |input|
  {
    var cut := WordCut(input);
    if cut.None? || cut.value.close + 2 > MAX_WORD then Err(MalformedWord)
    else
      var text :- WordText(input[2..cut.value.first], input[cut.value.first + 1..cut.value.second],
                           input[cut.value.second + 1..cut.value.close]);
      Ok((cut.value.close + 2, text))
  }

  // ----- A whole value -----

  /** The bytes before the next encoded-word. */
  function TextLen(input: seq<Byte>): (n: nat)
    requires input != [] && !StartsWord(input)
    ensures 0 < n <= |input|
  {
    var next := PairIndex(input, EQUALS, MARK, 0);
    if next.None? then |input| else next.value
  }

  /** Blanks between two encoded-words. */
  predicate Elided(input: seq<Byte>, after: bool)
    requires input != [] && !StartsWord(input)
  {
    after && TextLen(input) < |input| && AllBlank(input[..TextLen(input)])
  }

  /** What the next `len` bytes contribute; `after` tells whether they were,
      or only followed, an encoded-word. */
  datatype Piece = Piece(len: nat, text: seq<Byte>, after: bool)

  function PieceAt(input: seq<Byte>, after: bool): (r: Result<Piece, DecodeError>)
    ensures IsPiece(r, input) && (r.Ok? ==> IsText(r.value.text))
  {
    if input == [] then Ok(Piece(0, [], after))
    else if StartsWord(input) then
      var word :- WordAt(input);
      if IsText(word.1) then Ok(Piece(word.0, word.1, true)) else Err(InvalidText)
    else
      var n := TextLen(input);
      if Elided(input, after) then Ok(Piece(n, [], true))
      else if IsText(input[..n]) then Ok(Piece(n, input[..n], false))
      else Err(InvalidText)
  }

  predicate IsPiece(r: Result<Piece, DecodeError>, input: seq<Byte>) {
    r.Ok? ==> r.value.len <= |input| && (input != [] ==> 0 < r.value.len)
  }

  /** How the next piece is read. The loop joins pieces in the same way whatever
      it is; the program reads them as `PieceAt` does. */
  type Reader = (seq<Byte>, bool) -> Result<Piece, DecodeError>

  ghost predicate Reads(read: Reader) {
    forall input, after :: IsPiece(read(input, after), input)
  }

  /** What `input` from `cursor` on decodes to in at most `room` bytes; `after`
      says that the bytes just before were an encoded-word. */
  function DecodedFrom(read: Reader, input: seq<Byte>, cursor: nat, after: bool, room: nat)
      : Result<seq<Byte>, DecodeError>
    requires cursor <= |input| && Reads(read)
    decreases |input| - cursor
  {
    if cursor == |input| then Ok([])
    else
      var piece :- read(input[cursor..], after);
      if |piece.text| > room then Err(TooLong)
      else
        var rest :- DecodedFrom(read, input, cursor + piece.len, piece.after, room - |piece.text|);
        Ok(piece.text + rest)
  }

  function Decoded(input: seq<Byte>, limit: nat): Result<seq<Byte>, DecodeError> {
    DecodedFrom(PieceAt, input, 0, false, limit)
  }

  // ----- What decoding yields -----

  lemma {:induction false} TextAppend(a: seq<Byte>, b: seq<Byte>)
    requires IsText(a) && IsText(b)
    ensures IsText(a + b)
    decreases |a|
  {
    if a == [] {
      NoneLeft(b);
    } else {
      var n := CharLen(a);
      CharLenPrefix(a, a + b);
      TextAppend(a[n..], b);
      assert (a + b)[n..] == a[n..] + b;
    }
  }

  /** What pieces of text are joined to is text, and fits. */
  lemma {:induction false} DecodedIsText(read: Reader, input: seq<Byte>, cursor: nat, after: bool, room: nat)
    requires cursor <= |input| && Reads(read) && DecodedFrom(read, input, cursor, after, room).Ok?
    requires forall s, b :: read(s, b).Ok? ==> IsText(read(s, b).value.text)
    ensures var text := DecodedFrom(read, input, cursor, after, room).value;
            IsText(text) && |text| <= room
    decreases |input| - cursor
  {
    if cursor < |input| {
      var piece := read(input[cursor..], after).value;
      assert IsText(piece.text);
      var next, left := cursor + piece.len, room - |piece.text|;
      DecodedIsText(read, input, next, piece.after, left);
      TextAppend(piece.text, DecodedFrom(read, input, next, piece.after, left).value);
    }
  }

  /** So is every value the program decodes, whatever the header held. */
  lemma DecodedValueIsText(input: seq<Byte>, limit: nat)
    ensures Decoded(input, limit).Ok? ==> IsText(Decoded(input, limit).value) && |Decoded(input, limit).value| <= limit
  {
    if Decoded(input, limit).Ok? {
      DecodedIsText(PieceAt, input, 0, false, limit);
    }
  }

  lemma Latin1CharLen(b: Byte, rest: seq<Byte>)
    ensures CharLen(Latin1Char(b) + rest) == |Latin1Char(b)|
    ensures (Latin1Char(b) + rest)[|Latin1Char(b)|..] == rest
  {
  }

  lemma {:induction false} Latin1IsUtf8(s: seq<Byte>)
    ensures IsUtf8(Latin1(s))
  {
    if s != [] {
      Latin1IsUtf8(s[1..]);
      Latin1CharLen(s[0], Latin1(s[1..]));
    }
  }

  /** The `=XX` form of every byte. */
  function QForm(s: seq<Byte>): seq<Byte> {
    if s == [] then [] else [EQUALS, HexDigit(s[0] / 16), HexDigit(s[0] % 16)] + QForm(s[1..])
  }

  function HexDigit(v: int): Byte
    requires 0 <= v < 16
  {
    if v < 10 then 48 + v else 65 + v - 10
  }

  /** Every byte string has a Q form that decodes to it. */
  lemma {:induction false} QRoundTrip(s: seq<Byte>)
    ensures QDecoded(QForm(s)) == Some(s)
  {
    if s != [] {
      QRoundTrip(s[1..]);
      QFormItem(s[0], QForm(s[1..]));
      assert [s[0]] + s[1..] == s;
    }
  }

  lemma QFormItem(b: Byte, rest: seq<Byte>)
    ensures var form: seq<Byte> := [EQUALS, HexDigit(b / 16), HexDigit(b % 16)] + rest;
            QItem(form) == Some((b, 3)) && form[3..] == rest
  {
    assert HexValue(HexDigit(b / 16)) == Some(b / 16) && HexValue(HexDigit(b % 16)) == Some(b % 16);
  }

  // ----- The loops -----

  ghost predicate Continued<E>(whole: Result<seq<Byte>, E>, output: seq<Byte>, rest: Result<seq<Byte>, E>) {
    if rest.Ok? then whole == Ok(output + rest.value) else whole == rest
  }

  ghost predicate Extends(whole: Option<seq<Byte>>, output: seq<Byte>, rest: Option<seq<Byte>>) {
    if rest.Some? then whole == Some(output + rest.value) else whole == None
  }

  method DecodeQ(input: seq<Byte>) returns (r: Option<seq<Byte>>)
    ensures r == QDecoded(input)
  {
    var output: seq<Byte> := [];
    var cursor := 0;
    ghost var whole := QDecoded(input);
    assert input[0..] == input;
    if whole.Some? {
      NoneLeft(whole.value);
    }
    while cursor < |input|
      invariant 0 <= cursor <= |input|
      invariant Extends(whole, output, QDecoded(input[cursor..]))
    {
      var item := QItem(input[cursor..]);
      if item.None? {
        return None;
      }
      QStep(whole, output, input, cursor);
      output := output + [item.value.0];
      cursor := cursor + item.value.1;
    }
    NoneRight(output);
    r := Some(output);
  }

  lemma QStep(whole: Option<seq<Byte>>, output: seq<Byte>, input: seq<Byte>, cursor: nat)
    requires cursor < |input| && Extends(whole, output, QDecoded(input[cursor..])) && QItem(input[cursor..]).Some?
    ensures var item := QItem(input[cursor..]).value;
            Extends(whole, output + [item.0], QDecoded(input[cursor + item.1..]))
  {
    var rest := input[cursor..];
    var item := QItem(rest).value;
    assert rest[item.1..] == input[cursor + item.1..];
    if QDecoded(rest).Some? {
      MoveOne(output, item.0, QDecoded(rest[item.1..]).value);
    }
  }

  method Transcode(charset: seq<Byte>, input: seq<Byte>) returns (r: Result<seq<Byte>, DecodeError>)
    ensures r == Transcoded(charset, input)
  {
    if SameName(charset, UTF_8) {
      return if IsUtf8(input) then Ok(input) else Err(InvalidText);
    }
    if SameName(charset, US_ASCII) {
      return if AllAscii(input) then Ok(input) else Err(InvalidText);
    }
    if SameName(charset, ISO_8859_1) {
      var output := Latin1Text(input);
      return Ok(output);
    }
    return Err(UnsupportedCharset);
  }

  method Latin1Text(input: seq<Byte>) returns (output: seq<Byte>)
    ensures output == Latin1(input)
  {
    output := [];
    assert input[0..] == input;
    NoneLeft(Latin1(input));
    for i := 0 to |input|
      invariant output + Latin1(input[i..]) == Latin1(input)
    {
      assert input[i..][1..] == input[i + 1..];
      Assoc(output, Latin1Char(input[i]), Latin1(input[i + 1..]));
      output := output + Latin1Char(input[i]);
    }
    NoneRight(output);
  }

  method DecodeWord(input: seq<Byte>) returns (r: Result<(nat, seq<Byte>), DecodeError>)
    requires 2 <= |input|
    ensures r == WordAt(input)
  {
    var cut := WordCut(input);
    if cut.None? || cut.value.close + 2 > MAX_WORD {
      return Err(MalformedWord);
    }
    var Cut(first, second, close) := cut.value;
    var text := DecodeWordText(input[2..first], input[first + 1..second], input[second + 1..close]);
    r := if text.Ok? then Ok((close + 2, text.value)) else Err(text.error);
  }

  method DecodeWordText(charset: seq<Byte>, encoding: seq<Byte>, encoded: seq<Byte>)
      returns (r: Result<seq<Byte>, DecodeError>)
    ensures r == WordText(charset, encoding, encoded)
  {
    if charset == [] || |encoding| != 1 || encoded == [] || MARK in encoded {
      return Err(MalformedWord);
    }
    var bytes: Option<seq<Byte>>;
    if Uppercase(encoding[0]) == 66 {
      bytes := Base64.DecodeBase64(encoded);
      Base64.DecodeNeedsBlocks(encoded);
    } else if Uppercase(encoding[0]) == 81 {
      bytes := DecodeQ(encoded);
    } else {
      return Err(UnsupportedEncoding);
    }
    if bytes.None? {
      return Err(MalformedWord);
    }
    r := Transcode(charset, bytes.value);
  }

  method DecodePiece(input: seq<Byte>, after: bool) returns (r: Result<Piece, DecodeError>)
    requires input != []
    ensures r == PieceAt(input, after)
  {
    if StartsWord(input) {
      var word := DecodeWord(input);
      if word.Err? {
        return Err(word.error);
      }
      r := if IsText(word.value.1) then Ok(Piece(word.value.0, word.value.1, true)) else Err(InvalidText);
    } else {
      var n := TextLen(input);
      if Elided(input, after) {
        return Ok(Piece(n, [], true));
      }
      r := if IsText(input[..n]) then Ok(Piece(n, input[..n], false)) else Err(InvalidText);
    }
  }

  lemma PieceStep(read: Reader, whole: Result<seq<Byte>, DecodeError>, output: seq<Byte>, input: seq<Byte>, cursor: nat,
                  after: bool, room: nat, piece: Result<Piece, DecodeError>)
    requires cursor < |input| && Reads(read) && Continued(whole, output, DecodedFrom(read, input, cursor, after, room))
    requires piece == read(input[cursor..], after)
    ensures piece.Ok? ==> 0 < piece.value.len <= |input| - cursor
    ensures if piece.Err? then whole == Err(piece.error)
            else if |piece.value.text| > room then whole == Err(TooLong)
            else Continued(whole, output + piece.value.text,
                           DecodedFrom(read, input, cursor + piece.value.len, piece.value.after,
                                       room - |piece.value.text|))
  {
    assert IsPiece(piece, input[cursor..]);
    if DecodedFrom(read, input, cursor, after, room).Ok? {
      var Piece(len, text, next) := piece.value;
      Assoc(output, text, DecodedFrom(read, input, cursor + len, next, room - |text|).value);
    }
  }

  method DecodePieces(read: Reader, input: seq<Byte>, limit: nat) returns (r: Result<seq<Byte>, DecodeError>)
    requires Reads(read)
    ensures r == DecodedFrom(read, input, 0, false, limit)
  {
    var output: seq<Byte> := [];
    var cursor, previousEncoded := 0, false;
    ghost var whole := DecodedFrom(read, input, 0, false, limit);
    if whole.Ok? {
      NoneLeft(whole.value);
    }
    while cursor < |input|
      invariant 0 <= cursor <= |input| && |output| <= limit
      invariant Continued(whole, output, DecodedFrom(read, input, cursor, previousEncoded, limit - |output|))
    {
      var piece := read(input[cursor..], previousEncoded);
      PieceStep(read, whole, output, input, cursor, previousEncoded, limit - |output|, piece);
      if piece.Err? {
        return Err(piece.error);
      }
      if |output| + |piece.value.text| > limit {
        return Err(TooLong);
      }
      output, cursor, previousEncoded := output + piece.value.text, cursor + piece.value.len, piece.value.after;
    }
    NoneRight(output);
    r := Ok(output);
  }

  method DecodeRfc2047(input: seq<Byte>, limit: nat) returns (r: Result<seq<Byte>, DecodeError>)
    ensures r == Decoded(input, limit)
  {
    r := DecodePieces(PieceAt, input, limit);
  }
}
