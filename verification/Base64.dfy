/** Base64 as used inside encoded-words. Shifts and masks of bytes and of six-bit
    values are written as the division, remainder and sum they denote. */
module Base64 {
  import opened Bytes

  const PAD: Byte := 61

  type Sextet = v: int | 0 <= v < 64

  /** The alphabet table. */
  function Letter(v: Sextet): Byte {
    if v < 26 then 65 + v
    else if v < 52 then 97 + (v - 26)
    else if v < 62 then 48 + (v - 52)
    else if v == 62 then 43
    else 47
  }

  /** `base64_value`. */
  function ValueOf(b: Byte): Option<Sextet> {
    if 65 <= b <= 90 then Some(b - 65)
    else if 97 <= b <= 122 then Some(b - 97 + 26)
    else if 48 <= b <= 57 then Some(b - 48 + 52)
    else if b == 43 then Some(62)
    else if b == 47 then Some(63)
    else None
  }

  lemma LetterValue(v: Sextet)
    ensures ValueOf(Letter(v)) == Some(v) && Letter(v) != PAD && Letter(v) != 63
  {
  }

  /** Four letters for the one to three bytes at the front of `s`. */
  function EncodeBlock(s: seq<Byte>): (r: seq<Byte>)
    requires s != []
    ensures |r| == 4
  {
    var a := s[0];
    var b := if 1 < |s| then s[1] else 0;
    var c := if 2 < |s| then s[2] else 0;
    [Letter(a / 4),
     Letter((a % 4) * 16 + b / 16),
     if 1 < |s| then Letter((b % 16) * 4 + c / 64) else PAD,
     if 2 < |s| then Letter(c % 64) else PAD]
  }

  function Skip(s: seq<Byte>, n: nat): seq<Byte> {
    if n <= |s| then s[n..] else []
  }

  function Encode(s: seq<Byte>): seq<Byte>
    decreases |s|
  {
    if s == [] then [] else EncodeBlock(s) + Encode(Skip(s, 3))
  }

  /** One four-letter block; padding is accepted only in the last one, and only
      when the bits it drops are zero. */
  function DecodeBlock(t: seq<Byte>, last: bool): Option<seq<Byte>>
    requires 4 <= |t|
  {
    var a, b := ValueOf(t[0]), ValueOf(t[1]);
    var c := if t[2] == PAD then (if !last || t[3] != PAD then None else Some(0)) else ValueOf(t[2]);
    var d := if t[3] == PAD then (if !last then None else Some(0)) else ValueOf(t[3]);
    if a.None? || b.None? || c.None? || d.None? then None
    else if (t[2] == PAD && b.value % 16 != 0) || (t[3] == PAD && c.value % 4 != 0) then None
    else
      var (w: int, x: int, y: int, z: int) := (a.value, b.value, c.value, d.value);
      var first, second, third := w * 4 + x / 16, (x % 16) * 16 + y / 4, (y % 4) * 64 + z;
      Some(if t[2] == PAD then [first] else if t[3] == PAD then [first, second] else [first, second, third])
  }

  /** `decode_base64`; None stands for a malformed word. */
  function Decode(t: seq<Byte>): Option<seq<Byte>> {
    if t == [] then Some([])
    else if |t| < 4 then None
    else
      var block := DecodeBlock(t, |t| == 4);
      var rest := Decode(t[4..]);
      if block.None? || rest.None? then None else Some(block.value + rest.value)
  }

  // ----- Round trip -----

  lemma LettersDecode(a: Byte, b: Byte, c: Byte, n: nat, t: seq<Byte>, last: bool)
    requires 1 <= n <= 3 && 4 <= |t| && (n < 3 ==> last) && (n < 2 ==> b == 0) && (n < 3 ==> c == 0)
    requires t[0] == Letter(a / 4) && t[1] == Letter((a % 4) * 16 + b / 16)
    requires t[2] == if 1 < n then Letter((b % 16) * 4 + c / 64) else PAD
    requires t[3] == if 2 < n then Letter(c % 64) else PAD
    ensures DecodeBlock(t, last) == Some(if n == 1 then [a] else if n == 2 then [a, b] else [a, b, c])
  {
    BlockLetters(a, b, c);
    SextetsAreBytes(a, b, c);
  }

  lemma BlockRoundTrip(s: seq<Byte>, t: seq<Byte>, last: bool)
    requires s != [] && 4 <= |t| && t[..4] == EncodeBlock(s) && (|s| < 3 ==> last)
    ensures DecodeBlock(t, last) == Some(s[..Min(|s|, 3)])
  {
    var a := s[0];
    var b := if 1 < |s| then s[1] else 0;
    var c := if 2 < |s| then s[2] else 0;
    assert t[0] == t[..4][0] && t[1] == t[..4][1] && t[2] == t[..4][2] && t[3] == t[..4][3];
    LettersDecode(a, b, c, Min(|s|, 3), t, last);
    if |s| == 1 {
      assert s[..1] == [a];
    } else if |s| == 2 {
      assert s[..2] == [a, b];
    } else {
      assert s[..3] == [a, b, c];
    }
  }

  lemma BlockLetters(a: Byte, b: Byte, c: Byte)
    ensures ValueOf(Letter(a / 4)) == Some(a / 4) && Letter(a / 4) != PAD
    ensures ValueOf(Letter((a % 4) * 16 + b / 16)) == Some((a % 4) * 16 + b / 16) && Letter((a % 4) * 16 + b / 16) != PAD
    ensures ValueOf(Letter((b % 16) * 4 + c / 64)) == Some((b % 16) * 4 + c / 64) && Letter((b % 16) * 4 + c / 64) != PAD
    ensures ValueOf(Letter(c % 64)) == Some(c % 64) && Letter(c % 64) != PAD
  {
    LetterValue(a / 4);
    LetterValue((a % 4) * 16 + b / 16);
    LetterValue((b % 16) * 4 + c / 64);
    LetterValue(c % 64);
  }

  lemma SextetsAreBytes(a: Byte, b: Byte, c: Byte)
    ensures var w, x, y, z := a / 4, (a % 4) * 16 + b / 16, (b % 16) * 4 + c / 64, c % 64;
            w * 4 + x / 16 == a && (x % 16) * 16 + y / 4 == b && (y % 4) * 64 + z == c &&
            (b == 0 ==> x % 16 == 0) && (c == 0 ==> y % 4 == 0)
  {
  }

  /** Every byte string decodes back from its encoding. */
  lemma {:induction false} RoundTrip(s: seq<Byte>)
    ensures Decode(Encode(s)) == Some(s)
    decreases |s|
  {
    if s != [] {
      var block, rest := EncodeBlock(s), Encode(Skip(s, 3));
      var t := block + rest;
      RoundTrip(Skip(s, 3));
      assert t[..4] == block;
      assert t[4..] == rest;
      EncodeLength(Skip(s, 3));
      BlockRoundTrip(s, t, |t| == 4);
      assert s == s[..Min(|s|, 3)] + Skip(s, 3);
    }
  }

  lemma ValueLetter(b: Byte)
    ensures ValueOf(b).Some? ==> Letter(ValueOf(b).value) == b
  {
  }

  lemma BytesAreSextets(w: Sextet, x: Sextet, y: Sextet, z: Sextet)
    ensures var a, b, c := w * 4 + x / 16, (x % 16) * 16 + y / 4, (y % 4) * 64 + z;
            a / 4 == w && (a % 4) * 16 + b / 16 == x && (b % 16) * 4 + c / 64 == y && c % 64 == z &&
            (x % 16 == 0 ==> (a % 4) * 16 == x) && (y % 4 == 0 ==> (b % 16) * 4 == y)
  {
  }

  lemma BlockCanonical(t: seq<Byte>, last: bool)
    requires 4 <= |t| && DecodeBlock(t, last).Some?
    ensures var s := DecodeBlock(t, last).value;
            1 <= |s| <= 3 && (|s| < 3 ==> last) && EncodeBlock(s) == t[..4]
  {
    var c := if t[2] == PAD then 0 else ValueOf(t[2]).value;
    var d := if t[3] == PAD then 0 else ValueOf(t[3]).value;
    BytesAreSextets(ValueOf(t[0]).value, ValueOf(t[1]).value, c, d);
    ValueLetter(t[0]);
    ValueLetter(t[1]);
    ValueLetter(t[2]);
    ValueLetter(t[3]);
  }

  lemma EncodeBlockPrefix(s: seq<Byte>, rest: seq<Byte>)
    requires s != [] && (|s| < 3 ==> rest == [])
    ensures EncodeBlock(s + rest) == EncodeBlock(s) && (|s| <= 3 ==> Skip(s + rest, 3) == rest)
  {
    if rest == [] {
      NoneRight(s);
    }
  }

  /** Every text that decodes is the encoding of what it decodes to: no two
      encoded texts stand for the same bytes. */
  lemma {:induction false} DecodeIsCanonical(t: seq<Byte>)
    requires Decode(t).Some?
    ensures Encode(Decode(t).value) == t
    decreases |t|
  {
    if t != [] {
      var block, rest := DecodeBlock(t, |t| == 4).value, Decode(t[4..]).value;
      BlockCanonical(t, |t| == 4);
      DecodeIsCanonical(t[4..]);
      EncodeBlockPrefix(block, rest);
      assert t == t[..4] + t[4..];
    }
  }

  lemma {:induction false} EncodeLength(s: seq<Byte>)
    ensures |Encode(s)| == (|s| + 2) / 3 * 4
    decreases |s|
  {
    if s != [] {
      EncodeLength(Skip(s, 3));
    }
  }

  predicate IsLetter(b: Byte) {
    ValueOf(b).Some? || b == PAD
  }

  lemma {:induction false} EncodeLetters(s: seq<Byte>)
    ensures forall i :: 0 <= i < |Encode(s)| ==> IsLetter(Encode(s)[i])
    decreases |s|
  {
    if s != [] {
      EncodeLetters(Skip(s, 3));
      var a := s[0];
      var b := if 1 < |s| then s[1] else 0;
      var c := if 2 < |s| then s[2] else 0;
      BlockLetters(a, b, c);
    }
  }

  // ----- The loops -----

  method AppendBase64(output: seq<Byte>, input: seq<Byte>) returns (r: seq<Byte>)
    ensures r == output + Encode(input)
  {
    r := output;
    var index := 0;
    while index < |input|
      invariant 0 <= index <= |input|
      invariant r + Encode(input[index..]) == output + Encode(input)
    {
      var chunk := input[index..Min(index + 3, |input|)];
      var first := chunk[0];
      var second := if 1 < |chunk| then chunk[1] else 0;
      var third := if 2 < |chunk| then chunk[2] else 0;
      var block := [Letter(first / 4),
                    Letter((first % 4) * 16 + second / 16),
                    if 1 < |chunk| then Letter((second % 16) * 4 + third / 64) else PAD,
                    if 2 < |chunk| then Letter(third % 64) else PAD];
      ghost var rest := input[index..];
      assert block == EncodeBlock(rest);
      index := Min(index + 3, |input|);
      assert input[index..] == Skip(rest, 3);
      Assoc(r, block, Encode(input[index..]));
      r := r + block;
    }
    NoneRight(r);
  }

  method DecodeBase64(input: seq<Byte>) returns (r: Option<seq<Byte>>)
    ensures r == if |input| % 4 == 0 then Decode(input) else None
  {
    if |input| % 4 != 0 {
      return None;
    }
    r := DecodeBlocks(input);
  }

  method DecodeBlocks(input: seq<Byte>) returns (r: Option<seq<Byte>>)
    requires |input| % 4 == 0
    ensures r == Decode(input)
  {
    var output, rest: seq<Byte> := [], input;
    ghost var whole := Decode(input);
    if whole.Some? {
      NoneLeft(whole.value);
    }
    while rest != []
      invariant |rest| % 4 == 0
      invariant DecodedTo(whole, output, Decode(rest))
      decreases |rest|
    {
      var block := NextBlock(whole, output, rest);
      if block.None? {
        return None;
      }
      output, rest := output + block.value, rest[4..];
    }
    NoneRight(output);
    r := Some(output);
  }

  method NextBlock(ghost whole: Option<seq<Byte>>, ghost output: seq<Byte>, rest: seq<Byte>) returns (block: Option<seq<Byte>>)
    requires 4 <= |rest| && DecodedTo(whole, output, Decode(rest))
    ensures block == DecodeBlock(rest, |rest| == 4)
    ensures if block.None? then whole.None? else DecodedTo(whole, output + block.value, Decode(rest[4..]))
  {
    DecodeAdvances(whole, output, rest);
    block := DecodeBlock(rest, |rest| == 4);
  }

  lemma DecodeAdvances(whole: Option<seq<Byte>>, output: seq<Byte>, rest: seq<Byte>)
    requires 4 <= |rest| && DecodedTo(whole, output, Decode(rest))
    ensures var block := DecodeBlock(rest, |rest| == 4);
            if block.None? then whole.None? else DecodedTo(whole, output + block.value, Decode(rest[4..]))
  {
    if Decode(rest).Some? {
      Assoc(output, DecodeBlock(rest, |rest| == 4).value, Decode(rest[4..]).value);
    }
  }

  ghost predicate DecodedTo(whole: Option<seq<Byte>>, output: seq<Byte>, rest: Option<seq<Byte>>) {
    if rest.None? then whole.None? else whole == Some(output + rest.value)
  }

  /** `Decode` itself refuses every length the loop refuses up front. */
  lemma {:induction false} DecodeNeedsBlocks(t: seq<Byte>)
    ensures |t| % 4 != 0 ==> Decode(t) == None
    decreases |t|
  {
    if 4 <= |t| {
      DecodeNeedsBlocks(t[4..]);
    }
  }

  // ----- Bits -----

  /** The letter of a six-bit value: `A` to `Z`, `a` to `z`, `0` to `9`, `+` and `/`. */
  predicate IsLetterOf(b: Byte, v: int) {
    (0 <= v < 26 && b == 65 + v) || (26 <= v < 52 && b == 97 + v - 26) || (52 <= v < 62 && b == 48 + v - 52) ||
    (v == 62 && b == 43) || (v == 63 && b == 47)
  }

  /** Four letters are three bytes: as numbers to base 64 and to base 256 they are the
      same. Missing bytes count as zero, and their letters are padding. */
  lemma BlockIsNumber(s: seq<Byte>) returns (w: Sextet, x: Sextet, y: Sextet, z: Sextet)
    requires s != []
    ensures var a: int, b: int, c: int := s[0], if 1 < |s| then s[1] else 0, if 2 < |s| then s[2] else 0;
            var r := EncodeBlock(s);
            ((w as int * 64 + x) * 64 + y) * 64 + z == (a * 256 + b) * 256 + c &&
            IsLetterOf(r[0], w) && IsLetterOf(r[1], x) &&
            (if 1 < |s| then IsLetterOf(r[2], y) else r[2] == PAD && y == 0) &&
            (if 2 < |s| then IsLetterOf(r[3], z) else r[3] == PAD && z == 0)
  {
    var b: int, c: int := if 1 < |s| then s[1] else 0, if 2 < |s| then s[2] else 0;
    w, x, y, z := s[0] / 4, (s[0] % 4) * 16 + b / 16, (b % 16) * 4 + c / 64, c % 64;
  }
}
