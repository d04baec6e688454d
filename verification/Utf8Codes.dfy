/** UTF-8 as the encoding of Unicode code points (section 3 of RFC 3629). */
module Utf8Codes {
  import opened Bytes
  import opened Utf8
  import EncodedWord

  /** A Unicode scalar value: no surrogate. */
  type Code = c: int | 0 <= c < 0xD800 || 0xE000 <= c <= 0x10FFFF

  function Encoded(c: Code): (s: seq<Byte>)
    ensures 1 <= |s| <= 4
  {
    if c < 0x80 then [c]
    else if c < 0x800 then [0xC0 + c / 64, 0x80 + c % 64]
    else if c < 0x10000 then [0xE0 + c / 4096, 0x80 + c / 64 % 64, 0x80 + c % 64]
    else [0xF0 + c / 262144, 0x80 + c / 4096 % 64, 0x80 + c / 64 % 64, 0x80 + c % 64]
  }

  function EncodedAll(codes: seq<Code>): seq<Byte> {
    if codes == [] then [] else Encoded(codes[0]) + EncodedAll(codes[1..])
  }

  predicate IsControl(c: Code) {
    (c < 0x20 && c != 9) || 0x7F <= c < 0xA0
  }

  lemma EncodedIsRead(c: Code, rest: seq<Byte>)
    ensures var s := Encoded(c) + rest;
            CharLen(s) == |Encoded(c)| && s[|Encoded(c)|..] == rest && (StartsWithControl(s) <==> IsControl(c))
  {
    var s := Encoded(c) + rest;
    assert forall i :: 0 <= i < |Encoded(c)| ==> s[i] == Encoded(c)[i];
  }

  /** The last digit to base 64, and the others. */
  lemma Digit(others: nat, last: nat)
    requires last < 64
    ensures (others * 64 + last) / 64 == others && (others * 64 + last) % 64 == last
  {
  }

  lemma Halves(c: nat)
    ensures c / 4096 == c / 64 / 64 && c / 262144 == c / 4096 / 64
  {
  }

  lemma ThreeDigits(a: nat, b: nat, d: nat) returns (c: nat)
    requires b < 64 && d < 64
    ensures c == (a * 64 + b) * 64 + d && c / 4096 == a && c / 64 % 64 == b && c % 64 == d && c / 64 == a * 64 + b
  {
    c := (a * 64 + b) * 64 + d;
    Digit(a * 64 + b, d);
    Digit(a, b);
    Halves(c);
  }

  lemma CharIsEncoded(s: seq<Byte>) returns (c: Code)
    requires 0 < CharLen(s)
    ensures s[..CharLen(s)] == Encoded(c)
  {
    var n := CharLen(s);
    if n == 1 {
      c := s[0];
    } else if n == 2 {
      c := TwoBytes(s);
    } else if n == 3 {
      c := ThreeBytes(s);
    } else {
      c := FourBytes(s);
    }
  }

  lemma TwoBytes(s: seq<Byte>) returns (c: Code)
    requires CharLen(s) == 2
    ensures s[..2] == Encoded(c)
  {
    Digit(s[0] as int - 0xC0, s[1] as int - 0x80);
    var code: int := (s[0] as int - 0xC0) * 64 + (s[1] as int - 0x80);
    c := code;
  }

  lemma ThreeBytes(s: seq<Byte>) returns (c: Code)
    requires CharLen(s) == 3
    ensures s[..3] == Encoded(c)
  {
    var code := ThreeDigits(s[0] as int - 0xE0, s[1] as int - 0x80, s[2] as int - 0x80);
    c := code;
  }

  lemma FourBytes(s: seq<Byte>) returns (c: Code)
    requires CharLen(s) == 4
    ensures s[..4] == Encoded(c)
  {
    var front := ThreeDigits(s[0] as int - 0xF0, s[1] as int - 0x80, s[2] as int - 0x80);
    var code := front * 64 + (s[3] as int - 0x80);
    Digit(front, s[3] as int - 0x80);
    FourDigits(code, front);
    c := code;
  }

  lemma FourDigits(code: nat, front: nat)
    requires code / 64 == front
    ensures code / 4096 == front / 64 && code / 262144 == front / 4096
  {
    Halves(code);
    Halves(front);
  }

  lemma {:induction false} EncodingIsUtf8(codes: seq<Code>)
    ensures IsUtf8(EncodedAll(codes))
    ensures IsText(EncodedAll(codes)) <==> forall i :: 0 <= i < |codes| ==> !IsControl(codes[i])
    decreases |codes|
  {
    if codes != [] {
      EncodedIsRead(codes[0], EncodedAll(codes[1..]));
      EncodingIsUtf8(codes[1..]);
      assert forall i :: 0 < i < |codes| ==> codes[i] == codes[1..][i - 1];
    }
  }

  lemma {:induction false} Utf8IsEncoding(s: seq<Byte>) returns (codes: seq<Code>)
    requires IsUtf8(s)
    ensures EncodedAll(codes) == s
    decreases |s|
  {
    if s == [] {
      codes := [];
    } else {
      var n := CharLen(s);
      var first := CharIsEncoded(s);
      var rest := Utf8IsEncoding(s[n..]);
      codes := [first] + rest;
      assert codes[1..] == rest;
      assert s == s[..n] + s[n..];
    }
  }

  /** Well-formed UTF-8 is exactly what encodes some code points. */
  lemma Utf8IsExactlyEncodings(s: seq<Byte>)
    ensures IsUtf8(s) <==> exists codes :: EncodedAll(codes) == s
  {
    if IsUtf8(s) {
      var codes := Utf8IsEncoding(s);
    }
    if codes :| EncodedAll(codes) == s {
      EncodingIsUtf8(codes);
    }
  }

  /** Text is exactly what encodes code points none of which is a control, TAB excepted. */
  lemma TextIsExactlyEncodings(s: seq<Byte>)
    ensures IsText(s) <==> exists codes :: EncodedAll(codes) == s && forall i :: 0 <= i < |codes| ==> !IsControl(codes[i])
  {
    if IsText(s) {
      TextIsUtf8(s);
      var codes := Utf8IsEncoding(s);
      EncodingIsUtf8(codes);
    }
    if codes :| EncodedAll(codes) == s && forall i :: 0 <= i < |codes| ==> !IsControl(codes[i]) {
      EncodingIsUtf8(codes);
    }
  }

  /** ISO-8859-1 bytes are the code points they are transcoded to. */
  lemma {:induction false} Latin1Encodes(s: seq<Byte>)
    ensures EncodedWord.Latin1(s) == EncodedAll(seq(|s|, i requires 0 <= i < |s| => s[i]))
    decreases |s|
  {
    if s != [] {
      var codes: seq<Code> := seq(|s|, i requires 0 <= i < |s| => s[i]);
      var rest: seq<Code> := seq(|s[1..]|, i requires 0 <= i < |s[1..]| => s[1..][i]);
      Latin1Encodes(s[1..]);
      assert codes[1..] == rest;
    }
  }
}
