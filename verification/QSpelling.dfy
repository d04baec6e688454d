/** Every spelling of a Q-encoded text (section 4.2 of RFC 2047) and what it
    decodes to, alone and in an encoded-word. */
module QSpelling {
  import opened Bytes
  import opened EncodedWord
  import Base64
  import Utf8

  const UNDERSCORE: Byte := 95

  /** A hexadecimal letter, large or small, and its value. */
  predicate IsHex(letter: Byte, v: int) {
    (0 <= v < 10 && letter == 48 + v) || (10 <= v < 16 && (letter == 65 + v - 10 || letter == 97 + v - 10))
  }

  /** The ways to write one byte: `=XX`, itself when it is printable and neither `=`
      nor `_`, and `_` for a space. (The text of a word holds no `?` either.) */
  predicate Spells(text: seq<Byte>, b: Byte) {
    (|text| == 3 && text[0] == EQUALS && IsHex(text[1], b / 16) && IsHex(text[2], b % 16)) ||
    (text == [b] && 33 <= b <= 126 && b != EQUALS && b != UNDERSCORE) ||
    (text == [UNDERSCORE] && b == SPACE)
  }

  predicate SpellAll(texts: seq<seq<Byte>>, bytes: seq<Byte>) {
    |texts| == |bytes| && forall i :: 0 <= i < |texts| ==> Spells(texts[i], bytes[i])
  }

  lemma HexIsRead(letter: Byte, v: int)
    requires 0 <= v < 16
    ensures HexValue(letter) == Some(v) <==> IsHex(letter, v)
  {
  }

  lemma ItemIsSpelled(text: seq<Byte>, b: Byte, rest: seq<Byte>)
    requires Spells(text, b)
    ensures text != [] && QItem(text + rest) == Some((b, |text|)) && (text + rest)[|text|..] == rest
  {
    var s := text + rest;
    assert forall i :: 0 <= i < |text| ==> s[i] == text[i];
    if |text| == 3 {
      HexIsRead(text[1], b / 16);
      HexIsRead(text[2], b % 16);
    }
  }

  lemma ItemSpells(s: seq<Byte>)
    requires s != [] && QItem(s).Some?
    ensures var (b, n) := QItem(s).value; Spells(s[..n], b)
  {
    if s[0] == EQUALS {
      var high, low := HexValue(s[1]).value, HexValue(s[2]).value;
      HexIsRead(s[1], high);
      HexIsRead(s[2], low);
      assert (high * 16 + low) / 16 == high && (high * 16 + low) % 16 == low;
    }
  }

  lemma {:induction false} SpellingsDecode(texts: seq<seq<Byte>>, bytes: seq<Byte>)
    requires SpellAll(texts, bytes)
    ensures QDecoded(Flatten(texts)) == Some(bytes)
    decreases |texts|
  {
    if texts != [] {
      ItemIsSpelled(texts[0], bytes[0], Flatten(texts[1..]));
      assert forall i :: 0 <= i < |texts[1..]| ==> texts[1..][i] == texts[i + 1] && bytes[1..][i] == bytes[i + 1];
      SpellingsDecode(texts[1..], bytes[1..]);
      assert [bytes[0]] + bytes[1..] == bytes;
    }
  }

  lemma {:induction false} DecodedIsSpelled(s: seq<Byte>) returns (texts: seq<seq<Byte>>)
    requires QDecoded(s).Some?
    ensures SpellAll(texts, QDecoded(s).value) && Flatten(texts) == s
    decreases |s|
  {
    if s == [] {
      texts := [];
    } else {
      var (b, n) := QItem(s).value;
      ItemSpells(s);
      var rest := DecodedIsSpelled(s[n..]);
      texts := [s[..n]] + rest;
      assert texts[1..] == rest;
      assert s == s[..n] + s[n..];
    }
  }

  /** A text decodes to some bytes exactly when it spells them one after another. */
  lemma DecodesExactlySpellings(s: seq<Byte>, bytes: seq<Byte>)
    ensures QDecoded(s) == Some(bytes) <==> exists texts: seq<seq<Byte>> :: SpellAll(texts, bytes) && Flatten(texts) == s
  {
    if QDecoded(s) == Some(bytes) {
      var texts := DecodedIsSpelled(s);
    }
    if texts: seq<seq<Byte>> :| SpellAll(texts, bytes) && Flatten(texts) == s {
      SpellingsDecode(texts, bytes);
    }
  }

  // ----- Words -----

  /** `=?charset?encoding?text?=` */
  function WordOf(charset: seq<Byte>, encoding: Byte, text: seq<Byte>): seq<Byte> {
    [EQUALS, MARK] + charset + [MARK, encoding, MARK] + text + SUFFIX
  }

  lemma WordParts(charset: seq<Byte>, encoding: Byte, text: seq<Byte>, rest: seq<Byte>)
    ensures var input, first := WordOf(charset, encoding, text) + rest, 2 + |charset|;
            |input| == first + 5 + |text| + |rest| && input[2..first] == charset &&
            input[first] == MARK && input[first + 1] == encoding && input[first + 2] == MARK &&
            input[first + 3..first + 3 + |text|] == text && PairAt(input, MARK, EQUALS, first + 3 + |text|)
  {
    var input, first := WordOf(charset, encoding, text) + rest, 2 + |charset|;
    var front := [EQUALS, MARK] + charset;
    var middle := [MARK, encoding, MARK];
    assert input == front + middle + text + SUFFIX + rest;
    assert forall i :: 0 <= i < |front| ==> input[i] == front[i];
    assert forall i :: 0 <= i < 3 ==> input[first + i] == middle[i];
    assert forall i :: 0 <= i < |text| ==> input[first + 3 + i] == text[i];
    assert forall i :: 0 <= i < 2 ==> input[first + 3 + |text| + i] == SUFFIX[i];
    assert front[2..] == charset;
    assert input[first + 0] == MARK && input[first + 3 + |text| + 0] == MARK;
  }

  /** An encoded-word is read up to its end, whatever follows. */
  lemma WordIsRead(charset: seq<Byte>, encoding: Byte, text: seq<Byte>, rest: seq<Byte>)
    requires MARK !in charset && encoding != MARK && MARK !in text && charset != [] && text != []
    requires |WordOf(charset, encoding, text)| <= MAX_WORD
    ensures |WordOf(charset, encoding, text)| >= 2
    ensures WordAt(WordOf(charset, encoding, text) + rest) ==
            match WordText(charset, [encoding], text)
            case Err(e) => Err(e)
            case Ok(value) => Ok((|WordOf(charset, encoding, text)|, value))
  {
    var input, first := WordOf(charset, encoding, text) + rest, 2 + |charset|;
    var close := first + 3 + |text|;
    WordParts(charset, encoding, text, rest);
    forall j | 2 <= j < first ensures input[j] != MARK {
      assert input[j] == input[2..first][j - 2] && input[j] in charset;
    }
    forall j | first + 3 <= j < close ensures input[j] != MARK {
      assert input[j] == input[first + 3..close][j - first - 3] && input[j] in text;
    }
    IndexIs(input, MARK, 2, first);
    IndexIs(input, MARK, first + 1, first + 2);
    PairIs(input, MARK, EQUALS, first + 3, close);
    assert WordCut(input) == Some(Cut(first, first + 2, close));
    assert input[first + 1..first + 2] == [encoding];
  }

  predicate IsLetter(b: Byte, capital: Byte) {
    b == capital || b == capital + 32
  }

  /** A Q word in any legal spelling stands for the bytes it spells, read in its
      charset: UTF-8 and US-ASCII text as it is, ISO-8859-1 as code points. */
  lemma QWordIsRead(charset: seq<Byte>, encoding: Byte, texts: seq<seq<Byte>>, bytes: seq<Byte>, rest: seq<Byte>)
    requires SpellAll(texts, bytes) && bytes != [] && MARK !in Flatten(texts) && IsLetter(encoding, 81)
    requires SameName(charset, UTF_8) || SameName(charset, US_ASCII) || SameName(charset, ISO_8859_1)
    requires |WordOf(charset, encoding, Flatten(texts))| <= MAX_WORD
    ensures var word := WordOf(charset, encoding, Flatten(texts));
            |word| >= 2 &&
            WordAt(word + rest) ==
            if SameName(charset, ISO_8859_1) then Ok((|word|, Latin1(bytes)))
            else if if SameName(charset, UTF_8) then Utf8.IsUtf8(bytes) else AllAscii(bytes) then Ok((|word|, bytes))
            else Err(InvalidText)
  {
    SpellingsDecode(texts, bytes);
    assert texts[0] != [];
    assert Flatten(texts) != [];
    CharsetsDiffer(charset);
    WordIsRead(charset, encoding, Flatten(texts), rest);
  }

  /** Names of charsets hold no `?`, and each is the name of one charset. */
  lemma CharsetsDiffer(charset: seq<Byte>)
    requires SameName(charset, UTF_8) || SameName(charset, US_ASCII) || SameName(charset, ISO_8859_1)
    ensures charset != [] && MARK !in charset
    ensures !(SameName(charset, ISO_8859_1) && (SameName(charset, UTF_8) || SameName(charset, US_ASCII)))
    ensures !(SameName(charset, UTF_8) && SameName(charset, US_ASCII))
  {
    forall i | 0 <= i < |charset| ensures charset[i] != MARK {
    }
  }

  /** Bytes that are text in the charset. */
  predicate IsIn(charset: seq<Byte>, bytes: seq<Byte>) {
    (SameName(charset, UTF_8) && Utf8.IsUtf8(bytes)) || (SameName(charset, US_ASCII) && AllAscii(bytes)) ||
    SameName(charset, ISO_8859_1)
  }

  /** The parts of a word mean something exactly when none is missing, the text holds
      no `?`, the encoding is `B` or `Q` in either case and undoes it, and what comes
      out is text in a known charset. */
  lemma WordTextIsRead(charset: seq<Byte>, encoding: seq<Byte>, text: seq<Byte>)
    ensures WordText(charset, encoding, text).Ok? <==>
            charset != [] && |encoding| == 1 && text != [] && MARK !in text &&
            ((IsLetter(encoding[0], 66) && Base64.Decode(text).Some? && IsIn(charset, Base64.Decode(text).value)) ||
             (IsLetter(encoding[0], 81) && QDecoded(text).Some? && IsIn(charset, QDecoded(text).value)))
  {
    if SameName(charset, UTF_8) || SameName(charset, US_ASCII) || SameName(charset, ISO_8859_1) {
      CharsetsDiffer(charset);
    }
  }
}
