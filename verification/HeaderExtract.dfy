/** Extracting a field's value: unfolding, and its composition with decoding. */
module HeaderExtract {
  import opened Bytes
  import opened PhysicalLines
  import opened EncodedWord
  import opened HeaderValue
  import Base64

  datatype ExtractError = ValueTooLong | Undecodable(reason: DecodeError)

  // ----- Unfolding -----

  function StripEnding(line: seq<Byte>): (r: seq<Byte>)
    ensures |r| <= |line|
  {
    if 2 <= |line| && line[|line| - 2] == CR && line[|line| - 1] == LF then line[..|line| - 2]
    else if line != [] && line[|line| - 1] == LF then line[..|line| - 1]
    else line
  }

  function StripBlanks(line: seq<Byte>): (r: seq<Byte>)
    ensures |r| <= |line|
  {
    if line != [] && IsBlank(line[0]) then StripBlanks(line[1..]) else line
  }

  function Content(line: seq<Byte>): seq<Byte> {
    StripBlanks(StripEnding(line))
  }

  /** The contents of the lines, one space between each two of them. */
  function Unfolded(value: seq<Byte>, first: bool): seq<Byte>
    decreases |value|
  {
    if value == [] then []
    else (if first then [] else [SPACE]) + (Content(FirstLine(value)) + Unfolded(RestLines(value), false))
  }

  /** The bytes after the first colon of the first line. */
  function FieldValue(field: seq<Byte>): seq<Byte> {
    var colon := IndexOf(field, COLON, 0);
    if colon.None? || colon.value >= LineLen(field) then [] else field[colon.value + 1..]
  }

  /** `extract_value` in its decoding mode. */
  function Extracted(field: seq<Byte>): Result<seq<Byte>, ExtractError> {
    var unfolded := Unfolded(FieldValue(field), true);
    if |unfolded| > MAX_ASSIGNMENT_VALUE_LEN then Err(ValueTooLong)
    else
      match Decoded(unfolded, MAX_ASSIGNMENT_VALUE_LEN)
      case Ok(text) => Ok(text)
      case Err(reason) => Err(Undecodable(reason))
  }

  lemma UnfoldStep(value: seq<Byte>, cursor: nat, first: bool, output: seq<Byte>)
    requires cursor < |value|
    ensures var end := LineEnd(value, cursor);
            output + Unfolded(value[cursor..], first) ==
            (output + (if first then [] else [SPACE]) + Content(value[cursor..end])) + Unfolded(value[end..], false)
  {
    var rest, end := value[cursor..], LineEnd(value, cursor);
    LineLenIs(rest, end - cursor);
    assert rest[..end - cursor] == value[cursor..end] && rest[end - cursor..] == value[end..];
    var lead, content, more := if first then [] else [SPACE], Content(value[cursor..end]), Unfolded(value[end..], false);
    Assoc(output, lead, content + more);
    Assoc(output + lead, content, more);
  }

  method UnfoldValue(value: seq<Byte>) returns (r: Option<seq<Byte>>)
    ensures r == if |Unfolded(value, true)| <= MAX_ASSIGNMENT_VALUE_LEN then Some(Unfolded(value, true)) else None
  {
    var output: seq<Byte> := [];
    var cursor, first := 0, true;
    assert value[0..] == value;
    NoneLeft(Unfolded(value, true));
    while cursor < |value|
      invariant 0 <= cursor <= |value| && |output| <= MAX_ASSIGNMENT_VALUE_LEN
      invariant output + Unfolded(value[cursor..], first) == Unfolded(value, true)
    {
      UnfoldStep(value, cursor, first, output);
      var end := LineEnd(value, cursor);
      if !first {
        if |output| + 1 > MAX_ASSIGNMENT_VALUE_LEN {
          return None;
        }
        output := output + [SPACE];
      } else {
        NoneRight(output);
      }
      var content := Content(value[cursor..end]);
      if |output| + |content| > MAX_ASSIGNMENT_VALUE_LEN {
        return None;
      }
      output, cursor, first := output + content, end, false;
    }
    NoneRight(output);
    r := Some(output);
  }

  /** `extract_value` in its decoding mode. */
  method ExtractDecoded(field: seq<Byte>) returns (r: Result<seq<Byte>, ExtractError>)
    ensures r == Extracted(field)
  {
    var unfolded := UnfoldValue(FieldValue(field));
    if unfolded.None? {
      return Err(ValueTooLong);
    }
    var text := DecodeRfc2047(unfolded.value, MAX_ASSIGNMENT_VALUE_LEN);
    r := if text.Ok? then Ok(text.value) else Err(Undecodable(text.error));
  }

  // ----- Fields and lines -----

  predicate IsName(name: seq<Byte>) {
    forall i :: 0 <= i < |name| ==> name[i] != COLON && name[i] != LF
  }

  lemma CanonicalIsName(name: seq<Byte>)
    requires IsName(name)
    ensures IsName(Canonical(name)) && |Canonical(name)| == |name|
  {
    CanonicalKeepsName(name, 0, true);
    var other := Canonical(name);
    assert name[0..] == name;
    forall i | 0 <= i < |other| ensures other[i] != COLON && other[i] != LF {
      assert Uppercase(other[i]) == Uppercase(name[i]);
    }
  }

  lemma NameEnds(name: seq<Byte>, tail: seq<Byte>)
    requires IsName(name)
    ensures FieldValue(name + [COLON] + tail) == tail
  {
    var field := name + [COLON] + tail;
    IndexIs(field, COLON, 0, |name|);
    assert forall j :: 0 <= j <= |name| ==> field[j] != LF;
  }

  /** A field whose first line has no colon has no value. */
  lemma FieldWithoutColon(line: seq<Byte>, more: seq<Byte>)
    requires IsLine(line) && EndsLine(line) && COLON !in line
    ensures FieldValue(line + more) == []
  {
    var field := line + more;
    FirstLineIs(line, more);
    forall i | 0 <= i < |line| ensures field[i] != COLON {
      assert field[i] == line[i] && line[i] in line;
    }
  }

  lemma ValueOfField(name: seq<Byte>, tail: seq<Byte>)
    requires IsName(name)
    ensures FieldValue(Canonical(name) + [COLON] + tail) == tail
  {
    CanonicalIsName(name);
    NameEnds(Canonical(name), tail);
  }

  /** Neither an ending nor, at its end, half of one. */
  predicate IsBare(s: seq<Byte>) {
    (forall i :: 0 <= i < |s| ==> s[i] != LF) && (s != [] ==> s[|s| - 1] != CR)
  }

  lemma StripAddedEnding(s: seq<Byte>, ending: seq<Byte>)
    requires IsBare(s) && IsEnding(ending)
    ensures StripEnding(s + ending) == s && IsLine(s + ending) && EndsLine(s + ending)
  {
    var line := s + ending;
    assert line[..|s|] == s;
  }

  /** A word that a line can carry after one blank. */
  predicate IsCarried(word: seq<Byte>) {
    IsBare([SPACE] + word) && StripBlanks([SPACE] + word) == word
  }

  ghost predicate AreCarried(words: seq<seq<Byte>>) {
    forall i :: 0 <= i < |words| ==> IsCarried(words[i])
  }

  lemma WordsAreCarried(chunks: seq<seq<Byte>>)
    ensures AreCarried(Words(chunks))
  {
    forall i | 0 <= i < |chunks| ensures IsCarried(Word(chunks[i])) {
      WordIsBare(chunks[i]);
    }
  }

  lemma WordIsBare(chunk: seq<Byte>)
    ensures IsCarried(Word(chunk))
  {
    var letters := Base64Letters(chunk);
    var word := Word(chunk);
    assert word[0] == EQUALS && word[|word| - 1] == EQUALS;
    assert ([SPACE] + word)[1..] == word;
    assert forall i :: 0 <= i < |word| ==> word[i] != LF;
  }

  lemma Base64Letters(chunk: seq<Byte>) returns (letters: seq<Byte>)
    ensures letters == Base64.Encode(chunk)
    ensures forall i :: 0 <= i < |letters| ==> letters[i] != LF && letters[i] != MARK
  {
    letters := Base64.Encode(chunk);
    Base64.EncodeLetters(chunk);
    forall i | 0 <= i < |letters| ensures letters[i] != LF && letters[i] != MARK {
      assert Base64.IsLetter(letters[i]);
    }
  }

  lemma WordLineContent(word: seq<Byte>, ending: seq<Byte>)
    requires IsEnding(ending) && IsCarried(word)
    ensures var line := WordLine(word, ending);
            IsLine(line) && EndsLine(line) && Content(line) == word
  {
    StripAddedEnding([SPACE] + word, ending);
  }

  // ----- Unfolding a serialized value -----

  /** The words from `i` on, one space before each. */
  function Spaced(words: seq<seq<Byte>>, i: nat): seq<Byte>
    requires i <= |words|
    decreases |words| - i
  {
    if i == |words| then [] else [SPACE] + (words[i] + Spaced(words, i + 1))
  }

  /** The lines the words are carried on. */
  function WordLineList(words: seq<seq<Byte>>, ending: seq<Byte>): (lines: seq<seq<Byte>>)
    ensures |lines| == |words| && forall k :: 0 <= k < |lines| ==> lines[k] == WordLine(words[k], ending)
  {
    seq(|words|, k requires 0 <= k < |words| => WordLine(words[k], ending))
  }

  lemma {:induction false} WordLinesJoined(words: seq<seq<Byte>>, i: nat, ending: seq<Byte>)
    requires i <= |words|
    ensures WordLines(words, i, ending) == JoinedFrom(WordLineList(words, ending), i)
    decreases |words| - i
  {
    if i < |words| {
      WordLinesJoined(words, i + 1, ending);
    }
  }

  lemma CarriedLines(words: seq<seq<Byte>>, ending: seq<Byte>)
    requires IsEnding(ending) && AreCarried(words)
    ensures var lines := WordLineList(words, ending);
            Finished(lines) && forall k :: 0 <= k < |lines| ==> Content(lines[k]) == words[k]
  {
    forall k | 0 <= k < |words|
      ensures var line := WordLine(words[k], ending); IsLine(line) && EndsLine(line) && Content(line) == words[k]
    {
      WordLineContent(words[k], ending);
    }
  }

  /** `unfold` gives a line's content after a space, then the rest. */
  ghost predicate Unfolds(unfold: seq<Byte> -> seq<Byte>, lines: seq<seq<Byte>>, contents: seq<seq<Byte>>) {
    |lines| == |contents| && unfold([]) == [] &&
    forall k, rest {:trigger unfold(lines[k] + rest)} :: 0 <= k < |lines| ==>
      unfold(lines[k] + rest) == [SPACE] + (contents[k] + unfold(rest))
  }

  lemma {:induction false} SpacedBy(unfold: seq<Byte> -> seq<Byte>, lines: seq<seq<Byte>>, contents: seq<seq<Byte>>, i: nat)
    requires Unfolds(unfold, lines, contents) && i <= |lines|
    ensures unfold(JoinedFrom(lines, i)) == Spaced(contents, i)
    decreases |lines| - i
  {
    if i < |lines| {
      SpacedBy(unfold, lines, contents, i + 1);
    }
  }

  /** Finished lines unfold to their contents, one space before each. */
  lemma UnfoldLines(lines: seq<seq<Byte>>, contents: seq<seq<Byte>>, i: nat)
    requires Finished(lines) && |contents| == |lines| && i <= |lines|
    requires forall k :: 0 <= k < |lines| ==> Content(lines[k]) == contents[k]
    ensures Unfolded(JoinedFrom(lines, i), false) == Spaced(contents, i)
  {
    var unfold := s => Unfolded(s, false);
    forall k, rest | 0 <= k < |lines| ensures unfold(lines[k] + rest) == [SPACE] + (contents[k] + unfold(rest)) {
      UnfoldLine(lines[k], rest, false);
    }
    SpacedBy(unfold, lines, contents, i);
  }

  lemma UnfoldLine(line: seq<Byte>, rest: seq<Byte>, first: bool)
    requires IsLine(line) && EndsLine(line)
    ensures Unfolded(line + rest, first) == (if first then [] else [SPACE]) + (Content(line) + Unfolded(rest, false))
  {
    FirstLineIs(line, rest);
  }

  lemma UnfoldWordLines(words: seq<seq<Byte>>, i: nat, ending: seq<Byte>)
    requires i <= |words| && IsEnding(ending) && AreCarried(words)
    ensures Unfolded(WordLines(words, i, ending), false) == Spaced(words, i)
  {
    CarriedLines(words, ending);
    WordLinesJoined(words, i, ending);
    UnfoldLines(WordLineList(words, ending), words, i);
  }

  lemma UnfoldEmptyLine(ending: seq<Byte>, rest: seq<Byte>)
    requires IsEnding(ending)
    ensures Unfolded(ending + rest, true) == Unfolded(rest, false)
  {
    StripAddedEnding([], ending);
    NoneLeft(ending);
    FirstLineIs(ending, rest);
    NoneLeft(Unfolded(rest, false));
    assert Content(ending) == [];
  }

  lemma UnfoldFromName(words: seq<seq<Byte>>, ending: seq<Byte>)
    requires IsEnding(ending) && words != [] && AreCarried(words)
    ensures Unfolded(WordLines(words, 0, ending), true) == words[0] + Spaced(words, 1)
  {
    WordLineContent(words[0], ending);
    UnfoldLine(WordLine(words[0], ending), WordLines(words, 1, ending), true);
    UnfoldWordLines(words, 1, ending);
    NoneLeft(words[0] + Spaced(words, 1));
  }

  /** What a serialized value unfolds to. */
  lemma UnfoldEncoded(name: seq<Byte>, words: seq<seq<Byte>>, ending: seq<Byte>)
    requires IsEnding(ending) && words != [] && AreCarried(words)
    ensures Unfolded(EncodedTail(name, words, ending), true) ==
            (if FitsFirstLine(name, words) then [] else [SPACE]) + (words[0] + Spaced(words, 1))
  {
    var lines := WordLines(words, 0, ending);
    if FitsFirstLine(name, words) {
      NoneLeft(lines);
      UnfoldFromName(words, ending);
      NoneLeft(words[0] + Spaced(words, 1));
    } else {
      UnfoldEmptyLine(ending, lines);
      UnfoldWordLines(words, 0, ending);
    }
  }
}
