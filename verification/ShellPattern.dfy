/** Shell glob patterns: their tokens, what a sequence of tokens matches, and how
    the text of a pattern is read. */
module ShellPattern {
  import opened Bytes

  const MAX_PATTERN_STEPS: nat := 16 * 1024 * 1024
  const USIZE_MAX: nat := 0xFFFF_FFFF_FFFF_FFFF

  const STAR: Byte := 42
  const QUESTION: Byte := 63
  const OPEN: Byte := 91
  const BACKSLASH: Byte := 92
  const CLOSE: Byte := 93
  const BANG: Byte := 33
  const CARET: Byte := 94
  const HYPHEN: Byte := 45

  datatype Edge = Prefix | Suffix
  datatype Selection = Shortest | Longest
  datatype PatternError = TooComplex(attempted: nat)

  datatype ByteClass = ByteClass(negated: bool, ranges: seq<(Byte, Byte)>) {
    predicate Contains(b: Byte) {
      (exists i :: 0 <= i < |ranges| && ranges[i].0 <= b <= ranges[i].1) != negated
    }
  }

  datatype Token = Literal(expected: Byte) | AnyByte | AnyBytes | OneOf(members: ByteClass) {
    /** Whether this token, when it is not `*`, consumes exactly the byte `b`. */
    predicate Accepts(b: Byte) {
      match this
      case Literal(expected) => expected == b
      case AnyByte => true
      case AnyBytes => false
      case OneOf(members) => members.Contains(b)
    }
  }

  // ----- The declarative meaning of a token sequence -----

  /** The whole of `s` is matched by the whole of `tokens`. */
  ghost predicate Matches(tokens: seq<Token>, s: seq<Byte>)
    decreases |tokens|
  {
    if tokens == [] then s == []
    else if tokens[0].AnyBytes? then exists k :: 0 <= k <= |s| && Matches(tokens[1..], s[k..])
    else s != [] && tokens[0].Accepts(s[0]) && Matches(tokens[1..], s[1..])
  }

  ghost predicate MatchesAt(a: seq<Token>, b: seq<Token>, s: seq<Byte>, k: int) {
    0 <= k <= |s| && Matches(a, s[..k]) && Matches(b, s[k..])
  }

  /** Concatenated patterns match exactly the concatenations of what they match. */
  lemma {:induction false} MatchesAppend(a: seq<Token>, b: seq<Token>, s: seq<Byte>)
    ensures Matches(a + b, s) <==> exists k :: MatchesAt(a, b, s, k)
    decreases |a|
  {
    if a == [] {
      assert a + b == b && s[0..] == s;
      if Matches(b, s) {
        assert MatchesAt(a, b, s, 0);
      }
    } else {
      var ab := a + b;
      assert ab[0] == a[0] && ab[1..] == a[1..] + b;
      if a[0].AnyBytes? {
        MatchesAppendStar(a, b, s);
      } else if s != [] {
        MatchesAppend(a[1..], b, s[1..]);
        forall k | MatchesAt(a[1..], b, s[1..], k)
          ensures a[0].Accepts(s[0]) ==> MatchesAt(a, b, s, k + 1)
        {
          assert s[..k + 1][1..] == s[1..][..k] && s[1..][k..] == s[k + 1..];
        }
        forall k | MatchesAt(a, b, s, k)
          ensures MatchesAt(a[1..], b, s[1..], k - 1)
        {
          assert s[..k][1..] == s[1..][..k - 1] && s[1..][k - 1..] == s[k..];
        }
      }
    }
  }

  lemma {:induction false} MatchesAppendStar(a: seq<Token>, b: seq<Token>, s: seq<Byte>)
    requires a != [] && a[0].AnyBytes?
    ensures Matches(a + b, s) <==> exists k :: MatchesAt(a, b, s, k)
    decreases |a|, 0
  {
    assert (a + b)[1..] == a[1..] + b;
    forall m | 0 <= m <= |s| && Matches(a[1..] + b, s[m..])
      ensures exists k :: MatchesAt(a, b, s, k)
    {
      MatchesAppend(a[1..], b, s[m..]);
      var k :| MatchesAt(a[1..], b, s[m..], k);
      assert s[..m + k][m..] == s[m..][..k] && s[m..][k..] == s[m + k..];
      assert MatchesAt(a, b, s, m + k);
    }
    forall k | MatchesAt(a, b, s, k)
      ensures Matches(a + b, s)
    {
      var m :| 0 <= m <= k && Matches(a[1..], s[..k][m..]);
      assert s[..k][m..] == s[m..][..k - m] && s[m..][k - m..] == s[k..];
      MatchesAppend(a[1..], b, s[m..]);
      assert MatchesAt(a[1..], b, s[m..], k - m);
    }
  }

  /** A trailing `*` absorbs any tail. */
  lemma MatchesSnocStar(a: seq<Token>, s: seq<Byte>)
    ensures Matches(a + [AnyBytes], s) <==> exists k :: 0 <= k <= |s| && Matches(a, s[..k])
  {
    MatchesAppend(a, [AnyBytes], s);
    forall k | 0 <= k <= |s|
      ensures Matches([AnyBytes], s[k..])
    {
      assert Matches([], s[k..][|s| - k..]);
    }
    if k :| 0 <= k <= |s| && Matches(a, s[..k]) {
      assert MatchesAt(a, [AnyBytes], s, k);
    }
  }

  /** A trailing single-byte token consumes exactly the last byte. */
  lemma MatchesSnocByte(a: seq<Token>, t: Token, s: seq<Byte>)
    requires !t.AnyBytes?
    ensures Matches(a + [t], s) <==>
            s != [] && t.Accepts(s[|s| - 1]) && Matches(a, s[..|s| - 1])
  {
    MatchesAppend(a, [t], s);
    forall k | 0 <= k <= |s|
      ensures Matches([t], s[k..]) <==> k == |s| - 1 && t.Accepts(s[k])
    {
      if k < |s| {
        assert Matches([t], s[k..]) <==> t.Accepts(s[k]) && Matches([], s[k..][1..]);
      }
    }
    if s != [] && t.Accepts(s[|s| - 1]) && Matches(a, s[..|s| - 1]) {
      assert MatchesAt(a, [t], s, |s| - 1);
    }
  }

  /** Reading a pattern and a value backwards does not change the answer. */
  lemma {:induction false} MatchesReverse(tokens: seq<Token>, s: seq<Byte>)
    ensures Matches(Reverse(tokens), Reverse(s)) <==> Matches(tokens, s)
    decreases |tokens|, 1
  {
    if tokens == [] {
      assert Reverse(tokens) == [];
    } else {
      ReverseCons(tokens);
      if tokens[0].AnyBytes? {
        MatchesReverseStar(tokens, s);
      } else {
        MatchesSnocByte(Reverse(tokens[1..]), tokens[0], Reverse(s));
        if s != [] {
          ReverseCons(s);
          MatchesReverse(tokens[1..], s[1..]);
        }
      }
    }
  }

  lemma {:induction false} MatchesReverseStar(tokens: seq<Token>, s: seq<Byte>)
    requires tokens != [] && tokens[0].AnyBytes?
    ensures Matches(Reverse(tokens[1..]) + [AnyBytes], Reverse(s)) <==> Matches(tokens, s)
    decreases |tokens|, 0
  {
    var rest, rs := tokens[1..], Reverse(s);
    MatchesSnocStar(Reverse(rest), rs);
    forall k: nat | k <= |s|
      ensures Matches(Reverse(rest), rs[..|s| - k]) <==> Matches(rest, s[k..])
    {
      ReverseTake(s, |s| - k);
      MatchesReverse(rest, s[k..]);
    }
    if k :| 0 <= k <= |s| && Matches(rest, s[k..]) {
      assert Matches(Reverse(rest), rs[..|s| - k]);
    }
    if k :| 0 <= k <= |rs| && Matches(Reverse(rest), rs[..k]) {
      assert |s| - (|s| - k) == k;
      assert Matches(rest, s[|s| - k..]);
    }
  }

  // ----- Pattern text to tokens -----

  /** Bracket contents from `i` up to the closing `]`, each byte marked when it
      was escaped, with the index of that `]`; None when `]` never comes. */
  function ClassItems(p: seq<Byte>, i: nat): (r: Option<(seq<(Byte, bool)>, nat)>)
    requires i <= |p|
    ensures r.Some? ==> i <= r.value.1 < |p| && p[r.value.1] == CLOSE
    decreases |p| - i
  {
    if i == |p| then None
    else if p[i] == CLOSE then Some(([], i))
    else if p[i] == BACKSLASH && i + 1 < |p| then PutItem((p[i + 1], true), ClassItems(p, i + 2))
    else PutItem((p[i], false), ClassItems(p, i + 1))
  }

  function PutItem(item: (Byte, bool), rest: Option<(seq<(Byte, bool)>, nat)>): Option<(seq<(Byte, bool)>, nat)> {
    if rest.None? then None else Some(([item] + rest.value.0, rest.value.1))
  }

  /** Three items around an unescaped hyphen are a range; any other item is itself. */
  function ClassRanges(items: seq<(Byte, bool)>, i: nat): seq<(Byte, Byte)>
    requires i <= |items|
    decreases |items| - i
  {
    if i == |items| then []
    else if i + 2 < |items| && items[i + 1] == (HYPHEN, false) then
      [(items[i].0, items[i + 2].0)] + ClassRanges(items, i + 3)
    else [(items[i].0, items[i].0)] + ClassRanges(items, i + 1)
  }

  function ClassStart(p: seq<Byte>, i: nat): nat {
    if i < |p| && (p[i] == BANG || p[i] == CARET) then i + 1 else i
  }

  /** The class written from `i`, just after `[`, and the index just after its `]`. */
  function ParsedClass(p: seq<Byte>, i: nat): (r: Option<(ByteClass, nat)>)
    requires i <= |p|
    ensures r.Some? ==> i < r.value.1 <= |p|
  {
    var n := ClassStart(p, i);
    var closeFirst := n < |p| && p[n] == CLOSE;
    var lead: seq<(Byte, bool)> := if closeFirst then [(CLOSE, false)] else [];
    var rest := ClassItems(p, if closeFirst then n + 1 else n);
    if rest.None? then None
    else Some((ByteClass(n != i, ClassRanges(lead + rest.value.0, 0)), rest.value.1 + 1))
  }

  /** The token at `i` and the index just after it. */
  function TokenAt(p: seq<Byte>, i: nat): (r: (Token, nat))
    requires i < |p|
    ensures i < r.1 <= |p|
  {
    if p[i] == BACKSLASH then
      if i + 1 < |p| then (Literal(p[i + 1]), i + 2) else (Literal(BACKSLASH), i + 1)
    else if p[i] == STAR then (AnyBytes, i + 1)
    else if p[i] == QUESTION then (AnyByte, i + 1)
    else if p[i] == OPEN then
      var parsed := ParsedClass(p, i + 1);
      if parsed.Some? then (OneOf(parsed.value.0), parsed.value.1) else (Literal(OPEN), i + 1)
    else (Literal(p[i]), i + 1)
  }

  /** One token per pattern element from `i`, before runs of `*` are merged. */
  function Tokens(p: seq<Byte>, i: nat): seq<Token>
    requires i <= |p|
    decreases |p| - i
  {
    if i == |p| then [] else [TokenAt(p, i).0] + Tokens(p, TokenAt(p, i).1)
  }

  function PushToken(tokens: seq<Token>, t: Token): seq<Token> {
    if t.AnyBytes? && tokens != [] && tokens[|tokens| - 1].AnyBytes? then tokens else tokens + [t]
  }

  function MergeStars(tokens: seq<Token>): seq<Token> {
    if tokens == [] then [] else PushToken(MergeStars(tokens[..|tokens| - 1]), tokens[|tokens| - 1])
  }

  /** The token vector the matcher runs on. */
  function Compile(pattern: seq<Byte>): seq<Token> {
    MergeStars(Tokens(pattern, 0))
  }

  lemma {:induction false} MatchesPush(a: seq<Token>, t: Token, s: seq<Byte>)
    ensures Matches(PushToken(a, t), s) <==> Matches(a + [t], s)
  {
    if PushToken(a, t) == a {
      var b := a[..|a| - 1];
      assert a == b + [AnyBytes];
      MatchesSnocStar(a, s);
      MatchesSnocStar(b, s);
      if Matches(a, s) {
        assert s[..|s|] == s;
      }
      forall k | 0 <= k <= |s| && Matches(a, s[..k])
        ensures Matches(a, s)
      {
        MatchesSnocStar(b, s[..k]);
        var m :| 0 <= m <= k && Matches(b, s[..k][..m]);
        assert s[..k][..m] == s[..m];
      }
    }
  }

  /** Merging runs of `*` leaves the matched language unchanged. */
  lemma {:induction false} MergeStarsKeepsMeaning(tokens: seq<Token>, s: seq<Byte>)
    ensures Matches(MergeStars(tokens), s) <==> Matches(tokens, s)
    decreases |tokens|
  {
    if tokens != [] {
      var a, t := tokens[..|tokens| - 1], tokens[|tokens| - 1];
      assert tokens == a + [t];
      MatchesPush(MergeStars(a), t, s);
      if t.AnyBytes? {
        MatchesSnocStar(MergeStars(a), s);
        MatchesSnocStar(a, s);
        forall k | 0 <= k <= |s|
          ensures Matches(MergeStars(a), s[..k]) <==> Matches(a, s[..k])
        {
          MergeStarsKeepsMeaning(a, s[..k]);
        }
      } else {
        MatchesSnocByte(MergeStars(a), t, s);
        MatchesSnocByte(a, t, s);
        if s != [] {
          MergeStarsKeepsMeaning(a, s[..|s| - 1]);
        }
      }
    }
  }

  /** First loop of `parse_class`: collect bracket items up to `]`. */
  method ReadClassItems(pattern: seq<Byte>, start: nat, lead: seq<(Byte, bool)>)
    returns (bytes: seq<(Byte, bool)>, index: nat)
    requires start <= |pattern|
    ensures start <= index <= |pattern|
    ensures index == |pattern| <==> ClassItems(pattern, start).None?
    ensures index < |pattern| ==>
              ClassItems(pattern, start).value.1 == index &&
              bytes == lead + ClassItems(pattern, start).value.0
  {
    bytes, index := lead, start;
    ghost var whole := ClassItems(pattern, start);
    while index < |pattern| && pattern[index] != CLOSE
      invariant start <= index <= |pattern|
      invariant whole.None? <==> ClassItems(pattern, index).None?
      invariant whole.Some? ==>
                  whole.value.1 == ClassItems(pattern, index).value.1 &&
                  lead + whole.value.0 == bytes + ClassItems(pattern, index).value.0
    {
      var escaped := pattern[index] == BACKSLASH && index + 1 < |pattern|;
      var item := if escaped then (pattern[index + 1], true) else (pattern[index], false);
      if whole.Some? {
        MoveOne(bytes, item, ClassItems(pattern, if escaped then index + 2 else index + 1).value.0);
      }
      bytes, index := bytes + [item], if escaped then index + 2 else index + 1;
    }
  }

  /** Second loop of `parse_class`: pair up the ends of ranges. */
  method ReadClassRanges(bytes: seq<(Byte, bool)>) returns (ranges: seq<(Byte, Byte)>)
    ensures ranges == ClassRanges(bytes, 0)
  {
    ranges := [];
    var item := 0;
    while item < |bytes|
      invariant 0 <= item <= |bytes|
      invariant ClassRanges(bytes, 0) == ranges + ClassRanges(bytes, item)
    {
      var range := item + 2 < |bytes| && bytes[item + 1] == (HYPHEN, false);
      var next := if range then item + 3 else item + 1;
      var last := if range then bytes[item + 2].0 else bytes[item].0;
      MoveOne(ranges, (bytes[item].0, last), ClassRanges(bytes, next));
      ranges, item := ranges + [(bytes[item].0, last)], next;
    }
    NoneRight(ranges);
  }

  method ParseClass(pattern: seq<Byte>, start: nat) returns (r: Option<(ByteClass, nat)>)
    requires start <= |pattern|
    ensures r == ParsedClass(pattern, start)
  {
    var index := start;
    var negated := false;
    if index < |pattern| && (pattern[index] == BANG || pattern[index] == CARET) {
      negated := true;
      index := index + 1;
    }
    var lead: seq<(Byte, bool)> := [];
    if index < |pattern| && pattern[index] == CLOSE {
      lead := [(CLOSE, false)];
      index := index + 1;
    }
    var bytes, end := ReadClassItems(pattern, index, lead);
    if end == |pattern| {
      return None;
    }
    var ranges := ReadClassRanges(bytes);
    r := Some((ByteClass(negated, ranges), end + 1));
  }

  lemma MergeStarsPush(a: seq<Token>, t: Token)
    ensures MergeStars(a + [t]) == PushToken(MergeStars(a), t)
  {
    assert (a + [t])[..|a|] == a;
  }

  /** The token at `index` and where the next one starts. */
  method ReadToken(pattern: seq<Byte>, index: nat) returns (token: Token, next: nat)
    requires index < |pattern|
    ensures TokenAt(pattern, index) == (token, next)
  {
    token, next := AnyByte, index + 1;
    if pattern[index] == BACKSLASH && index + 1 < |pattern| {
      token, next := Literal(pattern[index + 1]), index + 2;
    } else if pattern[index] == STAR {
      token := AnyBytes;
    } else if pattern[index] == OPEN {
      var parsed := ParseClass(pattern, index + 1);
      if parsed.Some? {
        token, next := OneOf(parsed.value.0), parsed.value.1;
      } else {
        token := Literal(OPEN);
      }
    } else if pattern[index] != QUESTION {
      token := Literal(pattern[index]);
    }
  }

  method Tokenize(pattern: seq<Byte>) returns (tokens: seq<Token>)
    ensures tokens == Compile(pattern)
  {
    tokens := [];
    var index := 0;
    ghost var read: seq<Token> := [];
    while index < |pattern|
      invariant 0 <= index <= |pattern|
      invariant Tokens(pattern, 0) == read + Tokens(pattern, index)
      invariant tokens == MergeStars(read)
    {
      var token, next := ReadToken(pattern, index);
      MergeStarsPush(read, token);
      MoveOne(read, token, Tokens(pattern, next));
      read := read + [token];
      if !(token.AnyBytes? && tokens != [] && tokens[|tokens| - 1].AnyBytes?) {
        tokens := tokens + [token];
      }
      index := next;
    }
    NoneRight(read);
  }
}
