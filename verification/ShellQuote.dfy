/** Quoting a value so that, as a pattern, it stands for itself. */
module ShellQuote {
  import opened Bytes
  import opened ShellPattern

  predicate NeedsQuote(b: Byte) {
    b == STAR || b == QUESTION || b == OPEN || b == BACKSLASH
  }

  function QuoteByte(b: Byte): seq<Byte> {
    if NeedsQuote(b) then [BACKSLASH, b] else [b]
  }

  /** The quoted form of the first `k` bytes. */
  function QuotedTo(bytes: seq<Byte>, k: nat): seq<Byte>
    requires k <= |bytes|
  {
    if k == 0 then [] else QuotedTo(bytes, k - 1) + QuoteByte(bytes[k - 1])
  }

  /** A pattern that stands for `bytes` literally. */
  function Quoted(bytes: seq<Byte>): seq<Byte> {
    QuotedTo(bytes, |bytes|)
  }

  function Literals(bytes: seq<Byte>, k: nat): seq<Token>
    requires k <= |bytes|
  {
    seq(k, i requires 0 <= i < k => Literal(bytes[i]))
  }

  predicate Holds(p: seq<Byte>, m: nat, part: seq<Byte>) {
    m + |part| <= |p| && forall i :: 0 <= i < |part| ==> part[i] == p[m + i]
  }

  lemma HoldsParts(p: seq<Byte>, m: nat, a: seq<Byte>, b: seq<Byte>)
    requires Holds(p, m, a + b)
    ensures Holds(p, m, a) && Holds(p, m + |a|, b)
  {
    forall i | 0 <= i < |a|
      ensures a[i] == p[m + i]
    {
      assert (a + b)[i] == a[i];
    }
    forall i | 0 <= i < |b|
      ensures b[i] == p[m + |a| + i]
    {
      assert (a + b)[|a| + i] == b[i];
    }
  }

  lemma QuoteByteToken(p: seq<Byte>, m: nat, b: Byte)
    requires Holds(p, m, QuoteByte(b))
    ensures TokenAt(p, m) == (Literal(b), m + |QuoteByte(b)|)
  {
    assert QuoteByte(b)[0] == p[m];
    if NeedsQuote(b) {
      assert QuoteByte(b)[1] == p[m + 1];
    }
  }

  lemma LiteralsSnoc(bytes: seq<Byte>, k: nat)
    requires k < |bytes|
    ensures Literals(bytes, k + 1) == Literals(bytes, k) + [Literal(bytes[k])]
  {
  }

  /** `read` gives the tokens from an index on, and reads a quoted byte as a literal. */
  ghost predicate ReadsQuoted(p: seq<Byte>, read: nat -> seq<Token>) {
    forall n: nat, b: Byte {:trigger Holds(p, n, QuoteByte(b))} :: Holds(p, n, QuoteByte(b)) ==>
      read(n) == [Literal(b)] + read(n + |QuoteByte(b)|)
  }

  lemma {:induction false} QuotedRun(p: seq<Byte>, read: nat -> seq<Token>, m: nat, bytes: seq<Byte>, k: nat)
    requires ReadsQuoted(p, read) && k <= |bytes| && Holds(p, m, QuotedTo(bytes, k))
    ensures read(m) == Literals(bytes, k) + read(m + |QuotedTo(bytes, k)|)
    decreases k
  {
    if k == 0 {
      NoneLeft(read(m));
    } else {
      var before, b := QuotedTo(bytes, k - 1), bytes[k - 1];
      var n := m + |before|;
      HoldsParts(p, m, before, QuoteByte(b));
      QuotedRun(p, read, m, bytes, k - 1);
      LiteralsSnoc(bytes, k - 1);
      MoveOne(Literals(bytes, k - 1), Literal(b), read(n + |QuoteByte(b)|));
    }
  }

  /** Wherever a quoted run starts at a token boundary of a pattern, it reads as
      the literal bytes, and the next token starts right after it. */
  lemma QuotedTokensAt(p: seq<Byte>, m: nat, bytes: seq<Byte>, k: nat)
    requires k <= |bytes| && Holds(p, m, QuotedTo(bytes, k))
    ensures Tokens(p, m) == Literals(bytes, k) + Tokens(p, m + |QuotedTo(bytes, k)|)
  {
    var read := TokenReader(p);
    QuotedRun(p, read, m, bytes, k);
  }

  lemma TokenReader(p: seq<Byte>) returns (read: nat -> seq<Token>)
    ensures ReadsQuoted(p, read) && forall n: nat :: n <= |p| ==> read(n) == Tokens(p, n)
  {
    read := (n: nat) => if n <= |p| then Tokens(p, n) else [];
    forall n: nat, b: Byte | Holds(p, n, QuoteByte(b))
      ensures read(n) == [Literal(b)] + read(n + |QuoteByte(b)|)
    {
      QuoteByteToken(p, n, b);
    }
  }

  lemma {:induction false} LiteralsMatch(bytes: seq<Byte>, k: nat, s: seq<Byte>)
    requires k <= |bytes|
    ensures Matches(Literals(bytes, k), s) <==> s == bytes[..k]
    decreases k
  {
    if 0 < k {
      LiteralsSnoc(bytes, k - 1);
      MatchesSnocByte(Literals(bytes, k - 1), Literal(bytes[k - 1]), s);
      TakeNext(bytes, k - 1);
      if s != [] {
        LiteralsMatch(bytes, k - 1, s[..|s| - 1]);
        TakeNext(s, |s| - 1);
        TakeAll(s);
      }
    }
  }

  /** A quoted value, used as a pattern, matches that value and nothing else. */
  lemma QuotedMatchesItself(bytes: seq<Byte>, s: seq<Byte>)
    ensures Matches(Compile(Quoted(bytes)), s) <==> s == bytes
  {
    QuotedTokensAt(Quoted(bytes), 0, bytes, |bytes|);
    NoneRight(Literals(bytes, |bytes|));
    MergeStarsKeepsMeaning(Tokens(Quoted(bytes), 0), s);
    LiteralsMatch(bytes, |bytes|, s);
    TakeAll(bytes);
  }
}
