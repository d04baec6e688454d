/** Laws of pattern text: what single elements match, and elements side by side. */
module ShellGlobLaws {
  import opened Bytes
  import opened ShellPattern
  import opened ShellGlob

  lemma {:induction false} WrittenTogether(a: seq<Element>, b: seq<Element>)
    ensures WrittenAll(a + b) == WrittenAll(a) + WrittenAll(b)
    decreases |a|
  {
    if a == [] {
      NoneLeft(b);
      NoneLeft(WrittenAll(b));
    } else {
      assert (a + b)[1..] == a[1..] + b;
      WrittenTogether(a[1..], b);
      Assoc(Written(a[0]), WrittenAll(a[1..]), WrittenAll(b));
    }
  }

  ghost predicate MeansAt(a: seq<Element>, b: seq<Element>, s: seq<Byte>, k: nat) {
    k <= |s| && Means(a, s[..k]) && Means(b, s[k..])
  }

  lemma {:induction false} TokensTogether(a: seq<Element>, b: seq<Element>)
    ensures TokensOf(a + b) == TokensOf(a) + TokensOf(b)
    decreases |a|
  {
    if a == [] {
      NoneLeft(b);
      NoneLeft(TokensOf(b));
    } else {
      assert (a + b)[1..] == a[1..] + b;
      TokensTogether(a[1..], b);
      Assoc([TokenOf(a[0])], TokensOf(a[1..]), TokensOf(b));
    }
  }

  lemma MeansTogether(a: seq<Element>, b: seq<Element>, s: seq<Byte>)
    ensures Means(a + b, s) <==> exists k :: MeansAt(a, b, s, k)
  {
    TokensTogether(a, b);
    TokensMean(a + b, s);
    MatchesAppend(TokensOf(a), TokensOf(b), s);
    forall k: int | 0 <= k <= |s| ensures MatchesAt(TokensOf(a), TokensOf(b), s, k) <==> MeansAt(a, b, s, k) {
      TokensMean(a, s[..k]);
      TokensMean(b, s[k..]);
    }
    if k :| MatchesAt(TokensOf(a), TokensOf(b), s, k) {
      assert MeansAt(a, b, s, k);
    }
    if k: nat :| MeansAt(a, b, s, k) {
      assert MatchesAt(TokensOf(a), TokensOf(b), s, k);
    }
  }

  lemma MeansOne(e: Element, s: seq<Byte>)
    ensures Means([e], s) <==> StandsFor(e, s)
  {
    var es := [e];
    assert es[1..] == [];
    assert s[..|s|] == s && s[|s|..] == [];
    if Means(es, s) {
      var k :| 0 <= k <= |s| && StandsFor(es[0], s[..k]) && Means(es[1..], s[k..]);
      assert |s[k..]| == 0;
    }
  }

  /** A pattern of one element. */
  lemma ElementAlone(e: Element, s: seq<Byte>)
    requires MayStand(e, [])
    ensures Matches(Compile(Written(e)), s) <==> StandsFor(e, s)
  {
    var es := [e];
    assert es[1..] == [] && WrittenAll(es[1..]) == [] && AreElements(es[1..]);
    assert MayStand(es[0], WrittenAll(es[1..]));
    assert WrittenAll(es) == Written(e) + [] == Written(e);
    PatternMeans(es, s);
    MeansOne(e, s);
  }

  /** `*` alone matches everything, `?` alone every single byte, and an ordinary
      byte itself. */
  lemma SingleByteAlone(b: Byte, s: seq<Byte>)
    requires b != OPEN && b != BACKSLASH
    ensures Matches(Compile([b]), s) <==> b == STAR || (|s| == 1 && (b == QUESTION || s == [b]))
  {
    ElementAlone(if b == STAR then Star else if b == QUESTION then Question else Ordinary(b), s);
  }

  predicate IsWildcard(e: Element) {
    e.Star? || e.Question?
  }

  /** `*` takes the bytes from `i` to `j`, however many, and `?` takes one. */
  predicate Takes(e: Element, i: nat, j: nat) {
    i <= j && (e.Question? ==> j == i + 1)
  }

  ghost predicate WildcardAt(a: seq<Element>, e: Element, s: seq<Byte>, i: nat, j: nat) {
    Takes(e, i, j) && j <= |s| && Means(a, s[..i])
  }

  lemma EndsInWildcard(a: seq<Element>, e: Element, s: seq<Byte>, j: nat)
    requires IsWildcard(e) && j <= |s|
    ensures Means(a + [e], s[..j]) <==> exists i: nat :: WildcardAt(a, e, s, i, j)
  {
    MeansTogether(a, [e], s[..j]);
    forall i: nat | i <= j ensures MeansAt(a, [e], s[..j], i) <==> WildcardAt(a, e, s, i, j) {
      assert s[..j][..i] == s[..i];
      MeansOne(e, s[..j][i..]);
    }
    if i: nat :| MeansAt(a, [e], s[..j], i) {
      assert WildcardAt(a, e, s, i, j);
    }
    if i: nat :| WildcardAt(a, e, s, i, j) {
      assert MeansAt(a, [e], s[..j], i);
    }
  }

  ghost predicate Between(a: seq<Element>, e: Element, b: seq<Element>, s: seq<Byte>, i: nat, j: nat) {
    Takes(e, i, j) && j <= |s| && Means(a, s[..i]) && Means(b, s[j..])
  }

  lemma MeansBetween(a: seq<Element>, e: Element, b: seq<Element>, s: seq<Byte>)
    requires IsWildcard(e)
    ensures Means(a + [e] + b, s) <==> exists i: nat, j: nat :: Between(a, e, b, s, i, j)
  {
    MeansTogether(a + [e], b, s);
    if j: nat :| MeansAt(a + [e], b, s, j) {
      EndsInWildcard(a, e, s, j);
      var i: nat :| WildcardAt(a, e, s, i, j);
      assert Between(a, e, b, s, i, j);
    }
    if i: nat, j: nat :| Between(a, e, b, s, i, j) {
      EndsInWildcard(a, e, s, j);
      assert WildcardAt(a, e, s, i, j);
      assert MeansAt(a + [e], b, s, j);
    }
  }

  /** Between other elements, a string matches if it starts with what is before and
      ends with what is after, with any bytes (`*`) or one byte (`?`) between them. */
  lemma WildcardBetween(a: seq<Element>, e: Element, b: seq<Element>, s: seq<Byte>)
    requires IsWildcard(e) && AreElements(a + [e] + b)
    ensures Matches(Compile(WrittenAll(a) + Written(e) + WrittenAll(b)), s) <==>
            exists i: nat, j: nat :: Between(a, e, b, s, i, j)
  {
    WrittenTogether(a + [e], b);
    WrittenTogether(a, [e]);
    var one := [e];
    assert one[1..] == [];
    assert WrittenAll(one) == Written(e) + [] == Written(e);
    PatternMeans(a + [e] + b, s);
    MeansBetween(a, e, b, s);
  }

  /** `[x-y]` matches the bytes from `x` to `y`, and `[!x-y]` or `[^x-y]` the others. */
  lemma RangeAlone(mark: seq<Byte>, x: Byte, y: Byte, s: seq<Byte>)
    requires mark == [] || mark == [BANG] || mark == [CARET]
    requires x != BACKSLASH && (mark == [] ==> x != BANG && x != CARET) && y != BACKSLASH && y != CLOSE
    ensures Matches(Compile([OPEN] + mark + [x, HYPHEN, y, CLOSE]), s) <==>
            |s| == 1 && (x <= s[0] <= y <==> mark == [])
  {
    var range := Range((x, false), (y, false));
    var members := [range];
    var items := range.Items();
    assert members[1..] == [];
    assert ItemsOf(members) == items + [] == items;
    var tail: seq<Item> := items[1..];
    var last: seq<Item> := tail[1..];
    assert last == [(y, false)] && last[1..] == [];
    assert WrittenItems(last) == [y] + [];
    assert WrittenItems(tail) == [HYPHEN] + [y];
    assert WrittenItems(items) == [x, HYPHEN, y];
    var e := Class(mark, members);
    assert Written(e) == [OPEN] + mark + [x, HYPHEN, y, CLOSE];
    ElementAlone(e, s);
    if s != [] {
      assert Listed(members, s[0]) <==> members[0].Has(s[0]);
    }
  }
}
