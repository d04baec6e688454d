/** What the value transforms write, in terms of the value and of what the
    pattern text matches. */
module ShellTransforms {
  import opened Bytes
  import opened ShellExpression
  import opened ShellEval
  import opened ShellPattern
  import opened ShellGlob
  import opened ShellGlobLaws
  import ShellRemoval

  // ----- Short patterns are never too complex -----

  lemma {:induction false} RangesAreFew(items: seq<(Byte, bool)>, i: nat)
    requires i <= |items|
    ensures |ClassRanges(items, i)| <= |items| - i
    decreases |items| - i
  {
    if i < |items| {
      RangesAreFew(items, if i + 2 < |items| && items[i + 1] == (HYPHEN, false) then i + 3 else i + 1);
    }
  }

  lemma {:induction false} ItemsAreFew(p: seq<Byte>, i: nat)
    requires i <= |p| && ClassItems(p, i).Some?
    ensures |ClassItems(p, i).value.0| <= ClassItems(p, i).value.1 - i
    decreases |p| - i
  {
    if p[i] != CLOSE {
      ItemsAreFew(p, if p[i] == BACKSLASH && i + 1 < |p| then i + 2 else i + 1);
    }
  }

  lemma ClassIsCheap(p: seq<Byte>, i: nat)
    requires i <= |p| && ParsedClass(p, i).Some?
    ensures |ParsedClass(p, i).value.0.ranges| <= ParsedClass(p, i).value.1 - i
  {
    var n := ClassStart(p, i);
    var closeFirst := n < |p| && p[n] == CLOSE;
    var start := if closeFirst then n + 1 else n;
    var lead: seq<(Byte, bool)> := if closeFirst then [(CLOSE, false)] else [];
    ItemsAreFew(p, start);
    RangesAreFew(lead + ClassItems(p, start).value.0, 0);
  }

  lemma TokenIsCheap(p: seq<Byte>, i: nat)
    requires i < |p|
    ensures ShellRemoval.TokenCost(TokenAt(p, i).0) <= TokenAt(p, i).1 - i
  {
    if p[i] == OPEN && ParsedClass(p, i + 1).Some? {
      ClassIsCheap(p, i + 1);
    }
  }

  lemma {:induction false} TokensAreCheap(p: seq<Byte>, i: nat)
    requires i <= |p|
    ensures ShellRemoval.TransitionCost(Tokens(p, i)) <= |p| - i
    decreases |p| - i
  {
    if i < |p| {
      var (t, next) := TokenAt(p, i);
      TokenIsCheap(p, i);
      TokensAreCheap(p, next);
      ShellRemoval.CostPrepend(t, Tokens(p, next));
    }
  }

  lemma {:induction false} MergingIsCheap(tokens: seq<Token>)
    ensures ShellRemoval.TransitionCost(MergeStars(tokens)) <= ShellRemoval.TransitionCost(tokens)
    decreases |tokens|
  {
    if tokens != [] {
      var init, last := tokens[..|tokens| - 1], tokens[|tokens| - 1];
      MergingIsCheap(init);
      var merged := MergeStars(init);
      assert (merged + [last])[..|merged|] == merged;
    }
  }

  /** The steps charged for a pattern are at most one for each of its bytes. */
  lemma StepsAreFew(candidates: nat, inputLen: nat, pattern: seq<Byte>)
    requires candidates * (inputLen + 1) * Max(|pattern|, 1) <= MAX_PATTERN_STEPS
    ensures ShellRemoval.WithinSteps(candidates, inputLen, Compile(pattern))
  {
    TokensAreCheap(pattern, 0);
    MergingIsCheap(Tokens(pattern, 0));
    var each, cost := candidates * (inputLen + 1), Max(ShellRemoval.TransitionCost(Compile(pattern)), 1);
    ShellRemoval.TimesIs(candidates, inputLen + 1);
    ShellRemoval.TimesIs(each, cost);
    Fewer(each, cost, Max(|pattern|, 1));
  }

  lemma Fewer(a: nat, b: nat, c: nat)
    requires b <= c
    ensures a * b <= a * c
  {
  }

  // ----- What is written -----

  /** The first `k` bytes of the value match the pattern. */
  ghost predicate Starts(pattern: seq<Byte>, value: seq<Byte>, k: nat) {
    k <= |value| && Matches(Compile(pattern), value[..k])
  }

  /** The bytes from `k` on do. */
  ghost predicate Ends(pattern: seq<Byte>, value: seq<Byte>, k: nat) {
    k <= |value| && Matches(Compile(pattern), value[k..])
  }

  lemma RemovalFits(value: seq<Byte>, pattern: seq<Byte>)
    ensures (|value| + 1) * Max(|pattern|, 1) <= MAX_PATTERN_STEPS ==> ShellRemoval.WithinSteps(1, |value|, Compile(pattern))
  {
    if (|value| + 1) * Max(|pattern|, 1) <= MAX_PATTERN_STEPS {
      StepsAreFew(1, |value|, pattern);
    }
  }

  lemma CaseChangeFits(value: seq<Byte>, all: bool, pattern: seq<Byte>)
    requires |value| * 2 * Max(|pattern|, 1) <= MAX_PATTERN_STEPS
    ensures ShellRemoval.WithinSteps(if all then |value| else if value == [] then 0 else 1, 1,
                                     Compile(ShellRemoval.EffectivePattern(pattern)))
  {
    var effective := ShellRemoval.EffectivePattern(pattern);
    var candidates: nat := if all then |value| else if value == [] then 0 else 1;
    Fewer(Max(|pattern|, 1), candidates * 2, |value| * 2);
    StepsAreFew(candidates, 1, effective);
  }

  /** `#` takes away the shortest matching start and `##` the longest; a value of
      which no start matches is left alone. Only long values and patterns fail. */
  lemma PrefixRemovalWrites(word: Expression, longest: bool, value: seq<Byte>, pattern: seq<Byte>)
    ensures match Transform(RemovePrefix(word, longest), value, pattern)
            case Err(e) => e.Pattern? && (|value| + 1) * Max(|pattern|, 1) > MAX_PATTERN_STEPS
            case Ok(r) =>
              if forall k: nat :: !Starts(pattern, value, k) then r == value
              else |r| <= |value| &&
                   var cut := |value| - |r|;
                   r == value[cut..] && Starts(pattern, value, cut) &&
                   forall k: nat :: Starts(pattern, value, k) ==> if longest then k <= cut else cut <= k
  {
    RemovalFits(value, pattern);
    var tokens, selection := Tokens(pattern, 0), SelectionOf(longest);
    forall k: nat | k <= |value|
      ensures Matches(tokens, ShellRemoval.EdgePart(value, Prefix, k)) <==> Starts(pattern, value, k)
    {
      MergeStarsKeepsMeaning(tokens, value[..k]);
    }
    var cut := ShellRemoval.Cut(tokens, value, Prefix, selection);
    assert ShellRemoval.IsCut(tokens, value, Prefix, selection, cut);
    if cut.Some? {
      assert Starts(pattern, value, cut.value);
    }
  }

  lemma EndsIsEdge(pattern: seq<Byte>, value: seq<Byte>, k: nat)
    requires k <= |value|
    ensures Ends(pattern, value, k) <==> Matches(Tokens(pattern, 0), ShellRemoval.EdgePart(value, Suffix, |value| - k))
  {
    MergeStarsKeepsMeaning(Tokens(pattern, 0), value[k..]);
  }

  /** Where the end that is cut off starts. */
  lemma SuffixCut(pattern: seq<Byte>, value: seq<Byte>, longest: bool) returns (at: Option<nat>)
    ensures var cut := ShellRemoval.Cut(Tokens(pattern, 0), value, Suffix, SelectionOf(longest));
            if cut.None? then at.None? else cut.value <= |value| && at == Some(|value| - cut.value)
    ensures at.None? ==> forall k: nat :: !Ends(pattern, value, k)
    ensures at.Some? ==> Ends(pattern, value, at.value) &&
                         forall k: nat :: Ends(pattern, value, k) ==> if longest then at.value <= k else k <= at.value
  {
    var tokens, selection := Tokens(pattern, 0), SelectionOf(longest);
    var cut := ShellRemoval.Cut(tokens, value, Suffix, selection);
    assert ShellRemoval.IsCut(tokens, value, Suffix, selection, cut);
    at := if cut.None? then None else Some(|value| - cut.value);
    if at.Some? {
      EndsIsEdge(pattern, value, at.value);
    }
    forall k: nat | Ends(pattern, value, k)
      ensures at.Some? && if longest then at.value <= k else k <= at.value
    {
      EndsIsEdge(pattern, value, k);
    }
  }

  /** `%` takes away the shortest matching end and `%%` the longest. */
  lemma SuffixRemovalWrites(word: Expression, longest: bool, value: seq<Byte>, pattern: seq<Byte>)
    ensures match Transform(RemoveSuffix(word, longest), value, pattern)
            case Err(e) => e.Pattern? && (|value| + 1) * Max(|pattern|, 1) > MAX_PATTERN_STEPS
            case Ok(r) =>
              if forall k: nat :: !Ends(pattern, value, k) then r == value
              else |r| <= |value| && r == value[..|r|] && Ends(pattern, value, |r|) &&
                   forall k: nat :: Ends(pattern, value, k) ==> if longest then |r| <= k else k <= |r|
  {
    RemovalFits(value, pattern);
    var at := SuffixCut(pattern, value, longest);
    var r := Transform(RemoveSuffix(word, longest), value, pattern);
    if r.Ok? {
      assert r.value == if at.None? then value else value[..at.value];
    }
  }

  /** `^` and `^^` turn small letters that match into capitals, `,` and `,,` capitals
      into small letters; the single forms look at the first byte alone. An empty
      pattern matches every byte. */
  lemma CaseChangeWrites(word: Expression, direction: CaseDirection, all: bool, value: seq<Byte>, pattern: seq<Byte>)
    ensures match Transform(ChangeCase(word, direction, all), value, pattern)
            case Err(e) => e.Pattern? && |value| * 2 * Max(|pattern|, 1) > MAX_PATTERN_STEPS
            case Ok(r) =>
              |r| == |value| &&
              forall i :: 0 <= i < |value| ==>
                var first := if direction.Upper? then 97 else 65;
                var change := first <= value[i] < first + 26 && (all || i == 0) &&
                              (pattern == [] || Matches(Compile(pattern), [value[i]]));
                r[i] == if !change then value[i] else if direction.Upper? then value[i] - 32 else value[i] + 32
  {
    if |value| * 2 * Max(|pattern|, 1) <= MAX_PATTERN_STEPS {
      CaseChangeFits(value, all, pattern);
    }
    var effective := ShellRemoval.EffectivePattern(pattern);
    forall i | 0 <= i < |value|
      ensures Matches(Tokens(effective, 0), [value[i]]) <==> pattern == [] || Matches(Compile(pattern), [value[i]])
    {
      MergeStarsKeepsMeaning(Tokens(effective, 0), [value[i]]);
      SingleByteAlone(QUESTION, [value[i]]);
    }
  }

  // ----- The usual cuts -----

  predicate IsOrdinary(c: Byte) {
    c != STAR && c != QUESTION && c != OPEN && c != BACKSLASH
  }

  lemma PairMeans(e: Element, f: Element, s: seq<Byte>)
    ensures Means([e, f], s) <==> exists k: nat :: k <= |s| && StandsFor(e, s[..k]) && StandsFor(f, s[k..])
  {
    assert [e] + [f] == [e, f];
    MeansTogether([e], [f], s);
    forall k: nat | k <= |s| ensures MeansAt([e], [f], s, k) <==> StandsFor(e, s[..k]) && StandsFor(f, s[k..]) {
      MeansOne(e, s[..k]);
      MeansOne(f, s[k..]);
    }
    if k: nat :| MeansAt([e], [f], s, k) {
      assert StandsFor(e, s[..k]) && StandsFor(f, s[k..]);
    }
    if k: nat :| k <= |s| && StandsFor(e, s[..k]) && StandsFor(f, s[k..]) {
      assert MeansAt([e], [f], s, k);
    }
  }

  /** A pattern of two elements, neither of them in brackets. */
  lemma PairMatches(e: Element, f: Element, s: seq<Byte>)
    requires (e.Star? || (e.Ordinary? && IsOrdinary(e.byte))) && (f.Star? || (f.Ordinary? && IsOrdinary(f.byte)))
    ensures Matches(Compile(Written(e) + Written(f)), s) <==>
            exists k: nat :: k <= |s| && StandsFor(e, s[..k]) && StandsFor(f, s[k..])
  {
    var es: seq<Element> := [e, f];
    var last: seq<Element> := es[1..];
    assert last == [f] && last[1..] == [];
    assert WrittenAll(last) == Written(f) + [] == Written(f);
    assert MayStand(f, WrittenAll(last[1..])) && AreElements(last);
    assert MayStand(e, WrittenAll(last)) && AreElements(es);
    PatternMeans(es, s);
    PairMeans(e, f, s);
  }

  /** `*c` matches what ends in `c`. */
  lemma EndsInByte(c: Byte, s: seq<Byte>)
    requires IsOrdinary(c)
    ensures Matches(Compile([STAR, c]), s) <==> s != [] && s[|s| - 1] == c
  {
    PairMatches(Star, Ordinary(c), s);
    assert Written(Star) + Written(Ordinary(c)) == [STAR, c];
    if s != [] && s[|s| - 1] == c {
      assert StandsFor(Star, s[..|s| - 1]) && StandsFor(Ordinary(c), s[|s| - 1..]);
    }
    if k: nat :| k <= |s| && StandsFor(Star, s[..k]) && StandsFor(Ordinary(c), s[k..]) {
      assert s[k] == s[k..][0];
    }
  }

  /** `c*` matches what starts with `c`. */
  lemma StartsWithByte(c: Byte, s: seq<Byte>)
    requires IsOrdinary(c)
    ensures Matches(Compile([c, STAR]), s) <==> s != [] && s[0] == c
  {
    PairMatches(Ordinary(c), Star, s);
    assert Written(Ordinary(c)) + Written(Star) == [c, STAR];
    if s != [] && s[0] == c {
      assert StandsFor(Ordinary(c), s[..1]) && StandsFor(Star, s[1..]);
    }
    if k: nat :| k <= |s| && StandsFor(Ordinary(c), s[..k]) && StandsFor(Star, s[k..]) {
      assert s[0] == s[..k][0];
    }
  }

  /** `${X#*c}` goes on after the first `c` and `${X##*c}` after the last. */
  lemma CutAfter(word: Expression, longest: bool, value: seq<Byte>, c: Byte)
    requires IsOrdinary(c)
    ensures match Transform(RemovePrefix(word, longest), value, [STAR, c])
            case Err(e) => e.Pattern? && (|value| + 1) * 2 > MAX_PATTERN_STEPS
            case Ok(r) =>
              if c !in value then r == value
              else |r| < |value| &&
                   var at := |value| - |r| - 1;
                   value[at] == c && r == value[at + 1..] &&
                   (if longest then c !in r else c !in value[..at])
  {
    PrefixRemovalWrites(word, longest, value, [STAR, c]);
    forall k: nat ensures Starts([STAR, c], value, k) <==> 0 < k <= |value| && value[k - 1] == c {
      if k <= |value| {
        EndsInByte(c, value[..k]);
      }
    }
    if j :| 0 <= j < |value| && value[j] == c {
      assert Starts([STAR, c], value, j + 1);
    }
    var r := Transform(RemovePrefix(word, longest), value, [STAR, c]);
    if r.Ok? && c in value {
      var cut := |value| - |r.value|;
      forall j | 0 <= j < |value| && value[j] == c ensures if longest then j < cut else cut <= j + 1 {
        assert Starts([STAR, c], value, j + 1);
      }
    }
  }

  /** `${X%c*}` ends before the last `c` and `${X%%c*}` before the first. */
  lemma CutBefore(word: Expression, longest: bool, value: seq<Byte>, c: Byte)
    requires IsOrdinary(c)
    ensures match Transform(RemoveSuffix(word, longest), value, [c, STAR])
            case Err(e) => e.Pattern? && (|value| + 1) * 2 > MAX_PATTERN_STEPS
            case Ok(r) =>
              if c !in value then r == value
              else |r| < |value| && r == value[..|r|] && value[|r|] == c &&
                   (if longest then c !in r else c !in value[|r| + 1..])
  {
    SuffixRemovalWrites(word, longest, value, [c, STAR]);
    forall k: nat ensures Ends([c, STAR], value, k) <==> k < |value| && value[k] == c {
      if k <= |value| {
        StartsWithByte(c, value[k..]);
      }
    }
    if j :| 0 <= j < |value| && value[j] == c {
      assert Ends([c, STAR], value, j);
    }
    var r := Transform(RemoveSuffix(word, longest), value, [c, STAR]);
    if r.Ok? && c in value {
      forall j | 0 <= j < |value| && value[j] == c ensures if longest then |r.value| <= j else j <= |r.value| {
        assert Ends([c, STAR], value, j);
      }
    }
  }
}
