/** Removing a matching prefix or suffix, and changing matching bytes, within a
    ceiling on the work. */
module ShellRemoval {
  import opened Bytes
  import opened ShellPattern
  import opened ShellNfa

  // ----- The work ceiling -----

  function TokenCost(t: Token): nat {
    if t.OneOf? then Max(|t.members.ranges|, 1) else 1
  }

  function TransitionCost(tokens: seq<Token>): nat {
    if tokens == [] then 0 else TransitionCost(tokens[..|tokens| - 1]) + TokenCost(tokens[|tokens| - 1])
  }

  /** A product as repeated addition, which keeps multiplication out of what
      evaluation means. */
  function Times(a: nat, b: nat): nat {
    if a == 0 then 0 else Times(a - 1, b) + b
  }

  lemma {:induction false} TimesIs(a: nat, b: nat)
    ensures Times(a, b) == a * b
  {
    if 0 < a {
      TimesIs(a - 1, b);
    }
  }

  /** Steps charged for matching `candidates` inputs of `inputLen` bytes. */
  function Attempted(candidates: nat, inputLen: nat, tokens: seq<Token>): nat {
    Times(Times(candidates, inputLen + 1), Max(TransitionCost(tokens), 1))
  }

  predicate WithinSteps(candidates: nat, inputLen: nat, tokens: seq<Token>) {
    Attempted(candidates, inputLen, tokens) <= MAX_PATTERN_STEPS
  }

  /** `saturating_add` and `checked_mul` of machine words. */
  function SaturatingAdd(a: nat, b: nat): nat {
    Min(a + b, USIZE_MAX)
  }

  function CheckedMul(a: nat, b: nat): Option<nat> {
    if a * b > USIZE_MAX then None else Some(a * b)
  }

  function SaturatedCost(tokens: seq<Token>): nat {
    if tokens == [] then 0 else SaturatingAdd(SaturatedCost(tokens[..|tokens| - 1]), TokenCost(tokens[|tokens| - 1]))
  }

  lemma {:induction false} SaturatedCostIs(tokens: seq<Token>)
    ensures SaturatedCost(tokens) == Min(TransitionCost(tokens), USIZE_MAX)
    decreases |tokens|
  {
    if tokens != [] {
      SaturatedCostIs(tokens[..|tokens| - 1]);
    }
  }

  /** The estimate as the machine computes it; None when a product overflows. */
  function MachineSteps(candidates: nat, inputLen: nat, cost: nat): Option<nat> {
    var total := CheckedMul(candidates, SaturatingAdd(inputLen, 1));
    if total.None? then None else CheckedMul(total.value, Max(cost, 1))
  }

  lemma AtLeast(a: nat, b: nat)
    requires 1 <= a
    ensures b <= a * b
  {
  }

  /** Saturation and overflow never hide an estimate that is over the ceiling, nor
      invent one: the machine's estimate is the exact one, cut off at the largest word. */
  lemma MachineStepsAreExact(candidates: nat, inputLen: nat, cost: nat)
    ensures var exact := candidates * (inputLen + 1) * Max(cost, 1);
            match MachineSteps(candidates, inputLen, Min(cost, USIZE_MAX))
            case Some(steps) => steps == Min(exact, USIZE_MAX)
            case None => exact > USIZE_MAX
  {
    var length, k := inputLen + 1, Max(cost, 1);
    var cut, kept := SaturatingAdd(inputLen, 1), Max(Min(cost, USIZE_MAX), 1);
    var exact := candidates * length * k;
    if candidates > 0 {
      AtLeast(candidates, length);
      AtLeast(candidates, cut);
      AtLeast(candidates * length, k);
      AtLeast(k, candidates * length);
      AtLeast(candidates * cut, kept);
      AtLeast(kept, candidates * cut);
    }
  }

  method CheckSteps(candidates: nat, inputLen: nat, tokens: seq<Token>) returns (r: Option<PatternError>)
    ensures r.None? <==> WithinSteps(candidates, inputLen, tokens)
    ensures r.Some? ==> r.value == TooComplex(Min(Attempted(candidates, inputLen, tokens), USIZE_MAX))
  {
    var cost := 0;
    for index := 0 to |tokens|
      invariant cost == SaturatedCost(tokens[..index])
    {
      TakeNext(tokens, index);
      cost := SaturatingAdd(cost, if tokens[index].OneOf? then Max(|tokens[index].members.ranges|, 1) else 1);
    }
    TakeAll(tokens);
    SaturatedCostIs(tokens);
    MachineStepsAreExact(candidates, inputLen, TransitionCost(tokens));
    TimesIs(candidates, inputLen + 1);
    TimesIs(Times(candidates, inputLen + 1), Max(TransitionCost(tokens), 1));
    var total := CheckedMul(candidates, SaturatingAdd(inputLen, 1));
    var attempted := if total.None? then None else CheckedMul(total.value, Max(cost, 1));
    if attempted.None? || attempted.value > MAX_PATTERN_STEPS {
      return Some(TooComplex(if attempted.None? then USIZE_MAX else attempted.value));
    }
    return None;
  }

  // ----- Removing a prefix or suffix -----

  function EdgePart(value: seq<Byte>, edge: Edge, k: nat): seq<Byte>
    requires k <= |value|
  {
    if edge.Prefix? then value[..k] else value[|value| - k..]
  }

  function WithoutEdge(value: seq<Byte>, edge: Edge, k: nat): seq<Byte>
    requires k <= |value|
  {
    if edge.Prefix? then value[k..] else value[..|value| - k]
  }

  /** `r` is the length of the shortest or longest matching prefix or suffix of
      `value`; None exactly when no prefix or suffix, the empty one included, matches. */
  ghost predicate IsCut(tokens: seq<Token>, value: seq<Byte>, edge: Edge, selection: Selection, r: Option<nat>) {
    match r
    case None => forall k :: 0 <= k <= |value| ==> !Matches(tokens, EdgePart(value, edge, k))
    case Some(n) =>
      n <= |value| && Matches(tokens, EdgePart(value, edge, n)) &&
      forall k :: 0 <= k <= |value| && (if selection.Shortest? then k < n else n < k)
                  ==> !Matches(tokens, EdgePart(value, edge, k))
  }

  lemma CutIsUnique(tokens: seq<Token>, value: seq<Byte>, edge: Edge, selection: Selection, a: Option<nat>, b: Option<nat>)
    requires IsCut(tokens, value, edge, selection, a) && IsCut(tokens, value, edge, selection, b)
    ensures a == b
  {
  }

  /** Searching upwards finds the shortest cut, if there is one. */
  lemma {:induction false} ShortestCut(tokens: seq<Token>, value: seq<Byte>, edge: Edge, k: nat) returns (r: Option<nat>)
    requires k <= |value|
    requires forall i :: 0 <= i < k ==> !Matches(tokens, EdgePart(value, edge, i))
    ensures IsCut(tokens, value, edge, Shortest, r)
    decreases |value| - k
  {
    if Matches(tokens, EdgePart(value, edge, k)) {
      r := Some(k);
    } else if k == |value| {
      r := None;
    } else {
      r := ShortestCut(tokens, value, edge, k + 1);
    }
  }

  /** Searching downwards finds the longest. */
  lemma {:induction false} LongestCut(tokens: seq<Token>, value: seq<Byte>, edge: Edge, k: nat) returns (r: Option<nat>)
    requires k <= |value|
    requires forall i :: k < i <= |value| ==> !Matches(tokens, EdgePart(value, edge, i))
    ensures IsCut(tokens, value, edge, Longest, r)
  {
    if Matches(tokens, EdgePart(value, edge, k)) {
      r := Some(k);
    } else if k == 0 {
      r := None;
    } else {
      r := LongestCut(tokens, value, edge, k - 1);
    }
  }

  lemma CutExists(tokens: seq<Token>, value: seq<Byte>, edge: Edge, selection: Selection)
    ensures exists r :: IsCut(tokens, value, edge, selection, r)
  {
    var r: Option<nat>;
    if selection.Shortest? {
      r := ShortestCut(tokens, value, edge, 0);
    } else {
      r := LongestCut(tokens, value, edge, |value|);
    }
  }

  /** The cut: there is exactly one. */
  ghost function Cut(tokens: seq<Token>, value: seq<Byte>, edge: Edge, selection: Selection): (r: Option<nat>)
    ensures IsCut(tokens, value, edge, selection, r)
  {
    CutExists(tokens, value, edge, selection);
    var r :| IsCut(tokens, value, edge, selection, r);
    r
  }

  /** What the removal operators mean, in terms of the pattern as written. */
  ghost function Removed(value: seq<Byte>, pattern: seq<Byte>, edge: Edge, selection: Selection)
    : Result<seq<Byte>, PatternError>
  {
    if !WithinSteps(1, |value|, Compile(pattern)) then
      Err(TooComplex(Min(Attempted(1, |value|, Compile(pattern)), USIZE_MAX)))
    else
      match Cut(Tokens(pattern, 0), value, edge, selection)
      case None => Ok(value)
      case Some(n) => Ok(WithoutEdge(value, edge, n))
  }

  lemma {:induction false} CostReverse(tokens: seq<Token>)
    ensures TransitionCost(Reverse(tokens)) == TransitionCost(tokens)
    decreases |tokens|
  {
    if tokens != [] {
      CostPrepend(tokens[0], tokens[1..]);
      assert [tokens[0]] + tokens[1..] == tokens;
      var r := Reverse(tokens);
      assert r[..|r| - 1] == Reverse(tokens[1..]);
      CostReverse(tokens[1..]);
    } else {
      assert Reverse(tokens) == tokens;
    }
  }

  lemma {:induction false} CostPrepend(t: Token, tokens: seq<Token>)
    ensures TransitionCost([t] + tokens) == TokenCost(t) + TransitionCost(tokens)
    decreases |tokens|
  {
    var all := [t] + tokens;
    if tokens == [] {
      assert all[..0] == [];
    } else {
      assert all[..|all| - 1] == [t] + tokens[..|tokens| - 1];
      CostPrepend(t, tokens[..|tokens| - 1]);
    }
  }

  /** An endpoint found by the machine, forwards or over reversed tokens and
      reversed bytes, is a cut of the value by the pattern as written. */
  lemma EndpointIsCut(pattern: seq<Byte>, value: seq<Byte>, edge: Edge, selection: Selection, r: Option<nat>)
    requires edge.Prefix? ==> IsEndpoint(Compile(pattern), value, |value|, selection, r)
    requires edge.Suffix? ==> IsEndpoint(Reverse(Compile(pattern)), Reverse(value), |value|, selection, r)
    ensures IsCut(Tokens(pattern, 0), value, edge, selection, r)
  {
    var written, tokens := Tokens(pattern, 0), Compile(pattern);
    forall k: nat | k <= |value|
      ensures Matches(written, EdgePart(value, edge, k)) <==>
              if edge.Prefix? then Matches(tokens, value[..k])
              else Matches(Reverse(tokens), Reverse(value)[..k])
    {
      MergeStarsKeepsMeaning(written, EdgePart(value, edge, k));
      if edge.Suffix? {
        MatchesReverse(tokens, EdgePart(value, edge, k));
        assert Reverse(EdgePart(value, edge, k)) == Reverse(value)[..k];
      }
    }
  }

  method Remove(value: seq<Byte>, pattern: seq<Byte>, edge: Edge, selection: Selection)
    returns (r: Result<seq<Byte>, PatternError>)
    ensures r == Removed(value, pattern, edge, selection)
  {
    var tokens := Tokenize(pattern);
    var input := value;
    if edge.Suffix? {
      CostReverse(tokens);
      tokens := Reverse(tokens);
      input := Reverse(value);
    }
    var complex := CheckSteps(1, |value|, tokens);
    if complex.Some? {
      return Err(complex.value);
    }
    var removed := MatchingEndpoint(input, tokens, selection);
    EndpointIsCut(pattern, value, edge, selection, removed);
    CutIsUnique(Tokens(pattern, 0), value, edge, selection, removed, Cut(Tokens(pattern, 0), value, edge, selection));
    match removed
    case None => r := Ok(value);
    case Some(length) =>
      r := Ok(if edge.Prefix? then value[length..] else value[..|value| - length]);
  }

  // ----- Changing case byte by byte -----

  function EffectivePattern(pattern: seq<Byte>): seq<Byte> {
    if pattern == [] then [QUESTION] else pattern
  }

  ghost function TransformedByte(pattern: seq<Byte>, transform: Byte -> Byte, b: Byte): Byte {
    if Matches(Tokens(EffectivePattern(pattern), 0), [b]) then transform(b) else b
  }

  /** A byte is transformed exactly when the pattern matches it as a one-byte
      string and it is the first byte, or all bytes are wanted. */
  ghost function Transformed(value: seq<Byte>, pattern: seq<Byte>, all: bool, transform: Byte -> Byte)
    : Result<seq<Byte>, PatternError>
  {
    var candidates := if all then |value| else if value == [] then 0 else 1;
    var tokens := Compile(EffectivePattern(pattern));
    if !WithinSteps(candidates, 1, tokens) then
      Err(TooComplex(Min(Attempted(candidates, 1, tokens), USIZE_MAX)))
    else
      Ok(seq(|value|, i requires 0 <= i < |value| =>
        if i < candidates then TransformedByte(pattern, transform, value[i]) else value[i]))
  }

  method MatchesOneByte(tokens: seq<Token>, ghost pattern: seq<Byte>, b: Byte) returns (hit: bool)
    requires tokens == Compile(pattern)
    ensures hit <==> Matches(Tokens(pattern, 0), [b])
  {
    var one := [b];
    var endpoint := MatchingEndpoint(one, tokens, Longest);
    assert one[..1] == one;
    MergeStarsKeepsMeaning(Tokens(pattern, 0), one);
    hit := endpoint == Some(1);
  }

  method TransformMatchingBytes(value: seq<Byte>, pattern: seq<Byte>, all: bool, transform: Byte -> Byte)
    returns (r: Result<seq<Byte>, PatternError>)
    ensures r == Transformed(value, pattern, all, transform)
  {
    var tokens := Tokenize(if pattern == [] then [QUESTION] else pattern);
    var candidates := if all then |value| else if value == [] then 0 else 1;
    var complex := CheckSteps(candidates, 1, tokens);
    if complex.Some? {
      return Err(complex.value);
    }
    var result := TransformFirst(value, tokens, EffectivePattern(pattern), candidates, transform);
    TransformedIs(value, pattern, all, transform, candidates, result);
    r := Ok(result);
  }

  lemma TransformedIs(value: seq<Byte>, pattern: seq<Byte>, all: bool, transform: Byte -> Byte, candidates: nat,
                      result: seq<Byte>)
    requires candidates == (if all then |value| else if value == [] then 0 else 1) && |result| == |value|
    requires WithinSteps(candidates, 1, Compile(EffectivePattern(pattern)))
    requires forall i :: 0 <= i < candidates ==> result[i] == TransformedByte(pattern, transform, value[i])
    requires forall i :: candidates <= i < |value| ==> result[i] == value[i]
    ensures Transformed(value, pattern, all, transform) == Ok(result)
  {
    assert Transformed(value, pattern, all, transform).value == result;
  }

  method TransformFirst(value: seq<Byte>, tokens: seq<Token>, ghost pattern: seq<Byte>, candidates: nat,
                        transform: Byte -> Byte) returns (result: seq<Byte>)
    requires candidates <= |value| && tokens == Compile(pattern)
    ensures |result| == |value|
    ensures forall i :: 0 <= i < candidates ==>
              result[i] == if Matches(Tokens(pattern, 0), [value[i]]) then transform(value[i]) else value[i]
    ensures forall i :: candidates <= i < |value| ==> result[i] == value[i]
  {
    result := value;
    for index := 0 to candidates
      invariant |value| == |result|
      invariant forall i :: index <= i < |value| ==> result[i] == value[i]
      invariant forall i :: 0 <= i < index ==>
                  result[i] == if Matches(Tokens(pattern, 0), [value[i]]) then transform(value[i]) else value[i]
    {
      var hit := MatchesOneByte(tokens, pattern, value[index]);
      if hit {
        result := result[index := transform(value[index])];
      }
    }
  }
}
