/** The automaton that looks for the shortest or longest matching prefix: one
    Boolean per pattern token, advanced byte by byte. */
module ShellNfa {
  import opened Bytes
  import opened ShellPattern

  predicate IsStar(tokens: seq<Token>, i: int) {
    0 <= i < |tokens| && tokens[i].AnyBytes?
  }

  /** What a set NFA state means after reading `s`: a state in front of a `*`
      also stands for every way that `*` may already have consumed bytes. */
  ghost predicate Reached(tokens: seq<Token>, i: nat, s: seq<Byte>)
    requires i <= |tokens|
  {
    Matches(tokens[..if IsStar(tokens, i) then i + 1 else i], s)
  }

  /** `states` is the exact set of NFA states reached by reading `s`. */
  ghost predicate Exact(tokens: seq<Token>, states: seq<bool>, s: seq<Byte>) {
    |states| == |tokens| + 1 &&
    forall i {:trigger states[i]} :: 0 <= i <= |tokens| ==> (states[i] <==> Reached(tokens, i, s))
  }

  /** State `j` is entered over the single-byte token in front of it. */
  predicate Entered(tokens: seq<Token>, states: seq<bool>, b: Byte, j: nat)
    requires |states| == |tokens| + 1 && j <= |tokens|
  {
    0 < j && !tokens[j - 1].AnyBytes? && states[j - 1] && tokens[j - 1].Accepts(b)
  }

  /** The transition row before closure. */
  predicate Stepped(tokens: seq<Token>, states: seq<bool>, b: Byte, j: nat)
    requires |states| == |tokens| + 1 && j <= |tokens|
  {
    (IsStar(tokens, j) && states[j]) || Entered(tokens, states, b, j)
  }

  /** Left-to-right closure over `*`. */
  predicate Closed(tokens: seq<Token>, states: seq<bool>, j: nat)
    requires |states| == |tokens| + 1 && j <= |tokens|
  {
    states[j] || (0 < j && tokens[j - 1].AnyBytes? && Closed(tokens, states, j - 1))
  }

  lemma ReachedStar(tokens: seq<Token>, i: nat, s: seq<Byte>)
    requires IsStar(tokens, i)
    ensures Reached(tokens, i, s) <==> exists k :: 0 <= k <= |s| && Matches(tokens[..i], s[..k])
  {
    assert tokens[..i + 1] == tokens[..i] + [AnyBytes];
    MatchesSnocStar(tokens[..i], s);
  }

  /** A state in front of a `*` persists, or is newly entered by the last byte. */
  lemma ReachedStarStep(tokens: seq<Token>, i: nat, s: seq<Byte>, b: Byte)
    requires IsStar(tokens, i)
    ensures Reached(tokens, i, s + [b]) <==> Reached(tokens, i, s) || Matches(tokens[..i], s + [b])
  {
    ReachedStar(tokens, i, s);
    ReachedStar(tokens, i, s + [b]);
    forall k | 0 <= k <= |s|
      ensures (s + [b])[..k] == s[..k]
    {
    }
    assert (s + [b])[..|s| + 1] == s + [b];
    if Reached(tokens, i, s) {
      var k :| 0 <= k <= |s| && Matches(tokens[..i], s[..k]);
      assert (s + [b])[..k] == s[..k];
    }
  }

  /** Entering state `j` over a single-byte token. */
  lemma MatchesByteStep(tokens: seq<Token>, j: nat, s: seq<Byte>, b: Byte)
    requires 0 < j <= |tokens| && !tokens[j - 1].AnyBytes?
    ensures Matches(tokens[..j], s + [b]) <==> tokens[j - 1].Accepts(b) && Reached(tokens, j - 1, s)
  {
    assert tokens[..j] == tokens[..j - 1] + [tokens[j - 1]];
    MatchesSnocByte(tokens[..j - 1], tokens[j - 1], s + [b]);
    assert (s + [b])[..|s|] == s;
  }

  /** The row after one byte and the one-pass closure is again exact at every state. */
  lemma {:induction false} StepExact(tokens: seq<Token>, states: seq<bool>, next: seq<bool>,
                                     s: seq<Byte>, b: Byte, j: nat)
    requires Exact(tokens, states, s) && |next| == |tokens| + 1 && j <= |tokens|
    requires forall i :: 0 <= i <= |tokens| ==> next[i] == Stepped(tokens, states, b, i)
    ensures Closed(tokens, next, j) <==> Reached(tokens, j, s + [b])
  {
    if 0 < j {
      StepExact(tokens, states, next, s, b, j - 1);
      if !tokens[j - 1].AnyBytes? {
        MatchesByteStep(tokens, j, s, b);
      }
    } else {
      assert tokens[..0] == [];
    }
    if IsStar(tokens, j) {
      ReachedStarStep(tokens, j, s, b);
    }
    assert states[j] <==> Reached(tokens, j, s);
  }

  /** The initial row, state 0 closed over leading `*`, is exact for the empty input. */
  lemma {:induction false} InitialExact(tokens: seq<Token>, first: seq<bool>, j: nat)
    requires |first| == |tokens| + 1 && j <= |tokens|
    requires forall i :: 0 <= i <= |tokens| ==> first[i] == (i == 0)
    ensures Closed(tokens, first, j) <==> Reached(tokens, j, [])
  {
    var none: seq<Byte> := [];
    if IsStar(tokens, j) {
      ReachedStar(tokens, j, []);
      assert none[..0] == [];
    }
    if j == 0 {
      assert tokens[..0] == [];
    } else {
      InitialExact(tokens, first, j - 1);
      assert tokens[..j] == tokens[..j - 1] + [tokens[j - 1]];
      if !tokens[j - 1].AnyBytes? {
        MatchesSnocByte(tokens[..j - 1], tokens[j - 1], []);
      }
    }
  }

  /** `r` is the shortest or longest length, at most `limit`, at which a prefix of `input` matches. */
  ghost predicate IsEndpoint(tokens: seq<Token>, input: seq<Byte>, limit: nat, selection: Selection, r: Option<nat>)
    requires limit <= |input|
  {
    match r
    case None => forall k :: 0 <= k <= limit ==> !Matches(tokens, input[..k])
    case Some(n) =>
      n <= limit && Matches(tokens, input[..n]) &&
      forall k :: 0 <= k <= limit && (if selection.Shortest? then k < n else n < k)
                  ==> !Matches(tokens, input[..k])
  }

  method CloseStars(states: array<bool>, tokens: seq<Token>)
    requires states.Length == |tokens| + 1
    modifies states
    ensures forall j :: 0 <= j <= |tokens| ==> states[j] == Closed(tokens, old(states[..]), j)
  {
    ghost var first := states[..];
    var index := 0;
    while index < |tokens|
      invariant 0 <= index <= |tokens|
      invariant forall j :: 0 <= j <= index ==> states[j] == Closed(tokens, first, j)
      invariant forall j :: index < j <= |tokens| ==> states[j] == first[j]
    {
      if states[index] && tokens[index].AnyBytes? {
        states[index + 1] := true;
      }
      index := index + 1;
    }
  }

  method FillNext(states: array<bool>, next: array<bool>, tokens: seq<Token>, b: Byte)
    requires states != next && states.Length == next.Length == |tokens| + 1
    modifies next
    ensures forall j :: 0 <= j <= |tokens| ==> next[j] == Stepped(tokens, states[..], b, j)
  {
    forall j | 0 <= j < next.Length {
      next[j] := false;
    }
    var index := 0;
    while index < |tokens|
      invariant 0 <= index <= |tokens|
      invariant forall j :: 0 <= j < index ==> next[j] == Stepped(tokens, states[..], b, j)
      invariant forall j :: index < j <= |tokens| ==> !next[j]
      invariant next[index] == Entered(tokens, states[..], b, index)
    {
      if states[index] {
        if tokens[index].AnyBytes? {
          next[index] := true;
        } else if tokens[index].Accepts(b) {
          next[index + 1] := true;
        }
      }
      index := index + 1;
    }
  }

  method Advance(states: array<bool>, next: array<bool>, tokens: seq<Token>, b: Byte, ghost s: seq<Byte>)
    requires states != next && states.Length == next.Length == |tokens| + 1
    requires Exact(tokens, states[..], s)
    modifies next
    ensures Exact(tokens, next[..], s + [b])
  {
    FillNext(states, next, tokens, b);
    ghost var row := next[..];
    CloseStars(next, tokens);
    forall j: nat | j <= |tokens|
      ensures next[..][j] <==> Reached(tokens, j, s + [b])
    {
      StepExact(tokens, states[..], row, s, b, j);
    }
  }

  method Start(tokens: seq<Token>) returns (states: array<bool>)
    ensures fresh(states) && states.Length == |tokens| + 1
    ensures Exact(tokens, states[..], [])
  {
    states := new bool[|tokens| + 1](i => i == 0);
    ghost var row := states[..];
    CloseStars(states, tokens);
    forall j: nat | j <= |tokens|
      ensures states[..][j] <==> Reached(tokens, j, [])
    {
      InitialExact(tokens, row, j);
    }
  }

  method MatchingEndpoint(input: seq<Byte>, tokens: seq<Token>, selection: Selection) returns (matched: Option<nat>)
    ensures IsEndpoint(tokens, input, |input|, selection, matched)
  {
    var states := Start(tokens);
    assert tokens[..|tokens|] == tokens && input[..0] == [];
    assert states[..][|tokens|] <==> Matches(tokens, input[..0]);
    matched := if states[|tokens|] then Some(0) else None;
    if matched.Some? && selection.Shortest? {
      return;
    }
    var next := new bool[|tokens| + 1];
    var offset := 0;
    while offset < |input|
      invariant 0 <= offset <= |input|
      invariant states != next && fresh(states) && fresh(next)
      invariant states.Length == next.Length == |tokens| + 1
      invariant Exact(tokens, states[..], input[..offset])
      invariant IsEndpoint(tokens, input, offset, selection, matched)
      invariant selection.Shortest? ==> matched.None?
    {
      Advance(states, next, tokens, input[offset], input[..offset]);
      assert input[..offset] + [input[offset]] == input[..offset + 1];
      states, next := next, states;
      assert states[..][|tokens|] <==> Matches(tokens, input[..offset + 1]);
      var hit := states[|tokens|];
      if hit {
        matched := Some(offset + 1);
        if selection.Shortest? {
          return;
        }
      }
      offset := offset + 1;
    }
  }
}
