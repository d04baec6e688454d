/** What a condition answers, and what the MATCH variables hold after it. */
module MatchValues {
  import opened Bytes
  import opened RuntimeState
  import opened EarlyDecision
  import opened ConditionEffects
  import FoldNormalize
  import Utf8

  type Groups = seq<Option<(nat, nat)>>

  // ----- MATCH -----

  predicate TakesPart(groups: Groups, index: nat) {
    Group(groups, index).Some?
  }

  /** Where the group `index` ends, if it took part. */
  function EndOf(groups: Groups, index: nat): nat {
    if TakesPart(groups, index) then Group(groups, index).value.1 else 0
  }

  /** `m` is a marker that took part, and no other marker that did ends later. */
  ghost predicate IsLastMarker(groups: Groups, markers: seq<nat>, m: nat) {
    m in markers && TakesPart(groups, m) &&
    forall other :: other in markers && TakesPart(groups, other) ==> EndOf(groups, other) <= EndOf(groups, m)
  }

  lemma {:induction false} StartIsLastMarker(groups: Groups, markers: seq<nat>, i: nat)
    requires i <= |markers|
    ensures match SelectedStart(groups, markers, i)
            case None => forall other :: other in markers[i..] ==> !TakesPart(groups, other)
            case Some(start) => exists m :: IsLastMarker(groups, markers[i..], m) && start == EndOf(groups, m)
    decreases |markers| - i
  {
    if i < |markers| {
      StartIsLastMarker(groups, markers, i + 1);
      var own, later := markers[i], markers[i + 1..];
      assert markers[i..] == [own] + later;
      var rest := SelectedStart(groups, markers, i + 1);
      if rest.Some? {
        var m :| IsLastMarker(groups, later, m) && rest.value == EndOf(groups, m);
        assert IsLastMarker(groups, markers[i..], if !TakesPart(groups, own) || EndOf(groups, own) < rest.value then m else own);
      } else if TakesPart(groups, own) {
        assert IsLastMarker(groups, markers[i..], own);
      }
    }
  }

  // ----- Captures -----

  /** What the group `index` matched, empty when it took no part. */
  function GroupText(groups: Groups, index: nat, input: seq<Byte>): seq<Byte> {
    match Group(groups, index)
    case None => []
    case Some((start, end)) => if start <= end <= |input| then input[start..end] else []
  }

  function NumberedName(k: nat): Name {
    MATCH + Decimal(k)
  }

  lemma NumberedNamesDiffer(j: nat, k: nat)
    requires j != k
    ensures NumberedName(j) != NumberedName(k)
  {
    if NumberedName(j) == NumberedName(k) {
      assert NumberedName(j)[|MATCH|..] == Decimal(j) && NumberedName(k)[|MATCH|..] == Decimal(k);
      DecimalInjective(j, k);
    }
  }

  /** The captures from `i` on are stored in the names after the `i`th, and nothing else. */
  lemma {:induction false} CapturesAre(groups: Groups, indexes: seq<nat>, i: nat, input: seq<Byte>, st: State, size: nat)
    requires i <= |indexes| && Captured(groups, indexes, i, input, st, size).Ok?
    ensures var after := Captured(groups, indexes, i, input, st, size).value.0;
            (forall k {:trigger NumberedName(k)} :: i < k <= |indexes| ==>
               NumberedName(k) in after.values && after.values[NumberedName(k)] == Text(GroupText(groups, indexes[k - 1], input))) &&
            (forall name :: (forall k :: i < k <= |indexes| ==> name != NumberedName(k)) ==>
               (name in after.values <==> name in st.values) && (name in st.values ==> after.values[name] == st.values[name]))
    decreases |indexes| - i
  {
    if i < |indexes| {
      var range := Group(groups, indexes[i]);
      var text := (if range.None? then Ok([]) else TextIn(input, range.value.0, range.value.1)).value;
      CapturesAre(groups, indexes, i + 1, input, Assigned(st, NumberedName(i + 1), Text(text)), size + |text|);
      forall k | i + 1 < k <= |indexes| ensures NumberedName(k) != NumberedName(i + 1) {
        NumberedNamesDiffer(k, i + 1);
      }
    }
  }

  // ----- After a match -----

  /** MATCH holds the input from the last marker to the end of the whole match. */
  ghost predicate HoldsRest(groups: Groups, markers: seq<nat>, input: seq<Byte>, after: State) {
    exists m :: IsLastMarker(groups, markers, m) && TakesPart(groups, 0) &&
                EndOf(groups, m) <= EndOf(groups, 0) <= |input| &&
                Lookup(after, MATCH, false) == Some(input[EndOf(groups, m)..EndOf(groups, 0)])
  }

  lemma MatchNames(k: nat)
    ensures NumberedName(k) != MATCH && forall st, raw :: Lookup(st, NumberedName(k), raw) == Plain(st, NumberedName(k), raw)
    ensures forall st, raw :: Lookup(st, MATCH, raw) == Plain(st, MATCH, raw)
  {
    assert |NumberedName(k)| > 5;
  }

  /** After a match that is not negated: if a marker took part, MATCH holds what
      follows the last of them, and otherwise keeps its value; the numbered names
      hold the captures in order, and those beyond them nothing. */
  lemma MatchedValuesAre(c: Condition, regex: Regex, input: seq<Byte>, st: State, raw: bool)
    requires (c.matchCaptures != [] || c.captureIndexes != []) && !c.negated && regex(input).Some?
    requires RegexMatches(c, regex, input, st).Ok?
    ensures var groups, after := regex(input).value, RegexMatches(c, regex, input, st).value.1;
            (if exists m :: m in c.matchCaptures && TakesPart(groups, m) then HoldsRest(groups, c.matchCaptures, input, after)
             else Lookup(after, MATCH, raw) == Lookup(st, MATCH, raw)) &&
            (forall k {:trigger NumberedName(k)} :: 1 <= k <= |c.captureIndexes| ==>
               Lookup(after, NumberedName(k), raw) == Some(GroupText(groups, c.captureIndexes[k - 1], input))) &&
            (forall k {:trigger NumberedName(k)} :: k == 0 || k > |c.captureIndexes| ==> Lookup(after, NumberedName(k), raw) == None)
  {
    var groups, after := regex(input).value, RegexMatches(c, regex, input, st).value.1;
    var cleared, start := ClearNumbered(st), SelectedStart(groups, c.matchCaptures, 0);
    StartIsLastMarker(groups, c.matchCaptures, 0);
    assert c.matchCaptures[0..] == c.matchCaptures;
    var marked := if start.None? then cleared
                  else Assigned(cleared, MATCH, Text(TextIn(input, start.value, Group(groups, 0).value.1).value));
    var size := if start.None? then 0 else |marked.values[MATCH].text|;
    assert Captured(groups, c.captureIndexes, 0, input, marked, size).value.0 == after;
    CapturesAre(groups, c.captureIndexes, 0, input, marked, size);
    forall k: nat ensures NumberedName(k) != MATCH && Lookup(after, NumberedName(k), raw) == Plain(after, NumberedName(k), raw) {
      MatchNames(k);
    }
    forall k: nat | k == 0 || k > |c.captureIndexes| ensures Lookup(after, NumberedName(k), raw) == None {
      BeyondIsNothing(c.captureIndexes, k, st, marked, after, raw);
    }
  }

  lemma BeyondIsNothing(indexes: seq<nat>, k: nat, st: State, marked: State, after: State, raw: bool)
    requires (k == 0 || k > |indexes|)
    requires marked == ClearNumbered(st) || exists value :: marked == Assigned(ClearNumbered(st), MATCH, value)
    requires forall name :: (forall j :: 0 < j <= |indexes| ==> name != NumberedName(j)) ==>
               (name in after.values <==> name in marked.values) && (name in marked.values ==> after.values[name] == marked.values[name])
    ensures Lookup(after, NumberedName(k), raw) == None
  {
    MatchNames(k);
    NumberedNames(k);
    forall j | 0 < j <= |indexes| ensures NumberedName(k) != NumberedName(j) {
      NumberedNamesDiffer(k, j);
    }
    assert NumberedName(k)[0] == 77;
  }

  // ----- When a match can be stored -----

  predicate IsTextRange(input: seq<Byte>, start: nat, end: nat) {
    start <= end <= |input| && Utf8.IsUtf8(input[start..end])
  }

  predicate HasText(groups: Groups, index: nat, input: seq<Byte>) {
    TakesPart(groups, index) ==> IsTextRange(input, groups[index].value.0, groups[index].value.1)
  }

  function TextsSize(groups: Groups, indexes: seq<nat>, i: nat, input: seq<Byte>): nat
    requires i <= |indexes|
    decreases |indexes| - i
  {
    if i == |indexes| then 0 else |GroupText(groups, indexes[i], input)| + TextsSize(groups, indexes, i + 1, input)
  }

  lemma {:induction false} CapturesSucceed(groups: Groups, indexes: seq<nat>, i: nat, input: seq<Byte>, st: State, size: nat)
    requires i <= |indexes|
    ensures var r := Captured(groups, indexes, i, input, st, size);
            (r.Ok? <==> forall k :: i <= k < |indexes| ==> HasText(groups, indexes[k], input)) &&
            (r.Ok? ==> r.value.1 == size + TextsSize(groups, indexes, i, input))
    decreases |indexes| - i
  {
    if i < |indexes| && HasText(groups, indexes[i], input) {
      var text := GroupText(groups, indexes[i], input);
      CapturesSucceed(groups, indexes, i + 1, input, Assigned(st, NumberedName(i + 1), Text(text)), size + |text|);
    }
  }

  /** A match is stored exactly when what is stored is text and fits; otherwise it
      is an error. */
  lemma MatchIsStoredExactly(c: Condition, regex: Regex, input: seq<Byte>, st: State)
    requires (c.matchCaptures != [] || c.captureIndexes != []) && !c.negated && regex(input).Some?
    ensures var groups, start := regex(input).value, SelectedStart(regex(input).value, c.matchCaptures, 0);
            RegexMatches(c, regex, input, st).Ok? <==>
            (start.Some? ==> TakesPart(groups, 0) && IsTextRange(input, start.value, EndOf(groups, 0))) &&
            (forall k :: 0 <= k < |c.captureIndexes| ==> HasText(groups, c.captureIndexes[k], input)) &&
            (if start.Some? then EndOf(groups, 0) - start.value else 0) + TextsSize(groups, c.captureIndexes, 0, input) <=
            MAX_MATCH_BYTES
  {
    var groups, cleared := regex(input).value, ClearNumbered(st);
    var start := SelectedStart(groups, c.matchCaptures, 0);
    if start.None? {
      CapturesSucceed(groups, c.captureIndexes, 0, input, cleared, 0);
    } else if TakesPart(groups, 0) && IsTextRange(input, start.value, EndOf(groups, 0)) {
      var text := input[start.value..EndOf(groups, 0)];
      CapturesSucceed(groups, c.captureIndexes, 0, input, Assigned(cleared, MATCH, Text(text)), |text|);
    }
  }

  // ----- Multipart conditions -----

  /** A stored value is read back, unless a later one has the same name. */
  lemma {:induction false} StoredIsRead(values: seq<(Option<nat>, seq<Byte>)>, i: nat, st: State, k: nat)
    requires i <= k < |values| && forall j :: k < j < |values| ==> NamedMatch(values[j].0) != NamedMatch(values[k].0)
    ensures var after := Stored(values, i, st).values;
            NamedMatch(values[k].0) in after && after[NamedMatch(values[k].0)] == Text(values[k].1)
    decreases |values| - i
  {
    var next := Assigned(st, NamedMatch(values[i].0), Text(values[i].1));
    if i < k {
      StoredIsRead(values, i + 1, next, k);
    } else {
      StoredKeeps(values, i + 1, next, NamedMatch(values[k].0));
    }
  }

  lemma {:induction false} StoredKeeps(values: seq<(Option<nat>, seq<Byte>)>, i: nat, st: State, name: Name)
    requires i <= |values| && name in st.values && forall j :: i <= j < |values| ==> NamedMatch(values[j].0) != name
    ensures var after := Stored(values, i, st).values; name in after && after[name] == st.values[name]
    decreases |values| - i
  {
    if i < |values| {
      StoredKeeps(values, i + 1, Assigned(st, NamedMatch(values[i].0), Text(values[i].1)), name);
    }
  }

  // ----- Answers -----

  /** Some item before the first malformed one matches. */
  predicate SomeItemMatches(regex: Regex, items: seq<Item>, i: nat) {
    exists k :: i <= k < |items| && items[k].Item? && regex(items[k].bytes).Some?
  }

  lemma {:induction false} ItemsAnswer(c: Condition, regex: Regex, items: seq<Item>, i: nat, st: State)
    requires i <= |items| && AnyItem(c, regex, items, i, st).Ok?
    ensures AnyItem(c, regex, items, i, st).value.0 <==> SomeItemMatches(regex, items, i)
    decreases |items| - i
  {
    if i < |items| {
      var one := RegexMatches(c, regex, items[i].bytes, st).value;
      assert one.0 == regex(items[i].bytes).Some?;
      if !one.0 {
        ItemsAnswer(c, regex, items, i + 1, one.1);
      }
    }
  }

  lemma {:induction false} ItemsSucceed(c: Condition, regex: Regex, items: seq<Item>, i: nat, st: State)
    requires i <= |items| && c.matchCaptures == [] && c.captureIndexes == []
    ensures AnyItem(c, regex, items, i, st).Ok? <==>
            forall k :: i <= k < |items| && items[k].Malformed? ==> exists j :: i <= j < k && items[j].Item? && regex(items[j].bytes).Some?
    decreases |items| - i
  {
    if i < |items| && items[i].Item? {
      ItemsSucceed(c, regex, items, i + 1, st);
    }
  }

  /** Where nothing is captured, only a malformed item before any match, a variable
      over the limit, parts that cannot be read and a program give no answer. */
  lemma AnswersExist(c: Condition, header: seq<Byte>, body: seq<Byte>, st: State)
    requires c.matchCaptures == [] && c.captureIndexes == [] && !c.kind.ShellExpanded?
    ensures MatchesComplete(c, header, body, st).Ok? <==> IsAnswerable(c.kind, header, body, st)
    ensures MatchesComplete(c, header, body, st).Ok? && !c.kind.Multipart? ==> MatchesComplete(c, header, body, st).value.1 == st
  {
    if c.kind.StructuredRegex? {
      ItemsSucceed(c, c.kind.item, c.kind.items(header), 0, st);
      ItemsKeepState(c, c.kind.item, c.kind.items(header), 0, st);
    }
  }

  lemma {:induction false} ItemsKeepState(c: Condition, regex: Regex, items: seq<Item>, i: nat, st: State)
    requires i <= |items| && c.matchCaptures == [] && c.captureIndexes == []
    ensures AnyItem(c, regex, items, i, st).Ok? ==> AnyItem(c, regex, items, i, st).value.1 == st
    decreases |items| - i
  {
    if i < |items| && items[i].Item? {
      ItemsKeepState(c, regex, items, i + 1, st);
    }
  }

  ghost predicate IsAnswerable(kind: Kind, header: seq<Byte>, body: seq<Byte>, st: State) {
    match kind
    case StructuredRegex(items, regex) =>
      forall k :: 0 <= k < |items(header)| && items(header)[k].Malformed? ==>
        exists j :: 0 <= j < k && items(header)[j].Item? && regex(items(header)[j].bytes).Some?
    case VariableRegex(name, _) => |ValueOrEmpty(st, name)| <= MAX_ASSIGNMENT_VALUE_LEN
    case Multipart(parts) => parts(header, body).Ok?
    case Program => false
    case _ => true
  }

  /** The expression is found where the kind of the condition looks, or the sizes
      compare as it says. */
  predicate Found(kind: Kind, header: seq<Byte>, body: seq<Byte>, st: State) {
    match kind
    case HeaderRegex(regex) => regex(FoldNormalize.Normalized(header)).Some?
    case BodyRegex(regex) => regex(body).Some?
    case MessageRegex(regex) => regex(FoldNormalize.Normalized(header) + body).Some?
    case VariableRegex(name, regex) => regex(ValueOrEmpty(st, name)).Some?
    case StructuredRegex(items, regex) => SomeItemMatches(regex, items(header), 0)
    case Multipart(parts) => parts(header, body).Ok? && parts(header, body).value.Some?
    case SmallerThan(size) => |header + body| < size
    case LargerThan(size) => |header + body| > size
    case _ => false
  }

  function ValueOrEmpty(st: State, name: Name): seq<Byte> {
    if Lookup(st, name, false).Some? then Lookup(st, name, false).value else []
  }

  /** A condition that gives an answer says whether it finds what it looks for;
      negated, the opposite. */
  lemma AnswersAre(c: Condition, header: seq<Byte>, body: seq<Byte>, st: State)
    requires MatchesComplete(c, header, body, st).Ok? && !c.kind.ShellExpanded?
    ensures MatchesComplete(c, header, body, st).value.0 == (Found(c.kind, header, body, st) != c.negated)
  {
    if c.kind.StructuredRegex? {
      ItemsAnswer(c, c.kind.item, c.kind.items(header), 0, st);
    }
  }
}
