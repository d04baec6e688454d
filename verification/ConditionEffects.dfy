/** What evaluating a condition does to the variables: it writes MATCH names only,
    and never a value over the limit. */
module ConditionEffects {
  import opened Bytes
  import opened RuntimeState
  import opened EarlyDecision
  import FoldNormalize

  predicate IsMatchName(name: Name) {
    name == MATCH || IsNumberedMatch(name)
  }

  // ----- MATCH names only -----

  lemma {:induction false} DecimalDigits(n: nat)
    ensures forall i :: 0 <= i < |Decimal(n)| ==> IsDigit(Decimal(n)[i])
  {
    if 10 <= n {
      DecimalDigits(n / 10);
    }
  }

  lemma NumberedNames(n: nat)
    ensures IsNumberedMatch(MATCH + Decimal(n))
  {
    DecimalDigits(n);
    var name := MATCH + Decimal(n);
    assert name[..|MATCH|] == MATCH;
    forall i | |MATCH| <= i < |name| ensures IsDigit(name[i]) {
      assert name[i] == Decimal(n)[i - |MATCH|];
    }
  }

  /** The variables differ in MATCH names only. */
  ghost predicate SameElsewhere(s: State, t: State) {
    t.processId == s.processId && t.status == s.status && t.rcFile == s.rcFile &&
    forall name :: !IsMatchName(name) ==> (name in s.values <==> name in t.values) &&
                                          (name in s.values ==> t.values[name] == s.values[name])
  }

  lemma {:induction false} CapturedElsewhere(groups: seq<Option<(nat, nat)>>, indexes: seq<nat>, i: nat, input: seq<Byte>,
                                             s: State, st: State, size: nat)
    requires i <= |indexes| && SameElsewhere(s, st)
    ensures var r := Captured(groups, indexes, i, input, st, size); r.Ok? ==> SameElsewhere(s, r.value.0)
    decreases |indexes| - i
  {
    if i < |indexes| {
      var range := Group(groups, indexes[i]);
      var text := if range.None? then Ok([]) else TextIn(input, range.value.0, range.value.1);
      if text.Ok? {
        NumberedNames(i + 1);
        CapturedElsewhere(groups, indexes, i + 1, input, s, Assigned(st, MATCH + Decimal(i + 1), Text(text.value)),
                          size + |text.value|);
      }
    }
  }

  lemma {:induction false} StoredElsewhere(values: seq<(Option<nat>, seq<Byte>)>, i: nat, s: State, st: State)
    requires i <= |values| && SameElsewhere(s, st)
    ensures SameElsewhere(s, Stored(values, i, st))
    decreases |values| - i
  {
    if i < |values| {
      if values[i].0.Some? {
        NumberedNames(values[i].0.value);
      }
      StoredElsewhere(values, i + 1, s, Assigned(st, NamedMatch(values[i].0), Text(values[i].1)));
    }
  }

  lemma ClearedElsewhere(st: State)
    ensures SameElsewhere(st, ClearNumbered(st)) && SameElsewhere(st, ClearMatch(st))
  {
  }

  /** `regex_matches` writes MATCH names only. */
  lemma RegexElsewhere(c: Condition, regex: Regex, input: seq<Byte>, st: State)
    ensures var r := RegexMatches(c, regex, input, st); r.Ok? ==> SameElsewhere(st, r.value.1)
  {
    ClearedElsewhere(st);
    var groups := regex(input);
    if groups.Some? {
      var cleared := ClearNumbered(st);
      var start := SelectedStart(groups.value, c.matchCaptures, 0);
      var whole := Group(groups.value, 0);
      if start.None? {
        CapturedElsewhere(groups.value, c.captureIndexes, 0, input, st, cleared, 0);
      } else if whole.Some? && TextIn(input, start.value, whole.value.1).Ok? {
        var text := TextIn(input, start.value, whole.value.1).value;
        CapturedElsewhere(groups.value, c.captureIndexes, 0, input, st, Assigned(cleared, MATCH, Text(text)), |text|);
      }
    }
  }

  lemma {:induction false} ItemsElsewhere(c: Condition, regex: Regex, items: seq<Item>, i: nat, s: State, st: State)
    requires i <= |items| && SameElsewhere(s, st)
    ensures var r := AnyItem(c, regex, items, i, st); r.Ok? ==> SameElsewhere(s, r.value.1)
    decreases |items| - i
  {
    if i == |items| {
      ClearedElsewhere(st);
    } else if items[i].Item? {
      RegexElsewhere(c, regex, items[i].bytes, st);
      var one := RegexMatches(c, regex, items[i].bytes, st);
      if one.Ok? {
        ItemsElsewhere(c, regex, items, i + 1, s, one.value.1);
      }
    }
  }

  lemma PartsElsewhere(c: Condition, parts: PartSearch, header: seq<Byte>, body: seq<Byte>, st: State)
    ensures var r := MultipartMatches(c, parts, header, body, st); r.Ok? ==> SameElsewhere(st, r.value.1)
  {
    ClearedElsewhere(st);
    var found := parts(header, body);
    if found.Ok? && found.value.Some? {
      StoredElsewhere(found.value.value, 0, st, ClearNumbered(st));
    }
  }

  /** Whatever the condition, nothing but MATCH names changes. */
  lemma WritesElsewhere(c: Condition, header: seq<Byte>, body: seq<Byte>, st: State)
    ensures var r := MatchesComplete(c, header, body, st); r.Ok? ==> SameElsewhere(st, r.value.1)
    decreases if c.kind.ShellExpanded? then 1 else 0
  {
    match c.kind
    case ShellExpanded(resolve) =>
      if resolve(st).Ok? && !resolve(st).value.kind.ShellExpanded? {
        WritesElsewhere(resolve(st).value, header, body, st);
      }
    case Multipart(parts) => PartsElsewhere(c, parts, header, body, st);
    case HeaderRegex(regex) => RegexElsewhere(c, regex, FoldNormalize.Normalized(header), st);
    case BodyRegex(regex) => RegexElsewhere(c, regex, body, st);
    case MessageRegex(regex) => RegexElsewhere(c, regex, FoldNormalize.Normalized(header) + body, st);
    case VariableRegex(name, regex) =>
      var found := Lookup(st, name, false);
      RegexElsewhere(c, regex, if found.None? then [] else found.value, st);
    case StructuredRegex(items, regex) => ItemsElsewhere(c, regex, items(header), 0, st, st);
    case _ =>
  }

  // ----- Values within the limit -----

  /** The variables as the program keeps them: no text is over the limit. */
  predicate IsBounded(st: State) {
    |st.processId| <= MAX_ASSIGNMENT_VALUE_LEN && |st.status| <= MAX_ASSIGNMENT_VALUE_LEN &&
    (st.rcFile.Some? ==> |st.rcFile.value| <= MAX_ASSIGNMENT_VALUE_LEN) &&
    forall name :: name in st.values && st.values[name].Text? ==> |st.values[name].text| <= MAX_ASSIGNMENT_VALUE_LEN
  }

  lemma BoundedReads(st: State, name: Name)
    requires IsBounded(st)
    ensures var text := Lookup(st, name, false); text.Some? ==> |text.value| <= MAX_ASSIGNMENT_VALUE_LEN
  {
  }

  lemma BoundedClears(st: State)
    requires IsBounded(st)
    ensures IsBounded(ClearNumbered(st)) && IsBounded(ClearMatch(st))
  {
  }

  lemma BoundedAssigns(st: State, name: Name, text: seq<Byte>)
    requires IsBounded(st) && |text| <= MAX_ASSIGNMENT_VALUE_LEN
    ensures IsBounded(Assigned(st, name, Text(text)))
  {
  }

  lemma {:induction false} CapturedBounded(groups: seq<Option<(nat, nat)>>, indexes: seq<nat>, i: nat, input: seq<Byte>,
                                           st: State, size: nat)
    requires i <= |indexes| && IsBounded(st)
    ensures var r := Captured(groups, indexes, i, input, st, size);
            r.Ok? ==> size <= r.value.1 && (r.value.1 <= MAX_MATCH_BYTES ==> IsBounded(r.value.0))
    decreases |indexes| - i
  {
    if i < |indexes| {
      var range := Group(groups, indexes[i]);
      var text := if range.None? then Ok([]) else TextIn(input, range.value.0, range.value.1);
      if text.Ok? {
        var next := Assigned(st, MATCH + Decimal(i + 1), Text(text.value));
        if |text.value| <= MAX_MATCH_BYTES {
          BoundedAssigns(st, MATCH + Decimal(i + 1), text.value);
          CapturedBounded(groups, indexes, i + 1, input, next, size + |text.value|);
        } else {
          CapturedGrows(groups, indexes, i + 1, input, next, size + |text.value|);
        }
      }
    }
  }

  lemma {:induction false} CapturedGrows(groups: seq<Option<(nat, nat)>>, indexes: seq<nat>, i: nat, input: seq<Byte>,
                                         st: State, size: nat)
    requires i <= |indexes|
    ensures var r := Captured(groups, indexes, i, input, st, size); r.Ok? ==> size <= r.value.1
    decreases |indexes| - i
  {
    if i < |indexes| {
      var range := Group(groups, indexes[i]);
      var text := if range.None? then Ok([]) else TextIn(input, range.value.0, range.value.1);
      if text.Ok? {
        CapturedGrows(groups, indexes, i + 1, input, Assigned(st, MATCH + Decimal(i + 1), Text(text.value)),
                      size + |text.value|);
      }
    }
  }

  lemma RegexBounded(c: Condition, regex: Regex, input: seq<Byte>, st: State)
    requires IsBounded(st)
    ensures var r := RegexMatches(c, regex, input, st); r.Ok? ==> IsBounded(r.value.1)
  {
    BoundedClears(st);
    var groups := regex(input);
    if groups.Some? {
      var cleared := ClearNumbered(st);
      var start := SelectedStart(groups.value, c.matchCaptures, 0);
      var whole := Group(groups.value, 0);
      if start.None? {
        CapturedBounded(groups.value, c.captureIndexes, 0, input, cleared, 0);
      } else if whole.Some? && TextIn(input, start.value, whole.value.1).Ok? {
        var text := TextIn(input, start.value, whole.value.1).value;
        var marked := Assigned(cleared, MATCH, Text(text));
        if |text| <= MAX_MATCH_BYTES {
          BoundedAssigns(cleared, MATCH, text);
          CapturedBounded(groups.value, c.captureIndexes, 0, input, marked, |text|);
        } else {
          CapturedGrows(groups.value, c.captureIndexes, 0, input, marked, |text|);
        }
      }
    }
  }

  lemma {:induction false} ItemsBounded(c: Condition, regex: Regex, items: seq<Item>, i: nat, st: State)
    requires i <= |items| && IsBounded(st)
    ensures var r := AnyItem(c, regex, items, i, st); r.Ok? ==> IsBounded(r.value.1)
    decreases |items| - i
  {
    if i == |items| {
      BoundedClears(st);
    } else if items[i].Item? {
      RegexBounded(c, regex, items[i].bytes, st);
      var one := RegexMatches(c, regex, items[i].bytes, st);
      if one.Ok? {
        ItemsBounded(c, regex, items, i + 1, one.value.1);
      }
    }
  }

  lemma {:induction false} StoredBounded(values: seq<(Option<nat>, seq<Byte>)>, i: nat, st: State)
    requires i <= |values| && IsBounded(st) && ValuesSize(values, i) <= MAX_MATCH_BYTES
    ensures IsBounded(Stored(values, i, st))
    decreases |values| - i
  {
    if i < |values| {
      BoundedAssigns(st, NamedMatch(values[i].0), values[i].1);
      StoredBounded(values, i + 1, Assigned(st, NamedMatch(values[i].0), Text(values[i].1)));
    }
  }

  lemma PartsBounded(c: Condition, parts: PartSearch, header: seq<Byte>, body: seq<Byte>, st: State)
    requires IsBounded(st)
    ensures var r := MultipartMatches(c, parts, header, body, st); r.Ok? ==> IsBounded(r.value.1)
  {
    BoundedClears(st);
    var found := parts(header, body);
    if found.Ok? && found.value.Some? && ValuesSize(found.value.value, 0) <= MAX_MATCH_BYTES {
      StoredBounded(found.value.value, 0, ClearNumbered(st));
    }
  }

  /** Whatever the condition, the variables stay within the limit. */
  lemma StaysBounded(c: Condition, header: seq<Byte>, body: seq<Byte>, st: State)
    requires IsBounded(st)
    ensures var r := MatchesComplete(c, header, body, st); r.Ok? ==> IsBounded(r.value.1)
    decreases if c.kind.ShellExpanded? then 1 else 0
  {
    match c.kind
    case ShellExpanded(resolve) =>
      if resolve(st).Ok? && !resolve(st).value.kind.ShellExpanded? {
        StaysBounded(resolve(st).value, header, body, st);
      }
    case Multipart(parts) => PartsBounded(c, parts, header, body, st);
    case HeaderRegex(regex) => RegexBounded(c, regex, FoldNormalize.Normalized(header), st);
    case BodyRegex(regex) => RegexBounded(c, regex, body, st);
    case MessageRegex(regex) => RegexBounded(c, regex, FoldNormalize.Normalized(header) + body, st);
    case VariableRegex(name, regex) =>
      var found := Lookup(st, name, false);
      RegexBounded(c, regex, if found.None? then [] else found.value, st);
    case StructuredRegex(items, regex) => ItemsBounded(c, regex, items(header), 0, st);
    case _ =>
  }
}
