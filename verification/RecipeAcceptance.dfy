/** When deciding a recipe from the header first accepts the same messages as
    evaluating its conditions in order, and leaves the same variables. */
module RecipeAcceptance {
  import opened Bytes
  import opened RuntimeState
  import opened EarlyDecision
  import opened ConditionEffects
  import opened RecipePhases
  import opened RecipeConditions
  import FoldNormalize
  import PhysicalLines
  import Utf8

  /** The shape of a condition, and whether it reads a MATCH name. */
  datatype Profile = Profile(shape: Shape, readsMatch: bool) {
    predicate Valid() {
      readsMatch ==> shape.tag.VariableTag?
    }

    /** It neither writes variables nor reads those that other conditions write. */
    predicate IsApart() {
      shape.IsSilent() || (!shape.captures && !readsMatch)
    }
  }

  function ProfileOf(c: Condition): Profile {
    Profile(ShapeOf(c), c.kind.VariableRegex? && IsMatchName(c.kind.name))
  }

  predicate HaveProfiles(conds: seq<Condition>, profiles: seq<Profile>) {
    |conds| == |profiles| && forall k :: 0 <= k < |conds| ==> ProfileOf(conds[k]) == profiles[k]
  }

  /** Two conditions that change places, of which the first may write a MATCH name
      that the second reads or writes as well. */
  predicate Dependent(a: Profile, b: Profile) {
    a.shape.MayWait() && b.shape.MayDecide() && !a.shape.IsSilent() && !a.shape.tag.ProgramTag? && !b.IsApart()
  }

  ghost predicate AllIndependent(profiles: seq<Profile>) {
    forall i, j :: 0 <= i < j < |profiles| ==> !Dependent(profiles[i], profiles[j])
  }

  // ----- Independence is enough -----

  lemma {:induction false} InertItems(c: Condition, regex: Regex, items: seq<Item>, i: nat, s: State, t: State)
    requires i <= |items| && c.matchCaptures == [] && c.captureIndexes == []
    ensures var r := AnyItem(c, regex, items, i, s);
            AnyItem(c, regex, items, i, t) == (if r.Ok? then Ok((r.value.0, t)) else r) && (r.Ok? ==> r.value.1 == s)
    decreases |items| - i
  {
    if i < |items| && items[i].Item? {
      InertItems(c, regex, items, i + 1, s, t);
    }
  }

  /** An inert condition answers alike in two states. */
  lemma InertAnswers(c: Condition, header: seq<Byte>, body: seq<Byte>, s: State, t: State)
    requires ShapeOf(c).IsSilent() || (c.kind.StructuredRegex? && !ShapeOf(c).captures)
    ensures var r := MatchesComplete(c, header, body, s);
            MatchesComplete(c, header, body, t) == (if r.Ok? then Ok((r.value.0, t)) else r) && (r.Ok? ==> r.value.1 == s)
  {
    if c.kind.StructuredRegex? {
      InertItems(c, c.kind.item, c.kind.items(header), 0, s, t);
    }
  }

  lemma ReadsAlike(c: Condition, header: seq<Byte>, body: seq<Byte>, s: State, t: State)
    requires c.kind.VariableRegex? && !ShapeOf(c).captures && !IsMatchName(c.kind.name) && SameElsewhere(s, t)
    ensures var r := MatchesComplete(c, header, body, s);
            MatchesComplete(c, header, body, t) == (if r.Ok? then Ok((r.value.0, t)) else r) && (r.Ok? ==> r.value.1 == s)
  {
    assert LAST_FOLDER[..|MATCH|][0] == 76 && MATCH[0] == 77;
    assert Lookup(s, c.kind.name, false) == Lookup(t, c.kind.name, false);
  }

  /** A decided condition that keeps apart answers alike before and after any other. */
  lemma ApartAnswers(b: Condition, header: seq<Byte>, body: seq<Byte>, s: State, t: State)
    requires ProfileOf(b).IsApart() && ShapeOf(b).MayDecide() && SameElsewhere(s, t)
    ensures var r := MatchesComplete(b, header, body, s);
            MatchesComplete(b, header, body, t) == (if r.Ok? then Ok((r.value.0, t)) else r) && (r.Ok? ==> r.value.1 == s)
  {
    if b.kind.VariableRegex? {
      ReadsAlike(b, header, body, s, t);
    } else {
      InertAnswers(b, header, body, s, t);
    }
  }

  lemma SameAsItself(s: State)
    ensures SameElsewhere(s, s)
  {
  }

  lemma IndependentCommute(a: Condition, b: Condition, header: seq<Byte>, body: seq<Byte>)
    requires ShapeOf(a).MayWait() && ShapeOf(b).MayDecide() && !Dependent(ProfileOf(a), ProfileOf(b))
    ensures Commute(CompleteOn(header, body), a, b)
  {
    var complete := CompleteOn(header, body);
    forall s ensures AcceptedBoth(complete, a, b, s) == AcceptedBoth(complete, b, a, s) {
      var one, two := complete(a, s), complete(b, s);
      if ShapeOf(a).IsSilent() {
        if two.Ok? {
          InertAnswers(a, header, body, s, two.value.1);
        }
        InertAnswers(a, header, body, s, s);
      } else if a.kind.Program? {
        assert forall t :: complete(a, t).Err?;
      } else {
        WritesElsewhere(a, header, body, s);
        SameAsItself(s);
        if one.Ok? {
          ApartAnswers(b, header, body, s, one.value.1);
        }
        ApartAnswers(b, header, body, s, s);
      }
    }
  }

  /** Where conditions that change places are independent, the recipe accepts the
      same messages either way and leaves the same variables when it does. */
  lemma IndependentPhasesAccept(conds: seq<Condition>, profiles: seq<Profile>, header: seq<Byte>, body: seq<Byte>, st: State)
    requires HaveProfiles(conds, profiles) && AllIndependent(profiles)
    ensures Accepted(Planned(conds, header, body, st)) == Accepted(Ordered(conds, header, body, st))
  {
    var complete, waits := CompleteOn(header, body), WaitsOn(header);
    PhasesAreConsistent(header, body);
    forall i, j | 0 <= i < j < |conds| && waits(conds[i]) && !waits(conds[j])
      ensures Commute(complete, conds[i], conds[j])
    {
      WaitingShapes(conds[i], header);
      WaitingShapes(conds[j], header);
      assert !Dependent(profiles[i], profiles[j]);
      IndependentCommute(conds[i], conds[j], header, body);
    }
    CommutingSwapsAccept(EarlyOn(header), complete, waits, conds, 0, st);
  }

  // ----- Independence is needed -----

  /** MATCH holds the given value, and no command has failed. */
  predicate HoldsMatch(st: State, value: Value) {
    st.status == [48] && MATCH in st.values && st.values[MATCH] == value
  }

  predicate IsShort(value: Value) {
    value.Removed? || (value.Text? && |value.text| <= 1)
  }

  /** A condition of the given profile that accepts and leaves MATCH alone. */
  function Keeping(p: Profile): Condition {
    if p.shape.tag.VariableTag? then With(p.shape, false, VariableRegex(if p.readsMatch then MATCH else [63], Always()))
    else Passing(p.shape)
  }

  lemma KeepingShape(p: Profile)
    requires p.Valid()
    ensures ProfileOf(Keeping(p)) == p
  {
    assert !IsMatchName([63]);
  }

  lemma AlwaysKeeps(c: Condition, input: seq<Byte>, st: State, value: Value)
    requires HoldsMatch(st, value) && !c.negated && c.matchCaptures == [] && (c.captureIndexes == [] || c.captureIndexes == [1])
    ensures var r := RegexMatches(c, Always(), input, st);
            r.Ok? && r.value.0 && HoldsMatch(r.value.1, value)
  {
    CapturedFirst(input, ClearNumbered(st));
    assert MATCH + Decimal(1) != MATCH;
  }

  lemma KeepingAccepts(p: Profile, st: State, value: Value)
    requires p.Valid() && !p.shape.tag.ProgramTag? && HoldsMatch(st, value) && IsShort(value)
    ensures var r := MatchesComplete(Keeping(p), HEADER, BODY, st);
            r.Ok? && r.value.0 && HoldsMatch(r.value.1, value)
  {
    var c := Keeping(p);
    if p.shape.tag.VariableTag? {
      var found := Lookup(st, c.kind.name, false);
      assert found.None? || |found.value| <= 1;
      AlwaysKeeps(c, if found.None? then [] else found.value, st, value);
    } else {
      AlwaysKeeps(c, FoldNormalize.Normalized(HEADER), st, value);
      AlwaysKeeps(c, BODY, st, value);
      AlwaysKeeps(c, FoldNormalize.Normalized(HEADER) + BODY, st, value);
      AlwaysKeeps(c, [], st, value);
    }
  }

  /** A condition that waits, then accepts and clears the MATCH values. */
  function Clearing(p: Profile): Condition {
    match p.shape.tag
    case MultipartTag => With(p.shape, true, Multipart((_, _) => Ok(None)))
    case MessageTag => With(p.shape, true, MessageRegex(Never()))
    case ShellExpandedTag => With(p.shape, false, ShellExpanded(_ => Ok(Condition(true, BodyRegex(Never()), [], [1]))))
    case _ => With(p.shape, true, BodyRegex(Never()))
  }

  lemma ClearingClears(p: Profile, st: State)
    requires p.shape.MayWait() && !p.shape.IsSilent() && !p.shape.tag.ProgramTag? && st.status == [48]
    ensures ShapeOf(Clearing(p)) == p.shape && Waits(Clearing(p), HEADER)
    ensures var r := MatchesComplete(Clearing(p), HEADER, BODY, st);
            r.Ok? && r.value.0 && HoldsMatch(r.value.1, Removed)
  {
    assert !IsNumberedMatch(MATCH);
  }

  /** A decided condition that accepts; it sets MATCH if it captures, and otherwise
      accepts only if MATCH is empty. */
  function Deciding(p: Profile): Condition {
    var captures := Capturing(p.shape.captures);
    Condition(false,
              match p.shape.tag
              case VariableTag =>
                VariableRegex(if p.readsMatch then MATCH else [63],
                              if p.shape.captures then Always() else input => if input == [] then Some([Some((0, 0))]) else None)
              case StructuredTag => StructuredRegex(_ => [Item([])], Always())
              case _ => HeaderRegex(Always()),
              captures, [])
  }

  lemma DecidingShape(p: Profile)
    requires p.Valid() && p.shape.MayDecide() && !p.IsApart()
    ensures ProfileOf(Deciding(p)) == p && !Waits(Deciding(p), HEADER)
  {
    assert !IsMatchName([63]);
  }

  lemma SetsEmpty(c: Condition, input: seq<Byte>, st: State)
    requires !c.negated && c.matchCaptures == [1] && c.captureIndexes == [] && st.status == [48]
    ensures var r := RegexMatches(c, Always(), input, st);
            r.Ok? && r.value.0 && HoldsMatch(r.value.1, Text([]))
  {
    var groups: seq<Option<(nat, nat)>> := [Some((0, 0)), Some((0, 0))];
    assert SelectedStart(groups, c.matchCaptures, 1) == None;
    assert SelectedStart(groups, c.matchCaptures, 0) == Some(0);
    assert input[0..0] == [];
    assert TextIn(input, 0, 0) == Ok([]);
  }

  lemma DecidingSets(p: Profile, st: State, value: Value)
    requires p.Valid() && p.shape.MayDecide() && p.shape.captures && !p.IsApart() && HoldsMatch(st, value) && IsShort(value)
    ensures var r := MatchesComplete(Deciding(p), HEADER, BODY, st);
            r.Ok? && r.value.0 && HoldsMatch(r.value.1, Text([]))
  {
    var c := Deciding(p);
    if p.shape.tag.VariableTag? {
      var found := Lookup(st, c.kind.name, false);
      assert found.None? || |found.value| <= 1;
      SetsEmpty(c, if found.None? then [] else found.value, st);
    } else {
      SetsEmpty(c, FoldNormalize.Normalized(HEADER), st);
      SetsEmpty(c, [], st);
      assert Item([]).Item?;
    }
  }

  lemma DecidingReads(p: Profile, st: State, value: Value)
    requires p.Valid() && p.shape.MayDecide() && !p.shape.captures && !p.IsApart() && HoldsMatch(st, value)
    ensures value == Removed ==> MatchesComplete(Deciding(p), HEADER, BODY, st) == Ok((true, st))
    ensures value == Text([65]) ==> MatchesComplete(Deciding(p), HEADER, BODY, st) == Ok((false, st))
  {
    assert Lookup(st, MATCH, false) == if value.Text? then Some(value.text) else if value.Raw? then None else None;
  }

  /** Conditions of the given profiles that accept everywhere but for what happens
      at `i` and `j`. */
  function DependentList(profiles: seq<Profile>, i: nat, j: nat): (conds: seq<Condition>)
    requires i < j < |profiles|
    ensures |conds| == |profiles|
    ensures forall k :: 0 <= k < |conds| ==>
              conds[k] == if k == i then Clearing(profiles[i]) else if k == j then Deciding(profiles[j]) else Keeping(profiles[k])
  {
    seq(|profiles|, k requires 0 <= k < |profiles| =>
      if k == i then Clearing(profiles[i]) else if k == j then Deciding(profiles[j]) else Keeping(profiles[k]))
  }

  const BEFORE: State := State(map[MATCH := Text([65])], [49], [48], None)

  ghost predicate Usable(profiles: seq<Profile>) {
    forall k :: 0 <= k < |profiles| ==> profiles[k].Valid() && !profiles[k].shape.tag.ProgramTag?
  }

  lemma DependentProfiles(profiles: seq<Profile>, i: nat, j: nat)
    requires i < j < |profiles| && Usable(profiles) && Dependent(profiles[i], profiles[j])
    ensures HaveProfiles(DependentList(profiles, i, j), profiles)
  {
    var conds := DependentList(profiles, i, j);
    forall k | 0 <= k < |conds| ensures ProfileOf(conds[k]) == profiles[k] {
      if k == i {
        ClearingClears(profiles[i], BEFORE);
      } else if k == j {
        DecidingShape(profiles[j]);
      } else {
        KeepingShape(profiles[k]);
      }
    }
  }

  function Holding(value: Value): State -> bool {
    (s: State) => HoldsMatch(s, value)
  }

  /** MATCH holds something short. */
  function HoldingShort(): State -> bool {
    (s: State) => s.status == [48] && MATCH in s.values && IsShort(s.values[MATCH])
  }

  lemma KeepingMoves(p: Profile, value: Value)
    requires p.Valid() && !p.shape.tag.ProgramTag? && IsShort(value)
    ensures Moves(CompleteOn(HEADER, BODY), Keeping(p), Holding(value), Holding(value))
    ensures Moves(CompleteOn(HEADER, BODY), Keeping(p), HoldingShort(), HoldingShort())
  {
    var complete, short := CompleteOn(HEADER, BODY), HoldingShort();
    forall s | HoldsMatch(s, value)
      ensures Accepted(complete(Keeping(p), s)).Some? && HoldsMatch(Accepted(complete(Keeping(p), s)).value, value)
    {
      KeepingAccepts(p, s, value);
    }
    forall s | short(s) ensures Accepted(complete(Keeping(p), s)).Some? && short(Accepted(complete(Keeping(p), s)).value) {
      KeepingAccepts(p, s, s.values[MATCH]);
    }
  }

  lemma ClearingMoves(p: Profile)
    requires p.shape.MayWait() && !p.shape.IsSilent() && !p.shape.tag.ProgramTag?
    ensures Moves(CompleteOn(HEADER, BODY), Clearing(p), Holding(Text([65])), Holding(Removed))
    ensures Moves(CompleteOn(HEADER, BODY), Clearing(p), HoldingShort(), Holding(Removed))
  {
    var complete := CompleteOn(HEADER, BODY);
    forall s: State | s.status == [48]
      ensures Accepted(complete(Clearing(p), s)).Some? && HoldsMatch(Accepted(complete(Clearing(p), s)).value, Removed)
    {
      ClearingClears(p, s);
    }
  }

  lemma DecidingMoves(p: Profile)
    requires p.Valid() && p.shape.MayDecide() && !p.IsApart()
    ensures p.shape.captures ==> Moves(CompleteOn(HEADER, BODY), Deciding(p), Holding(Removed), Holding(Text([])))
    ensures p.shape.captures ==> Moves(CompleteOn(HEADER, BODY), Deciding(p), HoldingShort(), HoldingShort())
    ensures !p.shape.captures ==> Moves(CompleteOn(HEADER, BODY), Deciding(p), Holding(Removed), Holding(Removed))
  {
    var complete, short := CompleteOn(HEADER, BODY), HoldingShort();
    forall s | short(s)
      ensures p.shape.captures ==> Accepted(complete(Deciding(p), s)).Some? &&
                                   HoldsMatch(Accepted(complete(Deciding(p), s)).value, Text([]))
      ensures !p.shape.captures && s.values[MATCH] == Removed ==> Accepted(complete(Deciding(p), s)) == Some(s)
    {
      if p.shape.captures {
        DecidingSets(p, s, s.values[MATCH]);
      } else {
        DecidingReads(p, s, s.values[MATCH]);
      }
    }
  }

  /** In order: MATCH is cleared at `i`, and `j` sets it or finds it empty. */
  lemma OrderedAccepts(profiles: seq<Profile>, i: nat, j: nat) returns (at: State)
    requires i < j < |profiles| && Usable(profiles) && Dependent(profiles[i], profiles[j])
    ensures Ordered(DependentList(profiles, i, j), HEADER, BODY, BEFORE) == Ok((true, at))
    ensures profiles[j].shape.captures ==> HoldsMatch(at, Text([]))
  {
    var conds, complete := DependentList(profiles, i, j), CompleteOn(HEADER, BODY);
    var last := if profiles[j].shape.captures then Text([]) else Removed;
    forall m | 0 <= m < |conds| && m != i && m != j
      ensures Moves(complete, conds[m], Holding(Text([65])), Holding(Text([65])))
      ensures Moves(complete, conds[m], Holding(Removed), Holding(Removed))
      ensures Moves(complete, conds[m], Holding(last), Holding(last))
    {
      KeepingMoves(profiles[m], Text([65]));
      KeepingMoves(profiles[m], Removed);
      KeepingMoves(profiles[m], last);
    }
    ClearingMoves(profiles[i]);
    DecidingMoves(profiles[j]);
    at := InOrderThrough(complete, Holding(Text([65])), Holding(Removed), Holding(last), conds, i, j, BEFORE);
  }

  /** In two phases: what `j` set is cleared later, or `j` finds MATCH not yet cleared. */
  lemma PlannedDiffers(profiles: seq<Profile>, i: nat, j: nat)
    requires i < j < |profiles| && Usable(profiles) && Dependent(profiles[i], profiles[j])
    ensures var r := Accepted(Planned(DependentList(profiles, i, j), HEADER, BODY, BEFORE));
            if profiles[j].shape.captures then r.Some? && HoldsMatch(r.value, Removed) else r.None?
  {
    var conds, complete, waits := DependentList(profiles, i, j), CompleteOn(HEADER, BODY), WaitsOn(HEADER);
    PhasesAreConsistent(HEADER, BODY);
    ClearingClears(profiles[i], BEFORE);
    DecidingShape(profiles[j]);
    if profiles[j].shape.captures {
      ShortMoves(profiles, i, j);
      var at := TwoPhasesThrough(EarlyOn(HEADER), complete, waits, HoldingShort(), Holding(Removed), conds, i, BEFORE);
    } else {
      RejectMoves(profiles, i, j);
      HeaderRejects(EarlyOn(HEADER), complete, waits, Holding(Text([65])), conds, j, BEFORE);
    }
  }

  lemma ShortMoves(profiles: seq<Profile>, i: nat, j: nat)
    requires i < j < |profiles| && Usable(profiles) && Dependent(profiles[i], profiles[j]) && profiles[j].shape.captures
    ensures var conds, complete := DependentList(profiles, i, j), CompleteOn(HEADER, BODY);
            Moves(complete, conds[i], HoldingShort(), Holding(Removed)) &&
            (forall m :: 0 <= m < |conds| && m != i ==> Moves(complete, conds[m], HoldingShort(), HoldingShort())) &&
            (forall m :: 0 <= m < |conds| && m != i && m != j ==> Moves(complete, conds[m], Holding(Removed), Holding(Removed)))
  {
    ClearingMoves(profiles[i]);
    DecidingMoves(profiles[j]);
    var conds, complete := DependentList(profiles, i, j), CompleteOn(HEADER, BODY);
    forall m | 0 <= m < |conds| && m != i && m != j
      ensures Moves(complete, conds[m], HoldingShort(), HoldingShort()) && Moves(complete, conds[m], Holding(Removed), Holding(Removed))
    {
      KeepingMoves(profiles[m], Removed);
    }
  }

  lemma RejectMoves(profiles: seq<Profile>, i: nat, j: nat)
    requires i < j < |profiles| && Usable(profiles) && Dependent(profiles[i], profiles[j]) && !profiles[j].shape.captures
    ensures var conds, complete, good := DependentList(profiles, i, j), CompleteOn(HEADER, BODY), Holding(Text([65]));
            (forall m :: 0 <= m < j && m != i ==> Moves(complete, conds[m], good, good)) &&
            (forall s {:trigger complete(conds[j], s)} :: good(s) ==> complete(conds[j], s).Ok? && !complete(conds[j], s).value.0)
  {
    var conds, complete, good := DependentList(profiles, i, j), CompleteOn(HEADER, BODY), Holding(Text([65]));
    forall m | 0 <= m < j && m != i ensures Moves(complete, conds[m], good, good) {
      KeepingMoves(profiles[m], Text([65]));
    }
    forall s | good(s) ensures complete(conds[j], s).Ok? && !complete(conds[j], s).value.0 {
      DecidingReads(profiles[j], s, Text([65]));
    }
  }

  /** Wherever two conditions of a list are dependent, some conditions of these
      profiles are not accepted alike in the two ways. */
  lemma DependentPairsDiffer(profiles: seq<Profile>, i: nat, j: nat) returns (conds: seq<Condition>, st: State)
    requires 0 <= i < j < |profiles| && Usable(profiles) && Dependent(profiles[i], profiles[j])
    ensures HaveProfiles(conds, profiles) && IsBounded(st) && IsMessage(HEADER, BODY)
    ensures Accepted(Planned(conds, HEADER, BODY, st)) != Accepted(Ordered(conds, HEADER, BODY, st))
  {
    conds, st := DependentList(profiles, i, j), BEFORE;
    DependentProfiles(profiles, i, j);
    WitnessIsMessage();
    var at := OrderedAccepts(profiles, i, j);
    PlannedDiffers(profiles, i, j);
  }

  ghost predicate AcceptAlike(profiles: seq<Profile>) {
    forall conds, header, body, st :: HaveProfiles(conds, profiles) && IsMessage(header, body) && IsBounded(st) ==>
      Accepted(Planned(conds, header, body, st)) == Accepted(Ordered(conds, header, body, st))
  }

  /** All conditions of given profiles, none of them a program, accept the same
      messages with the same variables either way exactly when no two are dependent. */
  lemma AcceptanceAgreesExactly(profiles: seq<Profile>)
    requires Usable(profiles)
    ensures AllIndependent(profiles) <==> AcceptAlike(profiles)
  {
    if AllIndependent(profiles) {
      forall conds, header, body, st | HaveProfiles(conds, profiles) && IsMessage(header, body) && IsBounded(st)
        ensures Accepted(Planned(conds, header, body, st)) == Accepted(Ordered(conds, header, body, st))
      {
        IndependentPhasesAccept(conds, profiles, header, body, st);
      }
    } else {
      var i, j :| 0 <= i < j < |profiles| && Dependent(profiles[i], profiles[j]);
      var conds, st := DependentPairsDiffer(profiles, i, j);
    }
  }

  /** For instance, a body condition that captures `MATCH1` and a later one that
      reads it: accepted in order, rejected in two phases. */
  lemma ReadBeforeWritten() returns (conds: seq<Condition>, header: seq<Byte>, body: seq<Byte>, st: State)
    ensures IsMessage(header, body) && IsBounded(st)
    ensures Accepted(Ordered(conds, header, body, st)).Some? && Accepted(Planned(conds, header, body, st)).None?
  {
    header, body, st := [LF], [65], State(map[], [49], [48], None);
    var writer := Condition(false, BodyRegex(FirstByte()), [], [1]);
    var name := MATCH + Decimal(1);
    var reader := Condition(false, VariableRegex(name, input => if input == [65] then Some([Some((0, 1))]) else None), [], []);
    conds := [writer, reader];
    var early, complete := EarlyOn(header), CompleteOn(header, body);
    MessageOfOneLine();
    WroteMatch(writer, body, st);
    var after := Assigned(ClearNumbered(st), name, Text([65]));
    assert |name| == 6 && Lookup(after, name, false) == Some([65]);
    assert complete(writer, st) == Ok((true, after));
    assert complete(reader, after) == Ok((true, after));
    assert InOrder(complete, conds, 2, after) == Ok((true, after));
    assert InOrder(complete, conds, 1, after) == Ok((true, after));
    assert !IsPositional(name);
    assert Lookup(st, name, false) == None;
    assert early(writer, st) == Ok((Deferred, st));
    assert early(reader, st) == Ok((Decided(false), st));
    assert HeaderPhase(early, conds, 1, st) == Ok(Phase(Decided(false), [Some(false)], st));
  }

  lemma MessageOfOneLine()
    ensures IsMessage([LF], [65])
  {
    var s: seq<Byte> := [LF] + [65];
    assert PhysicalLines.LineEnd(s, 0) == 1 && s[0..1] == [LF];
  }

  lemma WroteMatch(c: Condition, body: seq<Byte>, st: State)
    requires c.kind.BodyRegex? && !c.negated && c.matchCaptures == [] && c.captureIndexes == [1]
    requires c.kind.body(body) == Some([Some((0, 1)), Some((0, 1))]) && body == [65]
    ensures RegexMatches(c, c.kind.body, body, st) == Ok((true, Assigned(ClearNumbered(st), MATCH + Decimal(1), Text([65]))))
  {
    assert body[0..1] == [65];
    assert Utf8.CharLen([65]) == 1;
    var tail: seq<Byte> := [65];
    assert tail[1..] == [];
    assert Utf8.IsUtf8([65]);
    var groups := [Some((0, 1)), Some((0, 1))];
    var after := Assigned(ClearNumbered(st), MATCH + Decimal(1), Text([65]));
    assert Group(groups, c.captureIndexes[0]) == Some((0, 1));
    assert Captured(groups, c.captureIndexes, 1, body, after, 1) == Ok((after, 1));
  }
}
