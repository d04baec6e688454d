/** The references the analysis reports for paths and for conditions: when it
    reports none, evaluation misses no variable. */
module ShellReferences {
  import opened Bytes
  import opened ShellExpression
  import opened ShellEval
  import opened ShellMeaning
  import opened ShellBind
  import opened ShellAnalysis

  type Provided = Name -> bool

  /** Every reference that needs a value, in any word that may run, is provided. */
  predicate AllProvided(e: Expression, known: Known, dynamic: set<Name>, provided: Provided)
    decreases e, 1
  {
    forall i :: 0 <= i < |e.parts| ==> AllProvidedIn(e.parts[i], known, dynamic, provided)
  }

  predicate AllProvidedIn(part: Part, known: Known, dynamic: set<Name>, provided: Provided)
    decreases part, 0
  {
    match part
    case Variable(name, op) =>
      (op.RequiresValue() ==> provided(name)) &&
      (WordMayRun(part, known, dynamic) && op.Word().Some? ==> AllProvided(op.Word().value, known, dynamic, provided))
    case RegexQuotedVariable(name) => provided(name)
    case PatternQuote(e) => AllProvided(e, known, dynamic, provided)
    case _ => true
  }

  // ----- What the analysis reports -----

  function IsAvailable(known: Known, dynamic: set<Name>): Provided {
    name => Available(name, known, dynamic)
  }

  function IsKnown(known: Known): Provided {
    name => name in known
  }

  lemma {:induction false} ConditionReferences(e: Expression, known: Known, dynamic: set<Name>)
    ensures Analyze(e, known, dynamic).missingShellCondition.None? ==>
            AllProvided(e, known, dynamic, IsAvailable(known, dynamic))
    decreases e, 1
  {
    ConditionReferencesIn(e.parts, known, dynamic);
  }

  lemma {:induction false} ConditionReferencesIn(parts: seq<Part>, known: Known, dynamic: set<Name>)
    ensures AnalyzeParts(parts, known, dynamic).missingShellCondition.None? ==>
            forall i :: 0 <= i < |parts| ==> AllProvidedIn(parts[i], known, dynamic, IsAvailable(known, dynamic))
    decreases parts, 0
  {
    if parts != [] {
      ConditionReferencesIn(parts[..|parts| - 1], known, dynamic);
      ConditionReference(parts[|parts| - 1], known, dynamic, AnalyzeParts(parts[..|parts| - 1], known, dynamic));
    }
  }

  lemma {:induction false} ConditionReference(part: Part, known: Known, dynamic: set<Name>, a: Analysis)
    ensures AnalyzePart(part, known, dynamic, a).missingShellCondition.None? ==>
            a.missingShellCondition.None? && AllProvidedIn(part, known, dynamic, IsAvailable(known, dynamic))
    decreases part, 0
  {
    match part
    case PatternQuote(e) => ConditionReferences(e, known, dynamic);
    case Variable(name, op) =>
      if op.Word().Some? {
        ConditionReferences(op.Word().value, known, dynamic);
        assert WordAnalysis(part, known, dynamic) == Analyze(op.Word().value, known, dynamic);
      }
    case _ =>
  }

  lemma {:induction false} PathReferences(e: Expression, known: Known, dynamic: set<Name>)
    ensures var a := Analyze(e, known, dynamic);
            a.missingPath.None? && !a.needsRuntime ==> AllProvided(e, known, dynamic, IsKnown(known))
    decreases e, 1
  {
    PathReferencesIn(e.parts, known, dynamic);
  }

  lemma {:induction false} PathReferencesIn(parts: seq<Part>, known: Known, dynamic: set<Name>)
    ensures var a := AnalyzeParts(parts, known, dynamic);
            a.missingPath.None? && !a.needsRuntime ==>
              forall i :: 0 <= i < |parts| ==> AllProvidedIn(parts[i], known, dynamic, IsKnown(known))
    decreases parts, 0
  {
    if parts != [] {
      PathReferencesIn(parts[..|parts| - 1], known, dynamic);
      PathReference(parts[|parts| - 1], known, dynamic, AnalyzeParts(parts[..|parts| - 1], known, dynamic));
    }
  }

  lemma {:induction false} PathReference(part: Part, known: Known, dynamic: set<Name>, a: Analysis)
    ensures var b := AnalyzePart(part, known, dynamic, a);
            b.missingPath.None? && !b.needsRuntime ==>
              a.missingPath.None? && !a.needsRuntime && AllProvidedIn(part, known, dynamic, IsKnown(known))
    decreases part, 0
  {
    match part
    case PatternQuote(e) => PathReferences(e, known, dynamic);
    case Variable(name, op) =>
      if op.Word().Some? {
        PathReferences(op.Word().value, known, dynamic);
        assert WordAnalysis(part, known, dynamic) == Analyze(op.Word().value, known, dynamic);
      }
    case _ =>
  }

  // ----- What evaluation misses -----

  predicate Misses(r: Result<Meaning, Error>) {
    r.Err? && r.error.MissingVariable?
  }

  /** A delivery that bears the analysis out for the names in play: provided names
      are set, known ones are empty exactly when they were, names that nothing can
      set are unset, and nothing else reports a missing variable. */
  ghost predicate BearsOut(world: World, known: Known, dynamic: set<Name>, provided: Provided, names: Names) {
    (forall name :: names(name) ==> world.variable(name).Ok?) &&
    (forall name :: names(name) && provided(name) ==> world.variable(name).value.Some?) &&
    (forall name :: names(name) && name in known ==> world.variable(name).value.Some? &&
                                                     (world.variable(name).value.value == [] <==> known[name].bytes == [])) &&
    (forall name :: names(name) && !Available(name, known, dynamic) ==> world.variable(name).value.None?) &&
    (forall c :: world.command(c).Err? ==> !world.command(c).error.MissingVariable?) &&
    (forall name :: names(name) && provided(name) && world.regexQuoted(name).Err? ==>
                      !world.regexQuoted(name).error.MissingVariable?)
  }

  lemma {:induction false} ProvidedNeverMisses(e: Expression, known: Known, dynamic: set<Name>, provided: Provided, world: World, names: Names)
    requires AssignmentFree(e) && Within(e, names) && AllProvided(e, known, dynamic, provided) && BearsOut(world, known, dynamic, provided, names)
    ensures var r := Denote(e, world, []); !Misses(r) && (r.Ok? ==> r.value.assignments == [])
    decreases e, 1
  {
    ProvidedPartsNeverMiss(e.parts, known, dynamic, provided, world, names);
  }

  lemma {:induction false} ProvidedPartsNeverMiss(parts: seq<Part>, known: Known, dynamic: set<Name>, provided: Provided, world: World, names: Names)
    requires forall i :: 0 <= i < |parts| ==> PartAssignmentFree(parts[i]) && WithinIn(parts[i], names) && AllProvidedIn(parts[i], known, dynamic, provided)
    requires BearsOut(world, known, dynamic, provided, names)
    ensures var r := DenoteParts(parts, world, Meaning([], [])); !Misses(r) && (r.Ok? ==> r.value.assignments == [])
    decreases parts, 0
  {
    if parts != [] {
      var init := parts[..|parts| - 1];
      ProvidedPartsNeverMiss(init, known, dynamic, provided, world, names);
      var mid := DenoteParts(init, world, Meaning([], []));
      if mid.Ok? {
        ProvidedPartNeverMisses(parts[|parts| - 1], known, dynamic, provided, world, names, mid.value);
      }
    }
  }

  lemma {:induction false} ProvidedPartNeverMisses(part: Part, known: Known, dynamic: set<Name>, provided: Provided,
                                                   world: World, names: Names, m: Meaning)
    requires PartAssignmentFree(part) && WithinIn(part, names) && AllProvidedIn(part, known, dynamic, provided) && m.assignments == []
    requires BearsOut(world, known, dynamic, provided, names)
    ensures var r := DenotePart(part, world, m); !Misses(r) && (r.Ok? ==> r.value.assignments == [])
    decreases part, 0
  {
    match part
    case PatternQuote(e) => ProvidedNeverMisses(e, known, dynamic, provided, world, names);
    case Variable(name, op) =>
      var found := world.variable(name).value;
      assert Find(world, m.assignments, name) == Ok(found);
      assert DenotePart(part, world, m) == DenoteVariable(part, found, world, m);
      if op.Word().Some? && WordMayRun(part, known, dynamic) {
        ProvidedNeverMisses(op.Word().value, known, dynamic, provided, world, names);
      }
    case _ =>
  }

  /** With every name in play, any expression is. */
  lemma {:induction false} AllWithin(e: Expression, names: Names)
    requires forall name :: names(name)
    ensures Within(e, names)
    decreases e, 1
  {
    forall i | 0 <= i < |e.parts| ensures WithinIn(e.parts[i], names) {
      AllWithinIn(e.parts[i], names);
    }
  }

  lemma {:induction false} AllWithinIn(part: Part, names: Names)
    requires forall name :: names(name)
    ensures WithinIn(part, names)
    decreases part, 0
  {
    match part
    case PatternQuote(e) => AllWithin(e, names);
    case Variable(_, op) =>
      if op.Word().Some? {
        AllWithin(op.Word().value, names);
      }
    case _ =>
  }

  /** What `validate_path_references` is for: a path with no reported reference and
      no runtime part never misses a variable over the known values, at any limit. */
  lemma PathsNeverMiss(e: Expression, known: Known, dynamic: set<Name>, limit: nat)
    requires AssignmentFree(e) && Analyze(e, known, dynamic).missingPath.None? && !Analyze(e, known, dynamic).needsRuntime
    ensures var r := Evaluate(e, limit, ConfigContext(known)); r.Err? ==> !r.error.MissingVariable?
  {
    var world := PlainWorld(KnownValues(known));
    PathReferences(e, known, dynamic);
    AllWithin(e, _ => true);
    ProvidedNeverMisses(e, known, dynamic, IsKnown(known), world, _ => true);
    assert Agrees(ConfigContext(known), world);
    EvalComputes(e, limit, 0, ConfigContext(known), world, []);
  }

  /** What `validate_shell_condition_references` is for: a condition with no
      reported reference never misses a variable in a delivery that bears the
      analysis out for its names, in whatever context it is evaluated. */
  lemma ConditionsNeverMiss(e: Expression, known: Known, dynamic: set<Name>, world: World, names: Names, ctx: Context, limit: nat)
    requires AssignmentFree(e) && Within(e, names) && Analyze(e, known, dynamic).missingShellCondition.None?
    requires BearsOut(world, known, dynamic, IsAvailable(known, dynamic), names) && Agrees(ctx, world)
    ensures var r := Evaluate(e, limit, ctx); r.Err? ==> !r.error.MissingVariable?
  {
    ConditionReferences(e, known, dynamic);
    ProvidedNeverMisses(e, known, dynamic, IsAvailable(known, dynamic), world, names);
    EvalComputes(e, limit, 0, ctx, world, []);
  }

  // ----- Which deliveries never miss -----

  /** Lookups answer, and only an unset name is reported as missing. */
  ghost predicate Answers(world: World) {
    (forall name :: world.variable(name).Ok?) &&
    (forall c :: world.command(c).Err? ==> !world.command(c).error.MissingVariable?) &&
    (forall name :: world.regexQuoted(name).Err? && world.regexQuoted(name).error.MissingVariable? ==>
                      world.variable(name).value.None?)
  }

  ghost predicate IsSet(world: World, name: Name)
    requires Answers(world)
  {
    world.variable(name).value.Some?
  }

  /** Of the names in play the available ones are those that are set, and a known
      one is as empty as it was. */
  ghost predicate StaysAsAnalyzed(world: World, known: Known, dynamic: set<Name>, names: Names)
    requires Answers(world)
  {
    (forall name :: names(name) ==> (Available(name, known, dynamic) <==> IsSet(world, name))) &&
    (forall name :: names(name) && name in known && IsSet(world, name) ==>
                      (world.variable(name).value.value == [] <==> known[name].bytes == []))
  }

  /** No condition over the names in play misses a variable unreported. */
  ghost predicate NeverMisses(world: World, known: Known, dynamic: set<Name>, names: Names) {
    forall e :: AssignmentFree(e) && Within(e, names) && Analyze(e, known, dynamic).missingShellCondition.None? ==>
                  !Misses(Denote(e, world, []))
  }

  /** The reference `$m`. */
  function Plain(m: Name): Expression {
    Expression([Variable(m, Value)])
  }

  lemma SingleReported(part: Part, known: Known, dynamic: set<Name>)
    ensures Analyze(Expression([part]), known, dynamic) == AnalyzePart(part, known, dynamic, INITIAL)
  {
    var parts := [part];
    assert parts[..|parts| - 1] == [];
    assert AnalyzeParts(parts, known, dynamic) == AnalyzePart(part, known, dynamic, INITIAL);
  }

  /** An available name that is not set: `$X` misses unreported. */
  lemma UnsetNameMisses(x: Name, known: Known, dynamic: set<Name>, world: World, names: Names) returns (e: Expression)
    requires Answers(world) && names(x) && Available(x, known, dynamic) && !IsSet(world, x)
    ensures AssignmentFree(e) && Within(e, names) && Analyze(e, known, dynamic).missingShellCondition.None?
    ensures Denote(e, world, []) == Err(MissingVariable(x))
  {
    var part := Variable(x, Value);
    e := Plain(x);
    assert PartAssignmentFree(part);
    SingleReported(part, known, dynamic);
    assert WithinIn(part, names);
    DenoteSingle(part, world);
  }

  /** A word that is not looked at, since `x` is taken to be otherwise than it is,
      misses the name `m` in it. */
  lemma SkippedWordMisses(x: Name, op: Operation, m: Name, known: Known, dynamic: set<Name>, world: World, names: Names)
    requires Answers(world) && names(x) && names(m) && !IsSet(world, m) && op.Word() == Some(Plain(m)) && PartAssignmentFree(Variable(x, op))
    requires op.DefaultIfUnsetOrEmpty? || op.AlternateIfSet? || op.AlternateIfSetAndNotEmpty?
    requires !WordMayRun(Variable(x, op), known, dynamic)
    requires var found := world.variable(x).value; op.EvaluatesWord(found.Some?, found == Some([]))
    ensures var e := Expression([Variable(x, op)]);
            AssignmentFree(e) && Within(e, names) && Analyze(e, known, dynamic).missingShellCondition.None? &&
            Denote(e, world, []) == Err(MissingVariable(m))
  {
    SingleReported(Variable(x, op), known, dynamic);
    assert WithinIn(Variable(m, Value), names);
    DenoteSingle(Variable(m, Value), world);
    DenoteSingle(Variable(x, op), world);
  }

  lemma PlainWord(m: Name)
    ensures AssignmentFree(Plain(m))
  {
    assert PartAssignmentFree(Variable(m, Value));
  }

  /** A name that is not available and is set all the same: `${X+$m}`. */
  lemma SurpriseNameMisses(x: Name, m: Name, known: Known, dynamic: set<Name>, world: World, names: Names) returns (e: Expression)
    requires Answers(world) && names(x) && names(m) && !IsSet(world, m) && !Available(x, known, dynamic) && IsSet(world, x)
    ensures AssignmentFree(e) && Within(e, names) && Analyze(e, known, dynamic).missingShellCondition.None?
    ensures Denote(e, world, []) == Err(MissingVariable(m))
  {
    PlainWord(m);
    e := Expression([Variable(x, AlternateIfSet(Plain(m)))]);
    SkippedWordMisses(x, AlternateIfSet(Plain(m)), m, known, dynamic, world, names);
  }

  /** A known name that was not empty and now is: `${X:-$m}`. */
  lemma EmptiedNameMisses(x: Name, m: Name, known: Known, dynamic: set<Name>, world: World, names: Names) returns (e: Expression)
    requires Answers(world) && names(x) && names(m) && !IsSet(world, m) && x in known && known[x].bytes != [] && world.variable(x) == Ok(Some([]))
    ensures AssignmentFree(e) && Within(e, names) && Analyze(e, known, dynamic).missingShellCondition.None?
    ensures Denote(e, world, []) == Err(MissingVariable(m))
  {
    PlainWord(m);
    e := Expression([Variable(x, DefaultIfUnsetOrEmpty(Plain(m)))]);
    SkippedWordMisses(x, DefaultIfUnsetOrEmpty(Plain(m)), m, known, dynamic, world, names);
  }

  /** A known name that was empty and now is not: `${X:+$m}`. */
  lemma FilledNameMisses(x: Name, m: Name, known: Known, dynamic: set<Name>, world: World, names: Names) returns (e: Expression)
    requires Answers(world) && names(x) && names(m) && !IsSet(world, m) && x in known && known[x].bytes == []
    requires IsSet(world, x) && world.variable(x).value.value != []
    ensures AssignmentFree(e) && Within(e, names) && Analyze(e, known, dynamic).missingShellCondition.None?
    ensures Denote(e, world, []) == Err(MissingVariable(m))
  {
    PlainWord(m);
    e := Expression([Variable(x, AlternateIfSetAndNotEmpty(Plain(m)))]);
    SkippedWordMisses(x, AlternateIfSetAndNotEmpty(Plain(m)), m, known, dynamic, world, names);
  }

  /** Every name in play is set. */
  ghost predicate AllSet(world: World, names: Names)
    requires Answers(world)
  {
    forall name :: names(name) ==> IsSet(world, name)
  }

  lemma {:induction false} SetNeverMisses(e: Expression, world: World, names: Names)
    requires Answers(world) && AllSet(world, names) && AssignmentFree(e) && Within(e, names)
    ensures var r := Denote(e, world, []); !Misses(r) && (r.Ok? ==> r.value.assignments == [])
    decreases e, 1
  {
    SetPartsNeverMiss(e.parts, world, names);
  }

  lemma {:induction false} SetPartsNeverMiss(parts: seq<Part>, world: World, names: Names)
    requires Answers(world) && AllSet(world, names)
    requires forall i :: 0 <= i < |parts| ==> PartAssignmentFree(parts[i]) && WithinIn(parts[i], names)
    ensures var r := DenoteParts(parts, world, Meaning([], [])); !Misses(r) && (r.Ok? ==> r.value.assignments == [])
    decreases parts, 0
  {
    if parts != [] {
      var init := parts[..|parts| - 1];
      SetPartsNeverMiss(init, world, names);
      var mid := DenoteParts(init, world, Meaning([], []));
      if mid.Ok? {
        SetPartNeverMisses(parts[|parts| - 1], world, names, mid.value);
      }
    }
  }

  lemma {:induction false} SetPartNeverMisses(part: Part, world: World, names: Names, m: Meaning)
    requires Answers(world) && AllSet(world, names)
    requires PartAssignmentFree(part) && WithinIn(part, names) && m.assignments == []
    ensures var r := DenotePart(part, world, m); !Misses(r) && (r.Ok? ==> r.value.assignments == [])
    decreases part, 0
  {
    match part
    case PatternQuote(e) => SetNeverMisses(e, world, names);
    case Variable(name, op) =>
      var found := world.variable(name).value;
      assert IsSet(world, name);
      assert Find(world, m.assignments, name) == Ok(found);
      assert DenotePart(part, world, m) == DenoteVariable(part, found, world, m);
      if op.Word().Some? {
        SetNeverMisses(op.Word().value, world, names);
      }
    case RegexQuotedVariable(name) => assert IsSet(world, name);
    case _ =>
  }

  /** The conditions over the names in play that have no reported reference never
      miss a variable exactly when those names stay as the analysis took them to
      be, or are set altogether. */
  lemma ConditionsNeverMissExactly(known: Known, dynamic: set<Name>, world: World, names: Names)
    requires Answers(world)
    ensures NeverMisses(world, known, dynamic, names) <==>
            StaysAsAnalyzed(world, known, dynamic, names) || AllSet(world, names)
  {
    if StaysAsAnalyzed(world, known, dynamic, names) || AllSet(world, names) {
      forall e | AssignmentFree(e) && Within(e, names) && Analyze(e, known, dynamic).missingShellCondition.None?
        ensures !Misses(Denote(e, world, []))
      {
        if AllSet(world, names) {
          SetNeverMisses(e, world, names);
        } else {
          StayingNeverMisses(e, known, dynamic, world, names);
        }
      }
    } else {
      var m :| names(m) && !IsSet(world, m);
      var e := SomeConditionMisses(m, known, dynamic, world, names);
    }
  }

  lemma StayingNeverMisses(e: Expression, known: Known, dynamic: set<Name>, world: World, names: Names)
    requires Answers(world) && StaysAsAnalyzed(world, known, dynamic, names)
    requires AssignmentFree(e) && Within(e, names) && Analyze(e, known, dynamic).missingShellCondition.None?
    ensures !Misses(Denote(e, world, []))
  {
    assert forall name :: names(name) && name in known ==> Available(name, known, dynamic) && IsSet(world, name);
    ConditionReferences(e, known, dynamic);
    ProvidedNeverMisses(e, known, dynamic, IsAvailable(known, dynamic), world, names);
  }

  /** Where names in play do not stay as analyzed and `m` is not set, one of the
      four conditions misses. */
  lemma SomeConditionMisses(m: Name, known: Known, dynamic: set<Name>, world: World, names: Names) returns (e: Expression)
    requires Answers(world) && names(m) && !IsSet(world, m) && !StaysAsAnalyzed(world, known, dynamic, names)
    ensures AssignmentFree(e) && Within(e, names) && Analyze(e, known, dynamic).missingShellCondition.None?
    ensures Misses(Denote(e, world, []))
  {
    if x :| names(x) && Available(x, known, dynamic) && !IsSet(world, x) {
      e := UnsetNameMisses(x, known, dynamic, world, names);
    } else if x :| names(x) && !Available(x, known, dynamic) && IsSet(world, x) {
      e := SurpriseNameMisses(x, m, known, dynamic, world, names);
    } else {
      var x :| names(x) && x in known && IsSet(world, x) && !(world.variable(x).value.value == [] <==> known[x].bytes == []);
      if known[x].bytes == [] {
        e := FilledNameMisses(x, m, known, dynamic, world, names);
      } else {
        e := EmptiedNameMisses(x, m, known, dynamic, world, names);
      }
    }
  }

  // ----- Such deliveries exist -----

  /** Lookup in a finite store, with no commands. */
  function StoreWorld(store: map<Name, seq<Byte>>): World {
    PlainWorld(name => if name in store then Some(store[name]) else None)
  }

  /** For any analysis and any finite number of names, a finite store bears it out. */
  lemma SomeStoreStays(known: Known, dynamic: set<Name>, inPlay: set<Name>) returns (store: map<Name, seq<Byte>>)
    ensures Answers(StoreWorld(store)) && StaysAsAnalyzed(StoreWorld(store), known, dynamic, name => name in inPlay)
    ensures BearsOut(StoreWorld(store), known, dynamic, IsAvailable(known, dynamic), name => name in inPlay)
  {
    store := map name | name in inPlay && Available(name, known, dynamic) :: if name in known then known[name].bytes else [];
    var world := StoreWorld(store);
    assert forall name :: world.variable(name) == Ok(if name in store then Some(store[name]) else None);
  }
}
