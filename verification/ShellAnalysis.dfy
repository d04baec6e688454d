/** The static analysis that decides, before delivery, whether an expression can
    be evaluated now and which reference would fail first. */
module ShellAnalysis {
  import opened Bytes
  import opened ShellExpression
  import opened ShellEval
  import opened ShellMeaning
  import opened ShellBind

  type Known = map<Name, VariableValue>

  datatype Analysis = Analysis(
    missingRuntime: Option<Name>,
    missingShellCondition: Option<Name>,
    missingPath: Option<Name>,
    needsRuntime: bool,
    referencesDynamic: bool,
    hasRuntimeVariable: bool,
    hasCommand: bool,
    hasAssignment: bool,
    hasRegexQuotedVariable: bool,
    shellConditionStatic: bool)

  const INITIAL: Analysis :=
    Analysis(None, None, None, false, false, false, false, false, false, true)

  function MergeFirst(target: Option<Name>, nested: Option<Name>, current: Option<Name>): Option<Name> {
    if target.Some? then target else if nested.Some? then nested else current
  }

  predicate Available(name: Name, known: Known, dynamic: set<Name>) {
    name in known || name in dynamic || RuntimeOnly(name)
  }

  /** Whether the word of an operation can run, as far as the known values tell. */
  predicate WordMayRun(part: Part, known: Known, dynamic: set<Name>)
    requires part.Variable?
  {
    if part.name in known then part.operation.EvaluatesWord(true, known[part.name].bytes == [])
    else if Available(part.name, known, dynamic) then part.operation.Word().Some?
    else part.operation.EvaluatesWord(false, false)
  }

  function Analyze(e: Expression, known: Known, dynamic: set<Name>): Analysis
    decreases e, 1
  {
    AnalyzeParts(e.parts, known, dynamic)
  }

  function AnalyzeParts(parts: seq<Part>, known: Known, dynamic: set<Name>): Analysis
    decreases parts, 0
  {
    if parts == [] then INITIAL
    else AnalyzePart(parts[|parts| - 1], known, dynamic, AnalyzeParts(parts[..|parts| - 1], known, dynamic))
  }

  /** The word's own summary; INITIAL, which merges as nothing, when there is no word. */
  function WordAnalysis(part: Part, known: Known, dynamic: set<Name>): Analysis
    requires part.Variable?
    decreases part, 0
  {
    match part.operation.Word()
    case None => INITIAL
    case Some(word) => Analyze(word, known, dynamic)
  }

  function AnalyzePart(part: Part, known: Known, dynamic: set<Name>, a: Analysis): Analysis
    decreases part, 1
  {
    match part
    case Literal(_) => a
    case Variable(_, _) => AddVariable(part, known, dynamic, a, WordAnalysis(part, known, dynamic))
    case RegexQuotedVariable(name) =>
      a.(missingShellCondition := MergeFirst(a.missingShellCondition, None,
           if Available(name, known, dynamic) then None else Some(name)),
         referencesDynamic := a.referencesDynamic || name in dynamic,
         hasRegexQuotedVariable := true,
         needsRuntime := true,
         shellConditionStatic := a.shellConditionStatic && name in known && name !in dynamic && !RuntimeOnly(name))
    case Command(_) => a.(hasCommand := true, needsRuntime := true, shellConditionStatic := false)
    case PatternQuote(e) =>
      var child := Analyze(e, known, dynamic);
      Analysis(
        MergeFirst(a.missingRuntime, child.missingRuntime, None),
        MergeFirst(a.missingShellCondition, child.missingShellCondition, None),
        MergeFirst(a.missingPath, child.missingPath, None),
        a.needsRuntime || child.needsRuntime,
        a.referencesDynamic || child.referencesDynamic,
        a.hasRuntimeVariable || child.hasRuntimeVariable,
        a.hasCommand || child.hasCommand,
        a.hasAssignment || child.hasAssignment,
        a.hasRegexQuotedVariable || child.hasRegexQuotedVariable,
        a.shellConditionStatic && child.shellConditionStatic)
  }

  function AddVariable(part: Part, known: Known, dynamic: set<Name>, a: Analysis, child: Analysis): Analysis
    requires part.Variable?
  {
    var name, op := part.name, part.operation;
    var runs := WordMayRun(part, known, dynamic);
    var runtime := RuntimeOnly(name);
    var missing := if !Available(name, known, dynamic) && op.RequiresValue() then Some(name) else None;
    Analysis(
      MergeFirst(MergeFirst(a.missingRuntime, None, missing), if runs then child.missingRuntime else None, None),
      MergeFirst(MergeFirst(a.missingShellCondition, None, missing),
                 if runs then child.missingShellCondition else None, None),
      if runtime then a.missingPath
      else MergeFirst(a.missingPath, if runs then child.missingPath else None,
                      if name !in known && op.RequiresValue() then Some(name) else None),
      a.needsRuntime || runtime || (runs && child.needsRuntime),
      a.referencesDynamic || runtime || name in dynamic || (runs && child.referencesDynamic),
      a.hasRuntimeVariable || runtime || (runs && child.hasRuntimeVariable),
      a.hasCommand || (runs && child.hasCommand),
      a.hasAssignment || op.AssignIfUnsetOrEmpty? || (runs && child.hasAssignment),
      a.hasRegexQuotedVariable || (runs && child.hasRegexQuotedVariable),
      a.shellConditionStatic &&
      (if name in dynamic || runtime then false
       else if runs then child.shellConditionStatic
       else Available(name, known, dynamic) || !op.RequiresValue()))
  }

  /** The loop that accumulates the analysis of an expression. */
  method AnalyzeExpression(e: Expression, known: Known, dynamic: set<Name>) returns (a: Analysis)
    ensures a == Analyze(e, known, dynamic)
    decreases e
  {
    a := INITIAL;
    var index := 0;
    while index < |e.parts|
      invariant 0 <= index <= |e.parts|
      invariant a == AnalyzeParts(e.parts[..index], known, dynamic)
    {
      var part := e.parts[index];
      assert e.parts[..index + 1][..index] == e.parts[..index];
      match part {
        case Variable(_, op) =>
          var child := INITIAL;
          if op.Word().Some? {
            child := AnalyzeExpression(op.Word().value, known, dynamic);
          }
          assert child == WordAnalysis(part, known, dynamic);
          assert AnalyzePart(part, known, dynamic, a) == AddVariable(part, known, dynamic, a, child);
          a := AddVariable(part, known, dynamic, a, child);
        case _ =>
          a := AnalyzePart(part, known, dynamic, a);
      }
      index := index + 1;
    }
    assert e.parts[..index] == e.parts;
  }

  // ----- The analysis predicts evaluation over the known values -----

  function KnownValues(known: Known): Values {
    name => if name in known then Some(known[name].bytes) else None
  }

  /** The adapter that evaluates configuration over known values only. */
  function ConfigContext(known: Known): Context {
    Context(ExpansionChain,
            name => Ok(if name in known then Some(known[name]) else None),
            (c, n) => Err(Unsupported(CommandPart)),
            (name, n) => Err(Unsupported(RegexQuotedPart)))
  }

  predicate SelfContained(a: Analysis) {
    !a.needsRuntime && !a.referencesDynamic
  }

  /** What a run says about the reference the analysis reports first. */
  predicate Predicts(missing: Option<Name>, r: Result<Meaning, Error>) {
    match r
    case Ok(m) => missing.None? && m.assignments == []
    case Err(MissingVariable(name)) => missing == Some(name)
    case Err(RequiredParameter(_)) => true
    case Err(Pattern(_)) => true
    case Err(_) => false
  }

  lemma {:induction false} AnalysisPredicts(e: Expression, known: Known, dynamic: set<Name>)
    requires AssignmentFree(e) && SelfContained(Analyze(e, known, dynamic))
    ensures Predicts(Analyze(e, known, dynamic).missingRuntime, Denote(e, PlainWorld(KnownValues(known)), []))
    decreases e, 1
  {
    PartsPredict(e.parts, known, dynamic);
  }

  lemma {:induction false} PartsPredict(parts: seq<Part>, known: Known, dynamic: set<Name>)
    requires forall i :: 0 <= i < |parts| ==> PartAssignmentFree(parts[i])
    requires SelfContained(AnalyzeParts(parts, known, dynamic))
    ensures Predicts(AnalyzeParts(parts, known, dynamic).missingRuntime,
                     DenoteParts(parts, PlainWorld(KnownValues(known)), Meaning([], [])))
    decreases parts, 0
  {
    if parts != [] {
      var init, last := parts[..|parts| - 1], parts[|parts| - 1];
      var before := AnalyzeParts(init, known, dynamic);
      AnalysisGrows(last, known, dynamic, before);
      PartsPredict(init, known, dynamic);
      var mid := DenoteParts(init, PlainWorld(KnownValues(known)), Meaning([], []));
      if mid.Ok? {
        PartPredicts(last, known, dynamic, before, mid.value);
      }
    }
  }

  lemma AnalysisGrows(part: Part, known: Known, dynamic: set<Name>, a: Analysis)
    ensures var b := AnalyzePart(part, known, dynamic, a);
            (SelfContained(b) ==> SelfContained(a)) &&
            (a.missingRuntime.Some? ==> b.missingRuntime == a.missingRuntime)
  {
  }

  lemma {:induction false} PartPredicts(part: Part, known: Known, dynamic: set<Name>, a: Analysis, m: Meaning)
    requires PartAssignmentFree(part) && m.assignments == [] && a.missingRuntime.None?
    requires SelfContained(AnalyzePart(part, known, dynamic, a))
    ensures Predicts(AnalyzePart(part, known, dynamic, a).missingRuntime,
                     DenotePart(part, PlainWorld(KnownValues(known)), m))
    decreases part, 1
  {
    match part
    case Literal(_) =>
    case PatternQuote(e) => AnalysisPredicts(e, known, dynamic);
    case Variable(name, op) =>
      VariablePredicts(part, known, dynamic, a, m);
    case _ =>
  }

  lemma {:induction false} VariablePredicts(part: Part, known: Known, dynamic: set<Name>, a: Analysis, m: Meaning)
    requires part.Variable? && PartAssignmentFree(part) && m.assignments == [] && a.missingRuntime.None?
    requires SelfContained(AnalyzePart(part, known, dynamic, a))
    ensures Predicts(AnalyzePart(part, known, dynamic, a).missingRuntime,
                     DenotePart(part, PlainWorld(KnownValues(known)), m))
    decreases part, 0
  {
    var child := WordAnalysis(part, known, dynamic);
    assert AnalyzePart(part, known, dynamic, a) == AddVariable(part, known, dynamic, a, child);
    if WordMayRun(part, known, dynamic) {
      var word := part.operation.Word().value;
      assert child == Analyze(word, known, dynamic);
      AnalysisPredicts(word, known, dynamic);
    }
    var world, found := PlainWorld(KnownValues(known)), KnownValues(known)(part.name);
    assert Find(world, m.assignments, part.name) == Ok(found);
    assert DenotePart(part, world, m) == DenoteVariable(part, found, world, m);
  }

  /** Soundness over the bounded evaluator: a self-contained expression with no
      reported reference never misses a variable or meets an unsupported part, at
      any limit; and a miss is always the reference the analysis reports. */
  lemma AnalysisIsSound(e: Expression, known: Known, dynamic: set<Name>, limit: nat)
    requires AssignmentFree(e) && SelfContained(Analyze(e, known, dynamic))
    ensures match Evaluate(e, limit, ConfigContext(known))
            case Ok(st) => Analyze(e, known, dynamic).missingRuntime.None? && st.assignments == []
            case Err(MissingVariable(name)) => Analyze(e, known, dynamic).missingRuntime == Some(name)
            case Err(Unsupported(_)) => false
            case Err(External(_)) => false
            case Err(_) => true
  {
    assert Agrees(ConfigContext(known), PlainWorld(KnownValues(known)));
    EvalComputes(e, limit, 0, ConfigContext(known), PlainWorld(KnownValues(known)), []);
    AnalysisPredicts(e, known, dynamic);
  }

  // ----- A condition reported static does not depend on delivery -----

  /** Which names are in play. */
  type Names = Name -> bool

  /** Every name the expression mentions is in play. */
  predicate Within(e: Expression, names: Names)
    decreases e, 1
  {
    forall i :: 0 <= i < |e.parts| ==> WithinIn(e.parts[i], names)
  }

  predicate WithinIn(part: Part, names: Names)
    decreases part, 0
  {
    match part
    case Variable(name, op) => names(name) && (op.Word().Some? ==> Within(op.Word().value, names))
    case RegexQuotedVariable(name) => names(name)
    case PatternQuote(e) => Within(e, names)
    case _ => true
  }

  /** A world in which every name in play that delivery cannot change has its known value. */
  ghost predicate Extends(world: World, known: Known, dynamic: set<Name>, names: Names) {
    forall name :: names(name) && name !in dynamic && !RuntimeOnly(name) ==> world.variable(name) == Ok(KnownValues(known)(name))
  }

  ghost predicate SameQuotes(a: World, b: World, known: Known, dynamic: set<Name>, names: Names) {
    forall name :: names(name) && name in known && name !in dynamic && !RuntimeOnly(name) ==>
                     a.regexQuoted(name) == b.regexQuoted(name)
  }

  ghost predicate Deliveries(a: World, b: World, known: Known, dynamic: set<Name>, names: Names) {
    Extends(a, known, dynamic, names) && Extends(b, known, dynamic, names) && SameQuotes(a, b, known, dynamic, names)
  }

  predicate SameUnstaged(a: Result<Meaning, Error>, b: Result<Meaning, Error>) {
    a == b && (a.Ok? ==> a.value.assignments == [])
  }

  lemma {:induction false} StaticMeansSame(e: Expression, known: Known, dynamic: set<Name>, a: World, b: World, names: Names)
    requires AssignmentFree(e) && Within(e, names) && Analyze(e, known, dynamic).shellConditionStatic && Deliveries(a, b, known, dynamic, names)
    ensures SameUnstaged(Denote(e, a, []), Denote(e, b, []))
    decreases e, 1
  {
    StaticPartsMeanSame(e.parts, known, dynamic, a, b, names);
  }

  lemma {:induction false} StaticPartsMeanSame(parts: seq<Part>, known: Known, dynamic: set<Name>, a: World, b: World, names: Names)
    requires forall i :: 0 <= i < |parts| ==> PartAssignmentFree(parts[i]) && WithinIn(parts[i], names)
    requires AnalyzeParts(parts, known, dynamic).shellConditionStatic && Deliveries(a, b, known, dynamic, names)
    ensures SameUnstaged(DenoteParts(parts, a, Meaning([], [])), DenoteParts(parts, b, Meaning([], [])))
    decreases parts, 0
  {
    if parts != [] {
      var init, last := parts[..|parts| - 1], parts[|parts| - 1];
      StaticPartsMeanSame(init, known, dynamic, a, b, names);
      var mid := DenoteParts(init, a, Meaning([], []));
      if mid.Ok? {
        StaticPartMeansSame(last, known, dynamic, AnalyzeParts(init, known, dynamic), a, b, names, mid.value);
      }
    }
  }

  lemma {:induction false} StaticPartMeansSame(part: Part, known: Known, dynamic: set<Name>, before: Analysis,
                                               a: World, b: World, names: Names, m: Meaning)
    requires PartAssignmentFree(part) && WithinIn(part, names) && m.assignments == []
    requires AnalyzePart(part, known, dynamic, before).shellConditionStatic && Deliveries(a, b, known, dynamic, names)
    ensures SameUnstaged(DenotePart(part, a, m), DenotePart(part, b, m))
    decreases part, 1
  {
    match part
    case PatternQuote(e) => StaticMeansSame(e, known, dynamic, a, b, names);
    case Variable(name, op) =>
      assert Find(a, [], name) == Find(b, [], name) == Ok(KnownValues(known)(name));
      if WordMayRun(part, known, dynamic) {
        StaticMeansSame(op.Word().value, known, dynamic, a, b, names);
      }
    case _ =>
  }

  /** An expression the analysis calls static means the same in every two deliveries
      that give its names the known values, unless delivery may change them. */
  lemma StaticConditionIsFixed(e: Expression, known: Known, dynamic: set<Name>, a: World, b: World, names: Names)
    requires AssignmentFree(e) && Within(e, names) && Analyze(e, known, dynamic).shellConditionStatic && Deliveries(a, b, known, dynamic, names)
    ensures Denote(e, a, []) == Denote(e, b, [])
  {
    StaticMeansSame(e, known, dynamic, a, b, names);
  }
}
