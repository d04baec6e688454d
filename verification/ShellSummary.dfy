/** What the analysis reports, in terms of the parts of an expression that may run. */
module ShellSummary {
  import opened Bytes
  import opened ShellExpression
  import opened ShellBind
  import opened ShellAnalysis

  // ----- The parts that may run -----

  /** The parts that may run, those of a word after the part that holds it. */
  function MayRun(parts: seq<Part>, known: Known, dynamic: set<Name>): seq<Part>
    decreases parts, 0
  {
    if parts == [] then []
    else MayRun(parts[..|parts| - 1], known, dynamic) + PartMayRun(parts[|parts| - 1], known, dynamic)
  }

  function PartMayRun(part: Part, known: Known, dynamic: set<Name>): seq<Part>
    decreases part, 0
  {
    match part
    case PatternQuote(e) => [part] + MayRun(e.parts, known, dynamic)
    case Variable(_, op) =>
      [part] + if WordMayRun(part, known, dynamic) && op.Word().Some? then MayRun(op.Word().value.parts, known, dynamic) else []
    case _ => [part]
  }

  /** The variables of a path, those of a word before the part that holds it;
      runtime-only names are left to delivery, with their words. */
  function OfPath(parts: seq<Part>, known: Known, dynamic: set<Name>): seq<Part>
    decreases parts, 0
  {
    if parts == [] then []
    else OfPath(parts[..|parts| - 1], known, dynamic) + PartOfPath(parts[|parts| - 1], known, dynamic)
  }

  function PartOfPath(part: Part, known: Known, dynamic: set<Name>): seq<Part>
    decreases part, 0
  {
    match part
    case PatternQuote(e) => OfPath(e.parts, known, dynamic)
    case Variable(name, op) =>
      if RuntimeOnly(name) then []
      else (if WordMayRun(part, known, dynamic) && op.Word().Some? then OfPath(op.Word().value.parts, known, dynamic) else []) + [part]
    case _ => []
  }

  // ----- What is asked of each part -----

  predicate IsRuntimeVariable(p: Part) {
    p.Variable? && RuntimeOnly(p.name)
  }

  predicate NeedsDelivery(p: Part) {
    p.Command? || p.RegexQuotedVariable? || IsRuntimeVariable(p)
  }

  predicate IsAssignment(p: Part) {
    p.Variable? && p.operation.AssignIfUnsetOrEmpty?
  }

  predicate ReadsDynamic(p: Part, dynamic: set<Name>) {
    IsRuntimeVariable(p) || ((p.Variable? || p.RegexQuotedVariable?) && p.name in dynamic)
  }

  predicate LacksValue(p: Part, known: Known, dynamic: set<Name>) {
    p.Variable? && p.operation.RequiresValue() && !Available(p.name, known, dynamic)
  }

  predicate LacksInCondition(p: Part, known: Known, dynamic: set<Name>) {
    LacksValue(p, known, dynamic) || (p.RegexQuotedVariable? && !Available(p.name, known, dynamic))
  }

  predicate LacksInPath(p: Part, known: Known) {
    p.Variable? && p.operation.RequiresValue() && p.name !in known
  }

  /** Its value is known now and stays so. */
  predicate IsFixed(p: Part, known: Known, dynamic: set<Name>) {
    match p
    case Command(_) => false
    case RegexQuotedVariable(name) => name in known && name !in dynamic && !RuntimeOnly(name)
    case Variable(name, _) => name !in dynamic && !RuntimeOnly(name) && !LacksValue(p, known, dynamic)
    case _ => true
  }

  // ----- Summaries -----

  function Joined(a: Analysis, b: Analysis): Analysis {
    Analysis(
      MergeFirst(a.missingRuntime, b.missingRuntime, None),
      MergeFirst(a.missingShellCondition, b.missingShellCondition, None),
      None,
      a.needsRuntime || b.needsRuntime,
      a.referencesDynamic || b.referencesDynamic,
      a.hasRuntimeVariable || b.hasRuntimeVariable,
      a.hasCommand || b.hasCommand,
      a.hasAssignment || b.hasAssignment,
      a.hasRegexQuotedVariable || b.hasRegexQuotedVariable,
      a.shellConditionStatic && b.shellConditionStatic)
  }

  function NameIf(p: Part, wanted: bool): Option<Name>
    requires wanted ==> p.Variable? || p.RegexQuotedVariable?
  {
    if wanted then Some(p.name) else None
  }

  function One(p: Part, known: Known, dynamic: set<Name>): Analysis {
    Analysis(
      NameIf(p, LacksValue(p, known, dynamic)), NameIf(p, LacksInCondition(p, known, dynamic)), None,
      NeedsDelivery(p), ReadsDynamic(p, dynamic), IsRuntimeVariable(p), p.Command?, IsAssignment(p), p.RegexQuotedVariable?,
      IsFixed(p, known, dynamic))
  }

  function Summary(ps: seq<Part>, known: Known, dynamic: set<Name>): Analysis {
    if ps == [] then INITIAL else Joined(Summary(ps[..|ps| - 1], known, dynamic), One(ps[|ps| - 1], known, dynamic))
  }

  lemma {:induction false} SummaryJoins(a: seq<Part>, b: seq<Part>, known: Known, dynamic: set<Name>)
    ensures Summary(a + b, known, dynamic) == Joined(Summary(a, known, dynamic), Summary(b, known, dynamic))
    decreases |b|
  {
    if b == [] {
      NoneRight(a);
    } else {
      assert (a + b)[..|a + b| - 1] == a + b[..|b| - 1];
      SummaryJoins(a, b[..|b| - 1], known, dynamic);
    }
  }

  lemma OneSummary(p: Part, known: Known, dynamic: set<Name>)
    ensures Summary([p], known, dynamic) == One(p, known, dynamic)
  {
    var ps := [p];
    assert ps[..|ps| - 1] == [];
  }

  lemma {:induction false} PartsAreSummed(parts: seq<Part>, known: Known, dynamic: set<Name>)
    ensures AnalyzeParts(parts, known, dynamic).(missingPath := None) == Summary(MayRun(parts, known, dynamic), known, dynamic)
    decreases parts, 0
  {
    if parts != [] {
      var init, last := parts[..|parts| - 1], parts[|parts| - 1];
      PartsAreSummed(init, known, dynamic);
      PartIsSummed(last, known, dynamic, AnalyzeParts(init, known, dynamic));
      SummaryJoins(MayRun(init, known, dynamic), PartMayRun(last, known, dynamic), known, dynamic);
    }
  }

  lemma VariableIsJoined(part: Part, known: Known, dynamic: set<Name>, a: Analysis, child: Analysis)
    requires part.Variable?
    ensures var own := One(part, known, dynamic);
            AddVariable(part, known, dynamic, a, child).(missingPath := None) ==
            Joined(a, if WordMayRun(part, known, dynamic) then Joined(own, child) else own)
  {
  }

  lemma {:induction false} PartIsSummed(part: Part, known: Known, dynamic: set<Name>, a: Analysis)
    ensures AnalyzePart(part, known, dynamic, a).(missingPath := None) ==
            Joined(a, Summary(PartMayRun(part, known, dynamic), known, dynamic))
    decreases part, 1
  {
    OneSummary(part, known, dynamic);
    match part
    case PatternQuote(e) =>
      PartsAreSummed(e.parts, known, dynamic);
      SummaryJoins([part], MayRun(e.parts, known, dynamic), known, dynamic);
    case Variable(_, _) => VariableIsSummed(part, known, dynamic, a);
    case _ =>
  }

  lemma {:induction false} VariableIsSummed(part: Part, known: Known, dynamic: set<Name>, a: Analysis)
    requires part.Variable?
    ensures AnalyzePart(part, known, dynamic, a).(missingPath := None) ==
            Joined(a, Summary(PartMayRun(part, known, dynamic), known, dynamic))
    decreases part, 0, 1
  {
    var child := WordAnalysis(part, known, dynamic);
    OneSummary(part, known, dynamic);
    VariableIsJoined(part, known, dynamic, a, child);
    if WordMayRun(part, known, dynamic) {
      WordIsSummed(part, known, dynamic);
    } else {
      NoneRight([part]);
    }
  }

  lemma {:induction false} WordIsSummed(part: Part, known: Known, dynamic: set<Name>)
    requires part.Variable? && WordMayRun(part, known, dynamic)
    ensures Summary(PartMayRun(part, known, dynamic), known, dynamic) ==
            Joined(Summary([part], known, dynamic), WordAnalysis(part, known, dynamic))
    decreases part, 0, 0
  {
    var word := part.operation.Word().value;
    var ps := MayRun(word.parts, known, dynamic);
    PartsAreSummed(word.parts, known, dynamic);
    SummaryJoins([part], ps, known, dynamic);
    assert PartMayRun(part, known, dynamic) == [part] + ps;
    assert WordAnalysis(part, known, dynamic) == AnalyzeParts(word.parts, known, dynamic);
  }

  // ----- What the analysis reports -----

  datatype Question = Delivery | Dynamic | RuntimeVariable | CommandRun | Assigning | Quoting | NotFixed

  /** What the analysis answers. */
  predicate Reported(q: Question, a: Analysis) {
    match q
    case Delivery => a.needsRuntime
    case Dynamic => a.referencesDynamic
    case RuntimeVariable => a.hasRuntimeVariable
    case CommandRun => a.hasCommand
    case Assigning => a.hasAssignment
    case Quoting => a.hasRegexQuotedVariable
    case NotFixed => !a.shellConditionStatic
  }

  /** What holds of one part. */
  predicate Holds(q: Question, p: Part, known: Known, dynamic: set<Name>) {
    match q
    case Delivery => NeedsDelivery(p)
    case Dynamic => ReadsDynamic(p, dynamic)
    case RuntimeVariable => IsRuntimeVariable(p)
    case CommandRun => p.Command?
    case Assigning => IsAssignment(p)
    case Quoting => p.RegexQuotedVariable?
    case NotFixed => !IsFixed(p, known, dynamic)
  }

  lemma {:induction false} ReportIs(q: Question, ps: seq<Part>, known: Known, dynamic: set<Name>)
    ensures Reported(q, Summary(ps, known, dynamic)) <==> exists k :: 0 <= k < |ps| && Holds(q, ps[k], known, dynamic)
    decreases |ps|
  {
    if ps != [] {
      var init, last := ps[..|ps| - 1], ps[|ps| - 1];
      ReportIs(q, init, known, dynamic);
      assert Reported(q, One(last, known, dynamic)) <==> Holds(q, last, known, dynamic);
      if k :| 0 <= k < |init| && Holds(q, init[k], known, dynamic) {
        assert Holds(q, ps[k], known, dynamic);
      }
      if k :| 0 <= k < |ps| && Holds(q, ps[k], known, dynamic) {
        assert k < |init| ==> Holds(q, init[k], known, dynamic);
      }
    }
  }

  predicate IsNamed(p: Part) {
    p.Variable? || p.RegexQuotedVariable?
  }

  /** `name` is that of the first part that lacks something, if there is one. */
  ghost predicate IsFirst(name: Option<Name>, ps: seq<Part>, lacks: Part -> bool) {
    match name
    case None => forall k :: 0 <= k < |ps| ==> !lacks(ps[k])
    case Some(n) => exists k :: 0 <= k < |ps| && lacks(ps[k]) && IsNamed(ps[k]) && ps[k].name == n &&
                                forall j :: 0 <= j < k ==> !lacks(ps[j])
  }

  lemma FirstJoins(a: seq<Part>, b: seq<Part>, first: Option<Name>, second: Option<Name>, lacks: Part -> bool)
    requires IsFirst(first, a, lacks) && IsFirst(second, b, lacks)
    ensures IsFirst(if first.Some? then first else second, a + b, lacks)
  {
    var ps := a + b;
    assert (forall j :: 0 <= j < |a| ==> ps[j] == a[j]) && forall j :: 0 <= j < |b| ==> ps[|a| + j] == b[j];
    if first.Some? {
      var k :| 0 <= k < |a| && lacks(a[k]) && IsNamed(a[k]) && a[k].name == first.value && forall j :: 0 <= j < k ==> !lacks(a[j]);
      assert lacks(ps[k]) && ps[k].name == first.value;
    } else if second.Some? {
      var k :| 0 <= k < |b| && lacks(b[k]) && IsNamed(b[k]) && b[k].name == second.value && forall j :: 0 <= j < k ==> !lacks(b[j]);
      assert lacks(ps[|a| + k]) && ps[|a| + k].name == second.value;
      assert forall j :: |a| <= j < |a| + k ==> ps[j] == b[j - |a|];
    }
  }

  lemma FirstOfOne(p: Part, lacks: Part -> bool)
    requires lacks(p) ==> IsNamed(p)
    ensures IsFirst(NameIf(p, lacks(p)), [p], lacks)
  {
    var one := [p];
    assert one[0] == p;
  }

  function ValueLacks(known: Known, dynamic: set<Name>): Part -> bool {
    (p: Part) => LacksValue(p, known, dynamic)
  }

  function ConditionLacks(known: Known, dynamic: set<Name>): Part -> bool {
    (p: Part) => LacksInCondition(p, known, dynamic)
  }

  function PathLacks(known: Known): Part -> bool {
    (p: Part) => LacksInPath(p, known)
  }

  lemma {:induction false} MissingIsFirst(ps: seq<Part>, known: Known, dynamic: set<Name>)
    ensures IsFirst(Summary(ps, known, dynamic).missingRuntime, ps, ValueLacks(known, dynamic))
    ensures IsFirst(Summary(ps, known, dynamic).missingShellCondition, ps, ConditionLacks(known, dynamic))
    decreases |ps|
  {
    if ps != [] {
      var init, last := ps[..|ps| - 1], ps[|ps| - 1];
      var before, own := Summary(init, known, dynamic), One(last, known, dynamic);
      MissingIsFirst(init, known, dynamic);
      FirstOfOne(last, ValueLacks(known, dynamic));
      FirstOfOne(last, ConditionLacks(known, dynamic));
      FirstJoins(init, [last], before.missingRuntime, own.missingRuntime, ValueLacks(known, dynamic));
      FirstJoins(init, [last], before.missingShellCondition, own.missingShellCondition, ConditionLacks(known, dynamic));
      assert init + [last] == ps;
    }
  }

  lemma {:induction false} PathIsFirst(parts: seq<Part>, known: Known, dynamic: set<Name>)
    ensures IsFirst(AnalyzeParts(parts, known, dynamic).missingPath, OfPath(parts, known, dynamic), PathLacks(known))
    decreases parts, 0
  {
    if parts != [] {
      var init, last := parts[..|parts| - 1], parts[|parts| - 1];
      var before := AnalyzeParts(init, known, dynamic);
      PathIsFirst(init, known, dynamic);
      var own := PartPathIsFirst(last, known, dynamic, before);
      FirstJoins(OfPath(init, known, dynamic), PartOfPath(last, known, dynamic), before.missingPath, own, PathLacks(known));
    }
  }

  lemma {:induction false} PartPathIsFirst(part: Part, known: Known, dynamic: set<Name>, a: Analysis) returns (own: Option<Name>)
    ensures IsFirst(own, PartOfPath(part, known, dynamic), PathLacks(known))
    ensures AnalyzePart(part, known, dynamic, a).missingPath == if a.missingPath.Some? then a.missingPath else own
    decreases part, 1
  {
    match part
    case PatternQuote(e) =>
      PathIsFirst(e.parts, known, dynamic);
      own := Analyze(e, known, dynamic).missingPath;
    case Variable(name, _) =>
      own := None;
      if !RuntimeOnly(name) {
        own := VariablePathIsFirst(part, known, dynamic, a);
      }
    case _ => own := None;
  }

  lemma {:induction false} VariablePathIsFirst(part: Part, known: Known, dynamic: set<Name>, a: Analysis) returns (own: Option<Name>)
    requires part.Variable? && !RuntimeOnly(part.name)
    ensures IsFirst(own, PartOfPath(part, known, dynamic), PathLacks(known))
    ensures AnalyzePart(part, known, dynamic, a).missingPath == if a.missingPath.Some? then a.missingPath else own
    decreases part, 0
  {
    var child := WordAnalysis(part, known, dynamic);
    assert AnalyzePart(part, known, dynamic, a) == AddVariable(part, known, dynamic, a, child);
    FirstOfOne(part, PathLacks(known));
    var lacking := NameIf(part, LacksInPath(part, known));
    if WordMayRun(part, known, dynamic) {
      var word := part.operation.Word().value;
      PathIsFirst(word.parts, known, dynamic);
      assert WordAnalysis(part, known, dynamic) == AnalyzeParts(word.parts, known, dynamic);
      FirstJoins(OfPath(word.parts, known, dynamic), [part], child.missingPath, lacking, PathLacks(known));
      own := if child.missingPath.Some? then child.missingPath else lacking;
    } else {
      NoneLeft([part]);
      own := lacking;
    }
  }

  /** The analysis is exact about the parts that may run: each flag is set exactly
      when one of them calls for it, and the references reported are the first ones
      lacking. */
  lemma AnalysisIsExact(e: Expression, known: Known, dynamic: set<Name>)
    ensures var a, ps := Analyze(e, known, dynamic), MayRun(e.parts, known, dynamic);
            (forall q :: Reported(q, a) <==> exists k :: 0 <= k < |ps| && Holds(q, ps[k], known, dynamic)) &&
            IsFirst(a.missingRuntime, ps, ValueLacks(known, dynamic)) &&
            IsFirst(a.missingShellCondition, ps, ConditionLacks(known, dynamic)) &&
            IsFirst(a.missingPath, OfPath(e.parts, known, dynamic), PathLacks(known))
  {
    var ps := MayRun(e.parts, known, dynamic);
    PartsAreSummed(e.parts, known, dynamic);
    forall q ensures Reported(q, Analyze(e, known, dynamic)) <==> exists k :: 0 <= k < |ps| && Holds(q, ps[k], known, dynamic) {
      ReportIs(q, ps, known, dynamic);
    }
    MissingIsFirst(ps, known, dynamic);
    PathIsFirst(e.parts, known, dynamic);
  }
}
