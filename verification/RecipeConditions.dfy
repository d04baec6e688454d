/** When deciding a recipe from the header first is the same as evaluating its
    conditions in order: a condition on the list that needs no message. */
module RecipeConditions {
  import opened Bytes
  import opened RuntimeState
  import opened EarlyDecision
  import opened RecipePhases
  import opened ConditionEffects
  import FoldNormalize
  import IngestSpec
  import PhysicalLines
  import Utf8

  function EarlyOn(header: seq<Byte>): Early {
    (c: Condition, s: State) => MatchesHeaders(c, header, s)
  }

  function CompleteOn(header: seq<Byte>, body: seq<Byte>): Complete {
    (c: Condition, s: State) => MatchesComplete(c, header, body, s)
  }

  function WaitsOn(header: seq<Byte>): Condition -> bool {
    (c: Condition) => Waits(c, header)
  }

  /** The header phase and, if it leaves the recipe open, the rest. */
  function Planned(conds: seq<Condition>, header: seq<Byte>, body: seq<Byte>, st: State): Result<(bool, State), EvalError> {
    TwoPhases(EarlyOn(header), CompleteOn(header, body), conds, 0, st)
  }

  /** All conditions in order on the whole message. */
  function Ordered(conds: seq<Condition>, header: seq<Byte>, body: seq<Byte>, st: State): Result<(bool, State), EvalError> {
    InOrder(CompleteOn(header, body), conds, 0, st)
  }

  lemma PhasesAreConsistent(header: seq<Byte>, body: seq<Byte>)
    ensures Consistent(EarlyOn(header), CompleteOn(header, body), WaitsOn(header))
  {
    var early, complete, waits := EarlyOn(header), CompleteOn(header, body), WaitsOn(header);
    forall c, s ensures early(c, s) == if waits(c) then Ok((Deferred, s)) else AsEarly(complete(c, s)) {
      EarlyIsComplete(c, header, body, s);
    }
  }

  // ----- Shapes -----

  datatype Tag =
    | ShellExpandedTag | MultipartTag | HeaderTag | BodyTag | MessageTag
    | VariableTag | StructuredTag | ProgramTag | SmallerTag | LargerTag

  /** What can be seen of a condition without evaluating it. */
  datatype Shape = Shape(tag: Tag, captures: bool) {
    /** It may have to wait for the body. */
    predicate MayWait() {
      !tag.HeaderTag? && !tag.VariableTag? && !tag.StructuredTag?
    }

    /** The header may decide it. */
    predicate MayDecide() {
      tag.HeaderTag? || tag.VariableTag? || tag.StructuredTag? || tag.SmallerTag? || tag.LargerTag?
    }

    /** It never fails and neither reads nor writes a variable. */
    predicate IsSilent() {
      tag.SmallerTag? || tag.LargerTag? || ((tag.HeaderTag? || tag.BodyTag? || tag.MessageTag?) && !captures)
    }

    /** It never fails on bounded variables and writes none. */
    predicate IsCalm() {
      IsSilent() || (tag.VariableTag? && !captures)
    }

    /** A plan with any other condition waits for the whole message from the start. */
    predicate ReachesHeaderPhase() {
      !tag.ShellExpandedTag? && !tag.ProgramTag?
    }
  }

  function TagOf(kind: Kind): Tag {
    match kind
    case ShellExpanded(_) => ShellExpandedTag
    case Multipart(_) => MultipartTag
    case HeaderRegex(_) => HeaderTag
    case BodyRegex(_) => BodyTag
    case MessageRegex(_) => MessageTag
    case VariableRegex(_, _) => VariableTag
    case StructuredRegex(_, _) => StructuredTag
    case Program => ProgramTag
    case SmallerThan(_) => SmallerTag
    case LargerThan(_) => LargerTag
  }

  function ShapeOf(c: Condition): Shape {
    Shape(TagOf(c.kind), c.matchCaptures != [] || c.captureIndexes != [])
  }

  predicate HaveShapes(conds: seq<Condition>, shapes: seq<Shape>) {
    |conds| == |shapes| && forall k :: 0 <= k < |conds| ==> ShapeOf(conds[k]) == shapes[k]
  }

  /** Two conditions that change places, unless the first is silent and the second calm. */
  predicate Clash(a: Shape, b: Shape) {
    a.MayWait() && b.MayDecide() && !(a.IsSilent() && b.IsCalm())
  }

  ghost predicate Separated(shapes: seq<Shape>) {
    forall i, j :: 0 <= i < j < |shapes| ==> !Clash(shapes[i], shapes[j])
  }

  // ----- The condition is enough -----

  function SilentAnswer(header: seq<Byte>, body: seq<Byte>): Condition -> bool {
    (c: Condition) =>
      (match c.kind
       case HeaderRegex(regex) => regex(FoldNormalize.Normalized(header)).Some?
       case BodyRegex(regex) => regex(body).Some?
       case MessageRegex(regex) => regex(FoldNormalize.Normalized(header) + body).Some?
       case SmallerThan(size) => |header| + |body| < size
       case LargerThan(size) => |header| + |body| > size
       case _ => false) != c.negated
  }

  lemma SilentIsQuiet(c: Condition, header: seq<Byte>, body: seq<Byte>)
    requires ShapeOf(c).IsSilent()
    ensures Quiet(CompleteOn(header, body), SilentAnswer(header, body), c)
  {
  }

  function Bounded(): State -> bool {
    s => IsBounded(s)
  }

  lemma CalmIsCalm(c: Condition, header: seq<Byte>, body: seq<Byte>)
    requires ShapeOf(c).IsCalm()
    ensures Calm(CompleteOn(header, body), Bounded(), c)
  {
    var complete := CompleteOn(header, body);
    forall s | IsBounded(s) ensures complete(c, s).Ok? && complete(c, s).value.1 == s {
      if c.kind.VariableRegex? {
        BoundedReads(s, c.kind.name);
      }
    }
  }

  lemma BoundedIsPreserved(header: seq<Byte>, body: seq<Byte>)
    ensures Preserves(CompleteOn(header, body), Bounded())
  {
    var complete, good := CompleteOn(header, body), Bounded();
    forall c, s | good(s) && complete(c, s).Ok? ensures good(complete(c, s).value.1) {
      StaysBounded(c, header, body, s);
    }
  }

  lemma WaitingShapes(c: Condition, header: seq<Byte>)
    ensures if Waits(c, header) then ShapeOf(c).MayWait() else ShapeOf(c).MayDecide()
  {
  }

  /** Then, on bounded variables, both ways give the same answer, the same variables and the same error. */
  lemma SeparatedPhasesAgree(conds: seq<Condition>, shapes: seq<Shape>, header: seq<Byte>, body: seq<Byte>, st: State)
    requires HaveShapes(conds, shapes) && Separated(shapes) && IsBounded(st)
    ensures Planned(conds, header, body, st) == Ordered(conds, header, body, st)
  {
    var complete, waits, answer := CompleteOn(header, body), WaitsOn(header), SilentAnswer(header, body);
    PhasesAreConsistent(header, body);
    forall i, j | 0 <= i < j < |conds| && waits(conds[i]) && !waits(conds[j])
      ensures Quiet(complete, answer, conds[i]) && Calm(complete, Bounded(), conds[j])
    {
      WaitingShapes(conds[i], header);
      WaitingShapes(conds[j], header);
      assert !Clash(shapes[i], shapes[j]);
      SilentIsQuiet(conds[i], header, body);
      CalmIsCalm(conds[j], header, body);
    }
    BoundedIsPreserved(header, body);
    QuietSwapsAreFree(EarlyOn(header), complete, waits, Bounded(), answer, conds, 0, st);
  }

  // ----- The condition is needed -----

  /** The message of the counterexample starts, and goes on, with a byte that is not text. */
  const HEADER: seq<Byte> := [255, LF, LF]
  const BODY: seq<Byte> := [255]

  /** A header and the body after it, as a message is split. */
  predicate IsMessage(header: seq<Byte>, body: seq<Byte>) {
    IngestSpec.HeaderEnd(header + body, 0) == |header|
  }

  lemma WitnessIsMessage()
    ensures IsMessage(HEADER, BODY)
  {
    var s := HEADER + BODY;
    assert s[0] == 255 && s[1] == LF && s[2] == LF && s[3] == 255;
    assert PhysicalLines.LineEnd(s, 0) == 2 && PhysicalLines.LineEnd(s, 2) == 3;
    assert s[0..2] == [255, LF] && s[2..3] == [LF];
  }

  /** An ordinary variable, and a text that a byte range can cut in the middle of a character. */
  const VARIABLE: Name := [86]
  const ACCENT: seq<Byte> := [195, 169]

  const START: State := State(map[VARIABLE := Text(ACCENT)], [49], [48], None)

  /** Nothing but MATCH names has changed since the start. */
  predicate IsWitness(st: State) {
    VARIABLE in st.values && st.values[VARIABLE] == Text(ACCENT) && st.processId == [49] && st.status == [48]
  }

  /** Capture lists name groups, of which the first is 1; 0 is the whole match. */
  function Capturing(yes: bool): seq<nat> {
    if yes then [1] else []
  }

  /** A match of nothing, at the start, with a group that is as empty. */
  function Always(): Regex {
    _ => Some([Some((0, 0)), Some((0, 0))])
  }

  function Never(): Regex {
    _ => None
  }

  /** A match of the first byte, all of it in a group. */
  function FirstByte(): Regex {
    input => if input == [] then None else Some([Some((0, 1)), Some((0, 1))])
  }

  function With(shape: Shape, negated: bool, kind: Kind): Condition {
    Condition(negated, kind, [], Capturing(shape.captures))
  }

  /** A condition that lets the message pass. */
  function Passing(shape: Shape): Condition {
    With(shape, false,
         match shape.tag
         case ShellExpandedTag => ShellExpanded(_ => Ok(Condition(false, BodyRegex(Always()), [], [])))
         case MultipartTag => Multipart((_, _) => Ok(Some([])))
         case HeaderTag => HeaderRegex(Always())
         case BodyTag => BodyRegex(Always())
         case MessageTag => MessageRegex(Always())
         case VariableTag => VariableRegex([63], Always())
         case StructuredTag => StructuredRegex(_ => [Item([])], Always())
         case ProgramTag => Program
         case SmallerTag => SmallerThan(100)
         case LargerTag => LargerThan(3))
  }

  /** A condition that waits and then fails with an error, or rejects if it is silent. */
  function Waiting(shape: Shape): Condition {
    With(shape, false,
         match shape.tag
         case MultipartTag => Multipart((_, _) => Err(BadHeader))
         case BodyTag => BodyRegex(if shape.captures then FirstByte() else Never())
         case MessageTag => MessageRegex(if shape.captures then FirstByte() else Never())
         case SmallerTag => SmallerThan(4)
         case LargerTag => LargerThan(4)
         case _ => Program)
  }

  /** A condition the header rejects. */
  function Rejecting(shape: Shape): Condition {
    With(shape, shape.tag.LargerTag?,
         match shape.tag
         case VariableTag => VariableRegex([63], Never())
         case StructuredTag => StructuredRegex(_ => [], Never())
         case SmallerTag => SmallerThan(0)
         case LargerTag => LargerThan(0)
         case _ => HeaderRegex(Never()))
  }

  /** A condition that fails on the header. */
  function Failing(shape: Shape): Condition {
    With(shape, false,
         match shape.tag
         case VariableTag => VariableRegex(VARIABLE, FirstByte())
         case StructuredTag => StructuredRegex(_ => [Malformed], Never())
         case _ => HeaderRegex(FirstByte()))
  }

  lemma NormalizedHeader()
    ensures FoldNormalize.Normalized(HEADER) == HEADER
  {
    assert FoldNormalize.Normal(HEADER, 3) == [];
    assert FoldNormalize.Normal(HEADER, 2) == [LF];
    assert FoldNormalize.Normal(HEADER, 1) == [LF, LF];
  }

  lemma FirstIsNotText(input: seq<Byte>)
    requires input != [] && (input[0] == 255 || input[0] == 195)
    ensures TextIn(input, 0, 1) == Err(NotUtf8)
  {
    var first := input[0..1];
    assert first == [input[0]];
    assert Utf8.CharLen(first) == 0;
  }

  lemma BadIsNotText()
    ensures FoldNormalize.Normalized(HEADER) == HEADER
    ensures TextIn(HEADER, 0, 1) == Err(NotUtf8) && TextIn(BODY, 0, 1) == Err(NotUtf8) && TextIn(HEADER + BODY, 0, 1) == Err(NotUtf8)
  {
    NormalizedHeader();
    FirstIsNotText(HEADER);
    FirstIsNotText(BODY);
    FirstIsNotText(HEADER + BODY);
  }

  lemma CapturedFirst(input: seq<Byte>, st: State)
    ensures TextIn(input, 0, 1).Err? ==>
              Captured([Some((0, 1)), Some((0, 1))], [1], 0, input, st, 0) == Err(TextIn(input, 0, 1).error)
    ensures Captured([Some((0, 0)), Some((0, 0))], [1], 0, input, st, 0) == Ok((Assigned(st, MATCH + Decimal(1), Text([])), 0))
  {
    assert [1][0] == 1;
    var groups: seq<Option<(nat, nat)>> := [Some((0, 0)), Some((0, 0))];
    var after := Assigned(st, MATCH + Decimal(1), Text([]));
    assert input[0..0] == [] && TextIn(input, 0, 0) == Ok([]);
    assert Group(groups, 1) == Some((0, 0));
    assert Captured(groups, [1], 1, input, after, 0) == Ok((after, 0));
  }

  /** Every passing condition passes the header phase and keeps the witness. */
  lemma PassingPasses(shape: Shape, st: State)
    requires IsWitness(st)
    ensures var r := MatchesHeaders(Passing(shape), HEADER, st);
            r.Ok? && r.value.0 != Decided(false) && IsWitness(r.value.1)
  {
    BadIsNotText();
    AlwaysMatches(Passing(shape), HEADER, st);
    AlwaysMatches(Passing(shape), [], st);
  }

  lemma AlwaysMatches(c: Condition, input: seq<Byte>, st: State)
    requires IsWitness(st) && !c.negated && c.matchCaptures == [] && (c.captureIndexes == [] || c.captureIndexes == [1])
    ensures var r := RegexMatches(c, Always(), input, st);
            r.Ok? && r.value.0 && IsWitness(r.value.1)
  {
    CapturedFirst(input, ClearNumbered(st));
  }

  /** Those that cannot clash with a later decided condition also accept the whole message. */
  lemma PassingAccepts(shape: Shape, st: State)
    requires IsWitness(st) && (shape.MayWait() ==> shape.IsSilent())
    ensures var r := MatchesComplete(Passing(shape), HEADER, BODY, st);
            r.Ok? && r.value.0 && IsWitness(r.value.1)
  {
    BadIsNotText();
    AlwaysMatches(Passing(shape), HEADER, st);
    AlwaysMatches(Passing(shape), [], st);
  }

  lemma WaitingWaits(shape: Shape, st: State)
    requires shape.MayWait() && shape.ReachesHeaderPhase()
    ensures MatchesHeaders(Waiting(shape), HEADER, st) == Ok((Deferred, st))
    ensures var r := MatchesComplete(Waiting(shape), HEADER, BODY, st);
            if shape.IsSilent() then r.Ok? && !r.value.0 else r.Err?
  {
    BadIsNotText();
    CapturedFirst(BODY, ClearNumbered(st));
    CapturedFirst(HEADER + BODY, ClearNumbered(st));
  }

  lemma RejectingRejects(shape: Shape, st: State)
    requires shape.MayDecide() && IsWitness(st)
    ensures var r := MatchesHeaders(Rejecting(shape), HEADER, st);
            r.Ok? && r.value.0 == Decided(false)
  {
  }

  lemma FailingFails(shape: Shape, st: State)
    requires shape.MayDecide() && !shape.IsCalm() && IsWitness(st)
    ensures MatchesHeaders(Failing(shape), HEADER, st).Err?
  {
    BadIsNotText();
    FirstIsNotText(ACCENT);
    CapturedFirst(HEADER, ClearNumbered(st));
    CapturedFirst(ACCENT, ClearNumbered(st));
    assert Lookup(st, VARIABLE, false) == Some(ACCENT);
  }

  /** The list with the given shapes, passing everywhere but at `i` and `j`. */
  function Witness(shapes: seq<Shape>, i: nat, j: nat): (conds: seq<Condition>)
    requires i < j < |shapes|
    ensures |conds| == |shapes|
    ensures forall k :: 0 <= k < |conds| ==>
              conds[k] == if k == i then Waiting(shapes[i])
                          else if k == j then (if shapes[i].IsSilent() then Failing(shapes[j]) else Rejecting(shapes[j]))
                          else Passing(shapes[k])
  {
    seq(|shapes|, k requires 0 <= k < |shapes| =>
      if k == i then Waiting(shapes[i])
      else if k == j then (if shapes[i].IsSilent() then Failing(shapes[j]) else Rejecting(shapes[j]))
      else Passing(shapes[k]))
  }

  lemma WitnessShapes(shapes: seq<Shape>, i: nat, j: nat)
    requires i < j < |shapes| && Clash(shapes[i], shapes[j]) && shapes[i].ReachesHeaderPhase()
    ensures HaveShapes(Witness(shapes, i, j), shapes)
  {
    var conds := Witness(shapes, i, j);
    forall k | 0 <= k < |conds| ensures ShapeOf(conds[k]) == shapes[k] {
    }
  }

  function IsWitnessState(): State -> bool {
    s => IsWitness(s)
  }

  /** In order, the witness gets to `i`; there it fails, or is rejected if `i` is silent. */
  lemma OrderedStopsAt(shapes: seq<Shape>, i: nat, j: nat, st: State)
    requires i < j < |shapes| && Clash(shapes[i], shapes[j]) && shapes[i].ReachesHeaderPhase() && IsWitness(st)
    requires forall m :: 0 <= m < i ==> !Clash(shapes[m], shapes[j])
    ensures var r := Ordered(Witness(shapes, i, j), HEADER, BODY, st);
            if shapes[i].IsSilent() then r.Ok? && !r.value.0 else r.Err?
  {
    var conds, complete, good := Witness(shapes, i, j), CompleteOn(HEADER, BODY), IsWitnessState();
    forall m, s | 0 <= m < i && good(s)
      ensures Accepted(complete(conds[m], s)).Some? && good(Accepted(complete(conds[m], s)).value)
    {
      assert !Clash(shapes[m], shapes[j]);
      PassingAccepts(shapes[m], s);
    }
    var at := InOrderReaches(complete, good, conds, 0, i, st);
    WaitingWaits(shapes[i], at);
    assert complete(conds[i], at) == MatchesComplete(Waiting(shapes[i]), HEADER, BODY, at);
  }

  /** In two phases, it gets to `j` first. */
  lemma PlannedStopsAt(shapes: seq<Shape>, i: nat, j: nat, st: State)
    requires i < j < |shapes| && Clash(shapes[i], shapes[j]) && shapes[i].ReachesHeaderPhase() && IsWitness(st)
    ensures var r := HeaderPhase(EarlyOn(HEADER), Witness(shapes, i, j), 0, st);
            if shapes[i].IsSilent() then r.Err? else r.Ok? && r.value.verdict == Decided(false)
  {
    var conds, early, good := Witness(shapes, i, j), EarlyOn(HEADER), IsWitnessState();
    forall m, s | 0 <= m < j && good(s)
      ensures early(conds[m], s).Ok? && early(conds[m], s).value.0 != Decided(false) && good(early(conds[m], s).value.1)
    {
      if m == i {
        WaitingWaits(shapes[i], s);
      } else {
        PassingPasses(shapes[m], s);
      }
    }
    var at := HeaderReaches(early, good, conds, 0, j, st);
    if shapes[i].IsSilent() {
      FailingFails(shapes[j], at);
      assert early(conds[j], at) == MatchesHeaders(Failing(shapes[j]), HEADER, at);
    } else {
      RejectingRejects(shapes[j], at);
      assert early(conds[j], at) == MatchesHeaders(Rejecting(shapes[j]), HEADER, at);
    }
  }

  /** The first clash with a given later condition. */
  lemma {:induction false} FirstClash(shapes: seq<Shape>, i: nat, j: nat, k: nat) returns (first: nat)
    requires k <= i < j < |shapes| && Clash(shapes[i], shapes[j]) && forall m :: 0 <= m < k ==> !Clash(shapes[m], shapes[j])
    ensures first < j && Clash(shapes[first], shapes[j]) && forall m :: 0 <= m < first ==> !Clash(shapes[m], shapes[j])
    decreases i - k
  {
    if Clash(shapes[k], shapes[j]) {
      first := k;
    } else {
      first := FirstClash(shapes, i, j, k + 1);
    }
  }

  /** Where two conditions clash, some conditions of these shapes tell the two ways apart. */
  lemma ClashesDiffer(shapes: seq<Shape>, i: nat, j: nat) returns (conds: seq<Condition>, st: State)
    requires 0 <= i < j < |shapes| && Clash(shapes[i], shapes[j])
    requires forall k :: 0 <= k < |shapes| ==> shapes[k].ReachesHeaderPhase()
    ensures HaveShapes(conds, shapes) && IsBounded(st) && IsMessage(HEADER, BODY)
    ensures Planned(conds, HEADER, BODY, st) != Ordered(conds, HEADER, BODY, st)
  {
    var first := FirstClash(shapes, i, j, 0);
    WitnessIsMessage();
    st := START;
    conds := Witness(shapes, first, j);
    WitnessShapes(shapes, first, j);
    OrderedStopsAt(shapes, first, j, st);
    PlannedStopsAt(shapes, first, j, st);
  }

  ghost predicate AlwaysAgree(shapes: seq<Shape>) {
    forall conds, header, body, st :: HaveShapes(conds, shapes) && IsMessage(header, body) && IsBounded(st) ==>
      Planned(conds, header, body, st) == Ordered(conds, header, body, st)
  }

  /** The two ways agree on every message and all bounded variables, for all
      conditions of the given shapes, exactly when no two of them clash. */
  lemma PhasesAgreeExactly(shapes: seq<Shape>)
    requires forall k :: 0 <= k < |shapes| ==> shapes[k].ReachesHeaderPhase()
    ensures Separated(shapes) <==> AlwaysAgree(shapes)
  {
    if Separated(shapes) {
      forall conds, header, body, st | HaveShapes(conds, shapes) && IsMessage(header, body) && IsBounded(st)
        ensures Planned(conds, header, body, st) == Ordered(conds, header, body, st)
      {
        SeparatedPhasesAgree(conds, shapes, header, body, st);
      }
    } else {
      var i, j :| 0 <= i < j < |shapes| && Clash(shapes[i], shapes[j]);
      var conds, st := ClashesDiffer(shapes, i, j);
    }
  }
}
