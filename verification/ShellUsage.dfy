/** When evaluation succeeds: what an expression uses, and the bounds it must keep. */
module ShellUsage {
  import opened Bytes
  import opened ShellExpression
  import opened ShellEval
  import opened ShellMeaning
  import ShellPattern
  import ShellQuote

  /** What delivery supplies when there is room enough, and how much room commands
      and quoted values need. */
  datatype Supply = Supply(
    mode: DepthMode,
    variable: Name -> Result<Option<VariableValue>, Error>,
    command: string -> Result<seq<Byte>, Error>,
    regexQuoted: Name -> Result<seq<Byte>, Error>,
    commandNeeds: string -> nat,
    quoteNeeds: Name -> nat)

  function WithoutDepth(found: Result<Option<VariableValue>, Error>): Result<Option<seq<Byte>>, Error> {
    match found
    case Ok(value) => Ok(BytesOf(value))
    case Err(e) => Err(e)
  }

  function WorldOf(supply: Supply): World {
    World(name => WithoutDepth(supply.variable(name)), supply.command, supply.regexQuoted)
  }

  predicate WithinBudget(bounded: Result<seq<Byte>, Error>, free: Result<seq<Byte>, Error>, needs: nat, budget: nat) {
    if needs <= budget then bounded == free else bounded.Err? && bounded.error.TooLong?
  }

  /** The context gives what `supply` does whenever the remaining budget allows it. */
  ghost predicate Supplies(ctx: Context, supply: Supply) {
    ctx.mode == supply.mode && (forall name :: ctx.variable(name) == supply.variable(name)) &&
    (forall c, n :: WithinBudget(ctx.command(c, n), supply.command(c), supply.commandNeeds(c), n)) &&
    (forall name, n :: WithinBudget(ctx.regexQuoted(name, n), supply.regexQuoted(name), supply.quoteNeeds(name), n))
  }

  // ----- Usage -----

  /** `space`: the largest output at any time, with the words under way. `nesting`:
      of the words that run. `charged`: the largest depth that a selected value is
      charged with. `depth`: what is reported to whoever uses the result. */
  datatype Usage = Usage(space: nat, nesting: nat, charged: nat, depth: nat) {
    predicate Within(limit: nat) {
      space <= limit && nesting <= MAX_EXPANSION_DEPTH && charged <= MAX_EXPANSION_DEPTH
    }

    function Join(other: Usage): Usage {
      Usage(Max(space, other.space), Max(nesting, other.nesting), Max(charged, other.charged), Max(depth, other.depth))
    }

    /** Room for `more` bytes at the same time. */
    function Reaching(more: nat): Usage {
      this.(space := Max(space, more))
    }
  }

  /** The depth a selected value is charged with. */
  function Charge(mode: DepthMode, valueDepth: nat, nesting: nat, usedWord: bool, emptyValue: bool): nat {
    match mode
    case NoDepth => 0
    case ExpansionChain => valueDepth + 1
    case SyntaxNesting => if usedWord then valueDepth else if emptyValue then nesting else nesting + 1
  }

  ghost function UsageOf(e: Expression, nesting: nat, supply: Supply, assignments: Assignments): Usage
    decreases e, 1
  {
    PartsUsage(e.parts, nesting, supply, Meaning([], assignments))
  }

  ghost function PartsUsage(parts: seq<Part>, nesting: nat, supply: Supply, m: Meaning): Usage
    decreases parts, 0
  {
    if parts == [] then Usage(|m.output|, nesting, 0, if supply.mode.SyntaxNesting? then nesting else 0)
    else
      var init := parts[..|parts| - 1];
      var before := PartsUsage(init, nesting, supply, m);
      match DenoteParts(init, WorldOf(supply), m)
      case Err(_) => before
      case Ok(mid) => before.Join(PartUsage(parts[|parts| - 1], nesting, supply, mid))
  }

  ghost function PartUsage(part: Part, nesting: nat, supply: Supply, m: Meaning): Usage
    decreases part, 1
  {
    var own := Usage(|m.output|, nesting, 0, 0);
    match part
    case Literal(text) => own.Reaching(|m.output| + |text|)
    case Command(c) => Filled(own, m, supply.commandNeeds(c), supply.command(c))
    case RegexQuotedVariable(name) => Filled(own, m, supply.quoteNeeds(name), supply.regexQuoted(name))
    case PatternQuote(e) =>
      var word := WordUsage(UsageOf(e, nesting, supply, m.assignments), m);
      (match Denote(e, WorldOf(supply), m.assignments)
       case Err(_) => word
       case Ok(value) => word.Reaching(|m.output| + |ShellQuote.Quoted(value.output)|))
    case Variable(name, op) =>
      (match FoundAt(supply, m.assignments, name)
       case Err(_) => own
       case Ok(found) =>
         if op.IsValueTransform() then TransformUsage(part, found, nesting, supply, m)
         else SelectionUsage(part, found, nesting, supply, m))
  }

  function FoundAt(supply: Supply, assignments: Assignments, name: Name): Result<Option<VariableValue>, Error> {
    match Assigned(assignments, name)
    case Some(bytes) => Ok(Some(VariableValue(bytes, 0)))
    case None => supply.variable(name)
  }

  function Filled(own: Usage, m: Meaning, needs: nat, bytes: Result<seq<Byte>, Error>): Usage {
    own.Reaching(|m.output| + if bytes.Ok? then Max(needs, |bytes.value|) else needs)
  }

  /** What a word uses when it runs after `m` has been written. */
  function WordUsage(word: Usage, m: Meaning): Usage {
    word.(space := |m.output| + word.space)
  }

  ghost function TransformUsage(part: Part, found: Option<VariableValue>, nesting: nat, supply: Supply, m: Meaning): Usage
    requires part.Variable? && part.operation.IsValueTransform()
    decreases part, 0
  {
    var op := part.operation;
    var own := Usage(|m.output|, nesting, 0, 0);
    if found.None? then own
    else if op.Length? then own.Reaching(|m.output| + |Decimal(|found.value.bytes|)|).(depth := found.value.depth)
    else
      TransformedUsage(op, found.value, Denote(op.pattern, WorldOf(supply), m.assignments),
                       UsageOf(op.pattern, nesting + 1, supply, m.assignments), m)
  }

  ghost function TransformedUsage(op: Operation, found: VariableValue, pattern: Result<Meaning, Error>, usage: Usage, m: Meaning)
    : Usage
    requires op.IsValueTransform()
  {
    var word := WordUsage(usage, m);
    match pattern
    case Err(_) => word
    case Ok(p) =>
      match Transform(op, found.bytes, p.output)
      case Err(_) => word
      case Ok(bytes) => word.Reaching(|m.output| + |bytes|).(depth := Max(found.depth, word.depth))
  }

  ghost function SelectionUsage(part: Part, found: Option<VariableValue>, nesting: nat, supply: Supply, m: Meaning): Usage
    requires part.Variable? && !part.operation.IsValueTransform()
    decreases part, 0
  {
    var op := part.operation;
    var isSet := found.Some?;
    var isEmpty := isSet && found.value.bytes == [];
    var own := Usage(|m.output|, nesting, 0, 0);
    if op.SelectedWord(isSet, isEmpty).Some? then
      SelectedUsage(Denote(op.word, WorldOf(supply), m.assignments),
                    UsageOf(op.word, nesting + 1, supply, m.assignments), supply.mode, nesting, m)
    else if op.ErrorIfUnsetOrEmpty? && (!isSet || isEmpty) then own
    else if op.UsesValueWhenWordIsNotSelected() then
      if !isSet then own
      else
        var charge := Charge(supply.mode, found.value.depth, nesting, false, isEmpty);
        Usage(|m.output| + |found.value.bytes|, nesting, charge, charge)
    else
      var charge := Charge(supply.mode, 0, nesting, false, true);
      Usage(|m.output|, nesting, charge, charge)
  }

  function SelectedUsage(free: Result<Meaning, Error>, usage: Usage, mode: DepthMode, nesting: nat, m: Meaning): Usage {
    var word := WordUsage(usage, m);
    if free.Err? then word
    else
      var charge := Charge(mode, word.depth, nesting, true, false);
      word.(charged := Max(word.charged, charge), depth := charge)
  }

  // ----- Evaluation succeeds exactly within the bounds -----

  /** The error names a bound that is exceeded. */
  predicate Exceeds(e: Error, usage: Usage, limit: nat) {
    match e
    case TooLong(_, _, _) => usage.space > limit
    case DepthExceeded => usage.nesting > MAX_EXPANSION_DEPTH || usage.charged > MAX_EXPANSION_DEPTH
    case DepthOverflow => usage.charged > ShellPattern.USIZE_MAX
    case _ => false
  }

  /** Within the bounds the result is the meaning, errors included; otherwise it is
      the error of a bound that is exceeded. */
  ghost predicate Decides(bounded: Result<State, Error>, free: Result<Meaning, Error>, usage: Usage, limit: nat, depth: nat) {
    if usage.Within(limit) then
      match free
      case Err(e) => bounded == Err(e)
      case Ok(m) => bounded == Ok(State(m.output, Max(depth, usage.depth), m.assignments)) && |m.output| <= usage.space
    else bounded.Err? && Exceeds(bounded.error, usage, limit)
  }

  lemma ChargeIs(mode: DepthMode, valueDepth: nat, nesting: nat, usedWord: bool, emptyValue: bool)
    ensures var charge := Charge(mode, valueDepth, nesting, usedWord, emptyValue);
            var selected := SelectedDepth(mode, valueDepth, nesting, usedWord, emptyValue);
            if charge <= MAX_EXPANSION_DEPTH then selected == Ok(charge)
            else selected == Err(DepthExceeded) || (selected == Err(DepthOverflow) && charge > ShellPattern.USIZE_MAX)
  {
  }

  lemma {:induction false} EvalUses(e: Expression, limit: nat, nesting: nat, ctx: Context, supply: Supply, assignments: Assignments)
    requires Supplies(ctx, supply)
    ensures var usage := UsageOf(e, nesting, supply, assignments);
            usage.nesting >= nesting &&
            Decides(EvalAt(e, limit, nesting, ctx, assignments), Denote(e, WorldOf(supply), assignments), usage, limit, 0)
    decreases e, 1
  {
    var start := State([], if ctx.mode.SyntaxNesting? then nesting else 0, assignments);
    EvalPartsUses(e.parts, limit, nesting, ctx, supply, start);
  }

  lemma {:induction false} EvalPartsUses(parts: seq<Part>, limit: nat, nesting: nat, ctx: Context, supply: Supply, st: State)
    requires Supplies(ctx, supply) && |st.output| <= limit
    requires st.depth == if supply.mode.SyntaxNesting? then nesting else 0
    ensures var usage := PartsUsage(parts, nesting, supply, Meaning(st.output, st.assignments));
            usage.nesting >= nesting && usage.depth >= st.depth &&
            (nesting <= MAX_EXPANSION_DEPTH ==>
               Decides(EvalParts(parts, limit, nesting, ctx, st),
                       DenoteParts(parts, WorldOf(supply), Meaning(st.output, st.assignments)), usage, limit, 0))
    decreases parts, 0
  {
    if parts != [] {
      var init, last := parts[..|parts| - 1], parts[|parts| - 1];
      var m := Meaning(st.output, st.assignments);
      EvalPartsUses(init, limit, nesting, ctx, supply, st);
      var before := PartsUsage(init, nesting, supply, m);
      if nesting <= MAX_EXPANSION_DEPTH && before.Within(limit) {
        var mid := EvalParts(init, limit, nesting, ctx, st);
        if mid.Ok? {
          EvalPartUses(last, limit, nesting, ctx, supply, mid.value);
        }
      }
    }
  }

  lemma {:induction false} EvalPartUses(part: Part, limit: nat, nesting: nat, ctx: Context, supply: Supply, st: State)
    requires Supplies(ctx, supply) && |st.output| <= limit && nesting <= MAX_EXPANSION_DEPTH
    ensures var m := Meaning(st.output, st.assignments);
            Decides(EvalPart(part, limit, nesting, ctx, st), DenotePart(part, WorldOf(supply), m),
                    PartUsage(part, nesting, supply, m), limit, st.depth)
    decreases part, 1
  {
    var m, rest := Meaning(st.output, st.assignments), Remaining(st, limit);
    match part
    case Literal(_) =>
    case Command(c) => assert WithinBudget(ctx.command(c, rest), supply.command(c), supply.commandNeeds(c), rest);
    case RegexQuotedVariable(name) =>
      assert WithinBudget(ctx.regexQuoted(name, rest), supply.regexQuoted(name), supply.quoteNeeds(name), rest);
    case PatternQuote(e) =>
      EvalUses(e, rest, nesting, ctx, supply, st.assignments);
      var value := EvalAt(e, rest, nesting, ctx, st.assignments);
      if value.Ok? {
        QuotedWithinComputes(value.value.output, |value.value.output|, rest);
      }
    case Variable(name, op) =>
      var found := FoundAt(supply, st.assignments, name);
      assert Lookup(ctx, st.assignments, name) == found;
      assert Find(WorldOf(supply), st.assignments, name) == WithoutDepth(found);
      if found.Ok? {
        if op.IsValueTransform() {
          EvalTransformUses(part, found.value, limit, nesting, ctx, supply, st);
        } else {
          EvalSelectionUses(part, found.value, limit, nesting, ctx, supply, st);
        }
      }
  }

  lemma {:induction false} EvalTransformUses(part: Part, found: Option<VariableValue>, limit: nat, nesting: nat, ctx: Context,
                                             supply: Supply, st: State)
    requires part.Variable? && part.operation.IsValueTransform()
    requires Supplies(ctx, supply) && |st.output| <= limit && nesting <= MAX_EXPANSION_DEPTH
    ensures var m := Meaning(st.output, st.assignments);
            Decides(EvalTransform(part, found, limit, nesting, ctx, st), DenoteVariable(part, BytesOf(found), WorldOf(supply), m),
                    TransformUsage(part, found, nesting, supply, m), limit, st.depth)
    decreases part, 0
  {
    if found.Some? && !part.operation.Length? {
      var op, rest, m := part.operation, Remaining(st, limit), Meaning(st.output, st.assignments);
      var usage := UsageOf(op.pattern, nesting + 1, supply, m.assignments);
      EvalUses(op.pattern, rest, nesting + 1, ctx, supply, st.assignments);
      TransformedUses(op, found.value, EvalAt(op.pattern, rest, nesting + 1, ctx, st.assignments),
                      Denote(op.pattern, WorldOf(supply), m.assignments), usage, limit, st);
    }
  }

  /** What is done with the pattern once it has been computed. */
  lemma TransformedUses(op: Operation, found: VariableValue, word: Result<State, Error>, free: Result<Meaning, Error>,
                        usage: Usage, limit: nat, st: State)
    requires op.IsValueTransform() && !op.Length? && |st.output| <= limit && Decides(word, free, usage, Remaining(st, limit), 0)
    ensures var m := Meaning(st.output, st.assignments);
            var bounded := if word.Err? then Err(word.error)
                           else
                             var bytes := Transform(op, found.bytes, word.value.output);
                             if bytes.Err? then Err(bytes.error)
                             else Appended(State(st.output, Max(st.depth, Max(found.depth, word.value.depth)),
                                                 word.value.assignments), bytes.value, limit);
            Decides(bounded, PutTransform(m, op, found.bytes, free), TransformedUsage(op, found, free, usage, m), limit, st.depth)
  {
  }

  lemma {:induction false} EvalSelectionUses(part: Part, found: Option<VariableValue>, limit: nat, nesting: nat, ctx: Context,
                                             supply: Supply, st: State)
    requires part.Variable? && !part.operation.IsValueTransform()
    requires Supplies(ctx, supply) && |st.output| <= limit && nesting <= MAX_EXPANSION_DEPTH
    ensures var m := Meaning(st.output, st.assignments);
            Decides(EvalSelection(part, found, limit, nesting, ctx, st), DenoteVariable(part, BytesOf(found), WorldOf(supply), m),
                    SelectionUsage(part, found, nesting, supply, m), limit, st.depth)
    decreases part, 0
  {
    var op := part.operation;
    var isSet, isEmpty := found.Some?, found.Some? && found.value.bytes == [];
    if op.SelectedWord(isSet, isEmpty).Some? {
      var rest, m := Remaining(st, limit), Meaning(st.output, st.assignments);
      var usage := UsageOf(op.word, nesting + 1, supply, m.assignments);
      EvalUses(op.word, rest, nesting + 1, ctx, supply, st.assignments);
      WordUses(part, EvalAt(op.word, rest, nesting + 1, ctx, st.assignments), Denote(op.word, WorldOf(supply), m.assignments),
               usage, ctx.mode, nesting, limit, st);
    } else {
      ValueUses(part, found, limit, nesting, ctx, supply, st);
    }
  }

  /** A selection that runs no word. */
  lemma ValueUses(part: Part, found: Option<VariableValue>, limit: nat, nesting: nat, ctx: Context, supply: Supply, st: State)
    requires part.Variable? && !part.operation.IsValueTransform()
    requires part.operation.SelectedWord(found.Some?, found.Some? && found.value.bytes == []).None?
    requires Supplies(ctx, supply) && |st.output| <= limit && nesting <= MAX_EXPANSION_DEPTH
    ensures var m := Meaning(st.output, st.assignments);
            Decides(EvalSelection(part, found, limit, nesting, ctx, st), DenoteVariable(part, BytesOf(found), WorldOf(supply), m),
                    SelectionUsage(part, found, nesting, supply, m), limit, st.depth)
  {
    if found.Some? {
      ChargeIs(ctx.mode, found.value.depth, nesting, false, found.value.bytes == []);
    }
    ChargeIs(ctx.mode, 0, nesting, false, true);
    NoneRight(st.output);
  }

  /** What is done with a selected word once it has been computed. */
  lemma WordUses(part: Part, word: Result<State, Error>, free: Result<Meaning, Error>, usage: Usage, mode: DepthMode,
                 nesting: nat, limit: nat, st: State)
    requires part.Variable? && |st.output| <= limit && Decides(word, free, usage, Remaining(st, limit), 0)
    ensures var m, assigns := Meaning(st.output, st.assignments), part.operation.AssignIfUnsetOrEmpty?;
            var bounded := if word.Err? then Err(word.error)
                           else
                             var assignments := if assigns then Assign(word.value.assignments, part.name, word.value.output)
                                                else word.value.assignments;
                             var depth := SelectedDepth(mode, word.value.depth, nesting, true, false);
                             if depth.Err? then Err(depth.error)
                             else Appended(State(st.output, Max(st.depth, depth.value), assignments), word.value.output, limit);
            var written := if free.Err? then free
                           else Ok(Meaning(m.output + free.value.output,
                                           if assigns then Assign(free.value.assignments, part.name, free.value.output)
                                           else free.value.assignments));
            Decides(bounded, written, SelectedUsage(free, usage, mode, nesting, m), limit, st.depth)
  {
    ChargeIs(mode, usage.depth, nesting, true, false);
  }

  /** Evaluation gives the meaning of an expression, its value or its error, exactly
      when what it uses is within the limit and the depth bounds; and otherwise
      fails for a bound that is exceeded. */
  lemma EvaluationSucceedsExactly(e: Expression, limit: nat, ctx: Context, supply: Supply)
    requires Supplies(ctx, supply)
    ensures var usage, meaning := UsageOf(e, 0, supply, []), Denote(e, WorldOf(supply), []);
            match Evaluate(e, limit, ctx)
            case Ok(st) => usage.Within(limit) && meaning == Ok(Meaning(st.output, st.assignments)) && st.depth == usage.depth
            case Err(error) => if usage.Within(limit) then meaning == Err(error) else Exceeds(error, usage, limit)
  {
    EvalUses(e, limit, 0, ctx, supply, []);
  }

  // ----- A bound that can be read off the expression -----

  /** How deep words are nested in one another. */
  function WordDepth(parts: seq<Part>): nat
    decreases parts, 0
  {
    if parts == [] then 0 else Max(WordDepth(parts[..|parts| - 1]), PartDepth(parts[|parts| - 1]))
  }

  function PartDepth(part: Part): nat
    decreases part, 0
  {
    match part
    case PatternQuote(e) => WordDepth(e.parts)
    case Variable(_, op) => if op.Word().Some? then 1 + WordDepth(op.Word().value.parts) else 0
    case _ => 0
  }

  lemma {:induction false} NestingIsBounded(parts: seq<Part>, nesting: nat, supply: Supply, m: Meaning)
    ensures PartsUsage(parts, nesting, supply, m).nesting <= nesting + WordDepth(parts)
    decreases parts, 0
  {
    if parts != [] {
      var init := parts[..|parts| - 1];
      NestingIsBounded(init, nesting, supply, m);
      var mid := DenoteParts(init, WorldOf(supply), m);
      if mid.Ok? {
        PartNestingIsBounded(parts[|parts| - 1], nesting, supply, mid.value);
      }
    }
  }

  lemma {:induction false} PartNestingIsBounded(part: Part, nesting: nat, supply: Supply, m: Meaning)
    ensures PartUsage(part, nesting, supply, m).nesting <= nesting + PartDepth(part)
    decreases part, 0
  {
    match part
    case PatternQuote(e) => NestingIsBounded(e.parts, nesting, supply, Meaning([], m.assignments));
    case Variable(_, op) =>
      if op.Word().Some? {
        var word := op.Word().value;
        NestingIsBounded(word.parts, nesting + 1, supply, Meaning([], m.assignments));
        assert UsageOf(word, nesting + 1, supply, m.assignments) ==
               PartsUsage(word.parts, nesting + 1, supply, Meaning([], m.assignments));
      }
    case _ =>
  }

  lemma {:induction false} NothingCharged(parts: seq<Part>, nesting: nat, supply: Supply, m: Meaning)
    requires supply.mode.NoDepth?
    ensures PartsUsage(parts, nesting, supply, m).charged == 0
    decreases parts, 0
  {
    if parts != [] {
      var init := parts[..|parts| - 1];
      NothingCharged(init, nesting, supply, m);
      var mid := DenoteParts(init, WorldOf(supply), m);
      if mid.Ok? {
        PartChargesNothing(parts[|parts| - 1], nesting, supply, mid.value);
      }
    }
  }

  lemma {:induction false} PartChargesNothing(part: Part, nesting: nat, supply: Supply, m: Meaning)
    requires supply.mode.NoDepth?
    ensures PartUsage(part, nesting, supply, m).charged == 0
    decreases part, 0
  {
    match part
    case PatternQuote(e) => NothingCharged(e.parts, nesting, supply, Meaning([], m.assignments));
    case Variable(_, op) =>
      if op.Word().Some? {
        var word := op.Word().value;
        NothingCharged(word.parts, nesting + 1, supply, Meaning([], m.assignments));
        assert UsageOf(word, nesting + 1, supply, m.assignments) ==
               PartsUsage(word.parts, nesting + 1, supply, Meaning([], m.assignments));
      }
    case _ =>
  }

  /** Where depth is not counted, words nested at most 32 deep always succeed within
      a limit that has room for them. */
  lemma ShallowWordsSucceed(e: Expression, limit: nat, ctx: Context, supply: Supply)
    requires Supplies(ctx, supply) && supply.mode.NoDepth? && WordDepth(e.parts) <= MAX_EXPANSION_DEPTH
    requires UsageOf(e, 0, supply, []).space <= limit
    ensures match Denote(e, WorldOf(supply), [])
            case Ok(m) => Evaluate(e, limit, ctx).Ok? && Evaluate(e, limit, ctx).value.output == m.output
            case Err(error) => Evaluate(e, limit, ctx) == Err(error)
  {
    NestingIsBounded(e.parts, 0, supply, Meaning([], []));
    NothingCharged(e.parts, 0, supply, Meaning([], []));
    EvaluationSucceedsExactly(e, limit, ctx, supply);
  }
}
