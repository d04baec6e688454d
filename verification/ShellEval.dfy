/** The bounded evaluator of shell expressions, as a function. */
module ShellEval {
  import opened Bytes
  import opened ShellExpression
  import ShellPattern
  import ShellRemoval
  import ShellQuote

  datatype DepthMode = NoDepth | ExpansionChain | SyntaxNesting

  datatype UnsupportedPart = CommandPart | RegexQuotedPart

  datatype Error =
    | MissingVariable(name: Name)
    | RequiredParameter(name: Name)
    | Pattern(error: ShellPattern.PatternError)
    | Unsupported(part: UnsupportedPart)
    | DepthExceeded
    | DepthOverflow
    | TooLong(current: nat, limit: nat, attempted: nat)
    | External(code: int)
  {
    /** Raised by a bound on size or depth, not by the meaning of the expression. */
    predicate IsResource() {
      DepthExceeded? || DepthOverflow? || TooLong?
    }
  }

  datatype VariableValue = VariableValue(bytes: seq<Byte>, depth: nat)

  type Assignments = seq<(Name, seq<Byte>)>

  /** What an adapter supplies: how depth is counted, variable values, and the
      results of commands and of regex-quoted variables for a remaining budget. */
  datatype Context = Context(
    mode: DepthMode,
    variable: Name -> Result<Option<VariableValue>, Error>,
    command: (string, nat) -> Result<seq<Byte>, Error>,
    regexQuoted: (Name, nat) -> Result<seq<Byte>, Error>)

  datatype State = State(output: seq<Byte>, depth: nat, assignments: Assignments)

  function Assigned(assignments: Assignments, name: Name): Option<seq<Byte>> {
    if assignments == [] then None
    else if assignments[|assignments| - 1].0 == name then Some(assignments[|assignments| - 1].1)
    else Assigned(assignments[..|assignments| - 1], name)
  }

  /** Index of the first entry for `name`, or the length. */
  function FirstEntry(assignments: Assignments, name: Name): (i: nat)
    ensures i <= |assignments|
    ensures i < |assignments| ==> assignments[i].0 == name
  {
    if assignments == [] then 0
    else if assignments[0].0 == name then 0
    else 1 + FirstEntry(assignments[1..], name)
  }

  function Assign(assignments: Assignments, name: Name, bytes: seq<Byte>): Assignments {
    var i := FirstEntry(assignments, name);
    if i < |assignments| then assignments[i := (name, bytes)] else assignments + [(name, bytes)]
  }

  function Lookup(ctx: Context, assignments: Assignments, name: Name): Result<Option<VariableValue>, Error> {
    match Assigned(assignments, name)
    case Some(bytes) => Ok(Some(VariableValue(bytes, 0)))
    case None => ctx.variable(name)
  }

  function Appended(st: State, bytes: seq<Byte>, limit: nat): Result<State, Error> {
    if |st.output| + |bytes| > limit then Err(TooLong(|st.output|, limit, |st.output| + |bytes|))
    else Ok(st.(output := st.output + bytes))
  }

  function Remaining(st: State, limit: nat): nat {
    if |st.output| <= limit then limit - |st.output| else 0
  }

  function SelectedDepth(mode: DepthMode, valueDepth: nat, nesting: nat, usedWord: bool, emptyValue: bool)
    : Result<nat, Error>
  {
    var depth :- match mode
                 case NoDepth => Ok(0)
                 case ExpansionChain => CheckedSuccessor(valueDepth)
                 case SyntaxNesting =>
                   if usedWord then Ok(valueDepth)
                   else if emptyValue then Ok(nesting)
                   else CheckedSuccessor(nesting);
    if depth > MAX_EXPANSION_DEPTH then Err(DepthExceeded) else Ok(depth)
  }

  function CheckedSuccessor(n: nat): Result<nat, Error> {
    if n >= ShellPattern.USIZE_MAX then Err(DepthOverflow) else Ok(n + 1)
  }

  function MapPatternError(r: Result<seq<Byte>, ShellPattern.PatternError>): Result<seq<Byte>, Error> {
    match r
    case Ok(bytes) => Ok(bytes)
    case Err(e) => Err(Pattern(e))
  }

  function CaseOf(direction: CaseDirection): Byte -> Byte {
    if direction.Upper? then Uppercase else Lowercase
  }

  function SelectionOf(longest: bool): ShellPattern.Selection {
    if longest then ShellPattern.Longest else ShellPattern.Shortest
  }

  /** The text a value transform produces from a value and an evaluated pattern. */
  ghost function Transform(op: Operation, value: seq<Byte>, pattern: seq<Byte>): Result<seq<Byte>, Error>
    requires op.IsValueTransform()
  {
    match op
    case Length => Ok(Decimal(|value|))
    case RemovePrefix(_, longest) =>
      MapPatternError(ShellRemoval.Removed(value, pattern, ShellPattern.Prefix, SelectionOf(longest)))
    case RemoveSuffix(_, longest) =>
      MapPatternError(ShellRemoval.Removed(value, pattern, ShellPattern.Suffix, SelectionOf(longest)))
    case ChangeCase(_, direction, all) =>
      MapPatternError(ShellRemoval.Transformed(value, pattern, all, CaseOf(direction)))
  }

  // ----- The evaluator -----

  ghost function EvalAt(e: Expression, limit: nat, nesting: nat, ctx: Context, assignments: Assignments)
    : Result<State, Error>
    decreases e, 1
  {
    if nesting > MAX_EXPANSION_DEPTH then Err(DepthExceeded)
    else EvalParts(e.parts, limit, nesting, ctx,
                   State([], if ctx.mode.SyntaxNesting? then nesting else 0, assignments))
  }

  ghost function EvalParts(parts: seq<Part>, limit: nat, nesting: nat, ctx: Context, st: State)
    : Result<State, Error>
    decreases parts, 0
  {
    if parts == [] then Ok(st)
    else
      var mid :- EvalParts(parts[..|parts| - 1], limit, nesting, ctx, st);
      EvalPart(parts[|parts| - 1], limit, nesting, ctx, mid)
  }

  ghost function EvalPart(part: Part, limit: nat, nesting: nat, ctx: Context, st: State)
    : Result<State, Error>
    decreases part, 1
  {
    match part
    case Literal(text) => Appended(st, text, limit)
    case Variable(name, op) =>
      var found :- Lookup(ctx, st.assignments, name);
      if op.IsValueTransform() then EvalTransform(part, found, limit, nesting, ctx, st)
      else EvalSelection(part, found, limit, nesting, ctx, st)
    case Command(command) =>
      var bytes :- ctx.command(command, Remaining(st, limit));
      Appended(st, bytes, limit)
    case RegexQuotedVariable(name) =>
      var bytes :- ctx.regexQuoted(name, Remaining(st, limit));
      Appended(st, bytes, limit)
    case PatternQuote(e) =>
      var value :- EvalAt(e, Remaining(st, limit), nesting, ctx, st.assignments);
      var quoted :- QuotedWithin(value.output, |value.output|, Remaining(st, limit));
      Appended(State(st.output, Max(st.depth, value.depth), value.assignments), quoted, limit)
  }

  ghost function EvalTransform(part: Part, found: Option<VariableValue>, limit: nat, nesting: nat, ctx: Context, st: State)
    : Result<State, Error>
    requires part.Variable? && part.operation.IsValueTransform()
    decreases part, 0
  {
    var op := part.operation;
    if found.None? then Err(MissingVariable(part.name))
    else if op.Length? then
      Appended(st.(depth := Max(st.depth, found.value.depth)), Decimal(|found.value.bytes|), limit)
    else
      var pattern :- EvalAt(op.pattern, Remaining(st, limit), nesting + 1, ctx, st.assignments);
      var bytes :- Transform(op, found.value.bytes, pattern.output);
      Appended(State(st.output, Max(st.depth, Max(found.value.depth, pattern.depth)), pattern.assignments), bytes, limit)
  }

  ghost function EvalSelection(part: Part, found: Option<VariableValue>, limit: nat, nesting: nat, ctx: Context, st: State)
    : Result<State, Error>
    requires part.Variable? && !part.operation.IsValueTransform()
    decreases part, 0
  {
    var op := part.operation;
    var isSet := found.Some?;
    var isEmpty := isSet && found.value.bytes == [];
    if op.ErrorIfUnsetOrEmpty? && (!isSet || isEmpty) then Err(RequiredParameter(part.name))
    else if op.SelectedWord(isSet, isEmpty).Some? then
      var word :- EvalAt(op.word, Remaining(st, limit), nesting + 1, ctx, st.assignments);
      var assignments := if op.AssignIfUnsetOrEmpty? then Assign(word.assignments, part.name, word.output)
                         else word.assignments;
      var depth :- SelectedDepth(ctx.mode, word.depth, nesting, true, false);
      Appended(State(st.output, Max(st.depth, depth), assignments), word.output, limit)
    else if op.UsesValueWhenWordIsNotSelected() then
      if !isSet then Err(MissingVariable(part.name))
      else
        var depth :- SelectedDepth(ctx.mode, found.value.depth, nesting, false, isEmpty);
        Appended(st.(depth := Max(st.depth, depth)), found.value.bytes, limit)
    else
      var depth :- SelectedDepth(ctx.mode, 0, nesting, false, true);
      Appended(st.(depth := Max(st.depth, depth)), [], limit)
  }

  /** `quote_pattern_bytes` over the first `k` bytes: the quoted bytes, or the
      first append that does not fit. */
  function QuotedWithin(bytes: seq<Byte>, k: nat, limit: nat): Result<seq<Byte>, Error>
    requires k <= |bytes|
  {
    if k == 0 then Ok([])
    else
      var done :- QuotedWithin(bytes, k - 1, limit);
      if ShellQuote.NeedsQuote(bytes[k - 1]) then
        var slashed :- Appended(State(done, 0, []), [ShellPattern.BACKSLASH], limit);
        var st :- Appended(slashed, [bytes[k - 1]], limit);
        Ok(st.output)
      else
        var st :- Appended(State(done, 0, []), [bytes[k - 1]], limit);
        Ok(st.output)
  }

  ghost function Evaluate(e: Expression, limit: nat, ctx: Context): Result<State, Error> {
    EvalAt(e, limit, 0, ctx, [])
  }
}
