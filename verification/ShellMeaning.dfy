/** The meaning of a shell expression with no bounds at all, operator by
    operator, and the proof that the bounded evaluator computes it. */
module ShellMeaning {
  import opened Bytes
  import opened ShellExpression
  import opened ShellEval
  import ShellPattern
  import ShellQuote

  /** Variables, commands and regex-quoted values with no notion of budget or depth. */
  datatype World = World(
    variable: Name -> Result<Option<seq<Byte>>, Error>,
    command: string -> Result<seq<Byte>, Error>,
    regexQuoted: Name -> Result<seq<Byte>, Error>)

  datatype Meaning = Meaning(output: seq<Byte>, assignments: Assignments)

  function Find(world: World, assignments: Assignments, name: Name): Result<Option<seq<Byte>>, Error> {
    match Assigned(assignments, name)
    case Some(bytes) => Ok(Some(bytes))
    case None => world.variable(name)
  }

  ghost function Denote(e: Expression, world: World, assignments: Assignments): Result<Meaning, Error>
    decreases e, 1
  {
    DenoteParts(e.parts, world, Meaning([], assignments))
  }

  ghost function DenoteParts(parts: seq<Part>, world: World, m: Meaning): Result<Meaning, Error>
    decreases parts, 0
  {
    if parts == [] then Ok(m)
    else
      var mid :- DenoteParts(parts[..|parts| - 1], world, m);
      DenotePart(parts[|parts| - 1], world, mid)
  }

  ghost function DenotePart(part: Part, world: World, m: Meaning): Result<Meaning, Error>
    decreases part, 1
  {
    match part
    case Literal(text) => Ok(m.(output := m.output + text))
    case Variable(name, _) =>
      var found :- Find(world, m.assignments, name);
      DenoteVariable(part, found, world, m)
    case Command(command) =>
      var bytes :- world.command(command);
      Ok(m.(output := m.output + bytes))
    case RegexQuotedVariable(name) =>
      var bytes :- world.regexQuoted(name);
      Ok(m.(output := m.output + bytes))
    case PatternQuote(e) =>
      var value :- Denote(e, world, m.assignments);
      Ok(Meaning(m.output + ShellQuote.Quoted(value.output), value.assignments))
  }

  /** One row per operator. `:=` yields nothing when the parameter is already
      set and not empty, as the evaluator is written. */
  ghost function DenoteVariable(part: Part, found: Option<seq<Byte>>, world: World, m: Meaning): Result<Meaning, Error>
    requires part.Variable?
    decreases part, 0
  {
    var unset := found.None?;
    var unsetOrEmpty := found.None? || found.value == [];
    match part.operation
    case Value => if unset then Err(MissingVariable(part.name)) else Put(m, found.value)
    case DefaultIfUnset(word) => if unset then PutWord(m, Denote(word, world, m.assignments)) else Put(m, found.value)
    case DefaultIfUnsetOrEmpty(word) =>
      if unsetOrEmpty then PutWord(m, Denote(word, world, m.assignments)) else Put(m, found.value)
    case AlternateIfSet(word) => if unset then Put(m, []) else PutWord(m, Denote(word, world, m.assignments))
    case AlternateIfSetAndNotEmpty(word) =>
      if unsetOrEmpty then Put(m, []) else PutWord(m, Denote(word, world, m.assignments))
    case AssignIfUnsetOrEmpty(word) =>
      if unsetOrEmpty then
        var w :- Denote(word, world, m.assignments);
        Ok(Meaning(m.output + w.output, Assign(w.assignments, part.name, w.output)))
      else Put(m, [])
    case ErrorIfUnsetOrEmpty(_) => if unsetOrEmpty then Err(RequiredParameter(part.name)) else Put(m, found.value)
    case Length => if unset then Err(MissingVariable(part.name)) else Put(m, Decimal(|found.value|))
    case RemovePrefix(pattern, _) =>
      if unset then Err(MissingVariable(part.name))
      else PutTransform(m, part.operation, found.value, Denote(pattern, world, m.assignments))
    case RemoveSuffix(pattern, _) =>
      if unset then Err(MissingVariable(part.name))
      else PutTransform(m, part.operation, found.value, Denote(pattern, world, m.assignments))
    case ChangeCase(pattern, _, _) =>
      if unset then Err(MissingVariable(part.name))
      else PutTransform(m, part.operation, found.value, Denote(pattern, world, m.assignments))
  }

  lemma DenoteSingle(part: Part, world: World)
    ensures Denote(Expression([part]), world, []) == DenotePart(part, world, Meaning([], []))
  {
    var parts, m := [part], Meaning([], []);
    assert parts[..|parts| - 1] == [];
    assert DenoteParts(parts[..|parts| - 1], world, m) == Ok(m);
  }

  function Put(m: Meaning, bytes: seq<Byte>): Result<Meaning, Error> {
    Ok(m.(output := m.output + bytes))
  }

  function PutWord(m: Meaning, word: Result<Meaning, Error>): Result<Meaning, Error> {
    var w :- word;
    Ok(Meaning(m.output + w.output, w.assignments))
  }

  ghost function PutTransform(m: Meaning, op: Operation, value: seq<Byte>, pattern: Result<Meaning, Error>)
    : Result<Meaning, Error>
    requires op.IsValueTransform()
  {
    var p :- pattern;
    var bytes :- Transform(op, value, p.output);
    Ok(Meaning(m.output + bytes, p.assignments))
  }

  // ----- The evaluator computes the meaning or stops at a bound -----

  predicate SameVariable(bounded: Result<Option<VariableValue>, Error>, free: Result<Option<seq<Byte>>, Error>) {
    match (bounded, free)
    case (Err(a), Err(b)) => a == b
    case (Ok(None), Ok(None)) => true
    case (Ok(Some(v)), Ok(Some(bytes))) => v.bytes == bytes
    case _ => false
  }

  predicate SameOrBound(bounded: Result<seq<Byte>, Error>, free: Result<seq<Byte>, Error>) {
    bounded == free || (bounded.Err? && bounded.error.IsResource())
  }

  ghost predicate Agrees(ctx: Context, world: World) {
    && (forall name :: SameVariable(ctx.variable(name), world.variable(name)))
    && (forall c, n :: SameOrBound(ctx.command(c, n), world.command(c)))
    && (forall name, n :: SameOrBound(ctx.regexQuoted(name, n), world.regexQuoted(name)))
  }

  /** A bounded result is the unbounded one, or a resource error. */
  ghost predicate Computes(bounded: Result<State, Error>, free: Result<Meaning, Error>) {
    match bounded
    case Ok(st) => free == Ok(Meaning(st.output, st.assignments))
    case Err(e) => e.IsResource() || free == Err(e)
  }

  lemma {:induction false} QuotedWithinComputes(bytes: seq<Byte>, k: nat, limit: nat)
    requires k <= |bytes|
    ensures match QuotedWithin(bytes, k, limit)
            case Ok(quoted) => quoted == ShellQuote.QuotedTo(bytes, k) && |quoted| <= limit
            case Err(e) => e.TooLong? && |ShellQuote.QuotedTo(bytes, k)| > limit
  {
    if 0 < k {
      QuotedWithinComputes(bytes, k - 1, limit);
      var done := ShellQuote.QuotedTo(bytes, k - 1);
      Assoc(done, [ShellPattern.BACKSLASH], [bytes[k - 1]]);
    }
  }

  lemma {:induction false} EvalComputes(e: Expression, limit: nat, nesting: nat, ctx: Context, world: World, assignments: Assignments)
    requires Agrees(ctx, world)
    ensures Computes(EvalAt(e, limit, nesting, ctx, assignments), Denote(e, world, assignments))
    decreases e, 1
  {
    if nesting <= MAX_EXPANSION_DEPTH {
      EvalPartsComputes(e.parts, limit, nesting, ctx, world,
                        State([], if ctx.mode.SyntaxNesting? then nesting else 0, assignments));
    }
  }

  lemma {:induction false} EvalPartsComputes(parts: seq<Part>, limit: nat, nesting: nat, ctx: Context, world: World, st: State)
    requires Agrees(ctx, world)
    ensures Computes(EvalParts(parts, limit, nesting, ctx, st), DenoteParts(parts, world, Meaning(st.output, st.assignments)))
    decreases parts, 0
  {
    if parts != [] {
      var init := parts[..|parts| - 1];
      EvalPartsComputes(init, limit, nesting, ctx, world, st);
      var mid := EvalParts(init, limit, nesting, ctx, st);
      if mid.Ok? {
        EvalPartComputes(parts[|parts| - 1], limit, nesting, ctx, world, mid.value);
      }
    }
  }

  lemma {:induction false} EvalPartComputes(part: Part, limit: nat, nesting: nat, ctx: Context, world: World, st: State)
    requires Agrees(ctx, world)
    ensures Computes(EvalPart(part, limit, nesting, ctx, st), DenotePart(part, world, Meaning(st.output, st.assignments)))
    decreases part, 1
  {
    match part
    case Literal(_) =>
    case Variable(_, _) =>
      EvalVariableComputes(part, limit, nesting, ctx, world, st);
    case Command(command) =>
      assert SameOrBound(ctx.command(command, Remaining(st, limit)), world.command(command));
    case RegexQuotedVariable(name) =>
      assert SameOrBound(ctx.regexQuoted(name, Remaining(st, limit)), world.regexQuoted(name));
    case PatternQuote(e) =>
      EvalComputes(e, Remaining(st, limit), nesting, ctx, world, st.assignments);
      var value := EvalAt(e, Remaining(st, limit), nesting, ctx, st.assignments);
      if value.Ok? {
        QuotedWithinComputes(value.value.output, |value.value.output|, Remaining(st, limit));
      }
  }

  lemma {:induction false} EvalVariableComputes(part: Part, limit: nat, nesting: nat, ctx: Context, world: World, st: State)
    requires part.Variable? && Agrees(ctx, world)
    ensures Computes(EvalPart(part, limit, nesting, ctx, st), DenotePart(part, world, Meaning(st.output, st.assignments)))
    decreases part, 0, 1
  {
    var found := Lookup(ctx, st.assignments, part.name);
    LookupAgrees(ctx, world, st.assignments, part.name);
    if found.Ok? {
      var free := BytesOf(found.value);
      var m := Meaning(st.output, st.assignments);
      assert DenotePart(part, world, m) == DenoteVariable(part, free, world, m);
      if part.operation.IsValueTransform() {
        EvalTransformComputes(part, found.value, limit, nesting, ctx, world, st);
      } else {
        EvalSelectionComputes(part, found.value, limit, nesting, ctx, world, st);
      }
    }
  }

  lemma LookupAgrees(ctx: Context, world: World, assignments: Assignments, name: Name)
    requires Agrees(ctx, world)
    ensures match Lookup(ctx, assignments, name)
            case Err(e) => Find(world, assignments, name) == Err(e)
            case Ok(found) => Find(world, assignments, name) == Ok(BytesOf(found))
  {
    assert SameVariable(ctx.variable(name), world.variable(name));
  }

  function BytesOf(found: Option<VariableValue>): Option<seq<Byte>> {
    if found.None? then None else Some(found.value.bytes)
  }

  lemma {:induction false} EvalTransformComputes(part: Part, found: Option<VariableValue>, limit: nat, nesting: nat,
                                                 ctx: Context, world: World, st: State)
    requires part.Variable? && part.operation.IsValueTransform() && Agrees(ctx, world)
    ensures Computes(EvalTransform(part, found, limit, nesting, ctx, st),
                     DenoteVariable(part, BytesOf(found), world, Meaning(st.output, st.assignments)))
    decreases part, 0, 0
  {
    if found.Some? && !part.operation.Length? {
      var op := part.operation;
      var word, free := EvalAt(op.pattern, Remaining(st, limit), nesting + 1, ctx, st.assignments),
                        Denote(op.pattern, world, st.assignments);
      EvalComputes(op.pattern, Remaining(st, limit), nesting + 1, ctx, world, st.assignments);
      TransformedComputes(op, found.value, word, free, limit, st);
    }
  }

  /** What is done with the pattern once it has been computed. */
  lemma TransformedComputes(op: Operation, found: VariableValue, word: Result<State, Error>, free: Result<Meaning, Error>,
                            limit: nat, st: State)
    requires op.IsValueTransform() && !op.Length? && Computes(word, free)
    ensures var bounded := if word.Err? then Err(word.error)
                           else
                             var bytes := Transform(op, found.bytes, word.value.output);
                             if bytes.Err? then Err(bytes.error)
                             else Appended(State(st.output, Max(st.depth, Max(found.depth, word.value.depth)),
                                                 word.value.assignments), bytes.value, limit);
            Computes(bounded, PutTransform(Meaning(st.output, st.assignments), op, found.bytes, free))
  {
  }

  lemma {:induction false} EvalSelectionComputes(part: Part, found: Option<VariableValue>, limit: nat, nesting: nat,
                                                 ctx: Context, world: World, st: State)
    requires part.Variable? && !part.operation.IsValueTransform() && Agrees(ctx, world)
    ensures Computes(EvalSelection(part, found, limit, nesting, ctx, st),
                     DenoteVariable(part, BytesOf(found), world, Meaning(st.output, st.assignments)))
    decreases part, 0, 0
  {
    var op := part.operation;
    if op.SelectedWord(found.Some?, found.Some? && found.value.bytes == []).Some? {
      EvalComputes(op.word, Remaining(st, limit), nesting + 1, ctx, world, st.assignments);
    }
  }

  /** `${X:=w}` and `${X:-w}` fail together, when the word runs and fails; when they
      do not, they write the same exactly when X is unset or empty: on a value that
      is already there, `:=` writes nothing. */
  lemma AssignWritesDefaultOnlyWhenEmpty(name: Name, word: Expression, found: Option<seq<Byte>>, world: World, m: Meaning)
    ensures var assign := DenoteVariable(Variable(name, AssignIfUnsetOrEmpty(word)), found, world, m);
            var default := DenoteVariable(Variable(name, DefaultIfUnsetOrEmpty(word)), found, world, m);
            if assign.Err? || default.Err? then assign == default && (found.None? || found.value == [])
            else assign.value.output == default.value.output <==> found.None? || found.value == []
  {
    if found.Some? && found.value != [] {
      NoneRight(m.output);
    }
  }
}
