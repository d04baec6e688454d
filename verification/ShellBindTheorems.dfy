/** Binding preserves what an expression evaluates to. */
module ShellBindTheorems {
  import opened Bytes
  import opened ShellExpression
  import opened ShellEval
  import opened ShellMeaning
  import opened ShellBind

  // ----- Evaluating part lists built by pushing -----

  lemma EvalSnoc(parts: seq<Part>, part: Part, limit: nat, nesting: nat, ctx: Context, st: State)
    ensures EvalParts(parts + [part], limit, nesting, ctx, st) ==
            match EvalParts(parts, limit, nesting, ctx, st)
            case Err(e) => Err(e)
            case Ok(mid) => EvalPart(part, limit, nesting, ctx, mid)
  {
    assert (parts + [part])[..|parts|] == parts;
  }

  lemma EvalPushLiteral(parts: seq<Part>, text: seq<Byte>, limit: nat, nesting: nat, ctx: Context, st: State, mid: State)
    requires EvalParts(parts, limit, nesting, ctx, st) == Ok(mid)
    requires |mid.output| + |text| <= limit
    ensures EvalParts(PushLiteral(parts, text), limit, nesting, ctx, st) == Ok(mid.(output := mid.output + text))
  {
    if text == [] {
      NoneRight(mid.output);
    } else if parts != [] && parts[|parts| - 1].Literal? {
      var init, last := parts[..|parts| - 1], parts[|parts| - 1].text;
      assert parts == init + [Literal(last)];
      EvalSnoc(init, Literal(last), limit, nesting, ctx, st);
      EvalSnoc(init, Literal(last + text), limit, nesting, ctx, st);
      var before := EvalParts(init, limit, nesting, ctx, st).value;
      Assoc(before.output, last, text);
    } else {
      EvalSnoc(parts, Literal(text), limit, nesting, ctx, st);
    }
  }

  lemma EvalPushPart(parts: seq<Part>, part: Part, limit: nat, nesting: nat, ctx: Context, st: State, mid: State, end: State)
    requires EvalParts(parts, limit, nesting, ctx, st) == Ok(mid)
    requires EvalPart(part, limit, nesting, ctx, mid) == Ok(end)
    ensures EvalParts(PushPart(parts, part), limit, nesting, ctx, st) == Ok(end)
  {
    if part.Literal? {
      EvalPushLiteral(parts, part.text, limit, nesting, ctx, st, mid);
    } else {
      EvalSnoc(parts, part, limit, nesting, ctx, st);
    }
  }

  lemma {:induction false} EvalPushAll(parts: seq<Part>, more: seq<Part>, limit: nat, nesting: nat, ctx: Context,
                                       st: State, mid: State, end: State)
    requires EvalParts(parts, limit, nesting, ctx, st) == Ok(mid)
    requires EvalParts(more, limit, nesting, ctx, mid) == Ok(end)
    ensures EvalParts(PushAll(parts, more), limit, nesting, ctx, st) == Ok(end)
    decreases |more|
  {
    if more != [] {
      var init := more[..|more| - 1];
      var before := EvalParts(init, limit, nesting, ctx, mid).value;
      EvalPushAll(parts, init, limit, nesting, ctx, st, mid, before);
      EvalPushPart(PushAll(parts, init), more[|more| - 1], limit, nesting, ctx, st, before, end);
    }
  }

  // ----- The original run and the bound run, side by side -----

  /** The bound run has written `prefix` first; otherwise both runs hold the same
      text, nothing is staged, and the bound run is no deeper (beyond `base`). */
  predicate InStep(bound: State, original: State, prefix: seq<Byte>, base: nat) {
    bound.output == prefix + original.output &&
    bound.depth <= Max(base, original.depth) &&
    bound.assignments == original.assignments == []
  }

  /** Evaluation of the original succeeded and the bound form keeps up with it. */
  ghost predicate KeepsUp(bound: Result<State, Error>, original: State, prefix: seq<Byte>, base: nat) {
    bound.Ok? && InStep(bound.value, original, prefix, base)
  }

  lemma {:induction false} BindKeepsUp(e: Expression, env: Environment, values: Values, bindNesting: nat,
                                       limit: nat, nesting: nat, lower: nat)
    requires AssignmentFree(e) && SameWhenBound(e, env.lookup, values) && lower <= nesting
    requires Bind(e, env, bindNesting).Ok?
    requires EvalAt(e, limit, nesting, RuntimeContext(values), []).Ok?
    ensures KeepsUp(EvalAt(Bind(e, env, bindNesting).value, limit, lower, RuntimeContext(values), []),
                    EvalAt(e, limit, nesting, RuntimeContext(values), []).value, [], 0)
    decreases e, 1
  {
    BindPartsKeepUp(e.parts, env, values, bindNesting, limit, nesting, lower, [], 0, State([], lower, []));
  }

  lemma {:induction false} BindPartsKeepUp(parts: seq<Part>, env: Environment, values: Values, bindNesting: nat,
                                           limit: nat, nesting: nat, lower: nat, prefix: seq<Byte>, base: nat, start: State)
    requires forall i :: 0 <= i < |parts| ==> PartAssignmentFree(parts[i]) && SameWhenBoundIn(parts[i], env.lookup, values)
    requires lower <= nesting <= MAX_EXPANSION_DEPTH
    requires BindParts(parts, env, bindNesting).Ok?
    requires EvalParts(parts, limit, nesting, RuntimeContext(values), State([], nesting, [])).Ok?
    requires InStep(start, State([], nesting, []), prefix, base)
    ensures KeepsUp(EvalParts(BindParts(parts, env, bindNesting).value, |prefix| + limit, lower, RuntimeContext(values), start),
                    EvalParts(parts, limit, nesting, RuntimeContext(values), State([], nesting, [])).value, prefix, base)
    decreases parts, 0
  {
    if parts != [] {
      var init := parts[..|parts| - 1];
      var ctx := RuntimeContext(values);
      BindPartsKeepUp(init, env, values, bindNesting, limit, nesting, lower, prefix, base, start);
      var done := BindParts(init, env, bindNesting).value;
      var original := EvalParts(init, limit, nesting, ctx, State([], nesting, [])).value;
      var mid := EvalParts(done, |prefix| + limit, lower, ctx, start).value;
      BindPartKeepsUp(parts[|parts| - 1], env, values, bindNesting, limit, nesting, lower, prefix, base, start, done, original, mid);
    }
  }

  lemma {:induction false} BindPartKeepsUp(part: Part, env: Environment, values: Values, bindNesting: nat,
                                           limit: nat, nesting: nat, lower: nat, prefix: seq<Byte>, base: nat, start: State,
                                           done: seq<Part>, original: State, mid: State)
    requires PartAssignmentFree(part) && SameWhenBoundIn(part, env.lookup, values)
    requires lower <= nesting <= MAX_EXPANSION_DEPTH
    requires EvalParts(done, |prefix| + limit, lower, RuntimeContext(values), start) == Ok(mid)
    requires InStep(mid, original, prefix, base)
    requires BindPart(part, env, bindNesting, done).Ok?
    requires EvalPart(part, limit, nesting, RuntimeContext(values), original).Ok?
    ensures KeepsUp(EvalParts(BindPart(part, env, bindNesting, done).value, |prefix| + limit, lower, RuntimeContext(values), start),
                    EvalPart(part, limit, nesting, RuntimeContext(values), original).value, prefix, base)
    decreases part, 1
  {
    var ctx, wide := RuntimeContext(values), |prefix| + limit;
    match part
    case Literal(text) =>
      LiteralKeepsUp(text, limit, lower, prefix, base, ctx, start, done, original, mid,
                     EvalPart(part, limit, nesting, ctx, original).value);
    case PatternQuote(e) =>
      QuotePartKeepsUp(part, env, values, bindNesting, limit, nesting, lower, prefix, base, start, done, original, mid);
    case Variable(name, op) =>
      if op.IsValueTransform() {
        TransformKeepsUp(part, env, values, limit, nesting, lower, prefix, base, start, done, original, mid);
      } else if RuntimeOnly(name) {
        var bound := Variable(name, BindOperation(part, env, bindNesting + 1).value);
        EvalSnoc(done, bound, wide, lower, ctx, start);
        RuntimeKeepsUp(part, bound, env, values, bindNesting + 1, limit, nesting, lower, prefix, base, original, mid);
      } else {
        KnownKeepsUp(part, env, values, bindNesting, limit, nesting, lower, prefix, base, start, done, original, mid);
      }
    case _ =>
  }

  lemma {:induction false} QuotePartKeepsUp(part: Part, env: Environment, values: Values, bindNesting: nat,
                                            limit: nat, nesting: nat, lower: nat, prefix: seq<Byte>, base: nat, start: State,
                                            done: seq<Part>, original: State, mid: State)
    requires part.PatternQuote? && PartAssignmentFree(part) && SameWhenBoundIn(part, env.lookup, values)
    requires lower <= nesting <= MAX_EXPANSION_DEPTH
    requires EvalParts(done, |prefix| + limit, lower, RuntimeContext(values), start) == Ok(mid)
    requires InStep(mid, original, prefix, base)
    requires Bind(part.expression, env, bindNesting + 1).Ok?
    requires EvalPart(part, limit, nesting, RuntimeContext(values), original).Ok?
    ensures KeepsUp(EvalParts(done + [PatternQuote(Bind(part.expression, env, bindNesting + 1).value)], |prefix| + limit, lower,
                              RuntimeContext(values), start),
                    EvalPart(part, limit, nesting, RuntimeContext(values), original).value, prefix, base)
    decreases part, 1, 0
  {
    var ctx, e := RuntimeContext(values), part.expression;
    BindKeepsUp(e, env, values, bindNesting + 1, Remaining(original, limit), nesting, lower);
    var bound := PatternQuote(Bind(e, env, bindNesting + 1).value);
    EvalSnoc(done, bound, |prefix| + limit, lower, ctx, start);
    QuotesKeepUp(e, bound, limit, nesting, lower, prefix, base, ctx, original, mid);
  }

  lemma QuotesKeepUp(e: Expression, bound: Part, limit: nat, nesting: nat, lower: nat, prefix: seq<Byte>, base: nat,
                     ctx: Context, original: State, mid: State)
    requires bound.PatternQuote? && InStep(mid, original, prefix, base)
    requires EvalPart(PatternQuote(e), limit, nesting, ctx, original).Ok?
    requires var r := EvalAt(e, Remaining(original, limit), nesting, ctx, []);
             r.Ok? && KeepsUp(EvalAt(bound.expression, Remaining(original, limit), lower, ctx, []), r.value, [], 0)
    ensures KeepsUp(EvalPart(bound, |prefix| + limit, lower, ctx, mid),
                    EvalPart(PatternQuote(e), limit, nesting, ctx, original).value, prefix, base)
  {
    var rest := Remaining(original, limit);
    assert Remaining(mid, |prefix| + limit) == rest;
    var text := EvalAt(e, rest, nesting, ctx, []).value.output;
    NoneLeft(text);
    Assoc(prefix, original.output, QuotedWithin(text, |text|, rest).value);
  }

  lemma {:induction false} KnownKeepsUp(part: Part, env: Environment, values: Values, bindNesting: nat,
                                        limit: nat, nesting: nat, lower: nat, prefix: seq<Byte>, base: nat, start: State,
                                        done: seq<Part>, original: State, mid: State)
    requires part.Variable? && !RuntimeOnly(part.name) && !part.operation.IsValueTransform()
    requires PartAssignmentFree(part) && SameWhenBoundIn(part, env.lookup, values)
    requires lower <= nesting <= MAX_EXPANSION_DEPTH
    requires EvalParts(done, |prefix| + limit, lower, RuntimeContext(values), start) == Ok(mid)
    requires InStep(mid, original, prefix, base)
    requires BindKnown(part, env, bindNesting, done).Ok?
    requires EvalPart(part, limit, nesting, RuntimeContext(values), original).Ok?
    ensures KeepsUp(EvalParts(BindKnown(part, env, bindNesting, done).value, |prefix| + limit, lower, RuntimeContext(values), start),
                    EvalPart(part, limit, nesting, RuntimeContext(values), original).value, prefix, base)
    decreases part, 0, 1
  {
    var ctx, wide := RuntimeContext(values), |prefix| + limit;
    var op, value := part.operation, values(part.name);
    if op.SelectedWord(value.Some?, value.Some? && value.value == []).Some? {
      SelectedKeepsUp(part, env, values, bindNesting, limit, nesting, lower, prefix, base, start, done, original, mid);
    } else if op.UsesValueWhenWordIsNotSelected() {
      LiteralKeepsUp(value.value, limit, lower, prefix, base, ctx, start, done, original, mid,
                     EvalPart(part, limit, nesting, ctx, original).value);
    } else {
      NoneRight(original.output);
    }
  }

  lemma {:induction false} SelectedKeepsUp(part: Part, env: Environment, values: Values, bindNesting: nat,
                                           limit: nat, nesting: nat, lower: nat, prefix: seq<Byte>, base: nat, start: State,
                                           done: seq<Part>, original: State, mid: State)
    requires part.Variable? && !RuntimeOnly(part.name) && !part.operation.IsValueTransform()
    requires PartAssignmentFree(part) && SameWhenBoundIn(part, env.lookup, values)
    requires part.operation.SelectedWord(values(part.name).Some?, values(part.name) == Some([])).Some?
    requires lower <= nesting <= MAX_EXPANSION_DEPTH
    requires EvalParts(done, |prefix| + limit, lower, RuntimeContext(values), start) == Ok(mid)
    requires InStep(mid, original, prefix, base)
    requires BindKnown(part, env, bindNesting, done).Ok?
    requires EvalPart(part, limit, nesting, RuntimeContext(values), original).Ok?
    ensures KeepsUp(EvalParts(BindKnown(part, env, bindNesting, done).value, |prefix| + limit, lower, RuntimeContext(values), start),
                    EvalPart(part, limit, nesting, RuntimeContext(values), original).value, prefix, base)
    decreases part, 0, 0
  {
    var ctx, wide := RuntimeContext(values), |prefix| + limit;
    var word, rest := part.operation.word, Remaining(original, limit);
    var bound := Bind(word, env, bindNesting + 1).value;
    var text := EvalAt(word, rest, nesting + 1, ctx, []).value;
    BindPartsKeepUp(word.parts, env, values, bindNesting + 1, rest, nesting + 1, lower, mid.output, mid.depth, mid);
    SelectedEnds(part, limit, nesting, values, original);
    SelectedJoins(done, bound.parts, wide, lower, ctx, start, mid, text, original, prefix, base);
  }

  lemma SelectedJoins(done: seq<Part>, word: seq<Part>, wide: nat, lower: nat, ctx: Context, start: State, mid: State,
                      text: State, original: State, prefix: seq<Byte>, base: nat)
    requires EvalParts(done, wide, lower, ctx, start) == Ok(mid) && InStep(mid, original, prefix, base)
    requires KeepsUp(EvalParts(word, wide, lower, ctx, mid), text, mid.output, mid.depth)
    ensures KeepsUp(EvalParts(PushAll(done, word), wide, lower, ctx, start),
                    State(original.output + text.output, Max(original.depth, text.depth), text.assignments), prefix, base)
  {
    var after := EvalParts(word, wide, lower, ctx, mid).value;
    EvalPushAll(done, word, wide, lower, ctx, start, mid, after);
    Assoc(prefix, original.output, text.output);
  }

  /** A selected word writes its text and no assignment. */
  lemma SelectedEnds(part: Part, limit: nat, nesting: nat, values: Values, st: State)
    requires part.Variable? && !part.operation.IsValueTransform() && !part.operation.AssignIfUnsetOrEmpty?
    requires part.operation.SelectedWord(values(part.name).Some?, values(part.name) == Some([])).Some?
    requires st.assignments == [] && EvalPart(part, limit, nesting, RuntimeContext(values), st).Ok?
    ensures var word := EvalAt(part.operation.word, Remaining(st, limit), nesting + 1, RuntimeContext(values), []);
            word.Ok? && EvalPart(part, limit, nesting, RuntimeContext(values), st) ==
                        Ok(State(st.output + word.value.output, Max(st.depth, word.value.depth), word.value.assignments))
  {
  }

  lemma {:induction false} RuntimeKeepsUp(part: Part, bound: Part, env: Environment, values: Values, bindNesting: nat,
                                          limit: nat, nesting: nat, lower: nat, prefix: seq<Byte>, base: nat,
                                          original: State, mid: State)
    requires part.Variable? && !part.operation.IsValueTransform()
    requires PartAssignmentFree(part) && SameWhenBoundIn(part, env.lookup, values)
    requires lower <= nesting <= MAX_EXPANSION_DEPTH
    requires InStep(mid, original, prefix, base)
    requires BindOperation(part, env, bindNesting).Ok?
    requires bound == Variable(part.name, BindOperation(part, env, bindNesting).value)
    requires EvalPart(part, limit, nesting, RuntimeContext(values), original).Ok?
    ensures KeepsUp(EvalPart(bound, |prefix| + limit, lower, RuntimeContext(values), mid),
                    EvalPart(part, limit, nesting, RuntimeContext(values), original).value, prefix, base)
    decreases part, 0
  {
    var ctx := RuntimeContext(values);
    var op := part.operation;
    var found := Lookup(ctx, [], part.name).value;
    var isSet, isEmpty := found.Some?, found.Some? && found.value.bytes == [];
    var rest := Remaining(original, limit);
    assert Remaining(mid, |prefix| + limit) == rest;
    if op.SelectedWord(isSet, isEmpty).Some? {
      BindKeepsUp(op.word, env, values, bindNesting, rest, nesting + 1, lower + 1);
      var word := EvalAt(op.word, rest, nesting + 1, ctx, []).value;
      SelectedWordKeepsUp(part, bound, found, limit, nesting, lower, prefix, base, ctx, original, mid, word);
    } else if op.UsesValueWhenWordIsNotSelected() {
      Assoc(prefix, original.output, found.value.bytes);
    } else {
      NoneRight(original.output);
      NoneRight(mid.output);
    }
  }

  lemma SelectedWordKeepsUp(part: Part, bound: Part, found: Option<VariableValue>, limit: nat, nesting: nat, lower: nat,
                            prefix: seq<Byte>, base: nat, ctx: Context, original: State, mid: State, word: State)
    requires part.Variable? && bound.Variable? && ctx.mode.SyntaxNesting? && InStep(mid, original, prefix, base)
    requires !part.operation.IsValueTransform() && !part.operation.AssignIfUnsetOrEmpty?
    requires !bound.operation.IsValueTransform() && !bound.operation.AssignIfUnsetOrEmpty?
    requires !part.operation.ErrorIfUnsetOrEmpty? && !bound.operation.ErrorIfUnsetOrEmpty?
    requires part.operation.SelectedWord(found.Some?, found.Some? && found.value.bytes == []).Some?
    requires bound.operation.SelectedWord(found.Some?, found.Some? && found.value.bytes == []).Some?
    requires EvalAt(part.operation.word, Remaining(original, limit), nesting + 1, ctx, []) == Ok(word)
    requires KeepsUp(EvalAt(bound.operation.word, Remaining(mid, |prefix| + limit), lower + 1, ctx, []), word, [], 0)
    requires EvalSelection(part, found, limit, nesting, ctx, original).Ok?
    ensures KeepsUp(EvalSelection(bound, found, |prefix| + limit, lower, ctx, mid),
                    EvalSelection(part, found, limit, nesting, ctx, original).value, prefix, base)
  {
    NoneLeft(word.output);
    Assoc(prefix, original.output, word.output);
  }

  function Shifted(output: seq<Byte>, r: Result<Meaning, Error>): Result<Meaning, Error> {
    match r
    case Err(e) => Err(e)
    case Ok(m) => Ok(Meaning(output + m.output, m.assignments))
  }

  lemma DenoteVariableShift(part: Part, found: Result<Option<seq<Byte>>, Error>, world: World, m: Meaning)
    requires part.Variable?
    ensures found.Ok? ==> DenoteVariable(part, found.value, world, m) ==
                          Shifted(m.output, DenoteVariable(part, found.value, world, Meaning([], m.assignments)))
  {
    var none: seq<Byte> := [];
    assert forall text: seq<Byte> {:trigger none + text} :: none + text == text;
  }

  /** What a part contributes does not depend on the text before it. */
  lemma DenotePartShift(part: Part, world: World, m: Meaning)
    ensures DenotePart(part, world, m) == Shifted(m.output, DenotePart(part, world, Meaning([], m.assignments)))
  {
    var none: seq<Byte> := [];
    assert forall text: seq<Byte> {:trigger none + text} :: none + text == text;
    match part
    case Literal(text) => assert none + text == text;
    case Command(_) =>
    case RegexQuotedVariable(_) =>
    case PatternQuote(e) =>
    case Variable(name, op) => DenoteVariableShift(part, Find(world, m.assignments, name), world, m);
  }

  lemma TransformEnds(part: Part, limit: nat, nesting: nat, ctx: Context, st: State)
    requires part.Variable? && part.operation.IsValueTransform()
    requires EvalPart(part, limit, nesting, ctx, st).Ok?
    ensures var end := EvalPart(part, limit, nesting, ctx, st).value;
            |end.output| <= limit && st.depth <= end.depth
  {
  }

  /** A transform over static names bound ahead of time writes the bytes that
      evaluating it at delivery writes. */
  lemma TransformText(part: Part, env: Environment, values: Values, limit: nat, nesting: nat, original: State)
    requires part.Variable? && part.operation.IsValueTransform() && SameNamesIn(part, env.lookup, values)
    requires EvaluateStatic(part, env).Ok? && original.assignments == []
    requires EvalPart(part, limit, nesting, RuntimeContext(values), original).Ok?
    ensures var end := EvalPart(part, limit, nesting, RuntimeContext(values), original).value;
            end.output == original.output + EvaluateStatic(part, env).value &&
            |end.output| <= limit && original.depth <= end.depth && end.assignments == []
  {
    TransformEnds(part, limit, nesting, RuntimeContext(values), original);
    RuntimeAgrees(values);
    RuntimeAgrees(env.lookup);
    EvalPartComputes(part, limit, nesting, RuntimeContext(values), PlainWorld(values), original);
    EvalComputes(Expression([part]), Min(env.linebuf, MAX_ASSIGNMENT_VALUE_LEN), 0,
                 RuntimeContext(env.lookup), PlainWorld(env.lookup), []);
    DenoteSingle(part, PlainWorld(env.lookup));
    SameNamesPartMeaning(part, env.lookup, values, Meaning([], []));
    DenotePartShift(part, PlainWorld(values), Meaning(original.output, []));
  }

  lemma TransformKeepsUp(part: Part, env: Environment, values: Values,
                         limit: nat, nesting: nat, lower: nat, prefix: seq<Byte>, base: nat, start: State,
                         done: seq<Part>, original: State, mid: State)
    requires part.Variable? && part.operation.IsValueTransform() && SameNamesIn(part, env.lookup, values)
    requires EvalParts(done, |prefix| + limit, lower, RuntimeContext(values), start) == Ok(mid)
    requires InStep(mid, original, prefix, base)
    requires EvaluateStatic(part, env).Ok?
    requires EvalPart(part, limit, nesting, RuntimeContext(values), original).Ok?
    ensures KeepsUp(EvalParts(PushLiteral(done, EvaluateStatic(part, env).value), |prefix| + limit, lower, RuntimeContext(values), start),
                    EvalPart(part, limit, nesting, RuntimeContext(values), original).value, prefix, base)
  {
    TransformText(part, env, values, limit, nesting, original);
    LiteralKeepsUp(EvaluateStatic(part, env).value, limit, lower, prefix, base, RuntimeContext(values), start, done, original, mid,
                   EvalPart(part, limit, nesting, RuntimeContext(values), original).value);
  }

  /** Pushing literal text keeps the bound run in step with a run that wrote the same text. */
  lemma LiteralKeepsUp(text: seq<Byte>, limit: nat, lower: nat, prefix: seq<Byte>, base: nat, ctx: Context, start: State,
                       done: seq<Part>, original: State, mid: State, end: State)
    requires EvalParts(done, |prefix| + limit, lower, ctx, start) == Ok(mid)
    requires InStep(mid, original, prefix, base)
    requires end.output == original.output + text && |end.output| <= limit
    requires original.depth <= end.depth && end.assignments == []
    ensures KeepsUp(EvalParts(PushLiteral(done, text), |prefix| + limit, lower, ctx, start), end, prefix, base)
  {
    Assoc(prefix, original.output, text);
    EvalPushLiteral(done, text, |prefix| + limit, lower, ctx, start, mid);
  }

  /** Main theorem: if binding succeeds, every successful evaluation of the
      original at delivery is matched by the bound form, byte for byte, under the
      same limit, whatever the runtime-only variables hold by then. */
  lemma BindingPreservesEvaluation(e: Expression, env: Environment, values: Values, limit: nat)
    requires AssignmentFree(e) && SameWhenBound(e, env.lookup, values)
    requires Bind(e, env, 0).Ok?
    requires Evaluate(e, limit, RuntimeContext(values)).Ok?
    ensures var original := Evaluate(e, limit, RuntimeContext(values)).value;
            var bound := Evaluate(Bind(e, env, 0).value, limit, RuntimeContext(values));
            bound.Ok? && bound.value.output == original.output && bound.value.depth <= original.depth
  {
    BindKeepsUp(e, env, values, 0, limit, 0, 0);
  }

  // ----- Where binding and evaluation part ways -----

  /** `${X:?message}` on a resolved parameter: the bound form and the original
      succeed together exactly when X is not set to the empty string. */
  lemma RequiredParameterBinding(name: Name, message: Expression, env: Environment, limit: nat)
    requires !RuntimeOnly(name)
    requires env.lookup(name).Some? ==> |env.lookup(name).value| <= limit
    ensures var e := Expression([Variable(name, ErrorIfUnsetOrEmpty(message))]);
            var original := Evaluate(e, limit, RuntimeContext(env.lookup));
            match Bind(e, env, 0)
            case Err(_) => original == Err(RequiredParameter(name)) && env.lookup(name).None?
            case Ok(bound) =>
              (Evaluate(bound, limit, RuntimeContext(env.lookup)).Ok? <==> original.Ok?) <==>
              env.lookup(name) != Some([])
  {
    var part := Variable(name, ErrorIfUnsetOrEmpty(message));
    var ctx, start := RuntimeContext(env.lookup), State([], 0, []);
    EvalSnoc([], part, limit, 0, ctx, start);
    assert [] + [part] == [part];
    BindSingle(part, env);
    if env.lookup(name).Some? {
      EvalPushLiteral([], env.lookup(name).value, limit, 0, ctx, start, start);
    }
  }

  lemma BindSingle(part: Part, env: Environment)
    ensures BindParts([part], env, 0) == BindPart(part, env, 0, [])
  {
    var parts := [part];
    assert parts[..|parts| - 1] == [];
    assert BindParts(parts[..|parts| - 1], env, 0) == Ok([]);
  }

  /** `${#R}` on a runtime-only name is evaluated when bound, so its bound form
      is right at delivery exactly when the length has not changed since. */
  lemma StaleLength(name: Name, before: seq<Byte>, after: seq<Byte>, env: Environment, values: Values, limit: nat)
    requires RuntimeOnly(name) && env.lookup(name) == Some(before) && values(name) == Some(after)
    requires |Decimal(|before|)| <= limit && |Decimal(|after|)| <= limit
    requires env.isText(Decimal(|before|)) && |Decimal(|before|)| <= Min(env.linebuf, MAX_ASSIGNMENT_VALUE_LEN)
    ensures var e := Expression([Variable(name, Length)]);
            Bind(e, env, 0).Ok? &&
            var original := Evaluate(e, limit, RuntimeContext(values));
            var bound := Evaluate(Bind(e, env, 0).value, limit, RuntimeContext(values));
            original.Ok? && bound.Ok? &&
            (original.value.output == bound.value.output <==> |before| == |after|)
  {
    var first, now := Decimal(|before|), Decimal(|after|);
    LengthWrites(name, after, now, values, limit);
    LengthWrites(name, before, first, env.lookup, Min(env.linebuf, MAX_ASSIGNMENT_VALUE_LEN));
    BoundWrites(Variable(name, Length), first, env, values, limit);
    DecimalInjective(|before|, |after|);
  }

  lemma LengthWrites(name: Name, bytes: seq<Byte>, digits: seq<Byte>, values: Values, limit: nat)
    requires values(name) == Some(bytes) && digits == Decimal(|bytes|) && |digits| <= limit
    ensures var r := Evaluate(Expression([Variable(name, Length)]), limit, RuntimeContext(values));
            r.Ok? && r.value.output == digits && r.value.assignments == []
  {
    var part := Variable(name, Length);
    var none: seq<Part> := [];
    assert none + [part] == [part];
    EvalSnoc(none, part, limit, 0, RuntimeContext(values), State([], 0, []));
    NoneLeft(digits);
  }

  /** A transform bound ahead of time writes what it was bound to. */
  lemma BoundWrites(part: Part, text: seq<Byte>, env: Environment, values: Values, limit: nat)
    requires part.Variable? && part.operation.IsValueTransform() && EvaluateStatic(part, env) == Ok(text) && |text| <= limit
    ensures var bound := Bind(Expression([part]), env, 0);
            bound.Ok? &&
            var r := Evaluate(bound.value, limit, RuntimeContext(values));
            r.Ok? && r.value.output == text
  {
    var none: seq<Part> := [];
    var start := State([], 0, []);
    BindSingle(part, env);
    EvalPushLiteral(none, text, limit, 0, RuntimeContext(values), start, start);
    NoneLeft(text);
  }
}
