/** Binding and the meaning of expressions, errors included. */
module ShellBindMeaning {
  import opened Bytes
  import opened ShellExpression
  import opened ShellEval
  import opened ShellMeaning
  import opened ShellBind
  import opened ShellBindTheorems

  /** The error of a required parameter that binding resolved to the empty string. */
  predicate EmptyRequired(r: Result<Meaning, Error>, lookup: Values) {
    r.Err? && r.error.RequiredParameter? && !RuntimeOnly(r.error.name) && lookup(r.error.name) == Some([])
  }

  ghost function Then(r: Result<Meaning, Error>, parts: seq<Part>, world: World): Result<Meaning, Error> {
    match r
    case Err(e) => Err(e)
    case Ok(m) => DenoteParts(parts, world, m)
  }

  ghost function ThenPart(r: Result<Meaning, Error>, part: Part, world: World): Result<Meaning, Error> {
    match r
    case Err(e) => Err(e)
    case Ok(m) => DenotePart(part, world, m)
  }

  lemma DenoteSnoc(parts: seq<Part>, part: Part, world: World, m: Meaning)
    ensures DenoteParts(parts + [part], world, m) == ThenPart(DenoteParts(parts, world, m), part, world)
  {
    assert (parts + [part])[..|parts|] == parts;
  }

  lemma DenotePushPart(parts: seq<Part>, part: Part, world: World, m: Meaning)
    ensures DenoteParts(PushPart(parts, part), world, m) == ThenPart(DenoteParts(parts, world, m), part, world)
  {
    if part.Literal? && part.text == [] {
      if DenoteParts(parts, world, m).Ok? {
        var done := DenoteParts(parts, world, m).value;
        NoneRight(done.output);
      }
    } else if part.Literal? && parts != [] && parts[|parts| - 1].Literal? {
      var init, last := parts[..|parts| - 1], parts[|parts| - 1].text;
      assert parts == init + [Literal(last)];
      DenoteSnoc(init, Literal(last), world, m);
      DenoteSnoc(init, Literal(last + part.text), world, m);
      if DenoteParts(init, world, m).Ok? {
        var before := DenoteParts(init, world, m).value.output;
        Assoc(before, last, part.text);
      }
    } else {
      DenoteSnoc(parts, part, world, m);
    }
  }

  lemma {:induction false} DenotePushAll(parts: seq<Part>, more: seq<Part>, world: World, m: Meaning)
    ensures DenoteParts(PushAll(parts, more), world, m) == Then(DenoteParts(parts, world, m), more, world)
    decreases |more|
  {
    if more != [] {
      var init, last := more[..|more| - 1], more[|more| - 1];
      DenotePushAll(parts, init, world, m);
      DenotePushPart(PushAll(parts, init), last, world, m);
      ThenSnoc(DenoteParts(parts, world, m), more, world);
    }
  }

  lemma ThenSnoc(r: Result<Meaning, Error>, parts: seq<Part>, world: World)
    requires parts != []
    ensures Then(r, parts, world) == ThenPart(Then(r, parts[..|parts| - 1], world), parts[|parts| - 1], world)
  {
  }

  lemma {:induction false} DenotePartsShift(parts: seq<Part>, world: World, m: Meaning)
    ensures DenoteParts(parts, world, m) == Shifted(m.output, DenoteParts(parts, world, Meaning([], m.assignments)))
    decreases |parts|
  {
    if parts == [] {
      NoneRight(m.output);
    } else {
      var init, last := parts[..|parts| - 1], parts[|parts| - 1];
      DenotePartsShift(init, world, m);
      var bare := DenoteParts(init, world, Meaning([], m.assignments));
      if bare.Ok? {
        var full := Meaning(m.output + bare.value.output, bare.value.assignments);
        DenotePartShift(last, world, bare.value);
        DenotePartShift(last, world, full);
        var own := DenotePart(last, world, Meaning([], bare.value.assignments));
        if own.Ok? {
          Assoc(m.output, bare.value.output, own.value.output);
        }
      }
    }
  }

  /** Same outcome, with nothing staged when it is a success; unless the original
      fails for a required parameter that is empty. */
  predicate SameMeaning(bound: Result<Meaning, Error>, original: Result<Meaning, Error>, lookup: Values) {
    EmptyRequired(original, lookup) || (bound == original && (original.Ok? ==> original.value.assignments == []))
  }

  ghost predicate Bindable(part: Part, a: Values, b: Values) {
    PartAssignmentFree(part) && SameWhenBoundIn(part, a, b)
  }

  lemma {:induction false} BindMeans(e: Expression, env: Environment, values: Values, nesting: nat)
    requires AssignmentFree(e) && SameWhenBound(e, env.lookup, values)
    requires Bind(e, env, nesting).Ok?
    ensures SameMeaning(Denote(Bind(e, env, nesting).value, PlainWorld(values), []), Denote(e, PlainWorld(values), []), env.lookup)
    decreases e, 1
  {
    BindPartsMean(e.parts, env, values, nesting);
  }

  lemma {:induction false} BindPartsMean(parts: seq<Part>, env: Environment, values: Values, nesting: nat)
    requires (forall i :: 0 <= i < |parts| ==> Bindable(parts[i], env.lookup, values))
    requires BindParts(parts, env, nesting).Ok?
    ensures SameMeaning(DenoteParts(BindParts(parts, env, nesting).value, PlainWorld(values), Meaning([], [])),
                        DenoteParts(parts, PlainWorld(values), Meaning([], [])), env.lookup)
    decreases parts, 0
  {
    if parts != [] {
      var init := parts[..|parts| - 1];
      BindPartsMean(init, env, values, nesting);
      if !EmptyRequired(DenoteParts(init, PlainWorld(values), Meaning([], [])), env.lookup) {
        BindPartMeans(parts[|parts| - 1], env, values, nesting, BindParts(init, env, nesting).value);
      }
    }
  }

  lemma {:induction false} BindPartMeans(part: Part, env: Environment, values: Values, nesting: nat, done: seq<Part>)
    requires Bindable(part, env.lookup, values)
    requires BindPart(part, env, nesting, done).Ok?
    requires var mid := DenoteParts(done, PlainWorld(values), Meaning([], []));
             mid.Ok? ==> mid.value.assignments == []
    ensures SameMeaning(DenoteParts(BindPart(part, env, nesting, done).value, PlainWorld(values), Meaning([], [])),
                        ThenPart(DenoteParts(done, PlainWorld(values), Meaning([], [])), part, PlainWorld(values)), env.lookup)
    decreases part, 1
  {
    var world, empty := PlainWorld(values), Meaning([], []);
    match part
    case Literal(text) => DenotePushPart(done, part, world, empty);
    case PatternQuote(e) =>
      BindMeans(e, env, values, nesting + 1);
      DenoteSnoc(done, PatternQuote(Bind(e, env, nesting + 1).value), world, empty);
    case Variable(name, op) =>
      if op.IsValueTransform() {
        TransformMeans(part, env, values, done);
      } else if RuntimeOnly(name) {
        DenoteSnoc(done, Variable(name, BindOperation(part, env, nesting + 1).value), world, empty);
        RuntimeMeans(part, env, values, nesting + 1, DenoteParts(done, world, empty));
      } else {
        KnownMeans(part, env, values, nesting, done);
      }
    case _ =>
  }

  lemma TransformMeans(part: Part, env: Environment, values: Values, done: seq<Part>)
    requires part.Variable? && part.operation.IsValueTransform() && SameNamesIn(part, env.lookup, values)
    requires EvaluateStatic(part, env).Ok?
    requires var mid := DenoteParts(done, PlainWorld(values), Meaning([], []));
             mid.Ok? ==> mid.value.assignments == []
    ensures SameMeaning(DenoteParts(PushLiteral(done, EvaluateStatic(part, env).value), PlainWorld(values), Meaning([], [])),
                        ThenPart(DenoteParts(done, PlainWorld(values), Meaning([], [])), part, PlainWorld(values)), env.lookup)
  {
    var world, bytes := PlainWorld(values), EvaluateStatic(part, env).value;
    RuntimeAgrees(env.lookup);
    EvalComputes(Expression([part]), Min(env.linebuf, MAX_ASSIGNMENT_VALUE_LEN), 0,
                 RuntimeContext(env.lookup), PlainWorld(env.lookup), []);
    DenoteSingle(part, PlainWorld(env.lookup));
    SameNamesPartMeaning(part, env.lookup, values, Meaning([], []));
    DenotePushPart(done, Literal(bytes), world, Meaning([], []));
    var mid := DenoteParts(done, world, Meaning([], []));
    if mid.Ok? {
      DenotePartShift(part, world, mid.value);
    }
  }

  lemma {:induction false} RuntimeMeans(part: Part, env: Environment, values: Values, nesting: nat, mid: Result<Meaning, Error>)
    requires part.Variable? && !part.operation.IsValueTransform() && Bindable(part, env.lookup, values)
    requires BindOperation(part, env, nesting).Ok? && (mid.Ok? ==> mid.value.assignments == [])
    ensures SameMeaning(ThenPart(mid, Variable(part.name, BindOperation(part, env, nesting).value), PlainWorld(values)),
                        ThenPart(mid, part, PlainWorld(values)), env.lookup)
    decreases part, 0
  {
    var bound := Variable(part.name, BindOperation(part, env, nesting).value);
    if part.operation.Word().Some? {
      BindMeans(part.operation.word, env, values, nesting);
    }
    if mid.Ok? {
      FindPlain(part, values, mid.value);
      FindPlain(bound, values, mid.value);
    }
  }

  lemma FindPlain(part: Part, values: Values, m: Meaning)
    requires part.Variable? && m.assignments == []
    ensures DenotePart(part, PlainWorld(values), m) == DenoteVariable(part, values(part.name), PlainWorld(values), m)
  {
    assert Find(PlainWorld(values), m.assignments, part.name) == Ok(values(part.name));
  }

  lemma {:induction false} KnownMeans(part: Part, env: Environment, values: Values, nesting: nat, done: seq<Part>)
    requires part.Variable? && !RuntimeOnly(part.name) && !part.operation.IsValueTransform()
    requires Bindable(part, env.lookup, values)
    requires BindKnown(part, env, nesting, done).Ok?
    requires var mid := DenoteParts(done, PlainWorld(values), Meaning([], []));
             mid.Ok? ==> mid.value.assignments == []
    ensures SameMeaning(DenoteParts(BindKnown(part, env, nesting, done).value, PlainWorld(values), Meaning([], [])),
                        ThenPart(DenoteParts(done, PlainWorld(values), Meaning([], [])), part, PlainWorld(values)), env.lookup)
    decreases part, 0
  {
    var op, value := part.operation, values(part.name);
    if op.SelectedWord(value.Some?, value.Some? && value.value == []).Some? {
      BindMeans(op.word, env, values, nesting + 1);
      SelectedMeans(part, Bind(op.word, env, nesting + 1).value, values, done, env.lookup);
    } else {
      ValueMeans(part, values, done, env.lookup);
    }
  }

  /** Where no word is selected, the value stands in the place of its parameter,
      if the operation uses it. */
  lemma ValueMeans(part: Part, values: Values, done: seq<Part>, lookup: Values)
    requires part.Variable? && !RuntimeOnly(part.name) && !part.operation.IsValueTransform()
    requires !part.operation.AssignIfUnsetOrEmpty? && values(part.name) == lookup(part.name)
    requires part.operation.SelectedWord(values(part.name).Some?, values(part.name) == Some([])).None?
    requires part.operation.UsesValueWhenWordIsNotSelected() ==> values(part.name).Some?
    requires var mid := DenoteParts(done, PlainWorld(values), Meaning([], []));
             mid.Ok? ==> mid.value.assignments == []
    ensures var bound := if part.operation.UsesValueWhenWordIsNotSelected() then PushLiteral(done, values(part.name).value) else done;
            SameMeaning(DenoteParts(bound, PlainWorld(values), Meaning([], [])),
                        ThenPart(DenoteParts(done, PlainWorld(values), Meaning([], [])), part, PlainWorld(values)), lookup)
  {
    var world, empty := PlainWorld(values), Meaning([], []);
    var mid := DenoteParts(done, world, empty);
    if mid.Ok? {
      FindPlain(part, values, mid.value);
      NoneRight(mid.value.output);
    }
    if part.operation.UsesValueWhenWordIsNotSelected() {
      DenotePushPart(done, Literal(values(part.name).value), world, empty);
    }
  }

  /** A word that is selected stands in the place of its parameter. */
  lemma SelectedMeans(part: Part, bound: Expression, values: Values, done: seq<Part>, lookup: Values)
    requires part.Variable? && !part.operation.IsValueTransform() && !part.operation.AssignIfUnsetOrEmpty?
    requires part.operation.SelectedWord(values(part.name).Some?, values(part.name) == Some([])).Some?
    requires SameMeaning(Denote(bound, PlainWorld(values), []), Denote(part.operation.word, PlainWorld(values), []), lookup)
    requires var mid := DenoteParts(done, PlainWorld(values), Meaning([], []));
             mid.Ok? ==> mid.value.assignments == []
    ensures SameMeaning(DenoteParts(PushAll(done, bound.parts), PlainWorld(values), Meaning([], [])),
                        ThenPart(DenoteParts(done, PlainWorld(values), Meaning([], [])), part, PlainWorld(values)), lookup)
  {
    var world, empty := PlainWorld(values), Meaning([], []);
    var mid := DenoteParts(done, world, empty);
    DenotePushAll(done, bound.parts, world, empty);
    if mid.Ok? {
      FindPlain(part, values, mid.value);
      DenotePartsShift(bound.parts, world, mid.value);
    }
  }

  /** Binding changes neither what an expression means at delivery nor which error
      it means, except that it forgets the error of an empty required parameter. */
  lemma BindingForgetsEmptyRequired(e: Expression, env: Environment, values: Values)
    requires AssignmentFree(e) && SameWhenBound(e, env.lookup, values)
    requires Bind(e, env, 0).Ok?
    ensures var original := Denote(e, PlainWorld(values), []);
            Denote(Bind(e, env, 0).value, PlainWorld(values), []) == original || EmptyRequired(original, env.lookup)
  {
    BindMeans(e, env, values, 0);
  }

  // ----- The bound form never asks for a resolved parameter -----

  /** No `:?` stands on a resolved name that is set to the empty string. */
  predicate NoEmptyRequired(e: Expression, lookup: Values)
    decreases e, 1
  {
    forall i :: 0 <= i < |e.parts| ==> NoEmptyRequiredIn(e.parts[i], lookup)
  }

  predicate NoEmptyRequiredIn(part: Part, lookup: Values)
    decreases part, 0
  {
    match part
    case Variable(name, op) =>
      if op.ErrorIfUnsetOrEmpty? then RuntimeOnly(name) || lookup(name) != Some([])
      else op.Word().Some? ==> NoEmptyRequired(op.Word().value, lookup)
    case PatternQuote(e) => NoEmptyRequired(e, lookup)
    case _ => true
  }

  ghost predicate NoneRequired(parts: seq<Part>, lookup: Values) {
    forall i :: 0 <= i < |parts| ==> NoEmptyRequiredIn(parts[i], lookup)
  }

  lemma PushRequired(parts: seq<Part>, part: Part, lookup: Values)
    requires NoneRequired(parts, lookup) && NoEmptyRequiredIn(part, lookup)
    ensures NoneRequired(PushPart(parts, part), lookup)
  {
  }

  lemma {:induction false} PushAllRequired(parts: seq<Part>, more: seq<Part>, lookup: Values)
    requires NoneRequired(parts, lookup) && NoneRequired(more, lookup)
    ensures NoneRequired(PushAll(parts, more), lookup)
    decreases |more|
  {
    if more != [] {
      PushAllRequired(parts, more[..|more| - 1], lookup);
      PushRequired(PushAll(parts, more[..|more| - 1]), more[|more| - 1], lookup);
    }
  }

  lemma {:induction false} BoundRequires(e: Expression, env: Environment, nesting: nat)
    requires Bind(e, env, nesting).Ok?
    ensures NoEmptyRequired(Bind(e, env, nesting).value, env.lookup)
    decreases e, 1
  {
    BoundPartsRequire(e.parts, env, nesting);
  }

  lemma {:induction false} BoundPartsRequire(parts: seq<Part>, env: Environment, nesting: nat)
    requires BindParts(parts, env, nesting).Ok?
    ensures NoneRequired(BindParts(parts, env, nesting).value, env.lookup)
    decreases parts, 0
  {
    if parts != [] {
      var init := parts[..|parts| - 1];
      BoundPartsRequire(init, env, nesting);
      BoundPartRequires(parts[|parts| - 1], env, nesting, BindParts(init, env, nesting).value);
    }
  }

  lemma {:induction false} BoundPartRequires(part: Part, env: Environment, nesting: nat, done: seq<Part>)
    requires NoneRequired(done, env.lookup) && BindPart(part, env, nesting, done).Ok?
    ensures NoneRequired(BindPart(part, env, nesting, done).value, env.lookup)
    decreases part, 0
  {
    match part
    case Literal(text) => PushRequired(done, part, env.lookup);
    case PatternQuote(e) => BoundRequires(e, env, nesting + 1);
    case Variable(name, op) =>
      if op.IsValueTransform() {
        PushRequired(done, Literal(EvaluateStatic(part, env).value), env.lookup);
      } else if RuntimeOnly(name) {
        if op.Word().Some? && !op.ErrorIfUnsetOrEmpty? {
          BoundRequires(op.word, env, nesting + 1);
        }
      } else {
        var value := env.lookup(name);
        if op.SelectedWord(value.Some?, value.Some? && value.value == []).Some? {
          BoundRequires(op.word, env, nesting + 1);
          PushAllRequired(done, Bind(op.word, env, nesting + 1).value.parts, env.lookup);
        } else if op.UsesValueWhenWordIsNotSelected() {
          PushRequired(done, Literal(value.value), env.lookup);
        }
      }
    case _ =>
  }

  /** Without such a `:?` there is no such error. */
  lemma {:induction false} RequiredNames(e: Expression, values: Values, m: Assignments, lookup: Values)
    requires NoEmptyRequired(e, lookup)
    ensures !EmptyRequired(Denote(e, PlainWorld(values), m), lookup)
    decreases e, 1
  {
    RequiredInParts(e.parts, values, Meaning([], m), lookup);
  }

  lemma {:induction false} RequiredInParts(parts: seq<Part>, values: Values, m: Meaning, lookup: Values)
    requires NoneRequired(parts, lookup)
    ensures !EmptyRequired(DenoteParts(parts, PlainWorld(values), m), lookup)
    decreases parts, 0
  {
    if parts != [] {
      var init := parts[..|parts| - 1];
      RequiredInParts(init, values, m, lookup);
      var mid := DenoteParts(init, PlainWorld(values), m);
      if mid.Ok? {
        RequiredName(parts[|parts| - 1], values, mid.value, lookup);
      }
    }
  }

  lemma {:induction false} RequiredName(part: Part, values: Values, m: Meaning, lookup: Values)
    requires NoEmptyRequiredIn(part, lookup)
    ensures !EmptyRequired(DenotePart(part, PlainWorld(values), m), lookup)
    decreases part, 0
  {
    match part
    case PatternQuote(e) => RequiredNames(e, values, m.assignments, lookup);
    case Variable(name, op) =>
      if op.Word().Some? && !op.ErrorIfUnsetOrEmpty? {
        RequiredNames(op.Word().value, values, m.assignments, lookup);
      }
    case _ =>
  }

  /** So without such a `:?` binding changes neither what the expression means at
      delivery nor which error it means. */
  lemma BindingPreservesMeaning(e: Expression, env: Environment, values: Values)
    requires AssignmentFree(e) && SameWhenBound(e, env.lookup, values)
    requires NoEmptyRequired(e, env.lookup) && Bind(e, env, 0).Ok?
    ensures Denote(Bind(e, env, 0).value, PlainWorld(values), []) == Denote(e, PlainWorld(values), [])
  {
    BindingForgetsEmptyRequired(e, env, values);
    RequiredNames(e, values, [], env.lookup);
  }

  /** Bound form and original mean the same exactly when the original does not fail
      for a resolved parameter that is required and empty. */
  lemma BindingPreservesMeaningExactly(e: Expression, env: Environment, values: Values)
    requires AssignmentFree(e) && SameWhenBound(e, env.lookup, values)
    requires Bind(e, env, 0).Ok?
    ensures var original := Denote(e, PlainWorld(values), []);
            Denote(Bind(e, env, 0).value, PlainWorld(values), []) == original <==> !EmptyRequired(original, env.lookup)
  {
    BindingForgetsEmptyRequired(e, env, values);
    BoundRequires(e, env, 0);
    RequiredNames(Bind(e, env, 0).value, values, [], env.lookup);
  }
}
