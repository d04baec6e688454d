/** When an expression can be bound, and what stops it when it cannot. */
module ShellBindSuccess {
  import opened Bytes
  import opened ShellExpression
  import opened ShellEval
  import opened ShellMeaning
  import opened ShellBind
  import opened ShellUsage

  /** What binding comes to: an expression at some nesting, or one of its parts. */
  datatype Step = Opened(nesting: nat) | Met(part: Part)

  /** What binding comes to, in order. Of a resolved parameter only the selected word
      is reached, of a runtime-only one every word, of a transform none. */
  function Reached(e: Expression, env: Environment, nesting: nat): seq<Step>
    decreases e, 1
  {
    [Opened(nesting)] + ReachedParts(e.parts, env, nesting)
  }

  function ReachedParts(parts: seq<Part>, env: Environment, nesting: nat): seq<Step>
    decreases parts, 0
  {
    if parts == [] then []
    else ReachedParts(parts[..|parts| - 1], env, nesting) + ReachedPart(parts[|parts| - 1], env, nesting)
  }

  function ReachedPart(part: Part, env: Environment, nesting: nat): seq<Step>
    decreases part, 0
  {
    [Met(part)] +
    match part
    case PatternQuote(e) => Reached(e, env, nesting + 1)
    case Variable(name, op) =>
      var word := ReachedWord(name, op, env);
      if word.Some? then Reached(word.value, env, nesting + 1) else []
    case _ => []
  }

  function ReachedWord(name: Name, op: Operation, env: Environment): (word: Option<Expression>)
    ensures word.Some? ==> op.Word() == word
  {
    if op.IsValueTransform() then None
    else if RuntimeOnly(name) then op.Word()
    else op.SelectedWord(env.lookup(name).Some?, env.lookup(name) == Some([]))
  }

  /** Why binding cannot go past a step. */
  ghost function Obstacle(step: Step, env: Environment): Option<BindError> {
    match step
    case Opened(nesting) => if nesting > MAX_EXPANSION_DEPTH then Some(TooDeep) else None
    case Met(Command(_)) => Some(NotStatic)
    case Met(RegexQuotedVariable(_)) => Some(NotStatic)
    case Met(Variable(name, op)) =>
      if op.IsValueTransform() then Failure(EvaluateStatic(Variable(name, op), env))
      else if RuntimeOnly(name) || env.lookup(name).Some? || !op.UsesValueWhenWordIsNotSelected() then None
      else if op.ErrorIfUnsetOrEmpty? then Some(Required(name))
      else if op.SelectedWord(false, false).Some? then None
      else Some(NotSet(name))
    case Met(_) => None
  }

  function Failure<T, E>(r: Result<T, E>): Option<E> {
    if r.Err? then Some(r.error) else None
  }

  ghost function FirstObstacle(steps: seq<Step>, env: Environment): Option<BindError> {
    if steps == [] then None
    else
      var before := FirstObstacle(steps[..|steps| - 1], env);
      if before.Some? then before else Obstacle(steps[|steps| - 1], env)
  }

  lemma {:induction false} ObstaclesJoin(a: seq<Step>, b: seq<Step>, env: Environment)
    ensures FirstObstacle(a + b, env) == if FirstObstacle(a, env).Some? then FirstObstacle(a, env) else FirstObstacle(b, env)
    decreases |b|
  {
    if b == [] {
      NoneRight(a);
    } else {
      var init := b[..|b| - 1];
      assert (a + b)[..|a + b| - 1] == a + init;
      ObstaclesJoin(a, init, env);
    }
  }

  lemma OneObstacle(step: Step, env: Environment)
    ensures FirstObstacle([step], env) == Obstacle(step, env)
  {
    var steps := [step];
    assert steps[..|steps| - 1] == [];
  }

  lemma {:induction false} BindMeets(e: Expression, env: Environment, nesting: nat)
    ensures Failure(Bind(e, env, nesting)) == FirstObstacle(Reached(e, env, nesting), env)
    decreases e, 1
  {
    ObstaclesJoin([Opened(nesting)], ReachedParts(e.parts, env, nesting), env);
    OneObstacle(Opened(nesting), env);
    BindPartsMeet(e.parts, env, nesting);
  }

  lemma {:induction false} BindPartsMeet(parts: seq<Part>, env: Environment, nesting: nat)
    ensures Failure(BindParts(parts, env, nesting)) == FirstObstacle(ReachedParts(parts, env, nesting), env)
    decreases parts, 0
  {
    if parts != [] {
      var init, last := parts[..|parts| - 1], parts[|parts| - 1];
      BindPartsMeet(init, env, nesting);
      ObstaclesJoin(ReachedParts(init, env, nesting), ReachedPart(last, env, nesting), env);
      var done := BindParts(init, env, nesting);
      if done.Ok? {
        BindPartMeets(last, env, nesting, done.value);
      }
    }
  }

  lemma {:induction false} BindPartMeets(part: Part, env: Environment, nesting: nat, done: seq<Part>)
    ensures Failure(BindPart(part, env, nesting, done)) == FirstObstacle(ReachedPart(part, env, nesting), env)
    decreases part, 1
  {
    OneObstacle(Met(part), env);
    match part
    case PatternQuote(e) =>
      ObstaclesJoin([Met(part)], Reached(e, env, nesting + 1), env);
      BindMeets(e, env, nesting + 1);
    case Variable(_, _) => BindVariableMeets(part, env, nesting, done);
    case _ => NoneRight([Met(part)]);
  }

  lemma {:induction false} BindVariableMeets(part: Part, env: Environment, nesting: nat, done: seq<Part>)
    requires part.Variable?
    ensures Failure(BindPart(part, env, nesting, done)) == FirstObstacle(ReachedPart(part, env, nesting), env)
    decreases part, 0
  {
    OneObstacle(Met(part), env);
    var word := ReachedWord(part.name, part.operation, env);
    if word.Some? {
      ObstaclesJoin([Met(part)], Reached(word.value, env, nesting + 1), env);
      BindMeets(word.value, env, nesting + 1);
    } else {
      NoneRight([Met(part)]);
    }
  }

  lemma {:induction false} FirstObstacleIs(steps: seq<Step>, env: Environment)
    ensures match FirstObstacle(steps, env)
            case None => forall k :: 0 <= k < |steps| ==> Obstacle(steps[k], env).None?
            case Some(error) => exists k :: 0 <= k < |steps| && Obstacle(steps[k], env) == Some(error) &&
                                            forall j :: 0 <= j < k ==> Obstacle(steps[j], env).None?
    decreases |steps|
  {
    if steps != [] {
      var init := steps[..|steps| - 1];
      FirstObstacleIs(init, env);
      if FirstObstacle(init, env).Some? {
        var k :| 0 <= k < |init| && Obstacle(init[k], env) == FirstObstacle(init, env) &&
                 forall j :: 0 <= j < k ==> Obstacle(init[j], env).None?;
        assert Obstacle(steps[k], env) == FirstObstacle(steps, env);
        assert forall j :: 0 <= j < k ==> Obstacle(steps[j], env) == Obstacle(init[j], env);
      } else {
        assert forall j :: 0 <= j < |init| ==> Obstacle(steps[j], env) == Obstacle(init[j], env);
      }
    }
  }

  /** Binding succeeds exactly when nothing it comes to is an obstacle, and otherwise
      fails for the first obstacle. */
  lemma BindingSucceedsExactly(e: Expression, env: Environment, nesting: nat)
    ensures var steps := Reached(e, env, nesting);
            match Bind(e, env, nesting)
            case Ok(_) => forall k :: 0 <= k < |steps| ==> Obstacle(steps[k], env).None?
            case Err(error) => exists k :: 0 <= k < |steps| && Obstacle(steps[k], env) == Some(error) &&
                                           forall j :: 0 <= j < k ==> Obstacle(steps[j], env).None?
  {
    BindMeets(e, env, nesting);
    FirstObstacleIs(Reached(e, env, nesting), env);
  }

  /** The same operator, whatever its word. */
  predicate SameOperator(a: Operation, b: Operation) {
    match (a, b)
    case (Value, Value) => true
    case (DefaultIfUnset(_), DefaultIfUnset(_)) => true
    case (DefaultIfUnsetOrEmpty(_), DefaultIfUnsetOrEmpty(_)) => true
    case (AlternateIfSet(_), AlternateIfSet(_)) => true
    case (AlternateIfSetAndNotEmpty(_), AlternateIfSetAndNotEmpty(_)) => true
    case (AssignIfUnsetOrEmpty(_), AssignIfUnsetOrEmpty(_)) => true
    case (ErrorIfUnsetOrEmpty(m), ErrorIfUnsetOrEmpty(n)) => m == n
    case (Length, Length) => true
    case (RemovePrefix(_, p), RemovePrefix(_, q)) => p == q
    case (RemoveSuffix(_, p), RemoveSuffix(_, q)) => p == q
    case (ChangeCase(_, d, p), ChangeCase(_, e, q)) => d == e && p == q
    case _ => false
  }

  /** Binding a runtime-only parameter keeps its operator and binds its word; it fails
      only with its word. */
  lemma OperatorIsKept(part: Part, env: Environment, nesting: nat)
    requires part.Variable?
    ensures var bound, word := BindOperation(part, env, nesting), part.operation.Word();
            if word.None? then bound == Ok(part.operation)
            else
              match Bind(word.value, env, nesting)
              case Err(e) => bound == Err(e)
              case Ok(w) => bound.Ok? && SameOperator(part.operation, bound.value) && bound.value.Word() == Some(w)
  {
  }

  // ----- Transforms -----

  /** The values at binding time; commands and quoted variables always fail. */
  function BindingSupply(lookup: Values): Supply {
    Supply(SyntaxNesting,
           name => Ok(match lookup(name) case None => None case Some(bytes) => Some(VariableValue(bytes, 0))),
           _ => Err(Unsupported(CommandPart)), _ => Err(Unsupported(RegexQuotedPart)), _ => 0, _ => 0)
  }

  /** A transform can be bound exactly when it means a text, stages nothing, and
      keeps to LINEBUF and to the depth bounds. */
  lemma TransformBindsExactly(part: Part, env: Environment)
    ensures var meaning := Denote(Expression([part]), WorldOf(BindingSupply(env.lookup)), []);
            var usage := UsageOf(Expression([part]), 0, BindingSupply(env.lookup), []);
            EvaluateStatic(part, env).Ok? <==>
            usage.Within(Min(env.linebuf, MAX_ASSIGNMENT_VALUE_LEN)) && meaning.Ok? &&
            meaning.value.assignments == [] && env.isText(meaning.value.output)
  {
    var e, supply := Expression([part]), BindingSupply(env.lookup);
    var ctx, limit := RuntimeContext(env.lookup), Min(env.linebuf, MAX_ASSIGNMENT_VALUE_LEN);
    assert Supplies(ctx, supply);
    EvaluationSucceedsExactly(e, limit, ctx, supply);
  }
}
