/** Binding as it runs: parts are pushed onto a growing vector, adjacent literals merged. */
module ShellBinder {
  import opened Bytes
  import opened ShellExpression
  import opened ShellBind
  import ShellEvaluator

  lemma {:induction false} BindFailureIsFinal(parts: seq<Part>, k: nat, env: Environment, nesting: nat)
    requires k <= |parts| && BindParts(parts[..k], env, nesting).Err?
    ensures BindParts(parts, env, nesting) == BindParts(parts[..k], env, nesting)
    decreases |parts|
  {
    if k < |parts| {
      var init := parts[..|parts| - 1];
      assert init[..k] == parts[..k];
      BindFailureIsFinal(init, k, env, nesting);
    } else {
      assert parts[..k] == parts;
    }
  }

  method PushEach(parts: seq<Part>, more: seq<Part>) returns (r: seq<Part>)
    ensures r == PushAll(parts, more)
  {
    r := parts;
    var index := 0;
    while index < |more|
      invariant 0 <= index <= |more|
      invariant r == PushAll(parts, more[..index])
    {
      assert more[..index + 1][..index] == more[..index];
      r := PushPart(r, more[index]);
      index := index + 1;
    }
    assert more[..index] == more;
  }

  method BindStaticExpression(e: Expression, env: Environment, nesting: nat) returns (r: Result<Expression, BindError>)
    ensures r == Bind(e, env, nesting)
    decreases e, 1
  {
    if nesting > MAX_EXPANSION_DEPTH {
      return Err(TooDeep);
    }
    var parts: seq<Part> := [];
    var index := 0;
    while index < |e.parts|
      invariant 0 <= index <= |e.parts|
      invariant BindParts(e.parts[..index], env, nesting) == Ok(parts)
    {
      var next := BindOnePart(e.parts[index], env, nesting, parts);
      assert e.parts[..index + 1][..index] == e.parts[..index];
      if next.Err? {
        BindFailureIsFinal(e.parts, index + 1, env, nesting);
        return Err(next.error);
      }
      parts := next.value;
      index := index + 1;
    }
    assert e.parts[..index] == e.parts;
    r := Ok(Expression(parts));
  }

  method EvaluateWithLinebuf(part: Part, env: Environment) returns (r: Result<seq<Byte>, BindError>)
    ensures r == EvaluateStatic(part, env)
  {
    var value := ShellEvaluator.EvaluateAt(Expression([part]), Min(env.linebuf, MAX_ASSIGNMENT_VALUE_LEN), 0,
                                           RuntimeContext(env.lookup), []);
    if value.Err? {
      r := Err(Evaluation(value.error));
    } else if value.value.assignments != [] {
      r := Err(Assigns);
    } else {
      r := if env.isText(value.value.output) then Ok(value.value.output) else Err(NotText);
    }
  }

  method BindOnePart(part: Part, env: Environment, nesting: nat, done: seq<Part>) returns (r: Result<seq<Part>, BindError>)
    ensures r == BindPart(part, env, nesting, done)
    decreases part, 1
  {
    match part {
      case Literal(text) =>
        r := Ok(PushLiteral(done, text));
      case Variable(name, op) =>
        if op.IsValueTransform() {
          var bytes := EvaluateWithLinebuf(part, env);
          r := if bytes.Err? then Err(bytes.error) else Ok(PushLiteral(done, bytes.value));
        } else if RuntimeOnly(name) {
          var bound := BindParameterOperation(part, env, nesting + 1);
          r := if bound.Err? then Err(bound.error) else Ok(done + [Variable(name, bound.value)]);
        } else {
          r := BindKnownParameter(part, env, nesting, done);
        }
      case RegexQuotedVariable(_) =>
        r := Err(NotStatic);
      case Command(_) =>
        r := Err(NotStatic);
      case PatternQuote(e) =>
        var bound := BindStaticExpression(e, env, nesting + 1);
        r := if bound.Err? then Err(bound.error) else Ok(done + [PatternQuote(bound.value)]);
    }
  }

  method BindKnownParameter(part: Part, env: Environment, nesting: nat, done: seq<Part>)
    returns (r: Result<seq<Part>, BindError>)
    requires part.Variable?
    ensures r == BindKnown(part, env, nesting, done)
    decreases part, 0
  {
    var op, value := part.operation, env.lookup(part.name);
    if op.SelectedWord(value.Some?, value.Some? && value.value == []).Some? {
      var bound := BindStaticExpression(op.word, env, nesting + 1);
      if bound.Err? {
        return Err(bound.error);
      }
      var all := PushEach(done, bound.value.parts);
      r := Ok(all);
    } else if op.UsesValueWhenWordIsNotSelected() {
      if value.Some? {
        r := Ok(PushLiteral(done, value.value));
      } else {
        r := if op.ErrorIfUnsetOrEmpty? then Err(Required(part.name)) else Err(NotSet(part.name));
      }
    } else {
      r := Ok(done);
    }
  }

  method BindParameterOperation(part: Part, env: Environment, nesting: nat) returns (r: Result<Operation, BindError>)
    requires part.Variable?
    ensures r == BindOperation(part, env, nesting)
    decreases part, 0
  {
    if part.operation.Word().None? {
      return Ok(part.operation);
    }
    var bound := BindStaticExpression(part.operation.Word().value, env, nesting);
    if bound.Err? {
      return Err(bound.error);
    }
    match part.operation {
      case DefaultIfUnset(_) => r := Ok(DefaultIfUnset(bound.value));
      case DefaultIfUnsetOrEmpty(_) => r := Ok(DefaultIfUnsetOrEmpty(bound.value));
      case AlternateIfSet(_) => r := Ok(AlternateIfSet(bound.value));
      case AlternateIfSetAndNotEmpty(_) => r := Ok(AlternateIfSetAndNotEmpty(bound.value));
      case AssignIfUnsetOrEmpty(_) => r := Ok(AssignIfUnsetOrEmpty(bound.value));
      case RemovePrefix(_, longest) => r := Ok(RemovePrefix(bound.value, longest));
      case RemoveSuffix(_, longest) => r := Ok(RemoveSuffix(bound.value, longest));
      case ChangeCase(_, direction, all) => r := Ok(ChangeCase(bound.value, direction, all));
    }
  }
}
