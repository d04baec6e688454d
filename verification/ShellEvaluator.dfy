/** The evaluator as it runs: one pass over the parts of an expression, growing a
    bounded output and a list of staged assignments, stopping at the first error. */
module ShellEvaluator {
  import opened Bytes
  import opened ShellExpression
  import opened ShellEval
  import ShellPattern
  import ShellRemoval

  lemma {:induction false} FailureIsFinal(parts: seq<Part>, k: nat, limit: nat, nesting: nat, ctx: Context, st: State)
    requires k <= |parts| && EvalParts(parts[..k], limit, nesting, ctx, st).Err?
    ensures EvalParts(parts, limit, nesting, ctx, st) == EvalParts(parts[..k], limit, nesting, ctx, st)
    decreases |parts|
  {
    if k < |parts| {
      var init := parts[..|parts| - 1];
      assert init[..k] == parts[..k];
      FailureIsFinal(init, k, limit, nesting, ctx, st);
    } else {
      assert parts[..k] == parts;
    }
  }

  lemma {:induction false} QuoteFailureIsFinal(bytes: seq<Byte>, k: nat, n: nat, limit: nat)
    requires k <= n <= |bytes| && QuotedWithin(bytes, k, limit).Err?
    ensures QuotedWithin(bytes, n, limit) == QuotedWithin(bytes, k, limit)
    decreases n
  {
    if k < n {
      QuoteFailureIsFinal(bytes, k, n - 1, limit);
    }
  }

  method QuotePatternBytes(bytes: seq<Byte>, limit: nat) returns (r: Result<seq<Byte>, Error>)
    ensures r == QuotedWithin(bytes, |bytes|, limit)
  {
    var quoted: seq<Byte> := [];
    var index := 0;
    while index < |bytes|
      invariant 0 <= index <= |bytes|
      invariant QuotedWithin(bytes, index, limit) == Ok(quoted)
    {
      var b := bytes[index];
      if b == ShellPattern.STAR || b == ShellPattern.QUESTION || b == ShellPattern.OPEN || b == ShellPattern.BACKSLASH {
        if |quoted| + 1 > limit {
          QuoteFailureIsFinal(bytes, index + 1, |bytes|, limit);
          return Err(TooLong(|quoted|, limit, |quoted| + 1));
        }
        quoted := quoted + [ShellPattern.BACKSLASH];
      }
      if |quoted| + 1 > limit {
        QuoteFailureIsFinal(bytes, index + 1, |bytes|, limit);
        return Err(TooLong(|quoted|, limit, |quoted| + 1));
      }
      quoted := quoted + [b];
      index := index + 1;
    }
    r := Ok(quoted);
  }

  method ApplyTransform(op: Operation, value: seq<Byte>, pattern: seq<Byte>) returns (r: Result<seq<Byte>, Error>)
    requires op.RemovePrefix? || op.RemoveSuffix? || op.ChangeCase?
    ensures r == Transform(op, value, pattern)
  {
    var done: Result<seq<Byte>, ShellPattern.PatternError>;
    match op {
      case RemovePrefix(_, longest) =>
        done := ShellRemoval.Remove(value, pattern, ShellPattern.Prefix, SelectionOf(longest));
      case RemoveSuffix(_, longest) =>
        done := ShellRemoval.Remove(value, pattern, ShellPattern.Suffix, SelectionOf(longest));
      case ChangeCase(_, direction, all) =>
        done := ShellRemoval.TransformMatchingBytes(value, pattern, all, CaseOf(direction));
    }
    r := MapPatternError(done);
  }

  method EvaluateAt(e: Expression, limit: nat, nesting: nat, ctx: Context, assignments: Assignments)
    returns (r: Result<State, Error>)
    ensures r == EvalAt(e, limit, nesting, ctx, assignments)
    decreases e, 1
  {
    if nesting > MAX_EXPANSION_DEPTH {
      return Err(DepthExceeded);
    }
    var st := State([], if ctx.mode.SyntaxNesting? then nesting else 0, assignments);
    ghost var start := st;
    var index := 0;
    while index < |e.parts|
      invariant 0 <= index <= |e.parts|
      invariant EvalParts(e.parts[..index], limit, nesting, ctx, start) == Ok(st)
    {
      var next := EvaluatePart(e.parts[index], limit, nesting, ctx, st);
      assert e.parts[..index + 1][..index] == e.parts[..index];
      if next.Err? {
        FailureIsFinal(e.parts, index + 1, limit, nesting, ctx, start);
        return next;
      }
      st := next.value;
      index := index + 1;
    }
    assert e.parts[..index] == e.parts;
    r := Ok(st);
  }

  method EvaluatePart(part: Part, limit: nat, nesting: nat, ctx: Context, st: State) returns (r: Result<State, Error>)
    ensures r == EvalPart(part, limit, nesting, ctx, st)
    decreases part, 1
  {
    match part {
      case Literal(text) =>
        r := Appended(st, text, limit);
      case Variable(name, op) =>
        var found := Lookup(ctx, st.assignments, name);
        if found.Err? {
          return Err(found.error);
        }
        if op.IsValueTransform() {
          r := EvaluateTransform(part, found.value, limit, nesting, ctx, st);
        } else {
          r := EvaluateSelection(part, found.value, limit, nesting, ctx, st);
        }
      case Command(command) =>
        var bytes := ctx.command(command, Remaining(st, limit));
        r := if bytes.Err? then Err(bytes.error) else Appended(st, bytes.value, limit);
      case RegexQuotedVariable(name) =>
        var bytes := ctx.regexQuoted(name, Remaining(st, limit));
        r := if bytes.Err? then Err(bytes.error) else Appended(st, bytes.value, limit);
      case PatternQuote(e) =>
        var value := EvaluateAt(e, Remaining(st, limit), nesting, ctx, st.assignments);
        if value.Err? {
          return value;
        }
        var quoted := QuotePatternBytes(value.value.output, Remaining(st, limit));
        if quoted.Err? {
          return Err(quoted.error);
        }
        r := Appended(State(st.output, Max(st.depth, value.value.depth), value.value.assignments), quoted.value, limit);
    }
  }

  method EvaluateTransform(part: Part, found: Option<VariableValue>, limit: nat, nesting: nat, ctx: Context, st: State)
    returns (r: Result<State, Error>)
    requires part.Variable? && part.operation.IsValueTransform()
    ensures r == EvalTransform(part, found, limit, nesting, ctx, st)
    decreases part, 0
  {
    if found.None? {
      return Err(MissingVariable(part.name));
    }
    var value, op := found.value, part.operation;
    if op.Length? {
      return Appended(st.(depth := Max(st.depth, value.depth)), Decimal(|value.bytes|), limit);
    }
    var pattern := EvaluateAt(op.pattern, Remaining(st, limit), nesting + 1, ctx, st.assignments);
    if pattern.Err? {
      return pattern;
    }
    var bytes := ApplyTransform(op, value.bytes, pattern.value.output);
    if bytes.Err? {
      return Err(bytes.error);
    }
    r := Appended(State(st.output, Max(st.depth, Max(value.depth, pattern.value.depth)), pattern.value.assignments),
                  bytes.value, limit);
  }

  method EvaluateSelection(part: Part, found: Option<VariableValue>, limit: nat, nesting: nat, ctx: Context, st: State)
    returns (r: Result<State, Error>)
    requires part.Variable? && !part.operation.IsValueTransform()
    ensures r == EvalSelection(part, found, limit, nesting, ctx, st)
    decreases part, 0
  {
    var op := part.operation;
    var isSet := found.Some?;
    var isEmpty := isSet && found.value.bytes == [];
    if op.ErrorIfUnsetOrEmpty? && (!isSet || isEmpty) {
      return Err(RequiredParameter(part.name));
    }
    var selected, usedWord, emptyValue := VariableValue([], 0), false, true;
    var staged := st.assignments;
    if op.SelectedWord(isSet, isEmpty).Some? {
      var word := EvaluateAt(op.word, Remaining(st, limit), nesting + 1, ctx, st.assignments);
      if word.Err? {
        return word;
      }
      selected, usedWord, emptyValue := VariableValue(word.value.output, word.value.depth), true, false;
      staged := word.value.assignments;
    } else if op.UsesValueWhenWordIsNotSelected() {
      if !isSet {
        return Err(MissingVariable(part.name));
      }
      selected, emptyValue := found.value, isEmpty;
    }
    if op.AssignIfUnsetOrEmpty? && (!isSet || isEmpty) {
      staged := Assign(staged, part.name, selected.bytes);
    }
    var depth := SelectedDepth(ctx.mode, selected.depth, nesting, usedWord, emptyValue);
    if depth.Err? {
      return Err(depth.error);
    }
    r := Appended(State(st.output, Max(st.depth, depth.value), staged), selected.bytes, limit);
  }
}
