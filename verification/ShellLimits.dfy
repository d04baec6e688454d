/** What a size limit does to evaluation: nothing but cut it short. */
module ShellLimits {
  import opened Bytes
  import opened ShellExpression
  import opened ShellEval

  /** Names are staged at most once and every staged value fits in `cap`. */
  ghost predicate Staged(assignments: Assignments, cap: nat) {
    (forall i :: 0 <= i < |assignments| ==> |assignments[i].1| <= cap) &&
    (forall i, j :: 0 <= i < j < |assignments| ==> assignments[i].0 != assignments[j].0)
  }

  ghost predicate Fits(r: Result<State, Error>, limit: nat, cap: nat) {
    r.Ok? ==> |r.value.output| <= limit && Staged(r.value.assignments, cap)
  }

  lemma {:induction false} FirstEntryIsFirst(assignments: Assignments, name: Name)
    ensures forall i :: 0 <= i < FirstEntry(assignments, name) ==> assignments[i].0 != name
    decreases |assignments|
  {
    if assignments != [] && assignments[0].0 != name {
      FirstEntryIsFirst(assignments[1..], name);
      forall i | 0 <= i < FirstEntry(assignments, name)
        ensures assignments[i].0 != name
      {
        if 0 < i {
          assert assignments[i] == assignments[1..][i - 1];
        }
      }
    }
  }

  lemma StagedAssign(assignments: Assignments, name: Name, bytes: seq<Byte>, cap: nat)
    requires Staged(assignments, cap) && |bytes| <= cap
    ensures Staged(Assign(assignments, name, bytes), cap)
  {
    FirstEntryIsFirst(assignments, name);
  }

  /** The last entry found when reading is the one replaced when writing. */
  lemma {:induction false} AssignedIsUnique(assignments: Assignments, name: Name, k: nat, cap: nat)
    requires Staged(assignments, cap) && k < |assignments| && assignments[k].0 == name
    ensures Assigned(assignments, name) == Some(assignments[k].1)
    decreases |assignments|
  {
    if assignments[|assignments| - 1].0 != name {
      var init := assignments[..|assignments| - 1];
      assert init[k] == assignments[k];
      AssignedIsUnique(init, name, k, cap);
    }
  }

  /** A staged value is what later parts of the same expression read back. */
  lemma AssignThenRead(assignments: Assignments, name: Name, bytes: seq<Byte>, cap: nat)
    requires Staged(assignments, cap) && |bytes| <= cap
    ensures Assigned(Assign(assignments, name, bytes), name) == Some(bytes)
  {
    StagedAssign(assignments, name, bytes, cap);
    AssignedIsUnique(Assign(assignments, name, bytes), name, FirstEntry(assignments, name), cap);
  }

  lemma {:induction false} EvalFits(e: Expression, limit: nat, nesting: nat, ctx: Context, assignments: Assignments, cap: nat)
    requires limit <= cap && Staged(assignments, cap)
    ensures Fits(EvalAt(e, limit, nesting, ctx, assignments), limit, cap)
    decreases e, 1
  {
    if nesting <= MAX_EXPANSION_DEPTH {
      EvalPartsFits(e.parts, limit, nesting, ctx,
                    State([], if ctx.mode.SyntaxNesting? then nesting else 0, assignments), cap);
    }
  }

  lemma {:induction false} EvalPartsFits(parts: seq<Part>, limit: nat, nesting: nat, ctx: Context, st: State, cap: nat)
    requires |st.output| <= limit <= cap && Staged(st.assignments, cap)
    ensures Fits(EvalParts(parts, limit, nesting, ctx, st), limit, cap)
    decreases parts, 0
  {
    if parts != [] {
      var init := parts[..|parts| - 1];
      EvalPartsFits(init, limit, nesting, ctx, st, cap);
      var mid := EvalParts(init, limit, nesting, ctx, st);
      if mid.Ok? {
        EvalPartFits(parts[|parts| - 1], limit, nesting, ctx, mid.value, cap);
      }
    }
  }

  lemma {:induction false} EvalPartFits(part: Part, limit: nat, nesting: nat, ctx: Context, st: State, cap: nat)
    requires |st.output| <= limit <= cap && Staged(st.assignments, cap)
    ensures Fits(EvalPart(part, limit, nesting, ctx, st), limit, cap)
    decreases part, 1
  {
    var rest := Remaining(st, limit);
    match part
    case Literal(_) =>
    case Command(_) =>
    case RegexQuotedVariable(_) =>
    case PatternQuote(e) =>
      EvalFits(e, rest, nesting, ctx, st.assignments, cap);
    case Variable(_, op) =>
      var found := Lookup(ctx, st.assignments, part.name);
      if found.Ok? {
        if op.IsValueTransform() {
          EvalTransformFits(part, found.value, limit, nesting, ctx, st, cap);
        } else {
          EvalSelectionFits(part, found.value, limit, nesting, ctx, st, cap);
        }
      }
  }

  lemma {:induction false} EvalTransformFits(part: Part, found: Option<VariableValue>, limit: nat, nesting: nat,
                                             ctx: Context, st: State, cap: nat)
    requires part.Variable? && part.operation.IsValueTransform()
    requires |st.output| <= limit <= cap && Staged(st.assignments, cap)
    ensures Fits(EvalTransform(part, found, limit, nesting, ctx, st), limit, cap)
    decreases part, 0
  {
    if found.Some? && !part.operation.Length? {
      EvalFits(part.operation.pattern, Remaining(st, limit), nesting + 1, ctx, st.assignments, cap);
    }
  }

  lemma {:induction false} EvalSelectionFits(part: Part, found: Option<VariableValue>, limit: nat, nesting: nat,
                                             ctx: Context, st: State, cap: nat)
    requires part.Variable? && !part.operation.IsValueTransform()
    requires |st.output| <= limit <= cap && Staged(st.assignments, cap)
    ensures Fits(EvalSelection(part, found, limit, nesting, ctx, st), limit, cap)
    decreases part, 0
  {
    var op := part.operation;
    if op.SelectedWord(found.Some?, found.Some? && found.value.bytes == []).Some? {
      EvalFits(op.word, Remaining(st, limit), nesting + 1, ctx, st.assignments, cap);
      var word := EvalAt(op.word, Remaining(st, limit), nesting + 1, ctx, st.assignments);
      if word.Ok? {
        StagedAssign(word.value.assignments, part.name, word.value.output, cap);
      }
    }
  }

  // ----- Raising the limit -----

  predicate SameUnlessTooLong<T(==)>(small: Result<T, Error>, large: Result<T, Error>) {
    (small.Ok? || !small.error.TooLong?) ==> large == small
  }

  /** Command and regex-quote results do not depend on the remaining budget,
      except that a small budget may be reported as too small. */
  ghost predicate BudgetFree(ctx: Context) {
    (forall c, m: nat, n: nat {:trigger ctx.command(c, m), ctx.command(c, n)} ::
       m <= n ==> SameUnlessTooLong(ctx.command(c, m), ctx.command(c, n))) &&
    (forall name, m: nat, n: nat {:trigger ctx.regexQuoted(name, m), ctx.regexQuoted(name, n)} ::
       m <= n ==> SameUnlessTooLong(ctx.regexQuoted(name, m), ctx.regexQuoted(name, n)))
  }

  lemma {:induction false} QuotedWithinMonotone(bytes: seq<Byte>, k: nat, small: nat, large: nat)
    requires k <= |bytes| && small <= large
    ensures SameUnlessTooLong(QuotedWithin(bytes, k, small), QuotedWithin(bytes, k, large))
  {
    if 0 < k {
      QuotedWithinMonotone(bytes, k - 1, small, large);
    }
  }

  /** Whatever evaluation decides under a limit, other than that the limit is too
      small, it decides identically (bytes, depth, staged assignments or error)
      under every larger limit. */
  lemma {:induction false} EvalMonotone(e: Expression, small: nat, large: nat, nesting: nat, ctx: Context, assignments: Assignments)
    requires small <= large && BudgetFree(ctx)
    ensures SameUnlessTooLong(EvalAt(e, small, nesting, ctx, assignments), EvalAt(e, large, nesting, ctx, assignments))
    decreases e, 1
  {
    if nesting <= MAX_EXPANSION_DEPTH {
      EvalPartsMonotone(e.parts, small, large, nesting, ctx,
                        State([], if ctx.mode.SyntaxNesting? then nesting else 0, assignments));
    }
  }

  lemma {:induction false} EvalPartsMonotone(parts: seq<Part>, small: nat, large: nat, nesting: nat, ctx: Context, st: State)
    requires small <= large && BudgetFree(ctx)
    ensures SameUnlessTooLong(EvalParts(parts, small, nesting, ctx, st), EvalParts(parts, large, nesting, ctx, st))
    decreases parts, 0
  {
    if parts != [] {
      var init := parts[..|parts| - 1];
      EvalPartsMonotone(init, small, large, nesting, ctx, st);
      var mid := EvalParts(init, small, nesting, ctx, st);
      if mid.Ok? {
        EvalPartMonotone(parts[|parts| - 1], small, large, nesting, ctx, mid.value);
      }
    }
  }

  lemma {:induction false} EvalPartMonotone(part: Part, small: nat, large: nat, nesting: nat, ctx: Context, st: State)
    requires small <= large && BudgetFree(ctx)
    ensures SameUnlessTooLong(EvalPart(part, small, nesting, ctx, st), EvalPart(part, large, nesting, ctx, st))
    decreases part, 1
  {
    var m, n := Remaining(st, small), Remaining(st, large);
    match part
    case Literal(_) =>
    case Command(c) =>
      assert SameUnlessTooLong(ctx.command(c, m), ctx.command(c, n));
    case RegexQuotedVariable(name) =>
      assert SameUnlessTooLong(ctx.regexQuoted(name, m), ctx.regexQuoted(name, n));
    case PatternQuote(e) =>
      EvalMonotone(e, m, n, nesting, ctx, st.assignments);
      var value := EvalAt(e, m, nesting, ctx, st.assignments);
      if value.Ok? {
        QuotedWithinMonotone(value.value.output, |value.value.output|, m, n);
      }
    case Variable(_, op) =>
      var found := Lookup(ctx, st.assignments, part.name);
      if found.Ok? {
        if op.IsValueTransform() {
          EvalTransformMonotone(part, found.value, small, large, nesting, ctx, st);
        } else {
          EvalSelectionMonotone(part, found.value, small, large, nesting, ctx, st);
        }
      }
  }

  lemma {:induction false} EvalTransformMonotone(part: Part, found: Option<VariableValue>, small: nat, large: nat, nesting: nat,
                                                 ctx: Context, st: State)
    requires part.Variable? && part.operation.IsValueTransform() && small <= large && BudgetFree(ctx)
    ensures SameUnlessTooLong(EvalTransform(part, found, small, nesting, ctx, st),
                              EvalTransform(part, found, large, nesting, ctx, st))
    decreases part, 0
  {
    if found.Some? && !part.operation.Length? {
      EvalMonotone(part.operation.pattern, Remaining(st, small), Remaining(st, large), nesting + 1, ctx, st.assignments);
    }
  }

  lemma {:induction false} EvalSelectionMonotone(part: Part, found: Option<VariableValue>, small: nat, large: nat, nesting: nat,
                                                 ctx: Context, st: State)
    requires part.Variable? && !part.operation.IsValueTransform() && small <= large && BudgetFree(ctx)
    ensures SameUnlessTooLong(EvalSelection(part, found, small, nesting, ctx, st),
                              EvalSelection(part, found, large, nesting, ctx, st))
    decreases part, 0
  {
    var op := part.operation;
    if op.SelectedWord(found.Some?, found.Some? && found.value.bytes == []).Some? {
      EvalMonotone(op.word, Remaining(st, small), Remaining(st, large), nesting + 1, ctx, st.assignments);
    }
  }
}
