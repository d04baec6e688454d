/** Checking the files an rc file includes or switches to, over any file system,
    within a budget of files and bytes. */
module RcCheck {
  import opened Bytes
  import opened RuntimeState

  const MAX_FILES: nat := 32
  const MAX_FILE_BYTES: nat := 0x10_0000
  const MAX_TOTAL_BYTES: nat := 0x40_0000
  const MAX_DEPTH: nat := 16
  const MAX_WARNINGS: nat := 128

  /** `/dev/null` */
  const DEV_NULL: seq<Byte> := [47, 100, 101, 118, 47, 110, 117, 108, 108]

  /** A value computed from the variables, when it can be. */
  type Expression = State -> Option<seq<Byte>>

  datatype Statement =
    | CommandAssignment(target: Name)
    | Assignment(name: Name, value: Expression)
    | Unset(unset: Name)
    | Include(file: Expression)
    | Switch(other: Expression)
    | Block(children: seq<Statement>)
    | OtherRecipe

  /** What opening, reading, parsing and preparing a file gives. */
  datatype Loaded = Unopenable | File(size: nat, config: Option<(seq<Statement>, nat)>)

  /** The outside world. It may answer differently for every file read so far and
      for every state of the variables; `nat` counts the files read. */
  type World = (seq<Byte>, nat, State) -> Loaded

  datatype Failure = DepthLimit | FileLimit | SizeLimit | Unreadable | BadConfig

  datatype Budget = Budget(files: nat, bytes: nat, warnings: nat, omitted: nat) {
    predicate Valid() {
      files <= MAX_FILES && bytes <= MAX_TOTAL_BYTES && warnings <= MAX_WARNINGS
    }

    /** One more warning, kept or counted as omitted. */
    function Warned(): Budget {
      if warnings < MAX_WARNINGS then this.(warnings := warnings + 1) else this.(omitted := omitted + 1)
    }

    function WarnedTimes(n: nat): Budget {
      if n == 0 then this else WarnedTimes(n - 1).Warned()
    }
  }

  // ----- Loading one file -----

  datatype LoadResult = LoadResult(budget: Budget, config: Result<(seq<Statement>, nat), Failure>)

  function Load(world: World, b: Budget, path: seq<Byte>, st: State, depth: nat): (r: LoadResult)
    requires b.Valid()
    ensures r.budget.Valid() && b.files <= r.budget.files && b.bytes <= r.budget.bytes
    ensures r.config.Ok? ==> depth <= MAX_DEPTH && r.budget.files == b.files + 1
  {
    if depth > MAX_DEPTH then LoadResult(b, Err(DepthLimit))
    else if b.files >= MAX_FILES then LoadResult(b, Err(FileLimit))
    else
      var counted := b.(files := b.files + 1);
      match world(path, b.files, st)
      case Unopenable => LoadResult(counted, Err(Unreadable))
      case File(size, config) =>
        if size > MAX_FILE_BYTES || size > MAX_TOTAL_BYTES - b.bytes then LoadResult(counted, Err(SizeLimit))
        else
          var read := counted.(bytes := b.bytes + size);
          if config.None? then LoadResult(read, Err(BadConfig)) else LoadResult(read, Ok(config.value))
  }

  // ----- Checking statements -----

  datatype CheckResult = CheckResult(budget: Budget, state: Result<State, Failure>)

  function Resolved(name: Name, value: Option<seq<Byte>>, st: State): State {
    Assigned(st, name, if value.Some? then Text(value.value) else Removed)
  }

  lemma WarnedKeeps(b: Budget, n: nat)
    ensures var w := b.WarnedTimes(n);
            w.files == b.files && w.bytes == b.bytes && (b.warnings <= MAX_WARNINGS ==> w.warnings <= MAX_WARNINGS)
  {
    if 0 < n {
      WarnedKeeps(b, n - 1);
    }
  }

  /** The path an include or a switch names. */
  function PathOf(s: Statement, st: State): Option<seq<Byte>>
    requires s.Include? || s.Switch?
  {
    match s
    case Include(file) => file(st)
    case Switch(other) => other(st)
  }

  /** What an assignment makes of the variables. */
  function Effect(s: Statement, st: State): State {
    match s
    case CommandAssignment(name) => Assigned(st, name, Removed)
    case Assignment(name, value) => Resolved(name, value(st), st)
    case Unset(name) => Assigned(st, name, Removed)
    case _ => st
  }

  /** Checking the statements from `i` on. It ends on every file system: a file is
      checked only when the count of files goes up, a block is smaller than what
      holds it. */
  function Check(world: World, b: Budget, ss: seq<Statement>, i: nat, st: State, depth: nat): (r: CheckResult)
    requires b.Valid() && i <= |ss|
    ensures r.budget.Valid() && b.files <= r.budget.files && b.bytes <= r.budget.bytes
    decreases MAX_FILES - b.files, ss, |ss| - i
  {
    if i == |ss| then CheckResult(b, Ok(st))
    else if ss[i].Block? then
      var inner := Check(world, b, ss[i].children, 0, st, depth);
      if inner.state.Err? then inner else Check(world, inner.budget, ss, i + 1, st, depth)
    else if ss[i].Include? || ss[i].Switch? then
      var path := PathOf(ss[i], st);
      if path.None? then Check(world, b.Warned(), ss, i + 1, st, depth)
      else if ss[i].Switch? && path.value == DEV_NULL then CheckResult(b, Ok(st))
      else if path.value == [] then Check(world, b, ss, i + 1, st, depth)
      else
        var loaded := Load(world, b, path.value, st, depth + 1);
        if loaded.config.Err? then CheckResult(loaded.budget, Err(loaded.config.error))
        else
          var (statements, flags) := loaded.config.value;
          WarnedKeeps(loaded.budget, flags);
          var inner := Check(world, loaded.budget.WarnedTimes(flags), statements, 0, st, depth + 1);
          if inner.state.Err? then inner
          else if ss[i].Switch? then CheckResult(inner.budget, Ok(st))
          else Check(world, inner.budget, ss, i + 1, inner.state.value, depth)
    else Check(world, b, ss, i + 1, Effect(ss[i], st), depth)
  }

  // ----- Scope -----

  /** The assignments visible in a scope, in the order they take effect: the
      scope's own, and in the place of an include those visible in its file. */
  datatype Scope =
    | End
    | Own(assignment: Statement, rest: Scope)
    | Passed(rest: Scope)
    | Spliced(read: nat, file: seq<Statement>, inner: Scope, rest: Scope)

  predicate IsAssignment(s: Statement) {
    s.CommandAssignment? || s.Assignment? || s.Unset?
  }

  function Visible(scope: Scope): seq<Statement> {
    match scope
    case End => []
    case Own(assignment, rest) => [assignment] + Visible(rest)
    case Passed(rest) => Visible(rest)
    case Spliced(_, _, inner, rest) => Visible(inner) + Visible(rest)
  }

  /** Assignments carried out one after another. */
  function Applied(assignments: seq<Statement>, st: State): State {
    if assignments == [] then st else Applied(assignments[1..], Effect(assignments[0], st))
  }

  /** `scope` is what can be seen of the statements from `i` on: blocks and other
      recipes are passed over, a switch that is taken ends the scope, and an
      include that is taken is replaced by the scope of the file found there. */
  ghost predicate Shows(scope: Scope, world: World, ss: seq<Statement>, i: nat, st: State)
    decreases scope
  {
    match scope
    case End => i == |ss| || (i < |ss| && ss[i].Switch? && PathOf(ss[i], st).Some? && PathOf(ss[i], st).value != [])
    case Own(assignment, rest) =>
      i < |ss| && IsAssignment(ss[i]) && assignment == ss[i] && Shows(rest, world, ss, i + 1, Effect(ss[i], st))
    case Passed(rest) =>
      i < |ss| && Shows(rest, world, ss, i + 1, st) &&
      (ss[i].Block? || ss[i].OtherRecipe? ||
       ((ss[i].Include? || ss[i].Switch?) && (PathOf(ss[i], st).None? || PathOf(ss[i], st) == Some([]))))
    case Spliced(read, file, inner, rest) =>
      i < |ss| && ss[i].Include? && PathOf(ss[i], st).Some? && PathOf(ss[i], st).value != [] &&
      FileAt(world, PathOf(ss[i], st).value, read, st) == Some(file) &&
      Shows(inner, world, file, 0, st) && Shows(rest, world, ss, i + 1, Applied(Visible(inner), st))
  }

  /** The statements found at `path` when `read` files have been read. */
  function FileAt(world: World, path: seq<Byte>, read: nat, st: State): Option<seq<Statement>> {
    var found := world(path, read, st);
    if found.Unopenable? || found.config.None? then None else Some(found.config.value.0)
  }

  lemma {:induction false} AppliedTwice(a: seq<Statement>, b: seq<Statement>, st: State)
    ensures Applied(a + b, st) == Applied(b, Applied(a, st))
    decreases |a|
  {
    if a == [] {
      NoneLeft(b);
    } else {
      assert (a + b)[1..] == a[1..] + b;
      AppliedTwice(a[1..], b, Effect(a[0], st));
    }
  }

  /** Every check that succeeds ends in the state its visible assignments make,
      whatever mixture of assignments, blocks, includes and switches is checked. */
  lemma {:induction false} ChecksEndInScope(world: World, b: Budget, ss: seq<Statement>, i: nat, st: State, depth: nat)
      returns (scope: Scope)
    requires b.Valid() && i <= |ss| && Check(world, b, ss, i, st, depth).state.Ok?
    ensures Shows(scope, world, ss, i, st)
    ensures Check(world, b, ss, i, st, depth).state == Ok(Applied(Visible(scope), st))
    decreases MAX_FILES - b.files, ss, |ss| - i
  {
    if i == |ss| {
      scope := End;
    } else if ss[i].Block? {
      var rest := ChecksEndInScope(world, Check(world, b, ss[i].children, 0, st, depth).budget, ss, i + 1, st, depth);
      scope := Passed(rest);
    } else if ss[i].Include? || ss[i].Switch? {
      scope := FileEndsInScope(world, b, ss, i, st, depth);
    } else {
      var rest := ChecksEndInScope(world, b, ss, i + 1, Effect(ss[i], st), depth);
      scope := if IsAssignment(ss[i]) then Own(ss[i], rest) else Passed(rest);
      assert ([ss[i]] + Visible(rest))[1..] == Visible(rest);
    }
  }

  lemma {:induction false} FileEndsInScope(world: World, b: Budget, ss: seq<Statement>, i: nat, st: State, depth: nat)
      returns (scope: Scope)
    requires b.Valid() && i < |ss| && (ss[i].Include? || ss[i].Switch?) && Check(world, b, ss, i, st, depth).state.Ok?
    ensures Shows(scope, world, ss, i, st)
    ensures Check(world, b, ss, i, st, depth).state == Ok(Applied(Visible(scope), st))
    decreases MAX_FILES - b.files, ss, |ss| - i, 0
  {
    var path := PathOf(ss[i], st);
    if path.None? {
      var rest := ChecksEndInScope(world, b.Warned(), ss, i + 1, st, depth);
      scope := Passed(rest);
    } else if ss[i].Switch? && path.value != [] {
      scope := End;
    } else if path.value == [] {
      var rest := ChecksEndInScope(world, b, ss, i + 1, st, depth);
      scope := Passed(rest);
    } else {
      var loaded := Load(world, b, path.value, st, depth + 1);
      var (file, flags) := loaded.config.value;
      WarnedKeeps(loaded.budget, flags);
      var started := loaded.budget.WarnedTimes(flags);
      var result := Check(world, started, file, 0, st, depth + 1);
      var inner := ChecksEndInScope(world, started, file, 0, st, depth + 1);
      var rest := ChecksEndInScope(world, result.budget, ss, i + 1, result.state.value, depth);
      scope := Spliced(b.files, file, inner, rest);
      AppliedTwice(Visible(inner), Visible(rest), st);
    }
  }

  /** What an assignment assigns. */
  function Target(s: Statement): Name
    requires IsAssignment(s)
  {
    match s
    case CommandAssignment(name) => name
    case Assignment(name, _) => name
    case Unset(name) => name
  }

  ghost predicate Assigns(assignments: seq<Statement>, name: Name) {
    exists k :: 0 <= k < |assignments| && IsAssignment(assignments[k]) && Target(assignments[k]) == name
  }

  lemma {:induction false} UnassignedKeeps(assignments: seq<Statement>, name: Name, st: State)
    requires !Assigns(assignments, name)
    ensures var after := Applied(assignments, st);
            (name in after.values <==> name in st.values) && (name in st.values ==> after.values[name] == st.values[name])
    decreases |assignments|
  {
    if assignments != [] {
      var rest := assignments[1..];
      assert !Assigns(rest, name) by {
        if k :| 0 <= k < |rest| && IsAssignment(rest[k]) && Target(rest[k]) == name {
          assert assignments[k + 1] == rest[k];
        }
      }
      if IsAssignment(assignments[0]) {
        assert Target(assignments[0]) != name;
      }
      UnassignedKeeps(rest, name, Effect(assignments[0], st));
    }
  }

  /** What an assignment does to the variables: a value that is known now is stored,
      and a name that is unset, or whose value is not known before delivery, has none. */
  lemma EffectsAre(s: Statement, st: State, name: Name)
    requires IsAssignment(s)
    ensures var after := Effect(s, st).values;
            if name != Target(s) then (name in after <==> name in st.values) && (name in after ==> after[name] == st.values[name])
            else name in after &&
                 after[name] == if s.Assignment? && s.value(st).Some? then Text(s.value(st).value) else Removed
  {
  }

  /** A name that no visible assignment names keeps its value: what blocks and
      switched-to files assign, however deep, never shows. */
  lemma OnlyVisibleAssignmentsShow(world: World, b: Budget, ss: seq<Statement>, st: State, depth: nat) returns (scope: Scope)
    requires b.Valid() && Check(world, b, ss, 0, st, depth).state.Ok?
    ensures Shows(scope, world, ss, 0, st)
    ensures var after := Check(world, b, ss, 0, st, depth).state.value;
            forall name :: !Assigns(Visible(scope), name) ==>
              (name in after.values <==> name in st.values) && (name in st.values ==> after.values[name] == st.values[name])
  {
    scope := ChecksEndInScope(world, b, ss, 0, st, depth);
    forall name | !Assigns(Visible(scope), name)
      ensures var after := Applied(Visible(scope), st);
              (name in after.values <==> name in st.values) && (name in st.values ==> after.values[name] == st.values[name])
    {
      UnassignedKeeps(Visible(scope), name, st);
    }
  }

  predicate IsClosed(s: Statement) {
    s.Block? || s.Switch? || s.OtherRecipe?
  }

  lemma {:induction false} ClosedShowsNothing(scope: Scope, world: World, ss: seq<Statement>, i: nat, st: State)
    requires Shows(scope, world, ss, i, st) && forall k :: i <= k < |ss| ==> IsClosed(ss[k])
    ensures Visible(scope) == []
    decreases scope
  {
    if i < |ss| {
      assert IsClosed(ss[i]);
      if scope.Passed? {
        ClosedShowsNothing(scope.rest, world, ss, i + 1, st);
      }
    }
  }

  /** In particular, blocks, switches and other recipes alone change nothing. */
  lemma ClosedStatementsKeepState(world: World, b: Budget, ss: seq<Statement>, i: nat, st: State, depth: nat)
    requires b.Valid() && i <= |ss| && forall k :: i <= k < |ss| ==> IsClosed(ss[k])
    requires Check(world, b, ss, i, st, depth).state.Ok?
    ensures Check(world, b, ss, i, st, depth).state == Ok(st)
  {
    var scope := ChecksEndInScope(world, b, ss, i, st, depth);
    ClosedShowsNothing(scope, world, ss, i, st);
  }

  // ----- Blocks do not matter -----

  /** A file system that answers alike however many files have been read. */
  ghost predicate Steady(world: World) {
    forall path, m, n, st :: world(path, m, st) == world(path, n, st)
  }

  /** The same statements, apart from recipes and what their blocks hold. */
  ghost predicate SameOutsideBlocks(ss: seq<Statement>, tt: seq<Statement>) {
    |ss| == |tt| &&
    forall k :: 0 <= k < |ss| ==> ss[k] == tt[k] || ((ss[k].Block? || ss[k].OtherRecipe?) && (tt[k].Block? || tt[k].OtherRecipe?))
  }

  lemma {:induction false} ScopesAgree(world: World, ss: seq<Statement>, tt: seq<Statement>, i: nat, st: State, a: Scope, b: Scope)
    requires Steady(world) && SameOutsideBlocks(ss, tt) && Shows(a, world, ss, i, st) && Shows(b, world, tt, i, st)
    ensures Applied(Visible(a), st) == Applied(Visible(b), st)
    decreases a
  {
    match a
    case End =>
    case Own(assignment, rest) =>
      ScopesAgree(world, ss, tt, i + 1, Effect(ss[i], st), rest, b.rest);
      assert ([assignment] + Visible(rest))[1..] == Visible(rest);
      assert ([assignment] + Visible(b.rest))[1..] == Visible(b.rest);
    case Passed(rest) =>
      ScopesAgree(world, ss, tt, i + 1, st, rest, b.rest);
    case Spliced(read, file, inner, rest) =>
      assert ss[i] == tt[i];
      assert world(PathOf(ss[i], st).value, read, st) == world(PathOf(ss[i], st).value, b.read, st);
      SameOutsideItself(file);
      ScopesAgree(world, file, file, 0, st, inner, b.inner);
      ScopesAgree(world, ss, tt, i + 1, Applied(Visible(inner), st), rest, b.rest);
      AppliedTwice(Visible(inner), Visible(rest), st);
      AppliedTwice(Visible(b.inner), Visible(b.rest), st);
  }

  lemma SameOutsideItself(ss: seq<Statement>)
    ensures SameOutsideBlocks(ss, ss)
  {
  }

  /** Replacing what blocks hold by anything else does not change the state a
      successful check ends in, from any budget and at any depth. */
  lemma BlocksDoNotReachOut(world: World, ss: seq<Statement>, tt: seq<Statement>, st: State, b: Budget, depth: nat,
                            c: Budget, other: nat)
    requires Steady(world) && SameOutsideBlocks(ss, tt) && b.Valid() && c.Valid()
    requires Check(world, b, ss, 0, st, depth).state.Ok? && Check(world, c, tt, 0, st, other).state.Ok?
    ensures Check(world, b, ss, 0, st, depth).state == Check(world, c, tt, 0, st, other).state
  {
    var one := ChecksEndInScope(world, b, ss, 0, st, depth);
    var two := ChecksEndInScope(world, c, tt, 0, st, other);
    ScopesAgree(world, ss, tt, 0, st, one, two);
  }

  // ----- Cycles -----

  /** A file that is taken: `/dev/null` ends the scope when switched to. */
  predicate IsTaken(s: Statement, path: seq<Byte>) {
    path != [] && (s.Switch? ==> path != DEV_NULL)
  }

  /** A statement that includes or switches to one of `paths`, whatever the
      variables hold; or a block that comes to such a statement. */
  ghost predicate Turns(s: Statement, paths: set<seq<Byte>>)
    decreases s
  {
    if s.Block? then Returns(s.children, paths)
    else
      (s.Include? || s.Switch?) &&
      forall st :: PathOf(s, st).Some? && PathOf(s, st).value in paths && IsTaken(s, PathOf(s, st).value)
  }

  ghost predicate TurnsAt(ss: seq<Statement>, k: nat, paths: set<seq<Byte>>)
    decreases ss, 0
  {
    k < |ss| && Turns(ss[k], paths) && forall j :: 0 <= j < k ==> !ss[j].Switch?
  }

  /** Some statement, with no switch before it, goes to one of `paths`. */
  ghost predicate Returns(ss: seq<Statement>, paths: set<seq<Byte>>)
    decreases ss, 1
  {
    exists k :: 0 <= k < |ss| && TurnsAt(ss, k, paths)
  }

  /** Whenever it can be read, each file of `paths` goes to a file of `paths`. */
  ghost predicate IsCycle(world: World, paths: set<seq<Byte>>) {
    forall path, n: nat, st: State :: path in paths ==>
      var found := world(path, n, st);
      found.File? && found.config.Some? ==> Returns(found.config.value.0, paths)
  }

  /** Files that include or switch to one another in a circle, inside blocks or
      not, are never accepted, whatever else they do: some limit or error stops them. */
  lemma CyclesAreRefused(world: World, b: Budget, ss: seq<Statement>, st: State, depth: nat, paths: set<seq<Byte>>)
    requires b.Valid() && IsCycle(world, paths) && Returns(ss, paths)
    ensures Check(world, b, ss, 0, st, depth).state.Err?
  {
    var k :| 0 <= k < |ss| && TurnsAt(ss, k, paths);
    CycleIsReached(world, b, ss, 0, k, st, depth, paths);
  }

  lemma {:induction false} CycleIsReached(world: World, b: Budget, ss: seq<Statement>, i: nat, k: nat, st: State,
                                          depth: nat, paths: set<seq<Byte>>)
    requires b.Valid() && IsCycle(world, paths) && i <= k && TurnsAt(ss, k, paths)
    ensures Check(world, b, ss, i, st, depth).state.Err?
    decreases MAX_FILES - b.files, ss, k - i, 1
  {
    if i == k {
      CycleTurns(world, b, ss, k, st, depth, paths);
    } else if ss[i].Block? {
      var inner := Check(world, b, ss[i].children, 0, st, depth);
      CycleIsReached(world, inner.budget, ss, i + 1, k, st, depth, paths);
    } else if ss[i].Include? {
      IncludedFirst(world, b, ss, i, k, st, depth, paths);
    } else {
      CycleIsReached(world, b, ss, i + 1, k, Effect(ss[i], st), depth, paths);
    }
  }

  /** Another file is included before. */
  lemma {:induction false} IncludedFirst(world: World, b: Budget, ss: seq<Statement>, i: nat, k: nat, st: State,
                                         depth: nat, paths: set<seq<Byte>>)
    requires b.Valid() && IsCycle(world, paths) && i < k && TurnsAt(ss, k, paths) && ss[i].Include?
    ensures Check(world, b, ss, i, st, depth).state.Err?
    decreases MAX_FILES - b.files, ss, k - i, 0
  {
    var other := PathOf(ss[i], st);
    if other.None? {
      CycleIsReached(world, b.Warned(), ss, i + 1, k, st, depth, paths);
    } else if other.value == [] {
      CycleIsReached(world, b, ss, i + 1, k, st, depth, paths);
    } else {
      var loaded := Load(world, b, other.value, st, depth + 1);
      if loaded.config.Ok? {
        var (statements, flags) := loaded.config.value;
        WarnedKeeps(loaded.budget, flags);
        var inner := Check(world, loaded.budget.WarnedTimes(flags), statements, 0, st, depth + 1);
        if inner.state.Ok? {
          CycleIsReached(world, inner.budget, ss, i + 1, k, inner.state.value, depth, paths);
        }
      }
    }
  }

  /** A file of the cycle, or a block that comes to one, comes up. */
  lemma {:induction false} CycleTurns(world: World, b: Budget, ss: seq<Statement>, k: nat, st: State, depth: nat,
                                      paths: set<seq<Byte>>)
    requires b.Valid() && IsCycle(world, paths) && TurnsAt(ss, k, paths)
    ensures Check(world, b, ss, k, st, depth).state.Err?
    decreases MAX_FILES - b.files, ss, 0, 0
  {
    if ss[k].Block? {
      assert Returns(ss[k].children, paths);
      var again :| 0 <= again < |ss[k].children| && TurnsAt(ss[k].children, again, paths);
      CycleIsReached(world, b, ss[k].children, 0, again, st, depth, paths);
    } else {
      var path := PathOf(ss[k], st).value;
      var loaded := Load(world, b, path, st, depth + 1);
      if loaded.config.Ok? {
        var (statements, flags) := loaded.config.value;
        WarnedKeeps(loaded.budget, flags);
        var found := world(path, b.files, st);
        assert found.config == Some((statements, flags)) && Returns(statements, paths);
        var again :| 0 <= again < |statements| && TurnsAt(statements, again, paths);
        CycleIsReached(world, loaded.budget.WarnedTimes(flags), statements, 0, again, st, depth + 1, paths);
      }
    }
  }

  // ----- The loader -----

  class RcFileLoader {
    var filesRead: nat
    var bytesRead: nat
    var warnings: nat
    var omitted: nat

    ghost function Spent(): Budget
      reads this
    {
      Budget(filesRead, bytesRead, warnings, omitted)
    }

    /** `for_root`: the root file counts. */
    constructor (rootBytes: nat)
      requires rootBytes <= MAX_FILE_BYTES
      ensures Spent() == Budget(1, rootBytes, 0, 0) && Spent().Valid()
    {
      filesRead, bytesRead, warnings, omitted := 1, rootBytes, 0, 0;
    }

    method Warn()
      modifies this
      ensures Spent() == old(Spent()).Warned()
    {
      if warnings < MAX_WARNINGS {
        warnings := warnings + 1;
      } else {
        omitted := omitted + 1;
      }
    }

    method WarnTimes(n: nat)
      modifies this
      ensures Spent() == old(Spent()).WarnedTimes(n)
    {
      for k := 0 to n
        invariant Spent() == old(Spent()).WarnedTimes(k)
      {
        Warn();
      }
    }

    /** `load` and `load_prepared_config`. */
    method LoadConfig(world: World, path: seq<Byte>, st: State, depth: nat) returns (r: Result<(seq<Statement>, nat), Failure>)
      requires Spent().Valid()
      modifies this
      ensures Spent().Valid() && Load(world, old(Spent()), path, st, depth) == LoadResult(Spent(), r)
    {
      if depth > MAX_DEPTH {
        return Err(DepthLimit);
      }
      if filesRead >= MAX_FILES {
        return Err(FileLimit);
      }
      var remaining := MAX_TOTAL_BYTES - bytesRead;
      var found := world(path, filesRead, st);
      filesRead := filesRead + 1;
      if found.Unopenable? {
        return Err(Unreadable);
      }
      if found.size > MAX_FILE_BYTES || found.size > remaining {
        return Err(SizeLimit);
      }
      bytesRead := bytesRead + found.size;
      if found.config.None? {
        return Err(BadConfig);
      }
      r := Ok(found.config.value);
    }

    /** `check_statements`: the state goes in and comes out, blocks and switches get copies. */
    method CheckStatements(world: World, ss: seq<Statement>, start: State, depth: nat) returns (r: Result<State, Failure>)
      requires Spent().Valid()
      modifies this
      ensures Spent().Valid() && old(Spent()).files <= Spent().files
      ensures Check(world, old(Spent()), ss, 0, start, depth) == CheckResult(Spent(), r)
      decreases MAX_FILES - filesRead, ss
    {
      var st := start;
      for i := 0 to |ss|
        invariant Spent().Valid() && old(Spent()).files <= Spent().files
        invariant Check(world, Spent(), ss, i, st, depth) == Check(world, old(Spent()), ss, 0, start, depth)
      {
        if ss[i].Block? {
          var inner := CheckStatements(world, ss[i].children, st, depth);
          if inner.Err? {
            return inner;
          }
        } else if ss[i].Include? || ss[i].Switch? {
          var path := PathOf(ss[i], st);
          if path.None? {
            Warn();
            continue;
          }
          if ss[i].Switch? && path.value == DEV_NULL {
            return Ok(st);
          }
          if path.value == [] {
            continue;
          }
          var loaded := LoadConfig(world, path.value, st, depth + 1);
          if loaded.Err? {
            return Err(loaded.error);
          }
          var (statements, flags) := loaded.value;
          WarnedKeeps(Spent(), flags);
          WarnTimes(flags);
          var inner := CheckStatements(world, statements, st, depth + 1);
          if inner.Err? || ss[i].Switch? {
            return if inner.Err? then inner else Ok(st);
          }
          st := inner.value;
        } else {
          st := Effect(ss[i], st);
        }
      }
      r := Ok(st);
    }
  }
}
