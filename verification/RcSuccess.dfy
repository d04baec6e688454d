/** When checking an rc file succeeds: the files it comes to all load within the limits. */
module RcSuccess {
  import opened Bytes
  import opened RuntimeState
  import opened RcCheck

  /** A finite run over statements: what each of them leads to, files included. */
  datatype Run =
    | Done
    | Next(rest: Run)
    | Inside(inner: Run, rest: Run)
    | Taken(size: nat, file: seq<Statement>, inner: Run, rest: Run)

  function Files(run: Run): nat {
    match run
    case Done => 0
    case Next(rest) => Files(rest)
    case Inside(inner, rest) => Files(inner) + Files(rest)
    case Taken(_, _, inner, rest) => 1 + Files(inner) + Files(rest)
  }

  function TotalSize(run: Run): nat {
    match run
    case Done => 0
    case Next(rest) => TotalSize(rest)
    case Inside(inner, rest) => TotalSize(inner) + TotalSize(rest)
    case Taken(size, _, inner, rest) => size + TotalSize(inner) + TotalSize(rest)
  }

  function LargestSize(run: Run): nat {
    match run
    case Done => 0
    case Next(rest) => LargestSize(rest)
    case Inside(inner, rest) => Max(LargestSize(inner), LargestSize(rest))
    case Taken(size, _, inner, rest) => Max(size, Max(LargestSize(inner), LargestSize(rest)))
  }

  /** How many files are open inside one another. */
  function Nesting(run: Run): nat {
    match run
    case Done => 0
    case Next(rest) => Nesting(rest)
    case Inside(inner, rest) => Max(Nesting(inner), Nesting(rest))
    case Taken(_, _, inner, rest) => Max(1 + Nesting(inner), Nesting(rest))
  }

  predicate GoesOn(s: Statement) {
    s.Include? || s.Switch?
  }

  /** A statement that leads to no file and to no other statements. */
  predicate LeadsNowhere(s: Statement, st: State) {
    if GoesOn(s) then PathOf(s, st).None? || PathOf(s, st) == Some([]) else !s.Block?
  }

  /** The variables at the end of a run. */
  function After(run: Run, ss: seq<Statement>, i: nat, st: State): State
    requires i <= |ss|
    decreases run
  {
    if run.Done? || i == |ss| then st
    else
      match run
      case Next(rest) => After(rest, ss, i + 1, Effect(ss[i], st))
      case Inside(_, rest) => After(rest, ss, i + 1, st)
      case Taken(_, file, inner, rest) => if ss[i].Switch? then st else After(rest, ss, i + 1, After(inner, file, 0, st))
  }

  /** `run` is what the statements from `i` on lead to when `read` files have been
      read before: a switch ends it, `/dev/null` at once. */
  ghost predicate Follows(run: Run, world: World, ss: seq<Statement>, i: nat, st: State, read: nat)
    decreases run
  {
    match run
    case Done => i == |ss| || (i < |ss| && ss[i].Switch? && PathOf(ss[i], st) == Some(DEV_NULL))
    case Next(rest) => i < |ss| && LeadsNowhere(ss[i], st) && Follows(rest, world, ss, i + 1, Effect(ss[i], st), read)
    case Inside(inner, rest) =>
      i < |ss| && ss[i].Block? && Follows(inner, world, ss[i].children, 0, st, read) &&
      Follows(rest, world, ss, i + 1, st, read + Files(inner))
    case Taken(size, file, inner, rest) =>
      i < |ss| && GoesOn(ss[i]) && PathOf(ss[i], st).Some? && IsTaken(ss[i], PathOf(ss[i], st).value) &&
      var found := world(PathOf(ss[i], st).value, read, st);
      found.File? && found.config.Some? && found.size == size && found.config.value.0 == file &&
      Follows(inner, world, file, 0, st, read + 1) &&
      if ss[i].Switch? then rest == Done
      else Follows(rest, world, ss, i + 1, After(inner, file, 0, st), read + 1 + Files(inner))
  }

  predicate Fits(run: Run, b: Budget, depth: nat) {
    b.files + Files(run) <= MAX_FILES && b.bytes + TotalSize(run) <= MAX_TOTAL_BYTES &&
    LargestSize(run) <= MAX_FILE_BYTES && (Files(run) > 0 ==> depth + Nesting(run) <= MAX_DEPTH)
  }

  lemma {:induction false} NestedFiles(run: Run)
    ensures Nesting(run) > 0 <==> Files(run) > 0
    decreases run
  {
    match run
    case Done =>
    case Next(rest) => NestedFiles(rest);
    case Inside(inner, rest) =>
      NestedFiles(inner);
      NestedFiles(rest);
    case Taken(_, _, inner, rest) =>
  }

  predicate SpentOn(run: Run, b: Budget, after: Budget) {
    after.Valid() && after.files == b.files + Files(run) && after.bytes == b.bytes + TotalSize(run)
  }

  /** A run that fits is carried out. */
  lemma {:induction false} RunIsChecked(run: Run, world: World, b: Budget, ss: seq<Statement>, i: nat, st: State, depth: nat)
    requires b.Valid() && i <= |ss| && Follows(run, world, ss, i, st, b.files) && Fits(run, b, depth)
    ensures var r := Check(world, b, ss, i, st, depth);
            r.state == Ok(After(run, ss, i, st)) && SpentOn(run, b, r.budget)
    decreases run, 1
  {
    match run
    case Done =>
    case Next(rest) =>
      RunIsChecked(rest, world, if GoesOn(ss[i]) && PathOf(ss[i], st).None? then b.Warned() else b,
                   ss, i + 1, Effect(ss[i], st), depth);
    case Inside(_, _) => BlockIsChecked(run, world, b, ss, i, st, depth);
    case Taken(_, _, _, _) => TakenIsChecked(run, world, b, ss, i, st, depth);
  }

  lemma {:induction false} BlockIsChecked(run: Run, world: World, b: Budget, ss: seq<Statement>, i: nat, st: State, depth: nat)
    requires b.Valid() && i <= |ss| && Follows(run, world, ss, i, st, b.files) && Fits(run, b, depth) && run.Inside?
    ensures var r := Check(world, b, ss, i, st, depth);
            r.state == Ok(After(run, ss, i, st)) && SpentOn(run, b, r.budget)
    decreases run, 0
  {
    var inner, rest := run.inner, run.rest;
    InnerFits(inner, rest, b, depth);
    RunIsChecked(inner, world, b, ss[i].children, 0, st, depth);
    var after := Check(world, b, ss[i].children, 0, st, depth).budget;
    RestFits(inner, rest, b, depth, after);
    RunIsChecked(rest, world, after, ss, i + 1, st, depth);
  }

  lemma InnerFits(inner: Run, rest: Run, b: Budget, depth: nat)
    requires Fits(Inside(inner, rest), b, depth)
    ensures Fits(inner, b, depth)
  {
  }

  lemma RestFits(inner: Run, rest: Run, b: Budget, depth: nat, after: Budget)
    requires Fits(Inside(inner, rest), b, depth) && SpentOn(inner, b, after)
    ensures Fits(rest, after, depth)
  {
  }

  lemma {:induction false} TakenIsChecked(run: Run, world: World, b: Budget, ss: seq<Statement>, i: nat, st: State, depth: nat)
    requires b.Valid() && i <= |ss| && Follows(run, world, ss, i, st, b.files) && Fits(run, b, depth) && run.Taken?
    ensures var r := Check(world, b, ss, i, st, depth);
            r.state == Ok(After(run, ss, i, st)) && SpentOn(run, b, r.budget)
    decreases run, 0
  {
    var path := PathOf(ss[i], st).value;
    var loaded := Load(world, b, path, st, depth + 1);
    var flags := loaded.config.value.1;
    WarnedKeeps(loaded.budget, flags);
    var started := loaded.budget.WarnedTimes(flags);
    NestedFiles(run.inner);
    NestedFiles(run.rest);
    RunIsChecked(run.inner, world, started, run.file, 0, st, depth + 1);
    var inner := Check(world, started, run.file, 0, st, depth + 1);
    if ss[i].Include? {
      RunIsChecked(run.rest, world, inner.budget, ss, i + 1, inner.state.value, depth);
    }
  }

  /** A check that succeeds carried out a run that fits. */
  lemma {:induction false} CheckedIsRun(world: World, b: Budget, ss: seq<Statement>, i: nat, st: State, depth: nat)
      returns (run: Run)
    requires b.Valid() && i <= |ss| && Check(world, b, ss, i, st, depth).state.Ok?
    ensures Follows(run, world, ss, i, st, b.files) && Fits(run, b, depth)
    ensures var r := Check(world, b, ss, i, st, depth);
            r.state == Ok(After(run, ss, i, st)) && SpentOn(run, b, r.budget)
    decreases MAX_FILES - b.files, ss, |ss| - i, 2
  {
    if i == |ss| {
      run := Done;
    } else if ss[i].Block? {
      var inner := CheckedIsRun(world, b, ss[i].children, 0, st, depth);
      var after := Check(world, b, ss[i].children, 0, st, depth).budget;
      var rest := CheckedIsRun(world, after, ss, i + 1, st, depth);
      run := Inside(inner, rest);
      NestedFiles(inner);
      NestedFiles(rest);
    } else if GoesOn(ss[i]) {
      run := FileIsRun(world, b, ss, i, st, depth);
    } else {
      var rest := CheckedIsRun(world, b, ss, i + 1, Effect(ss[i], st), depth);
      run := Next(rest);
    }
  }

  lemma {:induction false} FileIsRun(world: World, b: Budget, ss: seq<Statement>, i: nat, st: State, depth: nat)
      returns (run: Run)
    requires b.Valid() && i < |ss| && GoesOn(ss[i]) && Check(world, b, ss, i, st, depth).state.Ok?
    ensures Follows(run, world, ss, i, st, b.files) && Fits(run, b, depth)
    ensures var r := Check(world, b, ss, i, st, depth);
            r.state == Ok(After(run, ss, i, st)) && SpentOn(run, b, r.budget)
    decreases MAX_FILES - b.files, ss, |ss| - i, 1
  {
    var path := PathOf(ss[i], st);
    if path.None? {
      var rest := CheckedIsRun(world, b.Warned(), ss, i + 1, st, depth);
      run := Next(rest);
    } else if ss[i].Switch? && path.value == DEV_NULL {
      run := Done;
    } else if path.value == [] {
      var rest := CheckedIsRun(world, b, ss, i + 1, st, depth);
      run := Next(rest);
    } else {
      run := TakenIsRun(world, b, ss, i, st, depth);
    }
  }

  lemma {:induction false} TakenIsRun(world: World, b: Budget, ss: seq<Statement>, i: nat, st: State, depth: nat)
      returns (run: Run)
    requires b.Valid() && i < |ss| && GoesOn(ss[i]) && Check(world, b, ss, i, st, depth).state.Ok?
    requires PathOf(ss[i], st).Some? && IsTaken(ss[i], PathOf(ss[i], st).value)
    ensures Follows(run, world, ss, i, st, b.files) && Fits(run, b, depth)
    ensures var r := Check(world, b, ss, i, st, depth);
            r.state == Ok(After(run, ss, i, st)) && SpentOn(run, b, r.budget)
    decreases MAX_FILES - b.files, ss, |ss| - i, 0
  {
    var path := PathOf(ss[i], st).value;
    var loaded := Load(world, b, path, st, depth + 1);
    var (file, flags) := loaded.config.value;
    WarnedKeeps(loaded.budget, flags);
    var started := loaded.budget.WarnedTimes(flags);
    var inner := CheckedIsRun(world, started, file, 0, st, depth + 1);
    var result := Check(world, started, file, 0, st, depth + 1);
    var rest := Done;
    if ss[i].Include? {
      rest := CheckedIsRun(world, result.budget, ss, i + 1, result.state.value, depth);
    }
    var size := world(path, b.files, st).size;
    run := Taken(size, file, inner, rest);
    TakenFits(size, file, inner, rest, b, started, result.budget, depth);
  }

  lemma TakenFits(size: nat, file: seq<Statement>, inner: Run, rest: Run, b: Budget, started: Budget, after: Budget, depth: nat)
    requires started.files == b.files + 1 && started.bytes == b.bytes + size && size <= MAX_FILE_BYTES && depth < MAX_DEPTH
    requires Fits(inner, started, depth + 1) && SpentOn(inner, started, after) && (rest.Done? || Fits(rest, after, depth))
    ensures Fits(Taken(size, file, inner, rest), b, depth)
  {
    NestedFiles(inner);
    NestedFiles(rest);
  }

  /** Checking succeeds exactly when what the statements lead to comes to an end, all
      its files can be read and parsed, and their number, sizes and nesting are
      within the limits; it then ends in the state of that run. */
  lemma CheckSucceedsExactly(world: World, b: Budget, ss: seq<Statement>, st: State, depth: nat)
    requires b.Valid()
    ensures var r := Check(world, b, ss, 0, st, depth);
            (r.state.Ok? <==> exists run :: Follows(run, world, ss, 0, st, b.files) && Fits(run, b, depth)) &&
            (forall run :: Follows(run, world, ss, 0, st, b.files) && Fits(run, b, depth) ==>
                             r.state == Ok(After(run, ss, 0, st)) && SpentOn(run, b, r.budget))
  {
    if Check(world, b, ss, 0, st, depth).state.Ok? {
      var run := CheckedIsRun(world, b, ss, 0, st, depth);
    }
    forall run | Follows(run, world, ss, 0, st, b.files) && Fits(run, b, depth)
      ensures var r := Check(world, b, ss, 0, st, depth);
              r.state == Ok(After(run, ss, 0, st)) && SpentOn(run, b, r.budget)
    {
      RunIsChecked(run, world, b, ss, 0, st, depth);
    }
  }
}
