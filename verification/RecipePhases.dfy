/** The conditions of a recipe, evaluated in order on the whole message or in two
    phases: first what the header decides, later the rest with those answers kept.
    How one condition is evaluated is a parameter here. */
module RecipePhases {
  import opened Bytes
  import opened RuntimeState
  import opened EarlyDecision

  type Early = (Condition, State) -> Result<(PartialMatch, State), EvalError>
  type Complete = (Condition, State) -> Result<(bool, State), EvalError>

  /** What the header phase leaves: its verdict, the answers it found, the variables. */
  datatype Phase = Phase(verdict: PartialMatch, answers: seq<Option<bool>>, state: State)

  /** The header phase over the conditions from `i` on. It goes on past a condition
      that waits, and ends at the first one that fails. */
  function HeaderPhase(early: Early, conds: seq<Condition>, i: nat, st: State): Result<Phase, EvalError>
    requires i <= |conds|
    decreases |conds| - i
  {
    if i == |conds| then Ok(Phase(Decided(true), [], st))
    else
      var one :- early(conds[i], st);
      if one.0 == Decided(false) then Ok(Phase(Decided(false), [Some(false)], one.1))
      else
        var rest :- HeaderPhase(early, conds, i + 1, one.1);
        Ok(Phase(if one.0.Deferred? && rest.verdict == Decided(true) then Deferred else rest.verdict,
                 [if one.0.Deferred? then None else Some(true)] + rest.answers, rest.state))
  }

  function Next(answers: seq<Option<bool>>): seq<Option<bool>> {
    if answers == [] then [] else answers[1..]
  }

  function Known(answers: seq<Option<bool>>): Option<bool> {
    if answers == [] then None else answers[0]
  }

  /** Going on with the whole message: answers found earlier are not asked again. */
  function Resumed(complete: Complete, conds: seq<Condition>, i: nat, answers: seq<Option<bool>>, st: State)
      : Result<(bool, State), EvalError>
    requires i <= |conds|
    decreases |conds| - i
  {
    if i == |conds| then Ok((true, st))
    else
      var one :- if Known(answers).Some? then Ok((Known(answers).value, st)) else complete(conds[i], st);
      if one.0 then Resumed(complete, conds, i + 1, Next(answers), one.1) else Ok(one)
  }

  /** Every condition in order, until one fails. */
  function InOrder(complete: Complete, conds: seq<Condition>, i: nat, st: State): Result<(bool, State), EvalError>
    requires i <= |conds|
    decreases |conds| - i
  {
    if i == |conds| then Ok((true, st))
    else
      var one :- complete(conds[i], st);
      if one.0 then InOrder(complete, conds, i + 1, one.1) else Ok(one)
  }

  /** The header phase, then the rest if it is still open. */
  function TwoPhases(early: Early, complete: Complete, conds: seq<Condition>, i: nat, st: State)
      : Result<(bool, State), EvalError>
    requires i <= |conds|
  {
    var phase :- HeaderPhase(early, conds, i, st);
    if phase.verdict.Deferred? then Resumed(complete, conds, i, phase.answers, phase.state)
    else Ok((phase.verdict.answer, phase.state))
  }

  // ----- The loops -----

  /** What is left to read decides what has been read. */
  ghost predicate Extends(whole: Result<Phase, EvalError>, verdict: PartialMatch, answers: seq<Option<bool>>,
                          rest: Result<Phase, EvalError>) {
    match rest
    case Err(e) => whole == Err(e)
    case Ok(phase) =>
      whole == Ok(Phase(if verdict.Deferred? && phase.verdict == Decided(true) then Deferred else phase.verdict,
                        answers + phase.answers, phase.state))
  }

  /** `CompiledNode::matches_headers`. */
  method MatchHeaders(early: Early, conds: seq<Condition>, st: State) returns (r: Result<Phase, EvalError>)
    ensures r == HeaderPhase(early, conds, 0, st)
  {
    var verdict, answers, now := Decided(true), [], st;
    ghost var whole := HeaderPhase(early, conds, 0, st);
    if whole.Ok? {
      NoneLeft(whole.value.answers);
    }
    for i := 0 to |conds|
      invariant verdict == Decided(true) || verdict.Deferred?
      invariant Extends(whole, verdict, answers, HeaderPhase(early, conds, i, now))
    {
      var matched := early(conds[i], now);
      if matched.Err? {
        return Err(matched.error);
      }
      var (one, after) := matched.value;
      var own := if one.Deferred? then None else Some(one.answer);
      if one == Decided(false) {
        return Ok(Phase(Decided(false), answers + [own], after));
      }
      ghost var rest := HeaderPhase(early, conds, i + 1, after);
      if rest.Ok? {
        MoveOne(answers, own, rest.value.answers);
      }
      answers, now := answers + [own], after;
      if one.Deferred? {
        verdict := Deferred;
      }
    }
    NoneRight(answers);
    r := Ok(Phase(verdict, answers, now));
  }

  /** `CompiledNode::matches_resumed`. */
  method MatchResumed(complete: Complete, conds: seq<Condition>, answers: seq<Option<bool>>, st: State)
      returns (r: Result<(bool, State), EvalError>)
    ensures r == Resumed(complete, conds, 0, answers, st)
  {
    var now := st;
    assert answers[0..] == answers;
    for i := 0 to |conds|
      invariant Resumed(complete, conds, i, if i <= |answers| then answers[i..] else [], now) ==
                Resumed(complete, conds, 0, answers, st)
    {
      ghost var left := if i <= |answers| then answers[i..] else [];
      assert Known(left) == if i < |answers| then answers[i] else None;
      assert Next(left) == if i + 1 <= |answers| then answers[i + 1..] else [];
      var matched := if i < |answers| && answers[i].Some? then Ok((answers[i].value, now)) else complete(conds[i], now);
      if matched.Err? {
        return Err(matched.error);
      }
      if !matched.value.0 {
        return matched;
      }
      now := matched.value.1;
    }
    r := Ok((true, now));
  }

  /** `CompiledNode::matches_complete`. */
  method MatchComplete(complete: Complete, conds: seq<Condition>, st: State) returns (r: Result<(bool, State), EvalError>)
    ensures r == InOrder(complete, conds, 0, st)
  {
    var now := st;
    for i := 0 to |conds|
      invariant InOrder(complete, conds, i, now) == InOrder(complete, conds, 0, st)
    {
      var matched := complete(conds[i], now);
      if matched.Err? {
        return Err(matched.error);
      }
      if !matched.value.0 {
        return matched;
      }
      now := matched.value.1;
    }
    r := Ok((true, now));
  }

  // ----- What the two ways have in common -----

  function AsEarly(r: Result<(bool, State), EvalError>): Result<(PartialMatch, State), EvalError> {
    if r.Ok? then Ok((Decided(r.value.0), r.value.1)) else Err(r.error)
  }

  /** A condition waits and leaves everything alone, or is decided as on the whole message. */
  ghost predicate Consistent(early: Early, complete: Complete, waits: Condition -> bool) {
    forall c, s :: early(c, s) == if waits(c) then Ok((Deferred, s)) else AsEarly(complete(c, s))
  }

  lemma NextOfCons(one: Option<bool>, rest: seq<Option<bool>>)
    ensures Next([one] + rest) == rest && Known([one] + rest) == one
  {
  }

  /** When the header decides everything, resuming would change nothing. */
  lemma {:induction false} ResumedWhenDecided(early: Early, complete: Complete, conds: seq<Condition>, i: nat, st: State, now: State)
    requires i <= |conds| && HeaderPhase(early, conds, i, st).Ok?
    requires HeaderPhase(early, conds, i, st).value.verdict == Decided(true)
    ensures Resumed(complete, conds, i, HeaderPhase(early, conds, i, st).value.answers, now) == Ok((true, now))
    decreases |conds| - i
  {
    if i < |conds| {
      var after := early(conds[i], st).value.1;
      ResumedWhenDecided(early, complete, conds, i + 1, after, now);
      NextOfCons(Some(true), HeaderPhase(early, conds, i + 1, after).value.answers);
    }
  }

  /** A condition the header decides comes first either way. */
  lemma DecidedFirst(early: Early, complete: Complete, waits: Condition -> bool, conds: seq<Condition>, i: nat, st: State)
    requires i < |conds| && Consistent(early, complete, waits) && !waits(conds[i])
    ensures TwoPhases(early, complete, conds, i, st) ==
            match complete(conds[i], st)
            case Err(e) => Err(e)
            case Ok(one) => if one.0 then TwoPhases(early, complete, conds, i + 1, one.1) else Ok(one)
  {
    assert early(conds[i], st) == AsEarly(complete(conds[i], st));
    var one := complete(conds[i], st);
    if one.Ok? && one.value.0 {
      var rest := HeaderPhase(early, conds, i + 1, one.value.1);
      if rest.Ok? {
        NextOfCons(Some(true), rest.value.answers);
      }
    }
  }

  /** A condition that waits is asked after the header phase of the others. */
  lemma WaitingLast(early: Early, complete: Complete, waits: Condition -> bool, conds: seq<Condition>, i: nat, st: State)
    requires i < |conds| && Consistent(early, complete, waits) && waits(conds[i])
    ensures TwoPhases(early, complete, conds, i, st) ==
            match HeaderPhase(early, conds, i + 1, st)
            case Err(e) => Err(e)
            case Ok(phase) =>
              if phase.verdict == Decided(false) then Ok((false, phase.state))
              else
                match complete(conds[i], phase.state)
                case Err(e) => Err(e)
                case Ok(one) => if one.0 then Resumed(complete, conds, i + 1, phase.answers, one.1) else Ok(one)
  {
    assert early(conds[i], st) == Ok((Deferred, st));
    var rest := HeaderPhase(early, conds, i + 1, st);
    if rest.Ok? {
      NextOfCons(None, rest.value.answers);
    }
  }

  // ----- Equal in everything -----

  /** Neither fails nor touches the variables, and does not depend on them. */
  ghost predicate Quiet(complete: Complete, answer: Condition -> bool, c: Condition) {
    forall s :: complete(c, s) == Ok((answer(c), s))
  }

  /** Neither fails nor touches the variables, as long as they are good. */
  ghost predicate Calm(complete: Complete, good: State -> bool, c: Condition) {
    forall s {:trigger complete(c, s)} :: good(s) ==> complete(c, s).Ok? && complete(c, s).value.1 == s
  }

  /** No condition makes good variables bad. */
  ghost predicate Preserves(complete: Complete, good: State -> bool) {
    forall c, s {:trigger complete(c, s)} :: good(s) && complete(c, s).Ok? ==> good(complete(c, s).value.1)
  }

  /** Whenever a decided condition comes after one that waits, the latter is quiet and the former calm. */
  ghost predicate QuietlySwapped(complete: Complete, good: State -> bool, answer: Condition -> bool,
                                 waits: Condition -> bool, conds: seq<Condition>) {
    forall i, j :: 0 <= i < j < |conds| && waits(conds[i]) && !waits(conds[j]) ==>
      Quiet(complete, answer, conds[i]) && Calm(complete, good, conds[j])
  }

  ghost predicate AllWait(waits: Condition -> bool, conds: seq<Condition>, i: nat) {
    forall k :: i <= k < |conds| ==> waits(conds[k])
  }

  lemma {:induction false} HeaderOfWaiting(early: Early, complete: Complete, waits: Condition -> bool,
                                           conds: seq<Condition>, i: nat, st: State, now: State)
    requires i <= |conds| && Consistent(early, complete, waits) && AllWait(waits, conds, i)
    ensures var phase := HeaderPhase(early, conds, i, st);
            phase.Ok? && phase.value.verdict != Decided(false) && phase.value.state == st &&
            Resumed(complete, conds, i, phase.value.answers, now) == InOrder(complete, conds, i, now)
    decreases |conds| - i
  {
    if i < |conds| {
      assert early(conds[i], st) == Ok((Deferred, st));
      HeaderOfWaiting(early, complete, waits, conds, i + 1, st,
                      if complete(conds[i], now).Ok? then complete(conds[i], now).value.1 else now);
      NextOfCons(None, HeaderPhase(early, conds, i + 1, st).value.answers);
    }
  }

  lemma {:induction false} HeaderOfCalm(early: Early, complete: Complete, waits: Condition -> bool,
                                        good: State -> bool, conds: seq<Condition>, i: nat, st: State)
    requires i <= |conds| && Consistent(early, complete, waits) && good(st)
    requires forall k :: i <= k < |conds| && !waits(conds[k]) ==> Calm(complete, good, conds[k])
    ensures HeaderPhase(early, conds, i, st).Ok? && HeaderPhase(early, conds, i, st).value.state == st
    decreases |conds| - i
  {
    if i < |conds| {
      assert early(conds[i], st) == if waits(conds[i]) then Ok((Deferred, st)) else AsEarly(complete(conds[i], st));
      if !waits(conds[i]) {
        assert Calm(complete, good, conds[i]);
        assert complete(conds[i], st).Ok? && complete(conds[i], st).value.1 == st;
      }
      HeaderOfCalm(early, complete, waits, good, conds, i + 1, st);
    }
  }

  /** Two phases and in-order evaluation give the same answer, the same variables
      and the same errors when only calm conditions move before quiet ones. */
  lemma {:induction false} QuietSwapsAreFree(early: Early, complete: Complete, waits: Condition -> bool, good: State -> bool,
                                             answer: Condition -> bool, conds: seq<Condition>, i: nat, st: State)
    requires i <= |conds| && Consistent(early, complete, waits) && QuietlySwapped(complete, good, answer, waits, conds)
    requires Preserves(complete, good) && good(st)
    ensures TwoPhases(early, complete, conds, i, st) == InOrder(complete, conds, i, st)
    decreases |conds| - i
  {
    if i < |conds| {
      if !waits(conds[i]) {
        DecidedFirst(early, complete, waits, conds, i, st);
        if complete(conds[i], st).Ok? {
          QuietSwapsAreFree(early, complete, waits, good, answer, conds, i + 1, complete(conds[i], st).value.1);
        }
      } else if AllWait(waits, conds, i + 1) {
        OnlyWaiting(early, complete, waits, conds, i, st);
      } else {
        QuietWaits(early, complete, waits, good, answer, conds, i, st);
        QuietSwapsAreFree(early, complete, waits, good, answer, conds, i + 1, st);
      }
    }
  }

  lemma OnlyWaiting(early: Early, complete: Complete, waits: Condition -> bool, conds: seq<Condition>, i: nat, st: State)
    requires i < |conds| && Consistent(early, complete, waits) && waits(conds[i]) && AllWait(waits, conds, i + 1)
    ensures TwoPhases(early, complete, conds, i, st) == InOrder(complete, conds, i, st)
  {
    WaitingLast(early, complete, waits, conds, i, st);
    var one := complete(conds[i], st);
    HeaderOfWaiting(early, complete, waits, conds, i + 1, st, if one.Ok? then one.value.1 else st);
  }

  lemma QuietWaits(early: Early, complete: Complete, waits: Condition -> bool, good: State -> bool,
                   answer: Condition -> bool, conds: seq<Condition>, i: nat, st: State)
    requires i < |conds| && Consistent(early, complete, waits) && QuietlySwapped(complete, good, answer, waits, conds)
    requires good(st)
    requires waits(conds[i]) && !AllWait(waits, conds, i + 1)
    ensures complete(conds[i], st) == Ok((answer(conds[i]), st))
    ensures TwoPhases(early, complete, conds, i, st) ==
            if answer(conds[i]) then TwoPhases(early, complete, conds, i + 1, st) else Ok((false, st))
  {
    var j :| i + 1 <= j < |conds| && !waits(conds[j]);
    assert Quiet(complete, answer, conds[i]);
    WaitingLast(early, complete, waits, conds, i, st);
    HeaderOfCalm(early, complete, waits, good, conds, i + 1, st);
    assert complete(conds[i], st) == Ok((answer(conds[i]), st));
    if HeaderPhase(early, conds, i + 1, st).value.verdict == Decided(true) {
      ResumedWhenDecided(early, complete, conds, i + 1, st, st);
    }
  }

  // ----- Equal in what is accepted -----

  /** The variables left by an acceptance. */
  function Accepted(r: Result<(bool, State), EvalError>): Option<State> {
    if r.Ok? && r.value.0 then Some(r.value.1) else None
  }

  function AcceptedBoth(complete: Complete, a: Condition, b: Condition, st: State): Option<State> {
    var one := Accepted(complete(a, st));
    if one.None? then None else Accepted(complete(b, one.value))
  }

  /** Accepting both gives the same variables in either order. */
  ghost predicate Commute(complete: Complete, a: Condition, b: Condition) {
    forall s :: AcceptedBoth(complete, a, b, s) == AcceptedBoth(complete, b, a, s)
  }

  ghost predicate SwapsCommute(complete: Complete, waits: Condition -> bool, conds: seq<Condition>) {
    forall i, j :: 0 <= i < j < |conds| && waits(conds[i]) && !waits(conds[j]) ==> Commute(complete, conds[i], conds[j])
  }

  /** A header phase that does not fail. */
  function Passed(r: Result<Phase, EvalError>): Option<Phase> {
    if r.Ok? && r.value.verdict != Decided(false) then Some(r.value) else None
  }

  function FirstThenHeader(early: Early, complete: Complete, a: Condition, conds: seq<Condition>, i: nat, st: State): Option<Phase>
    requires i <= |conds|
  {
    var one := Accepted(complete(a, st));
    if one.None? then None else Passed(HeaderPhase(early, conds, i, one.value))
  }

  function HeaderThenLast(early: Early, complete: Complete, a: Condition, conds: seq<Condition>, i: nat, st: State): Option<Phase>
    requires i <= |conds|
  {
    var phase := Passed(HeaderPhase(early, conds, i, st));
    if phase.None? then None
    else
      var one := Accepted(complete(a, phase.value.state));
      if one.None? then None else Some(phase.value.(state := one.value))
  }

  /** A condition that commutes with all decided ones can be asked before or after the header phase. */
  lemma {:induction false} PastTheHeader(early: Early, complete: Complete, waits: Condition -> bool, a: Condition,
                                         conds: seq<Condition>, i: nat, st: State)
    requires i <= |conds| && Consistent(early, complete, waits)
    requires forall k :: i <= k < |conds| && !waits(conds[k]) ==> Commute(complete, a, conds[k])
    ensures FirstThenHeader(early, complete, a, conds, i, st) == HeaderThenLast(early, complete, a, conds, i, st)
    decreases |conds| - i
  {
    if i < |conds| {
      var c := conds[i];
      if waits(c) {
        PastTheHeader(early, complete, waits, a, conds, i + 1, st);
        assert forall s :: early(c, s) == Ok((Deferred, s));
      } else {
        PastDecided(early, complete, waits, a, conds, i, st);
      }
    }
  }

  /** The header phase from a decided condition on. */
  lemma PassedDecided(early: Early, complete: Complete, waits: Condition -> bool, conds: seq<Condition>, i: nat, st: State)
    requires i < |conds| && Consistent(early, complete, waits) && !waits(conds[i])
    ensures var one := Accepted(complete(conds[i], st));
            var phase := Passed(HeaderPhase(early, conds, i, st));
            if one.None? then phase.None?
            else
              var rest := Passed(HeaderPhase(early, conds, i + 1, one.value));
              if rest.None? then phase.None?
              else phase == Some(Phase(rest.value.verdict, [Some(true)] + rest.value.answers, rest.value.state))
  {
    assert early(conds[i], st) == AsEarly(complete(conds[i], st));
  }

  lemma {:induction false} PastDecided(early: Early, complete: Complete, waits: Condition -> bool, a: Condition,
                                       conds: seq<Condition>, i: nat, st: State)
    requires i < |conds| && Consistent(early, complete, waits) && !waits(conds[i])
    requires forall k :: i <= k < |conds| && !waits(conds[k]) ==> Commute(complete, a, conds[k])
    ensures FirstThenHeader(early, complete, a, conds, i, st) == HeaderThenLast(early, complete, a, conds, i, st)
    decreases |conds| - i, 0
  {
    var c := conds[i];
    assert Commute(complete, a, c);
    assert AcceptedBoth(complete, a, c, st) == AcceptedBoth(complete, c, a, st);
    PassedDecided(early, complete, waits, conds, i, st);
    var first := Accepted(complete(a, st));
    if first.Some? {
      PassedDecided(early, complete, waits, conds, i, first.value);
    }
    var one := Accepted(complete(c, st));
    if one.Some? {
      PastTheHeader(early, complete, waits, a, conds, i + 1, one.value);
    }
  }

  /** Two phases accept what in-order evaluation accepts, with the same variables,
      when whatever changes places commutes. */
  lemma {:induction false} CommutingSwapsAccept(early: Early, complete: Complete, waits: Condition -> bool,
                                                conds: seq<Condition>, i: nat, st: State)
    requires i <= |conds| && Consistent(early, complete, waits) && SwapsCommute(complete, waits, conds)
    ensures Accepted(TwoPhases(early, complete, conds, i, st)) == Accepted(InOrder(complete, conds, i, st))
    decreases |conds| - i
  {
    if i < |conds| {
      var one := complete(conds[i], st);
      if one.Ok? && one.value.0 {
        CommutingSwapsAccept(early, complete, waits, conds, i + 1, one.value.1);
      }
      if !waits(conds[i]) {
        DecidedFirst(early, complete, waits, conds, i, st);
      } else {
        PastTheHeader(early, complete, waits, conds[i], conds, i + 1, st);
        WaitingAccepts(early, complete, waits, conds, i, st);
      }
    }
  }

  lemma WaitingAccepts(early: Early, complete: Complete, waits: Condition -> bool, conds: seq<Condition>, i: nat, st: State)
    requires i < |conds| && Consistent(early, complete, waits) && waits(conds[i])
    requires FirstThenHeader(early, complete, conds[i], conds, i + 1, st) ==
             HeaderThenLast(early, complete, conds[i], conds, i + 1, st)
    ensures var one := Accepted(complete(conds[i], st));
            Accepted(TwoPhases(early, complete, conds, i, st)) ==
            if one.None? then None else Accepted(TwoPhases(early, complete, conds, i + 1, one.value))
  {
    WaitingLast(early, complete, waits, conds, i, st);
    var one := Accepted(complete(conds[i], st));
    if one.Some? {
      var phase := HeaderPhase(early, conds, i + 1, one.value);
      if phase.Ok? && phase.value.verdict == Decided(true) {
        ResumedWhenDecided(early, complete, conds, i + 1, one.value, phase.value.state);
      }
    }
  }

  // ----- How far each way gets -----

  /** In order, conditions that accept are passed one after another. */
  lemma {:induction false} InOrderReaches(complete: Complete, good: State -> bool, conds: seq<Condition>, k: nat, i: nat, st: State)
      returns (at: State)
    requires k <= i <= |conds| && good(st)
    requires forall m, s {:trigger complete(conds[m], s)} :: k <= m < i && good(s) ==>
               Accepted(complete(conds[m], s)).Some? && good(Accepted(complete(conds[m], s)).value)
    ensures good(at) && InOrder(complete, conds, k, st) == InOrder(complete, conds, i, at)
    decreases i - k
  {
    at := st;
    if k < i {
      at := InOrderReaches(complete, good, conds, k + 1, i, Accepted(complete(conds[k], st)).value);
    }
  }

  /** The header phase passes whatever it does not reject. */
  lemma {:induction false} HeaderReaches(early: Early, good: State -> bool, conds: seq<Condition>, k: nat, j: nat, st: State)
      returns (at: State)
    requires k <= j <= |conds| && good(st)
    requires forall m, s {:trigger early(conds[m], s)} :: k <= m < j && good(s) ==>
               early(conds[m], s).Ok? && early(conds[m], s).value.0 != Decided(false) && good(early(conds[m], s).value.1)
    ensures good(at)
    ensures HeaderPhase(early, conds, j, at).Err? ==> HeaderPhase(early, conds, k, st).Err?
    ensures var there, here := HeaderPhase(early, conds, j, at), HeaderPhase(early, conds, k, st);
            there.Ok? && there.value.verdict == Decided(false) ==> here.Ok? && here.value.verdict == Decided(false)
    decreases j - k
  {
    at := st;
    if k < j {
      assert early(conds[k], st).Ok?;
      at := HeaderReaches(early, good, conds, k + 1, j, early(conds[k], st).value.1);
    }
  }

  /** A header phase in which every decided condition accepts. */
  lemma {:induction false} HeaderPassesAll(early: Early, complete: Complete, waits: Condition -> bool, good: State -> bool,
                                           conds: seq<Condition>, k: nat, st: State) returns (phase: Phase)
    requires k <= |conds| && Consistent(early, complete, waits) && good(st)
    requires forall m, s {:trigger complete(conds[m], s)} :: k <= m < |conds| && !waits(conds[m]) && good(s) ==>
               Accepted(complete(conds[m], s)).Some? && good(Accepted(complete(conds[m], s)).value)
    ensures HeaderPhase(early, conds, k, st) == Ok(phase) && phase.verdict != Decided(false) && good(phase.state)
    ensures |phase.answers| == |conds| - k
    ensures forall m :: k <= m < |conds| ==> phase.answers[m - k] == if waits(conds[m]) then None else Some(true)
    ensures (exists m :: k <= m < |conds| && waits(conds[m])) ==> phase.verdict == Deferred
    decreases |conds| - k
  {
    if k == |conds| {
      phase := Phase(Decided(true), [], st);
    } else {
      var c := conds[k];
      assert early(c, st) == if waits(c) then Ok((Deferred, st)) else AsEarly(complete(c, st));
      var next := if waits(c) then st else Accepted(complete(c, st)).value;
      var rest := HeaderPassesAll(early, complete, waits, good, conds, k + 1, next);
      phase := Phase(if waits(c) && rest.verdict == Decided(true) then Deferred else rest.verdict,
                     [if waits(c) then None else Some(true)] + rest.answers, rest.state);
    }
  }

  /** Resuming passes answered conditions, and others that accept. */
  lemma {:induction false} ResumedReaches(complete: Complete, good: State -> bool, conds: seq<Condition>,
                                          answers: seq<Option<bool>>, k: nat, i: nat, st: State) returns (at: State)
    requires k <= i <= |conds| == |answers| && good(st)
    requires forall m :: k <= m < i ==> answers[m] == None || answers[m] == Some(true)
    requires forall m, s {:trigger complete(conds[m], s)} :: k <= m < i && answers[m].None? && good(s) ==>
               Accepted(complete(conds[m], s)).Some? && good(Accepted(complete(conds[m], s)).value)
    ensures good(at) && Resumed(complete, conds, k, answers[k..], st) == Resumed(complete, conds, i, answers[i..], at)
    decreases i - k
  {
    at := st;
    if k < i {
      var left := answers[k..];
      assert Known(left) == answers[k] && Next(left) == answers[k + 1..];
      var next := if answers[k].Some? then st else Accepted(complete(conds[k], st)).value;
      at := ResumedReaches(complete, good, conds, answers, k + 1, i, next);
    }
  }

  /** `c` accepts whatever variables are `from`, and leaves some that are `after`. */
  ghost predicate Moves(complete: Complete, c: Condition, from: State -> bool, after: State -> bool) {
    forall s {:trigger complete(c, s)} :: from(s) ==> Accepted(complete(c, s)).Some? && after(Accepted(complete(c, s)).value)
  }

  ghost predicate AllMove(complete: Complete, conds: seq<Condition>, k: nat, i: nat, good: State -> bool) {
    forall m :: k <= m < i && m < |conds| ==> Moves(complete, conds[m], good, good)
  }

  lemma Stretch(complete: Complete, good: State -> bool, conds: seq<Condition>, k: nat, i: nat, st: State) returns (at: State)
    requires k <= i <= |conds| && good(st) && AllMove(complete, conds, k, i, good)
    ensures good(at) && InOrder(complete, conds, k, st) == InOrder(complete, conds, i, at)
  {
    forall m, s | k <= m < i && good(s)
      ensures Accepted(complete(conds[m], s)).Some? && good(Accepted(complete(conds[m], s)).value)
    {
      assert Moves(complete, conds[m], good, good);
    }
    at := InOrderReaches(complete, good, conds, k, i, st);
  }

  /** In order, with two conditions that change what holds. */
  lemma InOrderThrough(complete: Complete, a: State -> bool, b: State -> bool, c: State -> bool, conds: seq<Condition>,
                       i: nat, j: nat, st: State) returns (at: State)
    requires i < j < |conds| && a(st)
    requires AllMove(complete, conds, 0, i, a) && Moves(complete, conds[i], a, b)
    requires AllMove(complete, conds, i + 1, j, b) && Moves(complete, conds[j], b, c)
    requires AllMove(complete, conds, j + 1, |conds|, c)
    ensures InOrder(complete, conds, 0, st) == Ok((true, at)) && c(at)
  {
    var one := Stretch(complete, a, conds, 0, i, st);
    var two := Stretch(complete, b, conds, i + 1, j, Accepted(complete(conds[i], one)).value);
    at := Stretch(complete, c, conds, j + 1, |conds|, Accepted(complete(conds[j], two)).value);
  }

  /** In two phases, what a waiting condition brings about holds in the end, if
      later waiting ones keep it. */
  lemma TwoPhasesThrough(early: Early, complete: Complete, waits: Condition -> bool, a: State -> bool, b: State -> bool,
                         conds: seq<Condition>, i: nat, st: State) returns (at: State)
    requires Consistent(early, complete, waits) && i < |conds| && waits(conds[i]) && a(st)
    requires forall m :: 0 <= m < |conds| && (m < i || !waits(conds[m])) ==> Moves(complete, conds[m], a, a)
    requires Moves(complete, conds[i], a, b)
    requires forall m :: i < m < |conds| && waits(conds[m]) ==> Moves(complete, conds[m], b, b)
    ensures TwoPhases(early, complete, conds, 0, st) == Ok((true, at)) && b(at)
  {
    forall m, s | 0 <= m < |conds| && !waits(conds[m]) && a(s)
      ensures Accepted(complete(conds[m], s)).Some? && a(Accepted(complete(conds[m], s)).value)
    {
      assert Moves(complete, conds[m], a, a);
    }
    var phase := HeaderPassesAll(early, complete, waits, a, conds, 0, st);
    at := ResumedThrough(complete, waits, a, b, conds, phase.answers, i, phase.state);
  }

  lemma ResumedThrough(complete: Complete, waits: Condition -> bool, a: State -> bool, b: State -> bool,
                       conds: seq<Condition>, answers: seq<Option<bool>>, i: nat, st: State) returns (at: State)
    requires |answers| == |conds| && i < |conds| && waits(conds[i]) && a(st)
    requires forall m :: 0 <= m < |conds| ==> answers[m] == if waits(conds[m]) then None else Some(true)
    requires forall m :: 0 <= m < i ==> Moves(complete, conds[m], a, a)
    requires Moves(complete, conds[i], a, b)
    requires forall m :: i < m < |conds| && waits(conds[m]) ==> Moves(complete, conds[m], b, b)
    ensures Resumed(complete, conds, 0, answers, st) == Ok((true, at)) && b(at)
  {
    forall m, s | 0 <= m < i && a(s)
      ensures Accepted(complete(conds[m], s)).Some? && a(Accepted(complete(conds[m], s)).value)
    {
      assert Moves(complete, conds[m], a, a);
    }
    assert answers[0..] == answers;
    var here := ResumedReaches(complete, a, conds, answers, 0, i, st);
    var left := answers[i..];
    assert Known(left) == None && Next(left) == answers[i + 1..];
    forall m, s | i < m < |conds| && answers[m].None? && b(s)
      ensures Accepted(complete(conds[m], s)).Some? && b(Accepted(complete(conds[m], s)).value)
    {
      assert Moves(complete, conds[m], b, b);
    }
    at := ResumedReaches(complete, b, conds, answers, i + 1, |conds|, Accepted(complete(conds[i], here)).value);
  }

  /** In two phases, a decided condition that rejects is reached first. */
  lemma HeaderRejects(early: Early, complete: Complete, waits: Condition -> bool, a: State -> bool, conds: seq<Condition>,
                      j: nat, st: State)
    requires Consistent(early, complete, waits) && j < |conds| && !waits(conds[j]) && a(st)
    requires forall m :: 0 <= m < j && !waits(conds[m]) ==> Moves(complete, conds[m], a, a)
    requires forall s {:trigger complete(conds[j], s)} :: a(s) ==> complete(conds[j], s).Ok? && !complete(conds[j], s).value.0
    ensures Accepted(TwoPhases(early, complete, conds, 0, st)).None?
  {
    forall m, s | 0 <= m < j && a(s)
      ensures early(conds[m], s).Ok? && early(conds[m], s).value.0 != Decided(false) && a(early(conds[m], s).value.1)
    {
      assert early(conds[m], s) == if waits(conds[m]) then Ok((Deferred, s)) else AsEarly(complete(conds[m], s));
      if !waits(conds[m]) {
        assert Moves(complete, conds[m], a, a);
        assert Accepted(complete(conds[m], s)).Some?;
      }
    }
    var at := HeaderReaches(early, a, conds, 0, j, st);
    assert early(conds[j], at) == AsEarly(complete(conds[j], at));
  }
}
