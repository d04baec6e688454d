/** Streaming into a fan-out, extending it, committing it, and whole deliveries. */
module FanoutRun {
  import opened Bytes
  import opened MboxWriter
  import opened Fanout

  /** `PendingFanout::new`: too many sinks are dropped. */
  method NewPending(sinks: seq<Sink>, journal: Journal) returns (r: PendingFanout?)
    modifies journal
    ensures r != null <==> |sinks| <= MAX_PENDING_SINKS
    ensures r != null ==> fresh(r) && r.sinks == sinks && r.writeFailure == None && journal.log == old(journal.log)
    ensures r == null ==> journal.log == old(journal.log) + DropLog(sinks)
  {
    if |sinks| > MAX_PENDING_SINKS {
      journal.log := journal.log + DropLog(sinks);
      return null;
    }
    r := new PendingFanout(sinks);
  }

  /** A successful write extends what every sink took. */
  lemma WriteExtends(before: seq<Sink>, now: seq<Sink>, done: seq<Byte>, bytes: seq<Byte>)
    requires AllTook(before, now, done)
    ensures bytes == [] ==> AllTook(before, now, done + bytes)
    ensures FirstFull(now, |bytes|, 0) == |now| ==> AllTook(before, AllAfter(now, bytes), done + bytes)
    ensures FirstFull(now, |bytes|, 0) < |now| ==> !AllFit(before, |done| + |bytes|)
    ensures Ids(AllAfter(now, bytes)) == Ids(before) && Ids(now) == Ids(before)
  {
    NoneRight(done);
    assert Ids(now) == Ids(before);
    var k := FirstFull(now, |bytes|, 0);
    if k == |now| {
      AllTookMore(before, now, AllAfter(now, bytes), done, bytes);
    } else {
      assert before[k].room < |done| + |bytes|;
    }
  }

  class ValidatedFanout {
    var sinks: seq<Sink>

    constructor (sinks: seq<Sink>)
      ensures this.sinks == sinks
    {
      this.sinks := sinks;
    }

    /** Dropping a validated fan-out aborts what it holds. */
    method AbortAll(journal: Journal) returns (failures: nat)
      modifies this, journal
      ensures sinks == [] && failures == old(Unabortable(sinks, 0, |sinks|))
      ensures journal.log == old(journal.log) + AbortLog(old(sinks))
    {
      var rest;
      rest, failures := AbortSinks(sinks, journal);
      sinks := rest;
    }

    /** `append_bytes`: all the sinks of `pending` take the same message and join,
        or every sink of both fan-outs is aborted. */
    method AppendBytes(pending: PendingFanout, message: seq<Byte>, journal: Journal) returns (ok: bool)
      modifies this, pending, journal
      ensures ok <==> |old(sinks)| + |old(pending.sinks)| <= MAX_PENDING_SINKS && AllFit(old(pending.sinks), |message|)
      ensures pending.sinks == []
      ensures ok ==> |sinks| == |old(sinks)| + |old(pending.sinks)| && sinks[..|old(sinks)|] == old(sinks) &&
                     AllTook(old(pending.sinks), sinks[|old(sinks)|..], message) && journal.log == old(journal.log)
      ensures !ok ==> sinks == [] && exists ended: seq<Sink> ::
                     Ids(ended) == Ids(old(pending.sinks)) &&
                     journal.log == old(journal.log) + (AbortLog(ended) + AbortLog(old(sinks)))
    {
      ghost var mine, theirs, start := sinks, pending.sinks, journal.log;
      if |sinks| + |pending.sinks| > MAX_PENDING_SINKS {
        var failures := pending.AbortAll(journal);
        failures := AbortAll(journal);
        Assoc(start, AbortLog(theirs), AbortLog(mine));
        return false;
      }
      Untouched(theirs);
      WriteExtends(theirs, theirs, [], message);
      NoneLeft(message);
      ok := pending.WriteAll(message);
      if !ok {
        ghost var ended := pending.sinks;
        var failures := pending.AbortAll(journal);
        failures := AbortAll(journal);
        Assoc(start, AbortLog(ended), AbortLog(mine));
        return false;
      }
      sinks := sinks + pending.sinks;
      assert sinks[..|mine|] == mine && sinks[|mine|..] == pending.sinks;
      pending.sinks := [];
    }

    /** `commit`. */
    method Commit(journal: Journal) returns (r: CommitResult)
      modifies this, journal
      ensures sinks == [] && journal.log == old(journal.log) + CommitLog(old(sinks))
      ensures r == CommitSpec(old(sinks))
    {
      var all := sinks;
      sinks := [];
      ghost var start, log, k := journal.log, CommitLog(all), FirstRefusal(all, 0);
      var published: seq<Folder> := [];
      NoneRight(start);
      for i := 0 to |all|
        invariant i <= k && k == FirstRefusal(all, i) && sinks == []
        invariant journal.log == start + log[..i] && published == Folders(all, i)
      {
        LogNext(start, log, i);
        var outcome := journal.Commit(all[i]);
        if outcome.Publishes? {
          published := published + [outcome.folder];
        } else {
          if outcome.FailsVisible? {
            published := published + [outcome.visible];
          }
          var failures := AbortRest(all, i + 1, journal, start);
          return CommitFailed(published, i, failures);
        }
      }
      TakeAll(log);
      return AllPublished(published);
    }
  }

  lemma Untouched(sinks: seq<Sink>)
    ensures AllTook(sinks, sinks, [])
  {
    forall i | 0 <= i < |sinks| ensures sinks[i].data + [] == sinks[i].data {
      NoneRight(sinks[i].data);
    }
  }

  lemma LogNext(start: seq<Event>, log: seq<Event>, i: nat)
    requires i < |log|
    ensures (start + log[..i]) + [log[i]] == start + log[..i + 1]
  {
    TakeNext(log, i);
  }

  datatype CommitResult =
    | AllPublished(published: seq<Folder>)
    | CommitFailed(published: seq<Folder>, failedIndex: nat, abortFailures: nat)

  /** The folders of the first `n` sinks, all of which publish. */
  function Folders(sinks: seq<Sink>, n: nat): (r: seq<Folder>)
    requires n <= FirstRefusal(sinks, 0)
    ensures |r| == n && forall i :: 0 <= i < n ==> r[i] == sinks[i].onCommit.folder
  {
    if n == 0 then [] else Folders(sinks, n - 1) + [sinks[n - 1].onCommit.folder]
  }

  /** What committing reports: the folders published, in order, with the one of
      the failing sink exactly when its delivery became visible. */
  function CommitSpec(sinks: seq<Sink>): CommitResult {
    var k := FirstRefusal(sinks, 0);
    if k == |sinks| then AllPublished(Folders(sinks, k))
    else
      CommitFailed(Folders(sinks, k) + (if sinks[k].onCommit.FailsVisible? then [sinks[k].onCommit.visible] else []),
                   k, Unabortable(sinks, k + 1, |sinks|))
  }

  /** The folder a commit made visible. */
  function VisibleFolder(event: Event): seq<Folder> {
    if !event.Committed? then []
    else
      match event.sink.onCommit
      case Publishes(folder) => [folder]
      case FailsHidden => []
      case FailsVisible(folder) => [folder]
  }

  /** The folders the first `n` events made visible, in order. */
  function VisibleFolders(log: seq<Event>, n: nat): seq<Folder>
    requires n <= |log|
  {
    if n == 0 then [] else VisibleFolders(log, n - 1) + VisibleFolder(log[n - 1])
  }

  lemma {:induction false} VisibleUpTo(sinks: seq<Sink>, n: nat)
    requires n <= |sinks|
    ensures var k := FirstRefusal(sinks, 0);
            VisibleFolders(CommitLog(sinks), n) == if n <= k then Folders(sinks, n) else CommitSpec(sinks).published
  {
    if 0 < n {
      VisibleUpTo(sinks, n - 1);
      NoneRight(CommitSpec(sinks).published);
    }
  }

  /** The report names exactly the folders in which something became visible. */
  lemma ReportIsWhatIsVisible(sinks: seq<Sink>)
    ensures VisibleFolders(CommitLog(sinks), |sinks|) == CommitSpec(sinks).published
  {
    VisibleUpTo(sinks, |sinks|);
  }

  method AbortRest(sinks: seq<Sink>, from: nat, journal: Journal, ghost start: seq<Event>) returns (failures: nat)
    requires 0 < from <= |sinks| && FirstRefusal(sinks, 0) == from - 1
    requires journal.log == start + CommitLog(sinks)[..from]
    modifies journal
    ensures journal.log == start + CommitLog(sinks)
    ensures failures == Unabortable(sinks, from, |sinks|)
  {
    failures := 0;
    ghost var log := CommitLog(sinks);
    for i := from to |sinks|
      invariant journal.log == start + log[..i] && failures == Unabortable(sinks, from, i)
    {
      LogNext(start, log, i);
      var failed := journal.Abort(sinks[i]);
      failures := failures + (if failed then 1 else 0);
    }
    TakeAll(log);
  }

  // ----- Streaming a message in -----

  /** What a writer has taken of the message. */
  ghost predicate StagingTook(before: seq<Byte>, room: nat, after: seq<Byte>, left: nat, text: seq<Byte>) {
    |text| <= room && left == room - |text| && after == before + text
  }

  lemma StagingTookMore(before: seq<Byte>, room: nat, mid: seq<Byte>, midRoom: nat, after: seq<Byte>, left: nat,
                        text: seq<Byte>, more: seq<Byte>, ok: bool)
    requires StagingTook(before, room, mid, midRoom, text) && Took(mid, midRoom, after, left, more, ok)
    ensures ok ==> StagingTook(before, room, after, left, text + more)
    ensures !ok ==> room < |text| + |more|
  {
    Assoc(before, text, more);
  }

  /** The writes of a message handed over piece by piece, each to the fan-out and
      then to the staging writer if there is one. */
  method WritePieces(pending: PendingFanout, pieces: seq<seq<Byte>>, staging: ByteSink?)
      returns (ok: bool, stagingFailed: bool)
    modifies pending, staging
    ensures Ids(pending.sinks) == Ids(old(pending.sinks))
    ensures ok ==> AllTook(old(pending.sinks), pending.sinks, Flatten(pieces)) && !stagingFailed
    ensures ok && staging != null ==>
              StagingTook(old(staging.data), old(staging.room), staging.data, staging.room, Flatten(pieces))
    ensures !ok && stagingFailed ==> staging != null && old(staging.room) < |Flatten(pieces)|
    ensures !ok && !stagingFailed ==> !AllFit(old(pending.sinks), |Flatten(pieces)|)
  {
    ghost var before, message := pending.sinks, Flatten(pieces);
    Untouched(before);
    if staging != null {
      NoneRight(staging.data);
    }
    for n := 0 to |pieces|
      invariant AllTook(before, pending.sinks, Flatten(pieces[..n]))
      invariant staging != null ==>
                  StagingTook(old(staging.data), old(staging.room), staging.data, staging.room, Flatten(pieces[..n]))
    {
      ghost var done := Flatten(pieces[..n]);
      FlattenNext(pieces, n);
      WriteExtends(before, pending.sinks, done, pieces[n]);
      ok := pending.WriteAll(pieces[n]);
      if !ok {
        Overfull(before, |done| + |pieces[n]|, |message|);
        return false, false;
      }
      if staging != null {
        ghost var data, room := staging.data, staging.room;
        ok := staging.WriteAll(pieces[n]);
        StagingTookMore(old(staging.data), old(staging.room), data, room, staging.data, staging.room, done, pieces[n], ok);
        if !ok {
          return false, true;
        }
      }
    }
    TakeAll(pieces);
    TookKeepsIds(before, pending.sinks, message);
    return true, false;
  }

  lemma TookKeepsIds(before: seq<Sink>, after: seq<Sink>, text: seq<Byte>)
    requires AllTook(before, after, text)
    ensures Ids(after) == Ids(before)
  {
  }

  lemma Overfull(sinks: seq<Sink>, small: nat, large: nat)
    requires small <= large && !AllFit(sinks, small)
    ensures !AllFit(sinks, large)
  {
  }

  lemma TookFits(before: seq<Sink>, after: seq<Sink>, text: seq<Byte>)
    requires AllTook(before, after, text)
    ensures AllFit(before, |text|)
  {
  }

  /** `stream`, `buffer` and, with a staging writer, `stage`: the reader hands over
      the message piece by piece and at the end says whether it was complete. */
  method Receive(pending: PendingFanout, pieces: seq<seq<Byte>>, complete: bool, staging: ByteSink?, journal: Journal)
      returns (r: ValidatedFanout?, failures: nat, stagingFailed: bool)
    modifies pending, staging, journal
    ensures var message, sinks := Flatten(pieces), old(pending.sinks);
            r != null <==> complete && AllFit(sinks, |message|) && (staging != null ==> |message| <= old(staging.room))
    ensures pending.sinks == []
    ensures r != null ==> fresh(r) && AllTook(old(pending.sinks), r.sinks, Flatten(pieces)) &&
                          journal.log == old(journal.log)
    ensures r != null && staging != null ==> staging.data == old(staging.data) + Flatten(pieces)
    ensures r == null ==> (exists ended: seq<Sink> ::
                             Ids(ended) == Ids(old(pending.sinks)) && journal.log == old(journal.log) + AbortLog(ended))
    ensures stagingFailed ==> staging != null && old(staging.room) < |Flatten(pieces)|
  {
    var ok;
    ok, stagingFailed := WritePieces(pending, pieces, staging);
    failures := 0;
    if ok && complete {
      TookFits(old(pending.sinks), pending.sinks, Flatten(pieces));
      r := new ValidatedFanout(pending.sinks);
      pending.sinks := [];
    } else {
      r := null;
      failures := pending.AbortAll(journal);
    }
  }

  // ----- Whole deliveries -----

  ghost predicate AreEmpty(sinks: seq<Sink>) {
    forall i :: 0 <= i < |sinks| ==> sinks[i].data == []
  }

  ghost predicate AllHold(sinks: seq<Sink>, message: seq<Byte>) {
    forall i :: 0 <= i < |sinks| ==> sinks[i].data == message
  }

  /** A sink was committed only if every sink that ended held the whole message. */
  ghost predicate CommittedTogether(events: seq<Event>, message: seq<Byte>) {
    (exists i :: 0 <= i < |events| && events[i].Committed?) ==>
      forall i :: 0 <= i < |events| ==> events[i].sink.data == message
  }

  lemma TookIsHold(before: seq<Sink>, after: seq<Sink>, message: seq<Byte>)
    requires AreEmpty(before) && AllTook(before, after, message)
    ensures AllHold(after, message) && Ids(after) == Ids(before)
  {
    NoneLeft(message);
    assert Ids(after) == Ids(before);
  }

  lemma HoldAppend(a: seq<Sink>, b: seq<Sink>, message: seq<Byte>)
    requires AllHold(a, message) && AllHold(b, message)
    ensures AllHold(a + b, message)
  {
  }

  ghost predicate NoneCommitted(events: seq<Event>) {
    forall i :: 0 <= i < |events| ==> !events[i].Committed?
  }

  /** What a finished delivery has done with the sinks it was given. */
  ghost predicate Settled(events: seq<Event>, given: seq<Sink>, message: seq<Byte>) {
    multiset(Ended(events)) == multiset(Ids(given)) && CommittedTogether(events, message)
  }

  lemma SettledByEnding(sinks: seq<Sink>, given: seq<Sink>, message: seq<Byte>)
    requires multiset(Ids(sinks)) == multiset(Ids(given))
    ensures Settled(AbortLog(sinks), given, message)
    ensures Settled(DropLog(sinks), given, message)
    ensures AllHold(sinks, message) ==> Settled(CommitLog(sinks), given, message)
    ensures NoneCommitted(AbortLog(sinks)) && NoneCommitted(DropLog(sinks))
  {
    EachEndsOnce(sinks);
  }

  /** Without a report nothing was committed; a report is that of one commit of
      sinks that all held the message. */
  ghost predicate Reported(r: Option<CommitResult>, events: seq<Event>, message: seq<Byte>) {
    match r
    case None => NoneCommitted(events)
    case Some(result) =>
      exists sinks :: AllHold(sinks, message) && events == CommitLog(sinks) && result == CommitSpec(sinks)
  }

  lemma SettledByBoth(a: seq<Event>, b: seq<Event>, given: seq<Sink>, more: seq<Sink>, message: seq<Byte>)
    requires NoneCommitted(a) && NoneCommitted(b)
    requires multiset(Ended(a)) == multiset(Ids(more)) && multiset(Ended(b)) == multiset(Ids(given))
    ensures Settled(a + b, given + more, message) && NoneCommitted(a + b)
  {
    EndedAppend(a, b);
    IdsAppend(given, more);
  }

  lemma NoneCommittedLogs(sinks: seq<Sink>)
    ensures NoneCommitted(AbortLog(sinks)) && NoneCommitted(DropLog(sinks))
  {
  }

  /** One more group of sinks for a fan-out that already holds the message. */
  method Extend(validated: ValidatedFanout, group: seq<Sink>, ghost given: seq<Sink>, message: seq<Byte>, journal: Journal)
      returns (ok: bool)
    requires AreEmpty(group) && AllHold(validated.sinks, message)
    requires multiset(Ids(validated.sinks)) == multiset(Ids(given))
    modifies validated, journal
    ensures ok ==> AllHold(validated.sinks, message) && multiset(Ids(validated.sinks)) == multiset(Ids(given + group)) &&
                   journal.log == old(journal.log)
    ensures !ok ==> (exists events :: Settled(events, given + group, message) && NoneCommitted(events) &&
                                      journal.log == old(journal.log) + events)
  {
    ghost var mine, start := validated.sinks, journal.log;
    NoneCommittedLogs(mine);
    EachEndsOnce(mine);
    var pending := NewPending(group, journal);
    if pending == null {
      var failures := validated.AbortAll(journal);
      NoneCommittedLogs(group);
      EachEndsOnce(group);
      Assoc(start, DropLog(group), AbortLog(mine));
      SettledByBoth(DropLog(group), AbortLog(mine), given, group, message);
      return false;
    }
    ok := validated.AppendBytes(pending, message, journal);
    if ok {
      ghost var joined := validated.sinks[|mine|..];
      TookIsHold(group, joined, message);
      HoldAppend(mine, joined, message);
      assert validated.sinks == mine + joined;
      IdsAppend(mine, joined);
      IdsAppend(given, group);
    } else {
      ghost var ended: seq<Sink> :| Ids(ended) == Ids(group) && journal.log == start + (AbortLog(ended) + AbortLog(mine));
      NoneCommittedLogs(ended);
      EachEndsOnce(ended);
      SettledByBoth(AbortLog(ended), AbortLog(mine), given, group, message);
    }
  }

  /** A whole delivery: stream the message into the first sinks, add the sinks of
      each group, then commit or drop the fan-out. `used` groups got that far. A
      fan-out that is not `streamed` is dropped while it is still pending. */
  method Deliver(first: seq<Sink>, streamed: bool, pieces: seq<seq<Byte>>, complete: bool, staging: ByteSink?, groups: seq<seq<Sink>>,
                 commit: bool, journal: Journal) returns (r: Option<CommitResult>, used: nat)
    requires AreEmpty(first) && forall i :: 0 <= i < |groups| ==> AreEmpty(groups[i])
    modifies staging, journal
    ensures used <= |groups|
    ensures exists events :: Settled(events, first + Flatten(groups[..used]), Flatten(pieces)) &&
                             Reported(r, events, Flatten(pieces)) && journal.log == old(journal.log) + events
  {
    used := 0;
    ghost var message := Flatten(pieces);
    ghost var start := journal.log;
    NoneRight(first);
    var pending := NewPending(first, journal);
    if pending == null {
      SettledByEnding(first, first, message);
      return None, 0;
    }
    if !streamed {
      var aborted := pending.AbortAll(journal);
      SettledByEnding(first, first, message);
      return None, 0;
    }
    var validated, failures, stagingFailed := Receive(pending, pieces, complete, staging, journal);
    if validated == null {
      ghost var ended: seq<Sink> :| Ids(ended) == Ids(first) && journal.log == start + AbortLog(ended);
      SettledByEnding(ended, first, message);
      return None, 0;
    }
    TookIsHold(first, validated.sinks, message);
    assert groups[..0] == [];
    var ok;
    ok, used := ExtendAll(validated, first, groups, Flatten(pieces), journal);
    if !ok {
      return None, used;
    }
    ghost var ending := validated.sinks;
    SettledByEnding(ending, first + Flatten(groups[..used]), message);
    if commit {
      var result := validated.Commit(journal);
      r := Some(result);
    } else {
      failures := validated.AbortAll(journal);
      r := None;
    }
  }

  /** Every group in turn, until one cannot be added. */
  method ExtendAll(validated: ValidatedFanout, ghost first: seq<Sink>, groups: seq<seq<Sink>>, message: seq<Byte>,
                   journal: Journal) returns (ok: bool, used: nat)
    requires forall i :: 0 <= i < |groups| ==> AreEmpty(groups[i])
    requires AllHold(validated.sinks, message) && multiset(Ids(validated.sinks)) == multiset(Ids(first))
    modifies validated, journal
    ensures used <= |groups|
    ensures ok ==> AllHold(validated.sinks, message) && journal.log == old(journal.log) &&
                   multiset(Ids(validated.sinks)) == multiset(Ids(first + Flatten(groups[..used])))
    ensures !ok ==> (exists events :: Settled(events, first + Flatten(groups[..used]), message) &&
                                      NoneCommitted(events) && journal.log == old(journal.log) + events)
  {
    used := 0;
    ghost var given := first;
    NoneRight(first);
    while used < |groups|
      invariant 0 <= used <= |groups| && given == first + Flatten(groups[..used])
      invariant AllHold(validated.sinks, message) && multiset(Ids(validated.sinks)) == multiset(Ids(given))
      invariant journal.log == old(journal.log)
    {
      GroupNext(first, groups, used);
      ok := Extend(validated, groups[used], given, message, journal);
      given := given + groups[used];
      used := used + 1;
      if !ok {
        return false, used;
      }
    }
    ok := true;
  }

  lemma GroupNext(first: seq<Sink>, groups: seq<seq<Sink>>, n: nat)
    requires n < |groups|
    ensures first + Flatten(groups[..n + 1]) == (first + Flatten(groups[..n])) + groups[n]
  {
    FlattenNext(groups, n);
    Assoc(first, Flatten(groups[..n]), groups[n]);
  }
}
