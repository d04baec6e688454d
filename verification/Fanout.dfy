/** Delivering one message to many sinks: written to all of them first, then
    committed one after another, or aborted. */
module Fanout {
  import opened Bytes

  const MAX_PENDING_SINKS: nat := 256

  type Folder = seq<Byte>

  /** What committing a sink will do: it publishes, fails with nothing visible, or
      fails after the delivery became visible. */
  datatype CommitOutcome = Publishes(folder: Folder) | FailsHidden | FailsVisible(visible: Folder)

  /** A pending sink: the bytes it took, the bytes it will still take before
      writes fail, and how its end will go. Sinks are owned, never shared. */
  datatype Sink = Sink(id: nat, data: seq<Byte>, room: nat, onCommit: CommitOutcome, abortFails: bool)

  /** The end of a sink, in the state it was in. */
  datatype Event = Committed(sink: Sink) | Aborted(sink: Sink) | Dropped(sink: Sink)

  class Journal {
    var log: seq<Event>

    constructor ()
      ensures log == []
    {
      log := [];
    }

    method Commit(sink: Sink) returns (outcome: CommitOutcome)
      modifies this
      ensures log == old(log) + [Committed(sink)] && outcome == sink.onCommit
    {
      log := log + [Committed(sink)];
      outcome := sink.onCommit;
    }

    method Abort(sink: Sink) returns (failed: bool)
      modifies this
      ensures log == old(log) + [Aborted(sink)] && failed == sink.abortFails
    {
      log := log + [Aborted(sink)];
      failed := sink.abortFails;
    }
  }

  // ----- Every sink ends once -----

  function Ids(sinks: seq<Sink>): (ids: seq<nat>)
    ensures |ids| == |sinks| && forall i :: 0 <= i < |ids| ==> ids[i] == sinks[i].id
  {
    seq(|sinks|, i requires 0 <= i < |sinks| => sinks[i].id)
  }

  function Ended(log: seq<Event>): (ids: seq<nat>)
    ensures |ids| == |log| && forall i :: 0 <= i < |ids| ==> ids[i] == log[i].sink.id
  {
    seq(|log|, i requires 0 <= i < |log| => log[i].sink.id)
  }

  /** Aborting pops sinks off the end. */
  function AbortLog(sinks: seq<Sink>): (log: seq<Event>)
    ensures |log| == |sinks| && forall i :: 0 <= i < |log| ==> log[i] == Aborted(sinks[|sinks| - 1 - i])
  {
    seq(|sinks|, i requires 0 <= i < |sinks| => Aborted(sinks[|sinks| - 1 - i]))
  }

  function DropLog(sinks: seq<Sink>): (log: seq<Event>)
    ensures |log| == |sinks| && forall i :: 0 <= i < |log| ==> log[i] == Dropped(sinks[i])
  {
    seq(|sinks|, i requires 0 <= i < |sinks| => Dropped(sinks[i]))
  }

  /** The first sink that will not commit, or the number of sinks. */
  function FirstRefusal(sinks: seq<Sink>, i: nat): (k: nat)
    requires i <= |sinks|
    ensures i <= k <= |sinks| && (k < |sinks| ==> !sinks[k].onCommit.Publishes?)
    ensures forall j :: i <= j < k ==> sinks[j].onCommit.Publishes?
    decreases |sinks| - i
  {
    if i == |sinks| || !sinks[i].onCommit.Publishes? then i else FirstRefusal(sinks, i + 1)
  }

  /** Sinks up to the first refusal are committed, the rest aborted, in order. */
  function CommitLog(sinks: seq<Sink>): (log: seq<Event>)
    ensures var k := FirstRefusal(sinks, 0);
            |log| == |sinks| && forall i :: 0 <= i < |log| ==>
              log[i] == if i <= k then Committed(sinks[i]) else Aborted(sinks[i])
  {
    var k := FirstRefusal(sinks, 0);
    seq(|sinks|, i requires 0 <= i < |sinks| => if i <= k then Committed(sinks[i]) else Aborted(sinks[i]))
  }

  lemma {:induction false} ReverseKeepsMultiset<T>(s: seq<T>)
    ensures multiset(Reverse(s)) == multiset(s)
  {
    if s != [] {
      ReverseCons(s);
      ReverseKeepsMultiset(s[1..]);
      assert s == [s[0]] + s[1..];
    }
  }

  /** Aborting, dropping or committing a fan-out ends each of its sinks exactly once. */
  lemma EachEndsOnce(sinks: seq<Sink>)
    ensures multiset(Ended(AbortLog(sinks))) == multiset(Ids(sinks))
    ensures multiset(Ended(DropLog(sinks))) == multiset(Ids(sinks))
    ensures multiset(Ended(CommitLog(sinks))) == multiset(Ids(sinks))
  {
    assert Ended(CommitLog(sinks)) == Ids(sinks);
    assert Ended(DropLog(sinks)) == Ids(sinks);
    assert Ended(AbortLog(sinks)) == Reverse(Ids(sinks));
    ReverseKeepsMultiset(Ids(sinks));
  }

  lemma EndedAppend(a: seq<Event>, b: seq<Event>)
    ensures multiset(Ended(a + b)) == multiset(Ended(a)) + multiset(Ended(b))
  {
    assert Ended(a + b) == Ended(a) + Ended(b);
  }

  lemma IdsAppend(a: seq<Sink>, b: seq<Sink>)
    ensures multiset(Ids(a + b)) == multiset(Ids(a)) + multiset(Ids(b))
  {
    assert Ids(a + b) == Ids(a) + Ids(b);
  }

  // ----- Writing to every sink -----

  /** A sink after a `write_all`: everything, or the part that fitted. */
  function After(sink: Sink, bytes: seq<Byte>): (r: Sink)
    ensures r.id == sink.id
  {
    if |bytes| <= sink.room then sink.(data := sink.data + bytes, room := sink.room - |bytes|)
    else sink.(data := sink.data + bytes[..sink.room], room := 0)
  }

  /** The first sink without room for `n` more bytes, or the number of sinks. */
  function FirstFull(sinks: seq<Sink>, n: nat, i: nat): (k: nat)
    requires i <= |sinks|
    ensures i <= k <= |sinks| && (k < |sinks| ==> sinks[k].room < n)
    ensures forall j :: i <= j < k ==> n <= sinks[j].room
    decreases |sinks| - i
  {
    if i == |sinks| || sinks[i].room < n then i else FirstFull(sinks, n, i + 1)
  }

  /** The sinks after one write: the ones after the first that failed got nothing. */
  function AllAfter(sinks: seq<Sink>, bytes: seq<Byte>): (r: seq<Sink>)
    ensures |r| == |sinks| && Ids(r) == Ids(sinks)
    ensures forall i :: 0 <= i < |r| ==> r[i] == if i <= FirstFull(sinks, |bytes|, 0) then After(sinks[i], bytes) else sinks[i]
  {
    seq(|sinks|, i requires 0 <= i < |sinks| =>
      if i <= FirstFull(sinks, |bytes|, 0) then After(sinks[i], bytes) else sinks[i])
  }

  ghost predicate AllFit(sinks: seq<Sink>, n: nat) {
    forall i :: 0 <= i < |sinks| ==> n <= sinks[i].room
  }

  /** Every sink took all of `text` on top of what it had. */
  ghost predicate AllTook(before: seq<Sink>, after: seq<Sink>, text: seq<Byte>) {
    |after| == |before| &&
    forall i :: 0 <= i < |before| ==>
      |text| <= before[i].room &&
      after[i] == before[i].(data := before[i].data + text, room := before[i].room - |text|)
  }

  lemma AllTookMore(a: seq<Sink>, b: seq<Sink>, c: seq<Sink>, text: seq<Byte>, more: seq<Byte>)
    requires AllTook(a, b, text) && AllTook(b, c, more)
    ensures AllTook(a, c, text + more)
  {
    forall i | 0 <= i < |a|
      ensures |text + more| <= a[i].room
      ensures c[i] == a[i].(data := a[i].data + (text + more), room := a[i].room - |text + more|)
    {
      Assoc(a[i].data, text, more);
    }
  }

  /** How many of the sinks from `from` up to `end` fail to abort. */
  function Unabortable(sinks: seq<Sink>, from: nat, end: nat): nat
    requires end <= |sinks|
    decreases end
  {
    if end <= from then 0 else Unabortable(sinks, from, end - 1) + (if sinks[end - 1].abortFails then 1 else 0)
  }

  class PendingFanout {
    var sinks: seq<Sink>
    var writeFailure: Option<nat>

    constructor (sinks: seq<Sink>)
      requires |sinks| <= MAX_PENDING_SINKS
      ensures this.sinks == sinks && writeFailure == None
    {
      this.sinks, writeFailure := sinks, None;
    }

    /** `write_all`: one round over the sinks, none for no bytes. */
    method WriteAll(bytes: seq<Byte>) returns (ok: bool)
      modifies this
      ensures ok <==> bytes == [] || FirstFull(old(sinks), |bytes|, 0) == |old(sinks)|
      ensures sinks == if bytes == [] then old(sinks) else AllAfter(old(sinks), bytes)
      ensures writeFailure == if ok then old(writeFailure) else Some(FirstFull(old(sinks), |bytes|, 0))
    {
      if bytes == [] {
        return true;
      }
      ghost var before := sinks;
      for i := 0 to |sinks|
        invariant |sinks| == |before| && writeFailure == old(writeFailure)
        invariant FirstFull(before, |bytes|, i) == FirstFull(before, |bytes|, 0)
        invariant forall j :: 0 <= j < i ==> |bytes| <= before[j].room && sinks[j] == After(before[j], bytes)
        invariant forall j :: i <= j < |sinks| ==> sinks[j] == before[j]
      {
        var fits := |bytes| <= sinks[i].room;
        sinks := sinks[i := After(sinks[i], bytes)];
        if !fits {
          writeFailure := Some(i);
          assert sinks == AllAfter(before, bytes);
          return false;
        }
      }
      assert sinks == AllAfter(before, bytes);
      ok := true;
    }

    /** `abort_all`. */
    method AbortAll(journal: Journal) returns (failures: nat)
      modifies this, journal
      ensures sinks == [] && writeFailure == old(writeFailure)
      ensures journal.log == old(journal.log) + AbortLog(old(sinks))
      ensures failures == old(Unabortable(sinks, 0, |sinks|))
    {
      var rest;
      rest, failures := AbortSinks(sinks, journal);
      sinks := rest;
    }
  }

  /** The loop both `abort_all` functions share. */
  method AbortSinks(sinks: seq<Sink>, journal: Journal) returns (rest: seq<Sink>, failures: nat)
    modifies journal
    ensures rest == [] && journal.log == old(journal.log) + AbortLog(sinks) && failures == Unabortable(sinks, 0, |sinks|)
  {
    rest, failures := sinks, 0;
    ghost var start := journal.log;
    NoneRight(start);
    while rest != []
      invariant |rest| <= |sinks| && rest == sinks[..|rest|]
      invariant failures + Unabortable(sinks, 0, |rest|) == Unabortable(sinks, 0, |sinks|)
      invariant journal.log == start + AbortLog(sinks)[..|sinks| - |rest|]
    {
      var last := rest[|rest| - 1];
      var failed := journal.Abort(last);
      if failed {
        failures := failures + 1;
      }
      AbortNext(sinks, |rest|, start);
      rest := rest[..|rest| - 1];
    }
    TakeAll(AbortLog(sinks));
  }

  lemma AbortNext(sinks: seq<Sink>, n: nat, start: seq<Event>)
    requires 0 < n <= |sinks|
    ensures var log, k := AbortLog(sinks), |sinks| - n;
            (start + log[..k]) + [Aborted(sinks[n - 1])] == start + log[..k + 1]
    ensures sinks[..n][..n - 1] == sinks[..n - 1]
  {
    TakeNext(AbortLog(sinks), |sinks| - n);
  }
}
