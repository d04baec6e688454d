/** The append transaction on a locked mailbox: write, sync, publish, or roll back. */
module MboxAppend {
  import opened Bytes
  import opened Mbox
  import opened MboxWriter
  import opened MboxFraming

  datatype Durability = NoSync | SyncFile | SyncFull

  datatype Operation = Write | SyncingFile | SyncingDirectory | Unlock

  datatype FailureClass = Retryable | Permanent | Internal

  /** What the operating system answers to each call of one append. */
  datatype System = System(
    seekEnd: bool,
    room: nat,
    syncFile: bool,
    syncParent: bool,
    truncate: bool,
    seekBack: bool,
    syncBack: bool,
    unlock: bool,
    ioClass: FailureClass)

  datatype Outcome =
    | Published
    | Failed(rollbackFailed: bool, published: bool, operation: Operation, ioClass: FailureClass)
  {
    /** The record is visible in the mailbox. */
    predicate Visible() {
      Published? || published
    }

    predicate Corrupting() {
      Failed? && rollbackFailed
    }

    function Class(): FailureClass
      requires Failed?
    {
      if rollbackFailed then Internal else ioClass
    }
  }

  /** One delivery attempt: a message in two pieces; the postmark may fail to be generated. */
  datatype Attempt = Attempt(
    postmark: Option<seq<Byte>>,
    first: seq<Byte>,
    second: seq<Byte>,
    ending: OutputEnding,
    durability: Durability,
    system: System)
  {
    ghost predicate Valid() {
      postmark.Some? ==> IsPostmark(postmark.value)
    }

    function Delivered(): Delivery
      requires postmark.Some?
    {
      Delivery(postmark.value, first + second, ending)
    }
  }

  /** `before` with part of a record after it. */
  ghost predicate Torn(before: seq<Byte>, after: seq<Byte>, a: Attempt) {
    after == before ||
    (a.postmark.Some? && exists k :: 0 <= k <= |RecordOf(a.Delivered())| && after == before + RecordOf(a.Delivered())[..k])
  }

  /** What an append promises about the mailbox, for each outcome. */
  ghost predicate Honest(before: seq<Byte>, after: seq<Byte>, a: Attempt, outcome: Outcome) {
    (outcome.Visible() ==> a.postmark.Some? && after == before + RecordOf(a.Delivered())) &&
    (!outcome.Visible() && !outcome.Corrupting() ==> after == before) &&
    (outcome.Corrupting() ==> !outcome.Visible() && outcome.Class() == Internal && Torn(before, after, a))
  }

  /** The first step of an append that fails. */
  function FirstFailure(a: Attempt): Option<Operation> {
    if !a.system.seekEnd || a.postmark.None? || |RecordOf(a.Delivered())| > a.system.room then Some(Write)
    else if a.durability != NoSync && !a.system.syncFile then Some(SyncingFile)
    else if a.durability == SyncFull && !a.system.syncParent then Some(SyncingDirectory)
    else if !a.system.unlock then Some(Unlock)
    else None
  }

  /** Nothing had been written, the record stays, or the file was cut back. */
  predicate IsRestored(a: Attempt, operation: Operation) {
    !a.system.seekEnd || operation == Unlock ||
    (a.system.truncate && a.system.seekBack && (a.durability != NoSync ==> a.system.syncBack))
  }

  method Rollback(file: ByteSink, originalLen: nat, durability: Durability, system: System) returns (ok: bool)
    requires originalLen <= |file.data|
    modifies file
    ensures file.data == if system.truncate then old(file.data)[..originalLen] else old(file.data)
    ensures ok == (system.truncate && system.seekBack && (durability != NoSync ==> system.syncBack))
  {
    if !system.truncate {
      return false;
    }
    file.data := file.data[..originalLen];
    if !system.seekBack {
      return false;
    }
    if durability != NoSync && !system.syncBack {
      return false;
    }
    return true;
  }

  /** The write closure of `LockedMbox::append`: generate a postmark, write the record. */
  method WriteAttempt(file: ByteSink, a: Attempt) returns (ok: bool)
    modifies file
    ensures ok ==> a.postmark.Some? && file.data == old(file.data) + RecordOf(a.Delivered())
    ensures !ok ==> old(file.data) <= file.data && Torn(old(file.data), file.data, a)
    ensures ok == (a.postmark.Some? && |RecordOf(a.Delivered())| <= old(file.room))
  {
    if a.postmark.None? {
      return false;
    }
    ok := WriteRecord(file, a.postmark.value, a.first, a.second, a.ending);
    if !ok {
      assert file.data == old(file.data) + RecordOf(a.Delivered())[..old(file.room)];
    }
  }

  method Append(file: ByteSink, a: Attempt) returns (outcome: Outcome)
    modifies file
    ensures Honest(old(file.data), file.data, a, outcome)
    ensures match FirstFailure(a)
            case None => outcome == Published
            case Some(operation) =>
              outcome == Failed(!IsRestored(a, operation), operation == Unlock, operation, a.system.ioClass)
  {
    var system := a.system;
    if !system.seekEnd {
      return Failed(false, false, Write, system.ioClass);
    }
    var originalLen := |file.data|;
    ghost var before := file.data;
    file.room := system.room;
    var ok := WriteAttempt(file, a);
    var operation := Write;
    if ok && a.durability != NoSync && !system.syncFile {
      ok, operation := false, SyncingFile;
    }
    if ok && a.durability == SyncFull && !system.syncParent {
      ok, operation := false, SyncingDirectory;
    }
    if !ok {
      ghost var torn := file.data;
      assert Torn(before, torn, a) by {
        if a.postmark.Some? {
          TakeAll(RecordOf(a.Delivered()));
        }
      }
      assert torn[..originalLen] == before;
      var restored := Rollback(file, originalLen, a.durability, system);
      return Failed(!restored, false, operation, system.ioClass);
    }
    if !system.unlock {
      return Failed(false, true, Unlock, system.ioClass);
    }
    return Published;
  }

  // ----- Whole runs -----

  /** The mailbox is a concatenation of whole records. */
  ghost predicate Intact(data: seq<Byte>, history: seq<Delivery>) {
    data == Mailbox(history, |history|)
  }

  function NextHistory(history: seq<Delivery>, a: Attempt, outcome: Outcome): seq<Delivery> {
    if outcome.Visible() && a.postmark.Some? then history + [a.Delivered()] else history
  }

  lemma {:induction false} MailboxPrefix(history: seq<Delivery>, more: seq<Delivery>, k: nat)
    requires k <= |history| <= |more| && forall i :: 0 <= i < |history| ==> more[i] == history[i]
    ensures Mailbox(more, k) == Mailbox(history, k)
  {
    if 0 < k {
      MailboxPrefix(history, more, k - 1);
    }
  }

  lemma MailboxGrows(history: seq<Delivery>, d: Delivery)
    ensures Mailbox(history + [d], |history + [d]|) == Mailbox(history, |history|) + RecordOf(d)
  {
    var more := history + [d];
    assert |more| == |history| + 1 && more[|history|] == d;
    MailboxPrefix(history, more, |history|);
  }

  lemma IntactAfter(before: seq<Byte>, after: seq<Byte>, history: seq<Delivery>, a: Attempt, outcome: Outcome)
    requires Intact(before, history) && Honest(before, after, a, outcome) && !outcome.Corrupting()
    ensures Intact(after, NextHistory(history, a, outcome))
  {
    if outcome.Visible() {
      MailboxGrows(history, a.Delivered());
    }
  }

  /** The deliveries that became visible in the first `k` attempts, in order. */
  function VisibleDeliveries(attempts: seq<Attempt>, outcomes: seq<Outcome>, k: nat): seq<Delivery>
    requires k <= |attempts| && k <= |outcomes|
  {
    if k == 0 then [] else NextHistory(VisibleDeliveries(attempts, outcomes, k - 1), attempts[k - 1], outcomes[k - 1])
  }

  lemma {:induction false} VisiblePrefix(attempts: seq<Attempt>, outcomes: seq<Outcome>, more: seq<Outcome>, k: nat)
    requires k <= |attempts| && k <= |outcomes| <= |more| && forall i :: 0 <= i < |outcomes| ==> more[i] == outcomes[i]
    ensures VisibleDeliveries(attempts, more, k) == VisibleDeliveries(attempts, outcomes, k)
  {
    if 0 < k {
      VisiblePrefix(attempts, outcomes, more, k - 1);
    }
  }

  lemma {:induction false} VisibleValid(attempts: seq<Attempt>, outcomes: seq<Outcome>, k: nat)
    requires k <= |attempts| && k <= |outcomes| && forall i :: 0 <= i < |attempts| ==> attempts[i].Valid()
    ensures ValidHistory(VisibleDeliveries(attempts, outcomes, k))
  {
    if 0 < k {
      VisibleValid(attempts, outcomes, k - 1);
    }
  }

  predicate NoneCorrupting(outcomes: seq<Outcome>) {
    forall i :: 0 <= i < |outcomes| ==> !outcomes[i].Corrupting()
  }

  lemma CorruptionLasts(outcomes: seq<Outcome>, o: Outcome)
    ensures NoneCorrupting(outcomes + [o]) <==> NoneCorrupting(outcomes) && !o.Corrupting()
  {
    var more := outcomes + [o];
    assert more[|outcomes|] == o;
    if NoneCorrupting(more) {
      forall i | 0 <= i < |outcomes|
        ensures !outcomes[i].Corrupting()
      {
        assert more[i] == outcomes[i];
      }
    }
  }

  lemma NextAfter(start: seq<Delivery>, history: seq<Delivery>, a: Attempt, outcome: Outcome)
    ensures NextHistory(start + history, a, outcome) == start + NextHistory(history, a, outcome)
  {
    if outcome.Visible() && a.postmark.Some? {
      assert start + history + [a.Delivered()] == start + (history + [a.Delivered()]);
    }
  }

  /** Any sequence of attempts on a mailbox of whole records, each with its own
      failures. A run in which no rollback fails leaves a concatenation of whole
      records, one more for each visible outcome, and reading it back gives the
      messages that were there followed by those. */
  method RunAttempts(file: ByteSink, attempts: seq<Attempt>, ghost start: seq<Delivery>) returns (outcomes: seq<Outcome>)
    requires Intact(file.data, start) && ValidHistory(start)
    requires forall i :: 0 <= i < |attempts| ==> attempts[i].Valid()
    modifies file
    ensures |outcomes| == |attempts|
    ensures NoneCorrupting(outcomes) ==>
              var history := start + VisibleDeliveries(attempts, outcomes, |attempts|);
              Intact(file.data, history) && ReadMailbox(file.data) == Entries(history, |history|)
  {
    outcomes := [];
    var index := 0;
    ghost var history: seq<Delivery> := [];
    assert start + history == start;
    while index < |attempts|
      invariant 0 <= index == |outcomes| <= |attempts|
      invariant history == VisibleDeliveries(attempts, outcomes, index)
      invariant NoneCorrupting(outcomes) ==> Intact(file.data, start + history)
    {
      ghost var before := file.data;
      var outcome := Append(file, attempts[index]);
      CorruptionLasts(outcomes, outcome);
      if NoneCorrupting(outcomes) && !outcome.Corrupting() {
        IntactAfter(before, file.data, start + history, attempts[index], outcome);
        NextAfter(start, history, attempts[index], outcome);
      }
      VisiblePrefix(attempts, outcomes, outcomes + [outcome], index);
      history := NextHistory(history, attempts[index], outcome);
      outcomes, index := outcomes + [outcome], index + 1;
    }
    VisibleValid(attempts, outcomes, |attempts|);
    MailboxReadsBack(start + history);
  }
}
