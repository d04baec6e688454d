/** Applying what a commit reported: trace records, LASTFOLDER, the returned count,
    and whether the step may still be handled as a failure. */
module Publication {
  import opened Bytes
  import opened RuntimeState
  import opened Runtime
  import opened Fanout
  import opened FanoutRun
  import Utf8

  /** A destination is computed from the variables, when it can be. */
  type Destination = State -> Option<seq<Byte>>

  /** What a backend reports: the folders that became visible, and the sink that failed. */
  datatype Attempt = Attempt(published: Option<seq<Folder>>, failed: Option<nat>)

  datatype Record =
    | PublishedRecord(index: nat, destination: Option<seq<Byte>>)
    | LastFolderUpdated
    | FailureRecord(failed: nat, path: seq<Byte>)

  datatype StepError = StepError(canHandle: bool)

  class Trace {
    var records: seq<Record>

    constructor ()
      ensures records == []
    {
      records := [];
    }

    method Add(record: Record)
      modifies this
      ensures records == old(records) + [record]
    {
      records := records + [record];
    }
  }

  function Visible(attempt: Attempt): seq<Folder> {
    if attempt.published.None? then [] else attempt.published.value
  }

  /** The records of the first `n` published destinations. */
  function PublishedRecords(destinations: seq<Destination>, st: State, n: nat): (r: seq<Record>)
    requires n <= |destinations|
    ensures |r| == n && forall i :: 0 <= i < n ==> r[i] == PublishedRecord(i, destinations[i](st))
  {
    seq(n, i requires 0 <= i < n => PublishedRecord(i, destinations[i](st)))
  }

  /** `record_publication`: the last folder is remembered when it is UTF-8. */
  method RecordPublication(published: seq<Folder>, runtime: RuntimeVariables, trace: Trace) returns (ok: bool)
    modifies runtime, trace
    ensures ok <==> published == [] || Utf8.IsUtf8(published[|published| - 1])
    ensures ok && published != [] ==>
              runtime.View() == Assigned(old(runtime.View()), LAST_FOLDER, Text(published[|published| - 1])) &&
              trace.records == old(trace.records) + [LastFolderUpdated]
    ensures !ok || published == [] ==> runtime.View() == old(runtime.View()) && trace.records == old(trace.records)
  {
    if published == [] {
      return true;
    }
    var last := published[|published| - 1];
    if !Utf8.IsUtf8(last) {
      return false;
    }
    runtime.Set(LAST_FOLDER, last);
    trace.Add(LastFolderUpdated);
    ok := true;
  }

  /** The destination of the failed sink, bound before LASTFOLDER can change. */
  function FailedPath(attempt: Attempt, destinations: seq<Destination>, st: State): Option<seq<Byte>> {
    if attempt.failed.None? || attempt.failed.value >= |destinations| then None
    else destinations[attempt.failed.value](st)
  }

  /** Every consequence of the report could be recorded. */
  predicate Recordable(attempt: Attempt, destinations: seq<Destination>) {
    var visible := Visible(attempt);
    |visible| <= |destinations| && (visible != [] ==> Utf8.IsUtf8(visible[|visible| - 1]))
  }

  /** `apply_publication`. */
  method ApplyPublication(attempt: Attempt, destinations: seq<Destination>, runtime: RuntimeVariables, trace: Trace)
      returns (r: Result<nat, StepError>)
    modifies runtime, trace
    ensures r.Ok? <==> Recordable(attempt, destinations) && attempt.failed.None?
    ensures r.Err? && r.error.canHandle <==>
            Visible(attempt) == [] && FailedPath(attempt, destinations, old(runtime.View())).Some?
    ensures r.Ok? ==> r.value == |Visible(attempt)|
    ensures Recordable(attempt, destinations) ==>
              runtime.View() == (if Visible(attempt) == [] then old(runtime.View())
                                 else Assigned(old(runtime.View()), LAST_FOLDER, Text(Last(Visible(attempt)))))
    ensures r.Ok? ==>
              trace.records == old(trace.records) +
                               PublishedRecords(destinations, old(runtime.View()), |Visible(attempt)|) +
                               (if Visible(attempt) == [] then [] else [LastFolderUpdated])
    ensures Recordable(attempt, destinations) && FailedPath(attempt, destinations, old(runtime.View())).Some? ==>
              trace.records == old(trace.records) +
                               PublishedRecords(destinations, old(runtime.View()), |Visible(attempt)|) +
                               (if Visible(attempt) == [] then [] else [LastFolderUpdated]) +
                               [FailureRecord(attempt.failed.value, FailedPath(attempt, destinations, old(runtime.View())).value)]
  {
    ghost var st, start := runtime.View(), trace.records;
    var visible := Visible(attempt);
    var failedPath: Option<seq<Byte>> := None;
    if attempt.failed.Some? && attempt.failed.value < |destinations| {
      failedPath := Evaluate(destinations[attempt.failed.value], runtime);
    }
    NoneRight(start);
    for index := 0 to |visible|
      invariant index <= |destinations| && runtime.View() == st
      invariant trace.records == start + PublishedRecords(destinations, st, index)
    {
      if index >= |destinations| {
        return Err(StepError(false));
      }
      var destination := Evaluate(destinations[index], runtime);
      trace.Add(PublishedRecord(index, destination));
      RecordsGrow(start, destinations, st, index);
    }
    NoneRight(trace.records);
    if attempt.published.Some? {
      var ok := RecordPublication(visible, runtime, trace);
      if !ok {
        return Err(StepError(false));
      }
    }
    if attempt.failed.Some? {
      if failedPath.None? {
        return Err(StepError(false));
      }
      trace.Add(FailureRecord(attempt.failed.value, failedPath.value));
      return Err(StepError(|visible| == 0));
    }
    r := Ok(|visible|);
  }

  function Last(folders: seq<Folder>): Folder
    requires folders != []
  {
    folders[|folders| - 1]
  }

  lemma RecordsGrow(start: seq<Record>, destinations: seq<Destination>, st: State, n: nat)
    requires n < |destinations|
    ensures (start + PublishedRecords(destinations, st, n)) + [PublishedRecord(n, destinations[n](st))] ==
            start + PublishedRecords(destinations, st, n + 1)
  {
  }

  /** Computing a destination reads the variables only. */
  method Evaluate(destination: Destination, runtime: RuntimeVariables) returns (path: Option<seq<Byte>>)
    ensures path == destination(runtime.View())
  {
    var values := runtime.VisibleValues();
    path := destination(State(values, runtime.processId, runtime.status, runtime.rcFile));
  }

  function AttemptOf(result: CommitResult): Attempt {
    match result
    case AllPublished(published) => Attempt(Some(published), None)
    case CommitFailed(published, failedIndex, _) =>
      Attempt(if published == [] then None else Some(published), Some(failedIndex))
  }

  /** A commit and its consequences: the step is handleable only if the commit made
      nothing visible, and succeeds only if every sink was published. */
  method CommitDelivery(validated: ValidatedFanout, destinations: seq<Destination>, runtime: RuntimeVariables,
                        trace: Trace, journal: Journal) returns (r: Result<nat, StepError>)
    modifies validated, runtime, trace, journal
    ensures validated.sinks == [] && journal.log == old(journal.log) + CommitLog(old(validated.sinks))
    ensures var sinks := old(validated.sinks);
            var visible := VisibleFolders(CommitLog(sinks), |sinks|);
            (r.Err? && r.error.canHandle ==> visible == []) &&
            (r.Ok? ==> r.value == |sinks| == |visible| <= |destinations|) &&
            (r.Ok? && visible != [] ==> Lookup(runtime.View(), LAST_FOLDER, false) == Some(Last(visible))) &&
            (r.Ok? && |sinks| <= |destinations| ==>
               trace.records == old(trace.records) + PublishedRecords(destinations, old(runtime.View()), |sinks|) +
                                (if visible == [] then [] else [LastFolderUpdated]))
  {
    ghost var sinks := validated.sinks;
    ReportIsWhatIsVisible(sinks);
    var result := validated.Commit(journal);
    r := ApplyPublication(AttemptOf(result), destinations, runtime, trace);
  }
}
