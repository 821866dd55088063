/**
 * The janitor package's deletion engine: the producer queues one record per
 * selected resource and a worker drains the queue, issuing each delete and
 * polling its operation until it reports DONE.
 */
module JanitorDelete {
  import opened Wrappers
  import Naming
  import opened Operations
  import opened Channels
  import opened JanitorDeleter
  import opened JanitorImages
  import opened JanitorInstances

  /** The two implementations of the janitor metadata interface. */
  datatype Janitor = ImagesJanitor(images: ImageJanitor) | InstancesJanitor(instances: InstanceJanitor)
  {
    function Target(): object
    {
      if ImagesJanitor? then images else instances
    }

    /** The records its Delete queues. */
    function Queued(): seq<DeleteMetadata>
      reads Target()
    {
      if ImagesJanitor? then images.Queued() else instances.Queued()
    }
  }

  /**
   * Ranges over the closed queue: for each record, issue the delete (a failure is
   * fatal), pick the operations endpoint from the returned operation, then query
   * it until it reports DONE (a failed query is fatal). Job `k` meets transcript `k`.
   */
  method DeleteWorker(calls: Channel<DeleteMetadata>, ts: seq<JobTranscript>) returns (reports: seq<Report>)
    requires calls.closed && |ts| >= |calls.buffer|
    modifies calls
    ensures reports == Drain(JobsOf(old(calls.buffer)), ts)
    ensures calls.closed && |reports| <= |old(calls.buffer)| && calls.buffer == old(calls.buffer)[|reports|..]
  {
    ghost var all := calls.buffer;
    ghost var jobs := JobsOf(all);
    reports := [];
    var k := 0;
    while true
      invariant 0 <= k <= |all| && calls.closed && calls.buffer == all[k..]
      invariant |reports| == k
      invariant forall i :: 0 <= i < k ==> reports[i] == Report(jobs[i], RunJob(jobs[i].project, ts[i]))
      invariant forall i :: 0 <= i < k ==> reports[i].outcome.Deleted?
      decreases |all| - k
    {
      var next := calls.Receive();
      if next.None? {
        DrainUnique(jobs, ts, reports);
        break;
      }
      var call := next.value;
      assert call == all[k] && jobs[k] == call.AsJob() && calls.buffer == all[k + 1..];
      var outcome := PerformJob(call.Project(), ts[k]);
      assert outcome == RunJob(jobs[k].project, ts[k]);
      reports := reports + [Report(call.AsJob(), outcome)];
      if !outcome.Deleted? {
        DrainUnique(jobs, ts, reports);
        return;
      }
      k := k + 1;
    }
  }

  /**
   * Waits for the workers on the closed queue: the queue is drained in order,
   * and the run ends when the queue is empty or a job does not end in Deleted.
   */
  method AwaitWorkers(workers: int, r: Channel<DeleteMetadata>, ts: seq<JobTranscript>) returns (run: EngineRun)
    requires workers > 0 && r.closed && |ts| >= |r.buffer|
    modifies r
    ensures run == Engine(workers, JobsOf(old(r.buffer)), ts)
  {
    var reports := DeleteWorker(r, ts);
    if reports == [] || reports[|reports| - 1].outcome.Deleted? {
      run := Completed(reports);
    } else if reports[|reports| - 1].outcome.Unfinished? {
      run := StillPolling(reports);
    } else {
      run := Exited(reports);
    }
  }

  /**
   * Starts the workers on a queue of capacity `workers`, lets the janitor queue its
   * records, and waits for the workers: a negative capacity panics, no worker with
   * records to send deadlocks, and otherwise the queue is drained in order. The Go
   * function returns, with no error, only after a Completed run; the model yields
   * `None` beside every run, and `run` tells whether the function would return.
   */
  method Parallel(workers: int, i: Janitor, ts: seq<JobTranscript>) returns (err: Option<string>, run: EngineRun)
    requires |ts| >= |i.Queued()|
    ensures run == Engine(workers, JobsOf(i.Queued()), ts)
    ensures err == None
  {
    err := None;
    var queued := i.Queued();
    if workers < 0 {
      return None, Panicked;
    }
    if workers == 0 && queued != [] {
      return None, Deadlocked;
    }
    var r := new Channel<DeleteMetadata>();
    match i {
      case ImagesJanitor(m) =>
        assert queued == m.Queued();
        m.Delete(r);
      case InstancesJanitor(m) =>
        assert queued == m.Queued();
        m.Delete(r);
    }
    assert r.closed && r.buffer == queued;
    if workers == 0 {
      run := Completed([]);
    } else {
      run := AwaitWorkers(workers, r, ts);
    }
    assert i.Queued() == queued;
  }
}
