/**
 * The resource-janitor's deletion engine: the selected images or instances are
 * turned into delete requests on a queue, and a worker issues each request and
 * polls its operation, in the caller's project, until it reports DONE.
 */
module ResourceJanitorDelete {
  import opened Wrappers
  import Naming
  import opened Compute
  import opened Operations
  import opened Channels

  /** The delete requests for a list of images: one per image, by name, in list order. */
  function ImageDeletes(project: string, images: seq<Resource>): (calls: seq<DeleteCall>)
    ensures |calls| == |images|
  {
    seq(|images|, k requires 0 <= k < |images| => ImagesDelete(project, images[k].name))
  }

  /** The delete requests for a list of instances, each in the last segment of its zone URL. */
  function InstanceDeletes(project: string, instances: seq<Resource>): (calls: seq<DeleteCall>)
    ensures |calls| == |instances|
  {
    seq(|instances|, k requires 0 <= k < |instances| =>
      InstancesDelete(project, Naming.NameFromURL(instances[k].zone), instances[k].name))
  }

  /**
   * The `k`-th request deletes the `k`-th resource by name in the caller's project;
   * an instance request names a zone with no `/` that ends its zone URL.
   */
  lemma DeletesOnePerItem(project: string, images: seq<Resource>, instances: seq<Resource>)
    ensures forall k :: 0 <= k < |images| ==> ImageDeletes(project, images)[k] == ImagesDelete(project, images[k].name)
    ensures forall k :: 0 <= k < |instances| ==>
              var call := InstanceDeletes(project, instances)[k];
              var zone := instances[k].zone;
              call.InstancesDelete? && call.project == project && call.instance == instances[k].name &&
              '/' !in call.zone && |call.zone| <= |zone| && zone[|zone| - |call.zone|..] == call.zone
  {
  }

  /** Every request is polled in the one project the engine was started for. */
  function ProjectJobs(project: string, calls: seq<DeleteCall>): (jobs: seq<Job>)
    ensures |jobs| == |calls|
  {
    seq(|calls|, k requires 0 <= k < |calls| => Job(project, calls[k]))
  }

  /**
   * Ranges over the closed queue: issue each request (a failure is fatal), pick the
   * operations endpoint in `project` from the returned operation, then query it
   * until it reports DONE (a failed query is fatal). Job `k` meets transcript `k`.
   */
  method DeleteWorker(project: string, calls: Channel<DeleteCall>, ts: seq<JobTranscript>) returns (reports: seq<Report>)
    requires calls.closed && |ts| >= |calls.buffer|
    modifies calls
    ensures reports == Drain(ProjectJobs(project, old(calls.buffer)), ts)
    ensures calls.closed && |reports| <= |old(calls.buffer)| && calls.buffer == old(calls.buffer)[|reports|..]
  {
    ghost var all := calls.buffer;
    ghost var jobs := ProjectJobs(project, all);
    reports := [];
    var k := 0;
    while true
      invariant 0 <= k <= |all| && calls.closed && calls.buffer == all[k..]
      invariant |reports| == k
      invariant forall i :: 0 <= i < k ==> reports[i] == Report(jobs[i], RunJob(jobs[i].project, ts[i]))
      invariant forall i :: 0 <= i < k ==> reports[i].outcome.Deleted?
      decreases |all| - k
    {
      var next := calls.Receive();
      if next.None? {
        DrainUnique(jobs, ts, reports);
        break;
      }
      var call := next.value;
      assert call == all[k] && jobs[k] == Job(project, call) && calls.buffer == all[k + 1..];
      var outcome := PerformJob(project, ts[k]);
      assert outcome == RunJob(jobs[k].project, ts[k]);
      reports := reports + [Report(Job(project, call), outcome)];
      if !outcome.Deleted? {
        DrainUnique(jobs, ts, reports);
        return;
      }
      k := k + 1;
    }
  }

  /**
   * Starts the workers on a queue of capacity `workers`, sends the requests in order,
   * closes the queue and waits: a negative capacity panics, no worker with requests
   * to send deadlocks, and otherwise the queue is drained in order.
   */
  method Engage(project: string, workers: int, requests: seq<DeleteCall>, ts: seq<JobTranscript>) returns (run: EngineRun)
    requires |ts| >= |requests|
    ensures run == Engine(workers, ProjectJobs(project, requests), ts)
  {
    if workers < 0 {
      return Panicked;
    }
    if workers == 0 && requests != [] {
      return Deadlocked;
    }
    var queue := new Channel<DeleteCall>();
    var k := 0;
    while k < |requests|
      invariant 0 <= k <= |requests|
      invariant !queue.closed && queue.buffer == requests[..k]
    {
      queue.Send(requests[k]);
      assert requests[..k + 1] == requests[..k] + [requests[k]];
      k := k + 1;
    }
    assert requests[..k] == requests;
    queue.Close();
    if workers == 0 {
      return Completed([]);
    }
    var reports := DeleteWorker(project, queue, ts);
    if reports == [] || reports[|reports| - 1].outcome.Deleted? {
      run := Completed(reports);
    } else if reports[|reports| - 1].outcome.Unfinished? {
      run := StillPolling(reports);
    } else {
      run := Exited(reports);
    }
  }

  /**
   * Deletes the listed images in `project`. The Go function returns, with no
   * error, only after a Completed run; the model yields `None` beside every run.
   */
  method ParallelImages(project: string, workers: int, imageList: seq<Resource>, ts: seq<JobTranscript>)
    returns (err: Option<string>, run: EngineRun)
    requires |ts| >= |imageList|
    ensures run == Engine(workers, ProjectJobs(project, ImageDeletes(project, imageList)), ts)
    ensures err == None
  {
    run := Engage(project, workers, ImageDeletes(project, imageList), ts);
    err := None;
  }

  /**
   * Deletes the listed instances, each in its own zone. The Go function returns,
   * with no error, only after a Completed run; the model yields `None` beside every run.
   */
  method ParallelInstances(project: string, workers: int, instanceList: seq<Resource>, ts: seq<JobTranscript>)
    returns (err: Option<string>, run: EngineRun)
    requires |ts| >= |instanceList|
    ensures run == Engine(workers, ProjectJobs(project, InstanceDeletes(project, instanceList)), ts)
    ensures err == None
  {
    run := Engage(project, workers, InstanceDeletes(project, instanceList), ts);
    err := None;
  }
}
