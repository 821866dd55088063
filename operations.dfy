/**
 * Compute Engine delete operations as the deletion workers see them: the
 * endpoint a worker polls, the first-"DONE" polling rule, and the outcome of
 * one deletion job given the responses the API returns.
 */
module Operations {
  import Naming

  /** The fields of a compute operation the workers read. */
  datatype Operation = Operation(name: string, zone: string, region: string, status: string, targetLink: string)

  /** The operations service a worker queries, with its arguments. */
  datatype Endpoint =
    | ZoneOperations(project: string, zone: string, operation: string)
    | RegionOperations(project: string, region: string, operation: string)
    | GlobalOperations(project: string, operation: string)

  /** The delete request a job issues. */
  datatype DeleteCall =
    | ImagesDelete(project: string, image: string)
    | InstancesDelete(project: string, zone: string, instance: string)

  /** The answer to a delete request, and to one status query. */
  datatype DeleteResponse = Issued(op: Operation) | IssueError
  datatype PollResponse = Polled(op: Operation) | PollError

  /** What the API answers for one job: the delete request, then the status queries in order. */
  datatype JobTranscript = JobTranscript(issue: DeleteResponse, polls: seq<PollResponse>)

  const Done: string := "DONE"

  /**
   * Zone first, then region, then the global service; locations are reduced to their
   * last URL segment. Every service is queried in the caller's project for the
   * operation's own name.
   */
  function OperationEndpoint(project: string, op: Operation): (e: Endpoint)
    ensures e.project == project && e.operation == op.name
  {
    if op.zone != "" then ZoneOperations(project, Naming.NameFromURL(op.zone), op.name)
    else if op.region != "" then RegionOperations(project, Naming.NameFromURL(op.region), op.name)
    else GlobalOperations(project, op.name)
  }

  /**
   * Exactly one service is chosen: the zone service whenever the operation names a
   * zone (whatever its region), the region service only without a zone, the global
   * service iff both are empty. The chosen location is the last segment of its URL.
   */
  lemma EndpointPrecedence(project: string, op: Operation)
    ensures var e := OperationEndpoint(project, op);
            (e.ZoneOperations? <==> op.zone != "") &&
            (e.RegionOperations? <==> op.zone == "" && op.region != "") &&
            (e.GlobalOperations? <==> op.zone == "" && op.region == "")
    ensures var e := OperationEndpoint(project, op);
            (e.ZoneOperations? ==> '/' !in e.zone && |e.zone| <= |op.zone| &&
                                   op.zone[|op.zone| - |e.zone|..] == e.zone) &&
            (e.RegionOperations? ==> '/' !in e.region && |e.region| <= |op.region| &&
                                     op.region[|op.region| - |e.region|..] == e.region)
  {
  }

  // ---------------------------------------------------------------- Polling

  /** Where polling stops: the first DONE observation, a failed query, or (model only) no more observations. */
  datatype PollOutcome =
    | Finished(op: Operation, queries: nat)
    | QueryError(queries: nat)
    | Pending(queries: nat)

  /** The same outcome, `n` queries later. */
  function Ahead(o: PollOutcome, n: nat): PollOutcome
  {
    match o
    case Finished(op, m) => Finished(op, m + n)
    case QueryError(m) => QueryError(m + n)
    case Pending(m) => Pending(m + n)
  }

  /** Query, then test: stop at the first DONE status or the first failed query. */
  function PollUntilDone(polls: seq<PollResponse>): PollOutcome
    decreases |polls|
  {
    if polls == [] then Pending(0)
    else match polls[0]
      case PollError => QueryError(1)
      case Polled(op) => if op.status == Done then Finished(op, 1) else Ahead(PollUntilDone(polls[1..]), 1)
  }

  /** Polling from the `i`-th observation on: one query, then either stop or go on. */
  lemma PollStep(polls: seq<PollResponse>, i: nat)
    requires i <= |polls|
    ensures i == |polls| ==> PollUntilDone(polls[i..]) == Pending(0)
    ensures i < |polls| ==>
            PollUntilDone(polls[i..]) ==
              match polls[i]
              case PollError => QueryError(1)
              case Polled(op) => if op.status == Done then Finished(op, 1) else Ahead(PollUntilDone(polls[i + 1..]), 1)
  {
    if i < |polls| {
      assert polls[i..][0] == polls[i] && polls[i..][1..] == polls[i + 1..];
    }
  }

  lemma AheadTwice(o: PollOutcome, m: nat, n: nat)
    ensures Ahead(Ahead(o, m), n) == Ahead(o, m + n)
    ensures Ahead(o, 0) == o
  {
  }

  /**
   * The poll loop: query the operation (after a pause), stop at a failed query or
   * at the first DONE status, otherwise query again. Running out of observations
   * stands for polling forever.
   */
  method AwaitDone(polls: seq<PollResponse>) returns (outcome: PollOutcome)
    ensures outcome == PollUntilDone(polls)
  {
    var i := 0;
    AheadTwice(PollUntilDone(polls), 0, 0);
    assert polls[0..] == polls;
    while true
      invariant 0 <= i <= |polls|
      invariant PollUntilDone(polls) == Ahead(PollUntilDone(polls[i..]), i)
      decreases |polls| - i
    {
      PollStep(polls, i);
      if i == |polls| {
        return Pending(i);
      }
      if polls[i].PollError? {
        return QueryError(i + 1);
      }
      var operation := polls[i].op;
      AheadTwice(PollUntilDone(polls[i + 1..]), 1, i);
      i := i + 1;
      if operation.status == Done {
        return Finished(operation, i);
      }
    }
  }

  /** The first `n` observations were answered and none of them was DONE. */
  predicate NotDoneYet(polls: seq<PollResponse>, n: int)
  {
    0 <= n <= |polls| && forall k :: 0 <= k < n ==> polls[k].Polled? && polls[k].op.status != Done
  }

  /**
   * Polling finishes with the n-th observation iff it is the first DONE and every
   * earlier query succeeded; it fails at the n-th iff that is the first error before
   * any DONE; it is pending only when every observation is a non-DONE answer.
   */
  lemma {:induction false} PollUntilDoneExactly(polls: seq<PollResponse>)
    ensures var o := PollUntilDone(polls);
            (o.Finished? ==> 1 <= o.queries <= |polls| && NotDoneYet(polls, o.queries - 1) &&
                             polls[o.queries - 1] == Polled(o.op) && o.op.status == Done) &&
            (o.QueryError? ==> 1 <= o.queries <= |polls| && NotDoneYet(polls, o.queries - 1) &&
                               polls[o.queries - 1] == PollError) &&
            (o.Pending? ==> o.queries == |polls| && NotDoneYet(polls, |polls|))
    decreases |polls|
  {
    if polls != [] && polls[0].Polled? && polls[0].op.status != Done {
      PollUntilDoneExactly(polls[1..]);
      var o := PollUntilDone(polls[1..]);
      assert forall k :: 1 <= k <= o.queries ==> polls[k] == polls[1..][k - 1];
    }
  }

  /** Conversely, the first DONE observation is where polling finishes. */
  lemma {:induction false} FirstDoneFinishes(polls: seq<PollResponse>, n: nat)
    requires NotDoneYet(polls, n) && n < |polls| && polls[n].Polled? && polls[n].op.status == Done
    ensures PollUntilDone(polls) == Finished(polls[n].op, n + 1)
    decreases n
  {
    if n > 0 {
      assert NotDoneYet(polls[1..], n - 1) by {
        assert forall k :: 0 <= k < n - 1 ==> polls[1..][k] == polls[k + 1];
      }
      FirstDoneFinishes(polls[1..], n - 1);
    }
  }

  // ---------------------------------------------------------------- Jobs

  /** The outcome of one job; the last three stop the worker. */
  datatype JobOutcome =
    | Deleted(endpoint: Endpoint, queries: nat, targetLink: string)
    | IssueFailed
    | QueryFailed(endpoint: Endpoint, queries: nat)
    | Unfinished(endpoint: Endpoint, queries: nat)

  /** Issue the delete, choose the endpoint from its operation, then poll until DONE. */
  function RunJob(project: string, t: JobTranscript): JobOutcome
  {
    match t.issue
    case IssueError => IssueFailed
    case Issued(op) =>
      var e := OperationEndpoint(project, op);
      match PollUntilDone(t.polls)
      case Finished(last, n) => Deleted(e, n, last.targetLink)
      case QueryError(n) => QueryFailed(e, n)
      case Pending(n) => Unfinished(e, n)
  }

  /**
   * One job as a worker runs it: a failed delete call is fatal; otherwise the
   * endpoint is chosen from the returned operation (zone, then region, then
   * global) and queried until it reports DONE.
   */
  method PerformJob(project: string, t: JobTranscript) returns (outcome: JobOutcome)
    ensures outcome == RunJob(project, t)
  {
    if t.issue.IssueError? {
      return IssueFailed;
    }
    var deleteOperation := t.issue.op;
    var endpoint: Endpoint;
    if deleteOperation.zone != "" {
      endpoint := ZoneOperations(project, Naming.NameFromURL(deleteOperation.zone), deleteOperation.name);
    } else if deleteOperation.region != "" {
      endpoint := RegionOperations(project, Naming.NameFromURL(deleteOperation.region), deleteOperation.name);
    } else {
      endpoint := GlobalOperations(project, deleteOperation.name);
    }
    var polled := AwaitDone(t.polls);
    match polled {
      case Finished(operation, n) => outcome := Deleted(endpoint, n, operation.targetLink);
      case QueryError(n) => outcome := QueryFailed(endpoint, n);
      case Pending(n) => outcome := Unfinished(endpoint, n);
    }
  }

  /**
   * A job is deleted iff the delete call succeeded and some status query reported
   * DONE with no failed query before it; at least one query is made even when the
   * delete call's own operation already reads DONE, and the reported target link is
   * that of the DONE observation.
   */
  lemma RunJobDeleted(project: string, t: JobTranscript)
    ensures RunJob(project, t).Deleted? <==>
            t.issue.Issued? && exists n :: 0 <= n < |t.polls| && NotDoneYet(t.polls, n) &&
                                           t.polls[n].Polled? && t.polls[n].op.status == Done
    ensures RunJob(project, t).Deleted? ==>
            var o := RunJob(project, t);
            1 <= o.queries <= |t.polls| && o.endpoint == OperationEndpoint(project, t.issue.op) &&
            t.polls[o.queries - 1].Polled? && t.polls[o.queries - 1].op.status == Done &&
            t.polls[o.queries - 1].op.targetLink == o.targetLink
  {
    PollUntilDoneExactly(t.polls);
    if t.issue.Issued? {
      if n :| 0 <= n < |t.polls| && NotDoneYet(t.polls, n) && t.polls[n].Polled? && t.polls[n].op.status == Done {
        FirstDoneFinishes(t.polls, n);
      }
    }
  }

  /** A failed delete call or a failed status query is an error outcome, never a skipped job. */
  lemma RunJobErrors(project: string, t: JobTranscript)
    ensures t.issue.IssueError? ==> RunJob(project, t) == IssueFailed
    ensures t.issue.Issued? && t.polls != [] && t.polls[0].PollError? ==>
            RunJob(project, t) == QueryFailed(OperationEndpoint(project, t.issue.op), 1)
  {
  }

  // ---------------------------------------------------------------- The queue

  /** A queued deletion: the project its operation is polled in, and the delete request. */
  datatype Job = Job(project: string, call: DeleteCall)

  datatype Report = Report(job: Job, outcome: JobOutcome)

  /**
   * One worker draining the queue in FIFO order: the `k`-th job meets the `k`-th
   * transcript, and the first job that does not end in Deleted ends the run.
   */
  function Drain(jobs: seq<Job>, ts: seq<JobTranscript>): seq<Report>
    requires |ts| >= |jobs|
    decreases |jobs|
  {
    if jobs == [] then []
    else
      var o := RunJob(jobs[0].project, ts[0]);
      [Report(jobs[0], o)] + (if o.Deleted? then Drain(jobs[1..], ts[1..]) else [])
  }

  /**
   * The reports follow the queue: the `k`-th report is the `k`-th job run against
   * the `k`-th transcript, every report but the last is Deleted, and the queue is
   * drained completely unless the last report is not Deleted.
   */
  lemma {:induction false} DrainInOrder(jobs: seq<Job>, ts: seq<JobTranscript>)
    requires |ts| >= |jobs|
    ensures var r := Drain(jobs, ts);
            |r| <= |jobs| &&
            (forall k :: 0 <= k < |r| ==> r[k] == Report(jobs[k], RunJob(jobs[k].project, ts[k]))) &&
            (forall k :: 0 <= k < |r| - 1 ==> r[k].outcome.Deleted?) &&
            (|r| < |jobs| ==> r != [] && !r[|r| - 1].outcome.Deleted?) &&
            (jobs != [] ==> r != [])
    decreases |jobs|
  {
    if jobs != [] {
      DrainInOrder(jobs[1..], ts[1..]);
    }
  }

  /**
   * Conversely, the properties above pin the drain down: a report sequence that
   * follows the queue, has only Deleted reports before its last one, and ends either
   * with the whole queue or with a job that was not deleted, is the drain.
   */
  lemma DrainUnique(jobs: seq<Job>, ts: seq<JobTranscript>, reports: seq<Report>)
    requires |ts| >= |jobs| && |reports| <= |jobs|
    requires forall k :: 0 <= k < |reports| ==> reports[k] == Report(jobs[k], RunJob(jobs[k].project, ts[k]))
    requires forall k :: 0 <= k < |reports| - 1 ==> reports[k].outcome.Deleted?
    requires |reports| < |jobs| ==> reports != [] && !reports[|reports| - 1].outcome.Deleted?
    requires jobs != [] ==> reports != []
    ensures reports == Drain(jobs, ts)
  {
    DrainInOrder(jobs, ts);
  }

  /** The whole queue is deleted iff every job, run against its own transcript, is deleted. */
  lemma {:induction false} DrainCompletes(jobs: seq<Job>, ts: seq<JobTranscript>)
    requires |ts| >= |jobs|
    ensures (forall k :: 0 <= k < |jobs| ==> RunJob(jobs[k].project, ts[k]).Deleted?) <==>
            |Drain(jobs, ts)| == |jobs| && forall k :: 0 <= k < |jobs| ==> Drain(jobs, ts)[k].outcome.Deleted?
    decreases |jobs|
  {
    DrainInOrder(jobs, ts);
    if jobs != [] {
      DrainCompletes(jobs[1..], ts[1..]);
      DrainInOrder(jobs[1..], ts[1..]);
      if forall k :: 0 <= k < |jobs| ==> RunJob(jobs[k].project, ts[k]).Deleted? {
        assert RunJob(jobs[0].project, ts[0]).Deleted?;
        assert forall k :: 0 <= k < |jobs| - 1 ==> jobs[1..][k] == jobs[k + 1] && ts[1..][k] == ts[k + 1];
      }
    }
  }

  /** How a run of the deletion engine ends. */
  datatype EngineRun =
    | Completed(reports: seq<Report>)     // every worker stopped and the engine returned
    | Exited(reports: seq<Report>)        // a failed delete call or status query ended the process
    | StillPolling(reports: seq<Report>)  // a job's operation never reported DONE
    | Deadlocked                          // no worker to receive the first job
    | Panicked                            // a negative queue capacity

  /** The engine with `workers` workers over a queue holding `jobs`, scheduled one job at a time. */
  function Engine(workers: int, jobs: seq<Job>, ts: seq<JobTranscript>): EngineRun
    requires |ts| >= |jobs|
  {
    if workers < 0 then Panicked
    else if workers == 0 then (if jobs == [] then Completed([]) else Deadlocked)
    else
      var r := Drain(jobs, ts);
      if r == [] || r[|r| - 1].outcome.Deleted? then Completed(r)
      else if r[|r| - 1].outcome.Unfinished? then StillPolling(r)
      else Exited(r)
  }

  /**
   * The engine returns iff the capacity is valid and either the queue is empty or
   * there is a worker and every job is deleted; it then reports every job, in order.
   */
  lemma EngineCompletes(workers: int, jobs: seq<Job>, ts: seq<JobTranscript>)
    requires |ts| >= |jobs|
    ensures Engine(workers, jobs, ts).Completed? <==>
            workers >= 0 && (jobs == [] || (workers > 0 && forall k :: 0 <= k < |jobs| ==> RunJob(jobs[k].project, ts[k]).Deleted?))
    ensures Engine(workers, jobs, ts).Completed? ==>
            var r := Engine(workers, jobs, ts).reports;
            |r| == |jobs| && forall k :: 0 <= k < |r| ==> r[k].job == jobs[k] && r[k].outcome.Deleted?
    ensures Engine(workers, jobs, ts).Exited? ==>
            var r := Engine(workers, jobs, ts).reports;
            r != [] && (r[|r| - 1].outcome.IssueFailed? || r[|r| - 1].outcome.QueryFailed?)
  {
    DrainInOrder(jobs, ts);
    DrainCompletes(jobs, ts);
  }
}
