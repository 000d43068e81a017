/**
  The `worker` actor: it takes messages from its own mailbox one by one,
  stops at the first message named "exit" without counting it, and records
  the outcome of every other job in the shared counters. The mailbox is the
  sequence of messages that will ever arrive in it, in arrival order.
 */
module Workers {
  import opened Jobs
  import opened Aggregation

  /** Position of the first "exit" message, or the mailbox length if there is none. */
  function FirstExit(mailbox: seq<Job>): (n: nat)
    ensures n <= |mailbox|
    ensures forall i :: 0 <= i < n ==> !IsExit(mailbox[i])
    ensures n < |mailbox| ==> IsExit(mailbox[n])
  {
    if mailbox == [] || IsExit(mailbox[0]) then 0 else 1 + FirstExit(mailbox[1..])
  }

  /** The jobs a worker processes: everything before the first "exit". */
  function Received(mailbox: seq<Job>): seq<Job> {
    mailbox[..FirstExit(mailbox)]
  }

  /** The error codes the given jobs end with. */
  function OutcomeCodes(jobs: seq<Job>): seq<int>
    decreases |jobs|
  {
    if jobs == [] then [] else OutcomeCodes(jobs[..|jobs| - 1]) + [Outcome(jobs[|jobs| - 1].load)]
  }

  /** The counters after one worker has drained its mailbox. */
  function WorkerRun(c: Counts, mailbox: seq<Job>): Counts {
    RecordAll(c, OutcomeCodes(Received(mailbox)))
  }

  /**
    The `while (true)` loop of `worker`. Returns how many jobs were processed
    and whether an "exit" message ended the loop (without one, the worker
    would wait forever for its next message).
   */
  method RunWorker(mailbox: seq<Job>, agg: Aggregator) returns (processed: nat, exited: bool)
    modifies agg
    ensures processed == FirstExit(mailbox)
    ensures exited <==> exists i :: 0 <= i < |mailbox| && IsExit(mailbox[i])
    ensures agg.Value() == WorkerRun(old(agg.Value()), mailbox)
  {
    ghost var start := agg.Value();
    processed := 0;
    exited := false;
    while processed < |mailbox|
      invariant processed <= FirstExit(mailbox)
      invariant agg.Value() == RecordAll(start, OutcomeCodes(mailbox[..processed]))
    {
      var job := mailbox[processed];
      if IsExit(job) {
        assert processed == FirstExit(mailbox) && IsExit(mailbox[processed]);
        exited := true;
        break;
      }
      HandleJob(job, agg);
      ghost var done := mailbox[..processed + 1];
      assert done[..processed] == mailbox[..processed] && done[processed] == job;
      processed := processed + 1;
    }
    if !exited {
      assert processed == FirstExit(mailbox) == |mailbox|;
    }
    assert mailbox[..processed] == Received(mailbox);
  }

  /** One iteration of the worker for a job: run it, then record its outcome under the lock. */
  method HandleJob(job: Job, agg: Aggregator)
    modifies agg
    ensures agg.Value() == Record(old(agg.Value()), Outcome(job.load))
  {
    var errorCode, elapsed, slices := ProcessJob(job);
    agg.RecordOutcome(errorCode);
  }

  /** A worker counts exactly the jobs before the first "exit", each once. */
  lemma WorkerCountsEachJobOnce(c: Counts, mailbox: seq<Job>)
    ensures Total(WorkerRun(c, mailbox)) == Total(c) + FirstExit(mailbox)
    ensures WellFormed(c) ==> WellFormed(WorkerRun(c, mailbox))
  {
    OutcomeCodesLength(Received(mailbox));
    RecordAllCountsEach(c, OutcomeCodes(Received(mailbox)));
  }

  lemma {:induction false} OutcomeCodesLength(jobs: seq<Job>)
    ensures |OutcomeCodes(jobs)| == |jobs|
    ensures forall i :: 0 <= i < |jobs| ==> OutcomeCodes(jobs)[i] == Outcome(jobs[i].load)
    decreases |jobs|
  {
    if jobs != [] {
      OutcomeCodesLength(jobs[..|jobs| - 1]);
    }
  }

  /** The "exit" message is not counted and whatever follows it is never read. */
  lemma ExitEndsTheWorker(jobs: seq<Job>, exitMessage: Job, later: seq<Job>)
    requires forall i :: 0 <= i < |jobs| ==> !IsExit(jobs[i])
    requires IsExit(exitMessage)
    ensures Received(jobs + [exitMessage] + later) == jobs
  {
    var mailbox := jobs + [exitMessage] + later;
    assert mailbox[|jobs|] == exitMessage;
    assert mailbox[..|jobs|] == jobs;
  }

  /** A worker's outcomes are only successes and timeouts. */
  lemma OutcomesAreSuccessOrTimeout(jobs: seq<Job>)
    ensures forall i :: 0 <= i < |OutcomeCodes(jobs)| ==>
      OutcomeCodes(jobs)[i] == SUCCESS_CODE || OutcomeCodes(jobs)[i] == TIMEOUT_CODE
  {
    OutcomeCodesLength(jobs);
  }
}
