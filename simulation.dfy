/**
  A whole run: the master's sends, every worker draining its own mailbox into
  the shared counters, and the summary. Workers are run one after another;
  `AnyInterleavingSameCounts` shows that any other interleaving of their
  counter updates ends in the same counters.
 */
module Simulation {
  import opened Wrappers
  import opened MapSums
  import opened Jobs
  import opened Aggregation
  import opened Workers
  import opened Dispatch

  /** The counters after workers 0 .. k-1 have each drained their mailbox. */
  function RunWorkers(c: Counts, sends: seq<Send>, k: nat): Counts {
    if k == 0 then c else WorkerRun(RunWorkers(c, sends, k - 1), Inbox(sends, WorkerName(k - 1)))
  }

  /** The outcome codes of workers 0 .. k-1, worker by worker. */
  function AllOutcomes(sends: seq<Send>, k: nat): seq<int> {
    if k == 0 then [] else AllOutcomes(sends, k - 1) + OutcomeCodes(Received(Inbox(sends, WorkerName(k - 1))))
  }

  /** A worker processes exactly its round-robin share: the "exit" that follows is its last message. */
  lemma WorkerProcessesItsShare(numJobs: int, workers: nat, k: nat, rands: seq<int>)
    requires k < workers && JobCount(numJobs) <= |rands|
    ensures Received(Inbox(Plan(numJobs, workers, rands), WorkerName(k))) ==
      RoundRobinShare(JobCount(numJobs), workers, k, rands)
    ensures FirstExit(Inbox(Plan(numJobs, workers, rands), WorkerName(k))) ==
      ShareCount(JobCount(numJobs), workers, k)
  {
    var share := RoundRobinShare(JobCount(numJobs), workers, k, rands);
    RoundRobinInbox(numJobs, workers, k, rands);
    NoJobIsExit(JobCount(numJobs), workers, k, rands);
    ExitEndsTheWorker(share, ExitJob, []);
    assert share + [ExitJob] + [] == share + [ExitJob];
  }

  /** Counters that account for `total` jobs, with timeouts as the only error code. */
  ghost predicate Accounted(c: Counts, total: int) {
    && Total(c) == total
    && WellFormed(c)
    && forall key :: key in c.errors ==> key == TIMEOUT_CODE
  }

  /** What one worker adds to the counters: its share of jobs, and only timeouts as errors. */
  lemma WorkerStep(numJobs: int, workers: nat, k: nat, rands: seq<int>, before: Counts, total: int)
    requires k < workers && JobCount(numJobs) <= |rands|
    requires Accounted(before, total)
    ensures Accounted(WorkerRun(before, Inbox(Plan(numJobs, workers, rands), WorkerName(k))),
                      total + ShareCount(JobCount(numJobs), workers, k))
  {
    var inbox := Inbox(Plan(numJobs, workers, rands), WorkerName(k));
    WorkerProcessesItsShare(numJobs, workers, k, rands);
    WorkerCountsEachJobOnce(before, inbox);
    OutcomesAreSuccessOrTimeout(Received(inbox));
    TimeoutIsTheOnlyErrorKey(before, OutcomeCodes(Received(inbox)));
  }

  /** Workers 0 .. m-1 together account for exactly the jobs of their shares. */
  lemma {:induction false} RunAccountsForShares(numJobs: int, workers: nat, rands: seq<int>, m: nat)
    requires 0 < workers && m <= workers && JobCount(numJobs) <= |rands|
    ensures Accounted(RunWorkers(NoCounts, Plan(numJobs, workers, rands), m),
                      SharesBelow(JobCount(numJobs), workers, m))
    decreases m
  {
    if m == 0 {
      assert MapSum(NoCounts.errors) == 0;
    } else {
      var n := JobCount(numJobs);
      var sends := Plan(numJobs, workers, rands);
      var before := RunWorkers(NoCounts, sends, m - 1);
      RunAccountsForShares(numJobs, workers, rands, m - 1);
      WorkerStep(numJobs, workers, m - 1, rands, before, SharesBelow(n, workers, m - 1));
      assert RunWorkers(NoCounts, sends, m) == WorkerRun(before, Inbox(sends, WorkerName(m - 1)));
    }
  }

  /**
    Once every worker has exited, successes plus the histogram sum equal the
    number of jobs the master sent, and -1 is the only error code counted.
   */
  lemma EveryJobCountedOnce(numJobs: int, workers: nat, rands: seq<int>)
    requires 0 < workers && JobCount(numJobs) <= |rands|
    ensures var c := RunWorkers(NoCounts, Plan(numJobs, workers, rands), workers);
      && Total(c) == JobCount(numJobs)
      && WellFormed(c)
      && forall key :: key in c.errors ==> key == TIMEOUT_CODE
  {
    RunAccountsForShares(numJobs, workers, rands, workers);
    SharesAddUp(JobCount(numJobs), workers);
  }

  /** The summary of counters that account for `totalJobs` jobs with timeouts as the only errors. */
  lemma SummaryOfCompleteRun(totalJobs: int, c: Counts)
    requires WellFormed(c) && Total(c) == totalJobs
    requires forall key :: key in c.errors ==> key == TIMEOUT_CODE
    ensures Summarize(totalJobs, c).totalFailures == MapSum(c.errors) >= 0
    ensures Summarize(totalJobs, c).totalSuccess <= totalJobs
    ensures Summarize(totalJobs, c).details.Some? <==> TIMEOUT_CODE in c.errors
  {
    HistogramSumPositive(c);
    if c.errors != map[] {
      var k := NonEmptyHasKey(c.errors);
      assert k == TIMEOUT_CODE;
    }
  }

  /**
    The summary of the historical-errors scheduler, whose `total_jobs` is the
    `--n` value: for a non-negative count the failures it derives are exactly
    the timeouts in the histogram, and details are printed exactly when there
    was one. A negative `--n` sends no job and reports that negative number as
    the failure count, without details.
   */
  lemma HistoricalSummary(numJobs: int, rands: seq<int>)
    requires JobCount(numJobs) <= |rands|
    ensures var c := RunWorkers(NoCounts, Plan(numJobs, MAX_WORKERS, rands), MAX_WORKERS);
      var s := Summarize(numJobs, c);
      && (numJobs >= 0 ==>
            && s.totalFailures == MapSum(c.errors) >= 0
            && (s.details.Some? <==> TIMEOUT_CODE in c.errors))
      && (numJobs < 0 ==> s.totalSuccess == 0 && s.totalFailures == numJobs && s.details.None?)
  {
    var c := RunWorkers(NoCounts, Plan(numJobs, MAX_WORKERS, rands), MAX_WORKERS);
    EveryJobCountedOnce(numJobs, MAX_WORKERS, rands);
    if numJobs >= 0 {
      SummaryOfCompleteRun(numJobs, c);
    } else {
      HistogramSumPositive(c);
    }
  }

  /**
    The summary of the plain scheduler, with its fixed `total_jobs = 20`:
    failures are the timeouts in the histogram, never negative.
   */
  lemma FixedSummary(rands: seq<int>)
    requires FIXED_JOBS <= |rands|
    ensures var c := RunWorkers(NoCounts, Plan(FIXED_JOBS, FIXED_WORKERS, rands), FIXED_WORKERS);
      var s := Summarize(FIXED_JOBS, c);
      && s.totalFailures == MapSum(c.errors) >= 0
      && s.totalSuccess <= FIXED_JOBS
      && (s.details.Some? <==> TIMEOUT_CODE in c.errors)
  {
    var c := RunWorkers(NoCounts, Plan(FIXED_JOBS, FIXED_WORKERS, rands), FIXED_WORKERS);
    EveryJobCountedOnce(FIXED_JOBS, FIXED_WORKERS, rands);
    SummaryOfCompleteRun(FIXED_JOBS, c);
  }

  /** No job the master sends carries a load above the 10 s ceiling. */
  ghost predicate ShortLoads(numJobs: int, rands: seq<int>)
    requires JobCount(numJobs) <= |rands|
  {
    forall i :: 0 <= i < JobCount(numJobs) ==> JobLoad(rands[i]) <= CEILING
  }

  /** A worker whose share holds no load above the ceiling only adds successes. */
  lemma ShortJobsWorkerStep(numJobs: int, workers: nat, k: nat, rands: seq<int>, before: Counts)
    requires k < workers && JobCount(numJobs) <= |rands|
    requires ShortLoads(numJobs, rands)
    ensures WorkerRun(before, Inbox(Plan(numJobs, workers, rands), WorkerName(k))) ==
      before.(success := before.success + ShareCount(JobCount(numJobs), workers, k))
  {
    var jobs := Received(Inbox(Plan(numJobs, workers, rands), WorkerName(k)));
    WorkerProcessesItsShare(numJobs, workers, k, rands);
    OutcomeCodesLength(jobs);
    RecordAllSuccesses(before, OutcomeCodes(jobs));
  }

  lemma {:induction false} ShortJobsSucceedUpTo(numJobs: int, workers: nat, rands: seq<int>, m: nat)
    requires 0 < workers && m <= workers && JobCount(numJobs) <= |rands|
    requires ShortLoads(numJobs, rands)
    ensures RunWorkers(NoCounts, Plan(numJobs, workers, rands), m) ==
      Counts(SharesBelow(JobCount(numJobs), workers, m), map[])
    decreases m
  {
    if m > 0 {
      var n := JobCount(numJobs);
      var sends := Plan(numJobs, workers, rands);
      var before := RunWorkers(NoCounts, sends, m - 1);
      assert before == Counts(SharesBelow(n, workers, m - 1), map[]) by {
        ShortJobsSucceedUpTo(numJobs, workers, rands, m - 1);
      }
      assert WorkerRun(before, Inbox(sends, WorkerName(m - 1))) ==
        before.(success := before.success + ShareCount(n, workers, m - 1)) by {
        ShortJobsWorkerStep(numJobs, workers, m - 1, rands, before);
      }
    }
  }

  /** When no load exceeds the 10 s ceiling, every job succeeds and nothing is reported as failed. */
  lemma ShortJobsAllSucceed(numJobs: int, workers: nat, rands: seq<int>)
    requires 0 < workers && JobCount(numJobs) <= |rands|
    requires ShortLoads(numJobs, rands)
    ensures RunWorkers(NoCounts, Plan(numJobs, workers, rands), workers) == Counts(JobCount(numJobs), map[])
    ensures Summarize(JobCount(numJobs), RunWorkers(NoCounts, Plan(numJobs, workers, rands), workers)) ==
      Summary(JobCount(numJobs), JobCount(numJobs), 0, None)
  {
    ShortJobsSucceedUpTo(numJobs, workers, rands, workers);
    SharesAddUp(JobCount(numJobs), workers);
  }

  lemma {:induction false} RunWorkersRecordsAllOutcomes(c: Counts, sends: seq<Send>, k: nat)
    ensures RunWorkers(c, sends, k) == RecordAll(c, AllOutcomes(sends, k))
    decreases k
  {
    if k > 0 {
      RunWorkersRecordsAllOutcomes(c, sends, k - 1);
      RecordAllAppend(c, AllOutcomes(sends, k - 1), OutcomeCodes(Received(Inbox(sends, WorkerName(k - 1)))));
    }
  }

  /**
    The workers run concurrently and take turns on the counters in an order
    the simulator decides. Whatever that order, as long as it records the same
    outcomes, the final counters are those of running the workers one after
    another.
   */
  lemma AnyInterleavingSameCounts(sends: seq<Send>, workers: nat, trace: seq<int>)
    requires multiset(trace) == multiset(AllOutcomes(sends, workers))
    ensures RecordAll(NoCounts, trace) == RunWorkers(NoCounts, sends, workers)
  {
    RunWorkersRecordsAllOutcomes(NoCounts, sends, workers);
    RecordOrderIrrelevant(NoCounts, trace, AllOutcomes(sends, workers));
  }
}
