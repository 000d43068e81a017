/**
  A job and the worker's processing of one job: the job's load is slept off in
  slices of 0.1 simulated seconds, and a job still running once 10 seconds
  have passed is aborted with error code -1. Time is exact here (`real`), not
  IEEE double.
 */
module Jobs {

  /** A message in a worker's mailbox: a real job, or the "exit" sentinel. */
  datatype Job = Job(name: string, load: real)

  const EXIT_NAME := "exit"
  const SLICE: real := 0.1
  const CEILING: real := 10.0
  const SUCCESS_CODE: int := 0
  const TIMEOUT_CODE: int := -1
  /** Slices needed to reach the ceiling. */
  const MAX_SLICES: nat := 100

  /** The termination message the master sends, a job named "exit" with no load. */
  const ExitJob := Job(EXIT_NAME, 0.0)

  predicate IsExit(job: Job) {
    job.name == EXIT_NAME
  }

  /** The error code a job of this load ends with. */
  function Outcome(load: real): int {
    if load > CEILING then TIMEOUT_CODE else SUCCESS_CODE
  }

  /**
    The inner loop of `worker`: sleep `min(slice, remaining)` while `elapsed <
    load`, and give up with -1 when `elapsed` has reached 10 first. Returns
    the job's error code and the simulated time spent; the number of sleeps
    is ghost, there to bound the loop.
   */
  method ProcessJob(job: Job) returns (errorCode: int, elapsed: real, ghost slices: nat)
    ensures errorCode == Outcome(job.load)
    ensures job.load <= 0.0 ==> errorCode == SUCCESS_CODE && elapsed == 0.0 && slices == 0
    ensures 0.0 <= job.load <= CEILING ==> errorCode == SUCCESS_CODE && elapsed == job.load
    ensures job.load > CEILING ==> errorCode == TIMEOUT_CODE && elapsed == CEILING && slices == MAX_SLICES
    ensures 0.0 <= elapsed <= CEILING
    ensures job.load >= 0.0 ==> elapsed <= job.load
    ensures slices <= MAX_SLICES
    ensures slices > 0 ==> ((slices - 1) as real) * SLICE < elapsed <= (slices as real) * SLICE
  {
    errorCode := SUCCESS_CODE;
    elapsed := 0.0;
    slices := 0;
    while elapsed < job.load
      invariant slices <= MAX_SLICES
      invariant 0.0 <= elapsed <= (slices as real) * SLICE
      invariant slices > 0 ==> ((slices - 1) as real) * SLICE < elapsed
      invariant elapsed < job.load ==> elapsed == (slices as real) * SLICE
      invariant job.load >= 0.0 ==> elapsed <= job.load
      invariant job.load <= 0.0 ==> elapsed == 0.0 && slices == 0
      invariant errorCode == SUCCESS_CODE
      decreases MAX_SLICES - slices
    {
      if elapsed >= CEILING {
        errorCode := TIMEOUT_CODE;
        break;
      }
      var remaining := job.load - elapsed;
      var sleepTime := if remaining < SLICE then remaining else SLICE;
      elapsed := elapsed + sleepTime;
      slices := slices + 1;
    }
  }
}
