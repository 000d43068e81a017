/**
  The `master` actor: job i, named "job"+i with a load drawn from `rand()`, is
  put into mailbox "worker"+(i mod W); after all jobs, one "exit" message goes
  to each of worker0 .. worker(W-1) in order. The sends are modelled as the
  ordered list of (mailbox, message) pairs; a mailbox receives the messages
  addressed to it in send order.
 */
module Dispatch {
  import opened Decimal
  import opened Jobs

  /** `RAND_MAX` of the C library (glibc). */
  const RAND_MAX: int := 0x7fff_ffff

  /** `MAX_WORKERS` of the historical-errors scheduler. */
  const MAX_WORKERS: nat := 20

  /** The fixed run of the plain scheduler: 20 jobs over 10 workers. */
  const FIXED_JOBS: nat := 20
  const FIXED_WORKERS: nat := 10

  /** `1.0 + (rand() / RAND_MAX) * 14.0`, for the value `r` that `rand()` returned. */
  function JobLoad(r: int): real {
    1.0 + ((r as real) / (RAND_MAX as real)) * 14.0
  }

  function JobName(i: nat): (name: string)
    ensures name != EXIT_NAME
  {
    assert ("job" + NatToString(i))[0] == 'j';
    "job" + NatToString(i)
  }

  function WorkerName(k: nat): string {
    "worker" + NatToString(k)
  }

  /** One `Mailbox::by_name(mailbox)->put(job)`. */
  datatype Send = Send(mailbox: string, job: Job)

  /** The number of iterations of `for (int i = 0; i < n; i++)`. */
  function JobCount(n: int): nat {
    if n < 0 then 0 else n
  }

  /** The sends of the first loop after `i` iterations; `rands[i]` is the i-th `rand()` value. */
  function JobSends(i: nat, workers: nat, rands: seq<int>): seq<Send>
    requires workers > 0 && i <= |rands|
  {
    if i == 0 then []
    else
      JobSends(i - 1, workers, rands) +
      [Send(WorkerName((i - 1) % workers), Job(JobName(i - 1), JobLoad(rands[i - 1])))]
  }

  /** The sends of the second loop after `k` iterations. */
  function ExitSends(k: nat): seq<Send> {
    if k == 0 then [] else ExitSends(k - 1) + [Send(WorkerName(k - 1), ExitJob)]
  }

  /** Everything `master` sends, in order. */
  function Plan(numJobs: int, workers: nat, rands: seq<int>): seq<Send>
    requires workers > 0 && JobCount(numJobs) <= |rands|
  {
    JobSends(JobCount(numJobs), workers, rands) + ExitSends(workers)
  }

  /** The messages that reach mailbox `name`, in the order they were sent. */
  function Inbox(sends: seq<Send>, name: string): seq<Job>
    decreases |sends|
  {
    if sends == [] then []
    else
      var last := sends[|sends| - 1];
      Inbox(sends[..|sends| - 1], name) + (if last.mailbox == name then [last.job] else [])
  }

  /** How many of jobs 0 .. n-1 have index k modulo `workers`: ceil((n - k) / workers). */
  function ShareCount(n: nat, workers: nat, k: nat): nat
    requires k < workers
  {
    if n <= k then 0 else (n - k - 1) / workers + 1
  }

  /**
    The two loops of `master`, for any positive number of workers. The
    source's two masters are `MasterHistorical` and `MasterFixed` below.
   */
  method Master(numJobs: int, workers: nat, rands: seq<int>) returns (sends: seq<Send>)
    requires workers > 0 && JobCount(numJobs) <= |rands|
    ensures sends == Plan(numJobs, workers, rands)
  {
    sends := [];
    var i := 0;
    while i < numJobs
      invariant 0 <= i <= JobCount(numJobs)
      invariant sends == JobSends(i, workers, rands)
    {
      var job := Job(JobName(i), JobLoad(rands[i]));
      sends := sends + [Send(WorkerName(i % workers), job)];
      i := i + 1;
    }
    var k := 0;
    while k < workers
      invariant 0 <= k <= workers
      invariant sends == JobSends(JobCount(numJobs), workers, rands) + ExitSends(k)
    {
      sends := sends + [Send(WorkerName(k), ExitJob)];
      k := k + 1;
    }
  }

  /** `master(num_jobs)` of the historical-errors scheduler: round robin over `MAX_WORKERS` mailboxes. */
  method MasterHistorical(numJobs: int, rands: seq<int>) returns (sends: seq<Send>)
    requires JobCount(numJobs) <= |rands|
    ensures sends == Plan(numJobs, MAX_WORKERS, rands)
    ensures |sends| == JobCount(numJobs) + MAX_WORKERS
    ensures forall k :: 0 <= k < MAX_WORKERS ==>
      Inbox(sends, WorkerName(k)) == RoundRobinShare(JobCount(numJobs), MAX_WORKERS, k, rands) + [ExitJob]
  {
    sends := Master(numJobs, MAX_WORKERS, rands);
    PlanLength(numJobs, MAX_WORKERS, rands);
    forall k | 0 <= k < MAX_WORKERS
      ensures Inbox(sends, WorkerName(k)) == RoundRobinShare(JobCount(numJobs), MAX_WORKERS, k, rands) + [ExitJob]
    {
      RoundRobinInbox(numJobs, MAX_WORKERS, k, rands);
    }
  }

  /** `master()` of the plain scheduler: 20 jobs, worker k gets jobs k and k+10 and then "exit". */
  method MasterFixed(rands: seq<int>) returns (sends: seq<Send>)
    requires FIXED_JOBS <= |rands|
    ensures sends == Plan(FIXED_JOBS, FIXED_WORKERS, rands)
    ensures |sends| == FIXED_JOBS + FIXED_WORKERS
    ensures forall k :: 0 <= k < FIXED_WORKERS ==>
      Inbox(sends, WorkerName(k)) ==
        [Job(JobName(k), JobLoad(rands[k])), Job(JobName(k + 10), JobLoad(rands[k + 10])), ExitJob]
  {
    sends := Master(FIXED_JOBS, FIXED_WORKERS, rands);
    PlanLength(FIXED_JOBS, FIXED_WORKERS, rands);
    forall k | 0 <= k < FIXED_WORKERS
      ensures Inbox(sends, WorkerName(k)) ==
        [Job(JobName(k), JobLoad(rands[k])), Job(JobName(k + 10), JobLoad(rands[k + 10])), ExitJob]
    {
      RoundRobinInbox(FIXED_JOBS, FIXED_WORKERS, k, rands);
      FixedShare(k, rands);
    }
  }

  /** With 20 jobs over 10 workers, worker k's share is jobs k and k+10. */
  lemma FixedShare(k: nat, rands: seq<int>)
    requires k < FIXED_WORKERS && FIXED_JOBS <= |rands|
    ensures RoundRobinShare(FIXED_JOBS, FIXED_WORKERS, k, rands) ==
      [Job(JobName(k), JobLoad(rands[k])), Job(JobName(k + 10), JobLoad(rands[k + 10]))]
  {
    DivModUnique(19 - k, 10, 1, 9 - k);
    var share := RoundRobinShare(FIXED_JOBS, FIXED_WORKERS, k, rands);
    assert |share| == 2;
    assert Slot(k, 0, FIXED_WORKERS) == k && Slot(k, 1, FIXED_WORKERS) == k + 10;
  }

  // Names.

  lemma JobNamesDistinct(i: nat, j: nat)
    requires JobName(i) == JobName(j)
    ensures i == j
  {
    assert JobName(i)[3..] == NatToString(i);
    assert JobName(j)[3..] == NatToString(j);
    NatToStringInjective(i, j);
  }

  lemma WorkerNamesDistinct(a: nat, b: nat)
    ensures WorkerName(a) == WorkerName(b) <==> a == b
  {
    if WorkerName(a) == WorkerName(b) {
      assert WorkerName(a)[6..] == NatToString(a);
      assert WorkerName(b)[6..] == NatToString(b);
      NatToStringInjective(a, b);
    }
  }

  // Loads.

  /** Every load lies in [1.0, 15.0], both ends included, for `rand()` in [0, RAND_MAX]. */
  lemma LoadInRange(r: int)
    requires 0 <= r <= RAND_MAX
    ensures 1.0 <= JobLoad(r) <= 15.0
    ensures r == 0 ==> JobLoad(r) == 1.0
    ensures r == RAND_MAX ==> JobLoad(r) == 15.0
  {
    var f := (r as real) / (RAND_MAX as real);
    assert 0.0 <= f <= 1.0;
  }

  // Mailboxes.

  lemma {:induction false} InboxAppend(a: seq<Send>, b: seq<Send>, name: string)
    ensures Inbox(a + b, name) == Inbox(a, name) + Inbox(b, name)
    decreases |b|
  {
    if b == [] {
      assert a + b == a;
    } else {
      assert (a + b)[..|a + b| - 1] == a + b[..|b| - 1];
      InboxAppend(a, b[..|b| - 1], name);
    }
  }

  /** Every worker 0 .. k-1 gets exactly one "exit" from the second loop, and workers k and above get none. */
  lemma {:induction false} ExitSendsInbox(k: nat, w: nat)
    ensures Inbox(ExitSends(k), WorkerName(w)) == if w < k then [ExitJob] else []
    decreases k
  {
    if k > 0 {
      var sends, last := ExitSends(k), Send(WorkerName(k - 1), ExitJob);
      assert sends[..|sends| - 1] == ExitSends(k - 1) && sends[|sends| - 1] == last;
      assert Inbox(sends, WorkerName(w)) ==
        Inbox(ExitSends(k - 1), WorkerName(w)) + (if last.mailbox == WorkerName(w) then [ExitJob] else []);
      ExitSendsInbox(k - 1, w);
      WorkerNamesDistinct(k - 1, w);
    }
  }

  /** Index of the j-th job of worker k: k + j * workers. */
  function Slot(k: nat, j: nat, workers: nat): nat {
    k + j * workers
  }

  /** The jobs worker k receives from the first `n` jobs: k, k + workers, k + 2*workers, ... */
  function RoundRobinShare(n: nat, workers: nat, k: nat, rands: seq<int>): (share: seq<Job>)
    requires k < workers && n <= |rands|
    ensures |share| == ShareCount(n, workers, k)
    ensures forall j: nat :: j < |share| ==>
      Slot(k, j, workers) < n && share[j] == Job(JobName(Slot(k, j, workers)), JobLoad(rands[Slot(k, j, workers)]))
  {
    var count := ShareCount(n, workers, k);
    assert forall j: nat :: j < count ==> Slot(k, j, workers) < n by {
      forall j: nat | j < count ensures Slot(k, j, workers) < n {
        ShareIndexBound(n, workers, k, j);
      }
    }
    seq(count, (j: int) requires 0 <= j < count => Job(JobName(Slot(k, j, workers)), JobLoad(rands[Slot(k, j, workers)])))
  }

  lemma ShareIndexBound(n: nat, workers: nat, k: nat, j: nat)
    requires k < workers && j < ShareCount(n, workers, k)
    ensures Slot(k, j, workers) < n
  {
    var q := (n - k - 1) / workers;
    assert j <= q;
    MulMonotoneInt(j, q, workers);
    assert q * workers <= n - k - 1;
  }

  /**
    The first loop gives worker k exactly the jobs whose index is k modulo
    `workers`, in increasing order of index.
   */
  lemma {:induction false} JobSendsInbox(n: nat, workers: nat, k: nat, rands: seq<int>)
    requires k < workers && n <= |rands|
    ensures Inbox(JobSends(n, workers, rands), WorkerName(k)) == RoundRobinShare(n, workers, k, rands)
    decreases n
  {
    if n > 0 {
      var i := n - 1;
      JobSendsInbox(i, workers, k, rands);
      WorkerNamesDistinct(i % workers, k);
      ShareCountStep(i, workers, k);
      var prev, now := RoundRobinShare(i, workers, k, rands), RoundRobinShare(n, workers, k, rands);
      assert JobSends(n, workers, rands)[..|JobSends(n, workers, rands)| - 1] == JobSends(i, workers, rands);
      if i % workers == k {
        assert now == prev + [Job(JobName(i), JobLoad(rands[i]))];
      } else {
        assert now == prev;
      }
    }
  }

  /**
    Round robin: mailbox "worker"+k receives jobs k, k + W, k + 2W, ... below
    `numJobs`, ceil((numJobs - k) / W) of them, in increasing order, and then
    exactly one "exit", which comes last.
   */
  lemma RoundRobinInbox(numJobs: int, workers: nat, k: nat, rands: seq<int>)
    requires k < workers && JobCount(numJobs) <= |rands|
    ensures Inbox(Plan(numJobs, workers, rands), WorkerName(k)) ==
      RoundRobinShare(JobCount(numJobs), workers, k, rands) + [ExitJob]
  {
    InboxAppend(JobSends(JobCount(numJobs), workers, rands), ExitSends(workers), WorkerName(k));
    JobSendsInbox(JobCount(numJobs), workers, k, rands);
    ExitSendsInbox(workers, k);
  }

  lemma {:induction false} PlanLength(numJobs: int, workers: nat, rands: seq<int>)
    requires workers > 0 && JobCount(numJobs) <= |rands|
    ensures |Plan(numJobs, workers, rands)| == JobCount(numJobs) + workers
  {
    JobSendsLength(JobCount(numJobs), workers, rands);
    ExitSendsLength(workers);
  }

  lemma {:induction false} JobSendsLength(n: nat, workers: nat, rands: seq<int>)
    requires workers > 0 && n <= |rands|
    ensures |JobSends(n, workers, rands)| == n
    decreases n
  {
    if n > 0 {
      JobSendsLength(n - 1, workers, rands);
    }
  }

  lemma {:induction false} ExitSendsLength(k: nat)
    ensures |ExitSends(k)| == k
    decreases k
  {
    if k > 0 {
      ExitSendsLength(k - 1);
    }
  }

  /** No real job is mistaken for the "exit" sentinel. */
  lemma NoJobIsExit(n: nat, workers: nat, k: nat, rands: seq<int>)
    requires k < workers && n <= |rands|
    ensures forall j :: 0 <= j < |RoundRobinShare(n, workers, k, rands)| ==>
      !IsExit(RoundRobinShare(n, workers, k, rands)[j])
  {
  }

  // Arithmetic.

  lemma DivModUnique(a: int, d: int, q: int, r: int)
    requires d > 0 && 0 <= r < d && a == q * d + r
    ensures a / d == q && a % d == r
  {
    var q', r' := a / d, a % d;
    assert a == q' * d + r';
    if q' < q {
      MulMonotoneInt(q' + 1, q, d);
    } else if q' > q {
      MulMonotoneInt(q + 1, q', d);
    }
  }

  lemma MulMonotoneInt(a: int, b: int, c: nat)
    requires a <= b
    ensures a * c <= b * c
  {
    assert b * c - a * c == (b - a) * c;
  }

  /** Adding job n raises worker k's share by one exactly when n mod workers == k. */
  lemma ShareCountStep(n: nat, workers: nat, k: nat)
    requires k < workers
    ensures ShareCount(n + 1, workers, k) == ShareCount(n, workers, k) + (if n % workers == k then 1 else 0)
    ensures n % workers == k ==> k + ShareCount(n, workers, k) * workers == n
  {
    var q, r := n / workers, n % workers;
    assert n == q * workers + r;
    if n <= k {
      DivModUnique(n, workers, 0, n);
      if n == k {
        DivModUnique(0, workers, 0, 0);
      }
    } else if r == k {
      assert q >= 1;
      assert n - k - 1 == (q - 1) * workers + (workers - 1) by {
        assert (q - 1) * workers == q * workers - workers;
      }
      DivModUnique(n - k - 1, workers, q - 1, workers - 1);
      DivModUnique(n - k, workers, q, 0);
    } else if r > k {
      DivModUnique(n - k - 1, workers, q, r - k - 1);
      DivModUnique(n - k, workers, q, r - k);
    } else {
      assert q >= 1;
      assert (q - 1) * workers == q * workers - workers;
      DivModUnique(n - k - 1, workers, q - 1, workers + r - k - 1);
      DivModUnique(n - k, workers, q - 1, workers + r - k);
    }
  }

  /** The shares of workers 0 .. m-1. */
  function SharesBelow(n: nat, workers: nat, m: nat): nat
    requires m <= workers
  {
    if m == 0 then 0 else SharesBelow(n, workers, m - 1) + ShareCount(n, workers, m - 1)
  }

  lemma {:induction false} SharesBelowStep(n: nat, workers: nat, m: nat)
    requires 0 < workers && m <= workers
    ensures SharesBelow(n + 1, workers, m) == SharesBelow(n, workers, m) + (if n % workers < m then 1 else 0)
    decreases m
  {
    if m > 0 {
      SharesBelowStep(n, workers, m - 1);
      ShareCountStep(n, workers, m - 1);
    }
  }

  /** Round robin loses no job: the workers' shares add up to the number of jobs. */
  lemma {:induction false} SharesAddUp(n: nat, workers: nat)
    requires workers > 0
    ensures SharesBelow(n, workers, workers) == n
    decreases n
  {
    if n == 0 {
      NoSharesOfNoJobs(workers, workers);
    } else {
      SharesAddUp(n - 1, workers);
      SharesBelowStep(n - 1, workers, workers);
    }
  }

  lemma {:induction false} NoSharesOfNoJobs(workers: nat, m: nat)
    requires m <= workers
    ensures SharesBelow(0, workers, m) == 0
    decreases m
  {
    if m > 0 {
      NoSharesOfNoJobs(workers, m - 1);
    }
  }
}
