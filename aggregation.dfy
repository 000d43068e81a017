/**
  The outcome counters `g_total_success` and `g_error_counts`, the update a
  worker makes for each finished job, and the summary `main` prints once the
  simulation is over.
 */
module Aggregation {
  import opened Wrappers
  import opened MapSums
  import opened Jobs

  /** The value of the two counters: successes, and error code -> occurrences. */
  datatype Counts = Counts(success: int, errors: map<int, int>)

  const NoCounts := Counts(0, map[])

  function Get(m: map<int, int>, k: int): int {
    if k in m then m[k] else 0
  }

  /** One finished job: `++g_total_success` for code 0, else `g_error_counts[code]++`. */
  function Record(c: Counts, code: int): Counts {
    if code == SUCCESS_CODE then c.(success := c.success + 1)
    else c.(errors := c.errors[code := Get(c.errors, code) + 1])
  }

  /** The counters after recording `codes` one by one, first to last. */
  function RecordAll(c: Counts, codes: seq<int>): Counts
    decreases |codes|
  {
    if codes == [] then c else Record(RecordAll(c, codes[..|codes| - 1]), codes[|codes| - 1])
  }

  /** Jobs accounted for: successes plus the sum of the histogram. */
  ghost function Total(c: Counts): int {
    c.success + MapSum(c.errors)
  }

  /** Counters as the workers leave them: no negative success count, no key for code 0, and a key only once it has been seen. */
  ghost predicate WellFormed(c: Counts) {
    c.success >= 0 && forall k :: k in c.errors ==> k != SUCCESS_CODE && c.errors[k] >= 1
  }

  /** Each job is counted exactly once, in exactly one of the two counters. */
  lemma RecordCountsOnce(c: Counts, code: int)
    ensures Total(Record(c, code)) == Total(c) + 1
    ensures WellFormed(c) ==> WellFormed(Record(c, code))
    ensures code == SUCCESS_CODE ==> Record(c, code).success == c.success + 1 && Record(c, code).errors == c.errors
    ensures code != SUCCESS_CODE ==>
      Record(c, code).success == c.success && Get(Record(c, code).errors, code) == Get(c.errors, code) + 1
  {
    if code != SUCCESS_CODE {
      MapSumUpdate(c.errors, code, Get(c.errors, code) + 1);
    }
  }

  lemma {:induction false} RecordAllCountsEach(c: Counts, codes: seq<int>)
    ensures Total(RecordAll(c, codes)) == Total(c) + |codes|
    ensures WellFormed(c) ==> WellFormed(RecordAll(c, codes))
    decreases |codes|
  {
    if codes != [] {
      RecordAllCountsEach(c, codes[..|codes| - 1]);
      RecordCountsOnce(RecordAll(c, codes[..|codes| - 1]), codes[|codes| - 1]);
    }
  }

  lemma {:induction false} RecordAllAppend(c: Counts, a: seq<int>, b: seq<int>)
    ensures RecordAll(c, a + b) == RecordAll(RecordAll(c, a), b)
    decreases |b|
  {
    if b == [] {
      assert a + b == a;
    } else {
      assert (a + b)[..|a + b| - 1] == a + b[..|b| - 1];
      RecordAllAppend(c, a, b[..|b| - 1]);
    }
  }

  /** The counters after recording a multiset of codes, in closed form. */
  function Tally(c: Counts, ms: multiset<int>): Counts {
    Counts(c.success + ms[SUCCESS_CODE],
           map k | k in c.errors.Keys + ErrorCodes(ms) ::
             Get(c.errors, k) + (if k == SUCCESS_CODE then 0 else ms[k]))
  }

  lemma RecordTally(c: Counts, ms: multiset<int>, x: int)
    ensures Record(Tally(c, ms), x) == Tally(c, ms + multiset{x})
  {
    if x == SUCCESS_CODE {
      TallySuccessErrors(c, ms);
    } else {
      TallyErrorErrors(c, ms, x);
    }
  }

  /** The codes other than success that occur in a multiset. */
  function ErrorCodes(ms: multiset<int>): set<int> {
    set y | y in ms && y != SUCCESS_CODE
  }

  lemma ErrorCodesAdd(ms: multiset<int>, x: int)
    ensures ErrorCodes(ms + multiset{x}) == ErrorCodes(ms) + (if x == SUCCESS_CODE then {} else {x})
  {
  }

  /** A success leaves the closed-form histogram as it was. */
  lemma TallySuccessErrors(c: Counts, ms: multiset<int>)
    ensures Tally(c, ms + multiset{SUCCESS_CODE}).errors == Tally(c, ms).errors
  {
    ErrorCodesAdd(ms, SUCCESS_CODE);
  }

  /** An error code adds one to its own entry of the closed-form histogram. */
  lemma TallyErrorErrors(c: Counts, ms: multiset<int>, x: int)
    requires x != SUCCESS_CODE
    ensures Tally(c, ms + multiset{x}).errors ==
      Tally(c, ms).errors[x := Get(Tally(c, ms).errors, x) + 1]
  {
    var ms' := ms + multiset{x};
    var before, after := Tally(c, ms).errors, Tally(c, ms').errors;
    ErrorCodesAdd(ms, x);
    assert after.Keys == before.Keys + {x};
    forall k | k in after.Keys
      ensures after[k] == before[x := Get(before, x) + 1][k]
    {
    }
  }

  /** Recording codes one at a time gives the closed form of their multiset. */
  lemma {:induction false} RecordAllIsTally(c: Counts, codes: seq<int>)
    ensures RecordAll(c, codes) == Tally(c, multiset(codes))
    decreases |codes|
  {
    if codes == [] {
      assert Tally(c, multiset{}).errors == c.errors;
    } else {
      var init, last := codes[..|codes| - 1], codes[|codes| - 1];
      RecordAllIsTally(c, init);
      RecordTally(c, multiset(init), last);
      assert codes == init + [last];
      assert multiset(codes) == multiset(init) + multiset{last};
    }
  }

  /**
    The counters are increments, so the order in which jobs finish does not
    matter: any reordering of the same outcomes leaves the same counters.
   */
  lemma RecordOrderIrrelevant(c: Counts, s: seq<int>, t: seq<int>)
    requires multiset(s) == multiset(t)
    ensures RecordAll(c, s) == RecordAll(c, t)
  {
    RecordAllIsTally(c, s);
    RecordAllIsTally(c, t);
  }

  /** If every outcome is success or timeout, -1 is the only key the histogram can get. */
  lemma {:induction false} TimeoutIsTheOnlyErrorKey(c: Counts, codes: seq<int>)
    requires forall k :: k in c.errors ==> k == TIMEOUT_CODE
    requires forall i :: 0 <= i < |codes| ==> codes[i] == SUCCESS_CODE || codes[i] == TIMEOUT_CODE
    ensures forall k :: k in RecordAll(c, codes).errors ==> k == TIMEOUT_CODE
    decreases |codes|
  {
    if codes != [] {
      TimeoutIsTheOnlyErrorKey(c, codes[..|codes| - 1]);
    }
  }

  /** Recording only successes leaves the histogram as it was. */
  lemma {:induction false} RecordAllSuccesses(c: Counts, codes: seq<int>)
    requires forall i :: 0 <= i < |codes| ==> codes[i] == SUCCESS_CODE
    ensures RecordAll(c, codes) == c.(success := c.success + |codes|)
    decreases |codes|
  {
    if codes != [] {
      RecordAllSuccesses(c, codes[..|codes| - 1]);
    }
  }

  /** In well-formed counters the histogram sums to more than zero exactly when it has an entry. */
  lemma HistogramSumPositive(c: Counts)
    requires WellFormed(c)
    ensures MapSum(c.errors) >= 0
    ensures MapSum(c.errors) > 0 <==> c.errors != map[]
  {
    assert forall k :: k in c.errors ==> c.errors[k] >= 1;
    MapSumPositive(c.errors);
  }

  /** The printed summary; failure details are there only when failures are positive. */
  datatype Summary = Summary(totalJobs: int, totalSuccess: int, totalFailures: int, details: Option<map<int, int>>)

  /** The summary `main` prints for `total_jobs` and the final counters. */
  function Summarize(totalJobs: int, c: Counts): (s: Summary)
    ensures s.totalJobs == totalJobs && s.totalSuccess == c.success
    ensures s.totalSuccess + s.totalFailures == totalJobs
    ensures s.details.Some? <==> s.totalFailures > 0
    ensures s.details.Some? ==> s.details.value == c.errors
  {
    var failures := totalJobs - c.success;
    Summary(totalJobs, c.success, failures, if failures > 0 then Some(c.errors) else None)
  }

  /**
    When exactly `total_jobs` outcomes were recorded, the derived failure count
    equals the sum of the histogram, so it is never negative, and details are
    printed exactly when some job failed.
   */
  lemma SummaryMatchesHistogram(totalJobs: int, codes: seq<int>)
    requires |codes| == totalJobs
    ensures Summarize(totalJobs, RecordAll(NoCounts, codes)).totalFailures ==
      MapSum(RecordAll(NoCounts, codes).errors)
    ensures Summarize(totalJobs, RecordAll(NoCounts, codes)).totalFailures >= 0
    ensures Summarize(totalJobs, RecordAll(NoCounts, codes)).details.Some? <==>
      exists i :: 0 <= i < |codes| && codes[i] != SUCCESS_CODE
  {
    var c := RecordAll(NoCounts, codes);
    assert MapSum(NoCounts.errors) == 0;
    assert WellFormed(NoCounts);
    RecordAllCountsEach(NoCounts, codes);
    assert WellFormed(c);
    assert forall k :: k in c.errors ==> c.errors[k] >= 0;
    MapSumNonNegative(c.errors);
    RecordAllIsTally(NoCounts, codes);
    if exists i :: 0 <= i < |codes| && codes[i] != SUCCESS_CODE {
      var i :| 0 <= i < |codes| && codes[i] != SUCCESS_CODE;
      assert codes[i] in multiset(codes);
      assert codes[i] in c.errors;
      MapSumRemove(c.errors, codes[i]);
      MapSumNonNegative(c.errors - {codes[i]});
    } else {
      assert forall x :: x in multiset(codes) ==> x == SUCCESS_CODE;
      assert c.errors == map[];
    }
  }

  /** The shared counters, updated under `g_mutex` in the source; here one update at a time. */
  class Aggregator {
    var totalSuccess: int
    var errorCounts: map<int, int>

    function Value(): Counts
      reads this
    {
      Counts(totalSuccess, errorCounts)
    }

    constructor ()
      ensures Value() == NoCounts
    {
      totalSuccess := 0;
      errorCounts := map[];
    }

    /** The worker's critical section after a job. */
    method RecordOutcome(code: int)
      modifies this
      ensures Value() == Record(old(Value()), code)
      ensures Total(Value()) == Total(old(Value())) + 1
    {
      RecordCountsOnce(Value(), code);
      if code == SUCCESS_CODE {
        totalSuccess := totalSuccess + 1;
      } else {
        errorCounts := errorCounts[code := Get(errorCounts, code) + 1];
      }
    }

    /** The "Simulation Summary" block of `main`. */
    method Report(totalJobs: int) returns (s: Summary)
      ensures s == Summarize(totalJobs, Value())
    {
      s := Summarize(totalJobs, Value());
    }
  }
}
