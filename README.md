# SimGrid job scheduler — a Dafny model

This project models two small SimGrid job schedulers.

- `simgrid_cluster_with_errors.cpp` is the plain one. A master actor sends 20 jobs
  round-robin to 10 worker mailboxes, then one `"exit"` message to each worker.
- `simgrid_cluster_with_historical_errors.cpp` is the command-line one. It parses
  `--input`, `--n`, `--queue` and `--mute`, picks one site's error table and its
  total weight, and sends `--n` jobs round-robin over 20 workers.

In both programs, each worker sleeps off every job's load in 0.1 s slices and
aborts any job still running after 10 s, with error code -1. It then adds the
outcome to a shared success counter or to an error-code histogram. At the end,
`main` prints a summary whose failure count is `total_jobs - total_success`.

The model has one module per part of the program:

- `Arguments`: the `argc < 5` guard and `parseArguments`. The token loop is an
  imperative method proved equal to a recursive specification. `Decimal` models
  the part of `std::stoi` that the parser relies on.
- `Jobs`: the per-job time-slice loop, using exact `real` time.
- `Workers`: the worker loop over its mailbox, which stops at the first `"exit"`.
- `Aggregation`: the shared counters as a class (`Aggregator`), the order-free
  closed form of the counters, and the printed summary.
- `Dispatch`: the master's two loops, as the ordered list of (mailbox, message)
  sends. Each mailbox's inbox is the projection of that list onto it.
- `Sites`: site selection and the `total_weight` loop.
- `Simulation`: whole-run lemmas. Every job sent is counted exactly once, and the
  summary's failures are exactly the timeouts.

## Model

| member | source | states |
|---|---|---|
| Arguments.ParseArguments | simgrid_cluster_with_historical_errors.cpp:44-88 | the argv loop and the checks after it return exactly the specified parse: token-loop errors first, then missing `--input`, `--n`, `--queue` in that order, then the `stoi` errors |
| Arguments.ParseCommandLine | simgrid_cluster_with_historical_errors.cpp:186-189 | fewer than 5 argv entries give the usage error before any parsing; otherwise the result is `parseArguments`' |
| Arguments.Validate | simgrid_cluster_with_historical_errors.cpp:66-87 | each "missing" error holds exactly when that key is absent and all earlier ones are present; `stoi`'s `invalid_argument` gives the invalid-value error and its `out_of_range` the out-of-range error, each exactly when all three keys are present; success holds exactly when all three keys are present and `--n` converts; a success carries the input, the queue, the converted `--n` within int range, and `muted` |
| Arguments.ScanAppend | simgrid_cluster_with_historical_errors.cpp:48-63 | the token loop over `a + b` continues on `b` from where `a` left the map and flag |
| Arguments.ValueFlagTakesNextToken | simgrid_cluster_with_historical_errors.cpp:55-61 | where a flag is expected (after a prefix that scans without error), `--input`/`--n`/`--queue` store the next token as their value, even when it is itself a flag, and scanning resumes after it |
| Arguments.MissingValueAtEnd | simgrid_cluster_with_historical_errors.cpp:55-58 | where a flag is expected (after a prefix that scans without error), a value flag as the last token fails with "Missing value for" that flag |
| Arguments.UnknownTokenIgnored | simgrid_cluster_with_historical_errors.cpp:48-63 | where a flag is expected (after a prefix that scans without error), a token that is no flag changes nothing: the scan with it equals the scan without it |
| Arguments.MutedDoesNotSteer | simgrid_cluster_with_historical_errors.cpp:50-53 | the `muted` flag never influences the map or the errors of the rest of the scan |
| Arguments.MuteConsumesNothing | simgrid_cluster_with_historical_errors.cpp:50-53 | inserting `--mute` where a flag is expected (after a prefix that scans without error) only sets `muted`; the map and any error are those of the line without it |
| Arguments.UnnamedKeyKeepsValue | simgrid_cluster_with_historical_errors.cpp:59-60 | a key that the later tokens never read as a flag (it may still appear as another flag's value) keeps its stored value to the end of the scan |
| Arguments.RepeatedFlagKeepsLastValue | simgrid_cluster_with_historical_errors.cpp:59-61 | a flag given several times ends with the value of its last occurrence as a flag; later appearances of its name as another flag's value do not count |
| Arguments.ScanAddsAtMostOneKeyPerTwoTokens | simgrid_cluster_with_historical_errors.cpp:55-62 | each stored key costs two tokens, so the map has at most half as many new keys as there are tokens |
| Arguments.ShortCommandLinesFail | simgrid_cluster_with_historical_errors.cpp:186-189 | every command line shorter than 7 entries fails to parse, so the `argc < 5` guard rejects nothing that `parseArguments` would accept |
| Decimal.Stoi | simgrid_cluster_with_historical_errors.cpp:79-85 | a successful conversion lies in the 32-bit `int` range |
| Decimal.StoiOfDecimal | simgrid_cluster_with_historical_errors.cpp:80 | the decimal text of any integer, optionally followed by a non-digit, converts back to that integer when it fits in an `int`, and is out of range otherwise |
| Decimal.StoiInvalidArgument | simgrid_cluster_with_historical_errors.cpp:79-82 | `invalid_argument` is thrown exactly when no digit follows the leading white space and the optional sign, so "x5", "+-3" and "- 5" are refused, and a leading digit is never refused as invalid |
| Decimal.StoiWithoutDigits | simgrid_cluster_with_historical_errors.cpp:81-82 | text with no digit at all is an invalid argument |
| Decimal.NatToString | simgrid_cluster_with_historical_errors.cpp:161 | `to_string` of a count is a non-empty run of digits |
| Decimal.DigitsValueOfNatToString | simgrid_cluster_with_historical_errors.cpp:161 | reading the digits of `to_string(n)` gives back `n` |
| Decimal.NatToStringInjective | simgrid_cluster_with_historical_errors.cpp:161 | different counts have different decimal texts |
| Jobs.ProcessJob | simgrid_cluster_with_historical_errors.cpp:113-128 | the code is -1 exactly when load > 10. A load in [0, 10] succeeds with elapsed == load, and a load of at most 0 succeeds with elapsed == 0 and no slice; a larger one is aborted at elapsed == 10 after exactly 100 slices. Elapsed lies in [0, 10] and never exceeds a non-negative load, and it lies within the last slice slept; the plain scheduler does the same at simgrid_cluster_with_errors.cpp:42-55 |
| Workers.FirstExit | simgrid_cluster_with_historical_errors.cpp:100-108 | the position it returns is the first `"exit"` message, or the mailbox length when there is none |
| Workers.RunWorker | simgrid_cluster_with_historical_errors.cpp:99-148 | the worker processes exactly the messages before the first `"exit"`, reports whether an `"exit"` came, and leaves the counters as the specified fold of those jobs' outcomes; the plain scheduler does the same at simgrid_cluster_with_errors.cpp:31-74 |
| Workers.HandleJob | simgrid_cluster_with_historical_errors.cpp:113-146 | one job adds its outcome (0 or -1, by its load) to the counters |
| Workers.ExitEndsTheWorker | simgrid_cluster_with_errors.cpp:32-38 | an `"exit"` after real jobs ends the loop: those jobs are processed, and neither the `"exit"` nor anything after it is |
| Workers.WorkerCountsEachJobOnce | simgrid_cluster_with_historical_errors.cpp:139-146 | a worker raises successes plus histogram sum by exactly the number of jobs before its `"exit"`, and keeps the counters well formed |
| Workers.OutcomeCodesLength | simgrid_cluster_with_historical_errors.cpp:113-128 | there is one outcome per processed job, and the i-th outcome is the timeout rule applied to the i-th job's load |
| Workers.OutcomesAreSuccessOrTimeout | simgrid_cluster_with_historical_errors.cpp:115-123 | 0 and -1 are the only outcomes a job can have |
| Aggregation.Aggregator.constructor | simgrid_cluster_with_historical_errors.cpp:23-24 | the counters start at zero with an empty histogram |
| Aggregation.Aggregator.RecordOutcome | simgrid_cluster_with_historical_errors.cpp:140-146 | code 0 increments the success counter; any other code increments its histogram entry, creating it at 1; successes plus histogram sum grow by one; the plain scheduler does the same at simgrid_cluster_with_errors.cpp:66-72 |
| Aggregation.Aggregator.Report | simgrid_cluster_with_historical_errors.cpp:278-290 | the report is the summary of the current counters, whose properties `Aggregation.Summarize` states |
| Aggregation.Summarize | simgrid_cluster_with_historical_errors.cpp:279-289 | successes plus failures equal the total; details are present exactly when failures are positive, and they are the histogram; the plain scheduler does the same at simgrid_cluster_with_errors.cpp:118-129 |
| Aggregation.RecordCountsOnce | simgrid_cluster_with_historical_errors.cpp:142-145 | one outcome lands in exactly one counter, raises successes plus histogram sum by one, and keeps the counters well formed |
| Aggregation.RecordAllCountsEach | simgrid_cluster_with_historical_errors.cpp:139-146 | recording n outcomes raises successes plus histogram sum by n and keeps the counters well formed |
| Aggregation.RecordAllAppend | simgrid_cluster_with_errors.cpp:66-72 | recording `a + b` is recording `a`, then `b` |
| Aggregation.RecordTally | simgrid_cluster_with_errors.cpp:66-72 | one more outcome moves the closed form of a multiset of outcomes to the closed form of the larger multiset |
| Aggregation.RecordAllIsTally | simgrid_cluster_with_errors.cpp:66-72 | the counters after a sequence of outcomes depend only on the multiset of those outcomes |
| Aggregation.RecordOrderIrrelevant | simgrid_cluster_with_errors.cpp:66-72 | any reordering of the same outcomes leaves the same counters |
| Aggregation.TimeoutIsTheOnlyErrorKey | simgrid_cluster_with_historical_errors.cpp:115-146 | when outcomes are only 0 and -1, -1 stays the only possible histogram key |
| Aggregation.RecordAllSuccesses | simgrid_cluster_with_historical_errors.cpp:142-143 | successes alone leave the histogram untouched and add their number to the success counter |
| Aggregation.HistogramSumPositive | simgrid_cluster_with_historical_errors.cpp:284-288 | a well-formed histogram has a non-negative sum, which is positive exactly when it has an entry |
| Aggregation.SummaryMatchesHistogram | simgrid_cluster_with_historical_errors.cpp:279-289 | when exactly `total_jobs` outcomes were recorded, the derived failures equal the histogram sum, are never negative, and details appear exactly when some outcome was not 0 |
| Dispatch.Master | simgrid_cluster_with_historical_errors.cpp:153-180 | the two send loops produce exactly the specified send list: the jobs in order, then one `"exit"` per worker |
| Dispatch.MasterHistorical | simgrid_cluster_with_historical_errors.cpp:153-180 | with 20 workers: max(N, 0) + 20 sends, and worker k's inbox is its round-robin share in increasing job order, followed by one `"exit"` |
| Dispatch.MasterFixed | simgrid_cluster_with_errors.cpp:78-99 | 30 sends, and worker k's inbox is exactly job k, job k+10, `"exit"` |
| Dispatch.FixedShare | simgrid_cluster_with_errors.cpp:80-87 | with 20 jobs over 10 workers, worker k's share is jobs k and k+10 |
| Dispatch.JobName | simgrid_cluster_with_historical_errors.cpp:161 | no job is named `"exit"` |
| Dispatch.JobNamesDistinct | simgrid_cluster_with_historical_errors.cpp:161 | different jobs have different names |
| Dispatch.WorkerNamesDistinct | simgrid_cluster_with_historical_errors.cpp:163 | two worker names are equal exactly when their indices are |
| Dispatch.LoadInRange | simgrid_cluster_with_historical_errors.cpp:160 | for `rand()` in [0, RAND_MAX] the load is in [1, 15], reaching 1 at 0 and 15 at RAND_MAX; the plain scheduler does the same at simgrid_cluster_with_errors.cpp:83 |
| Dispatch.InboxAppend | simgrid_cluster_with_historical_errors.cpp:164-175 | a mailbox receives what is sent to it in send order, so the inbox of a concatenation is the concatenation of the inboxes |
| Dispatch.ExitSendsInbox | simgrid_cluster_with_historical_errors.cpp:171-179 | the second loop gives workers 0 .. W-1 exactly one `"exit"` each, and no worker with index W or above any |
| Dispatch.RoundRobinShare | simgrid_cluster_with_historical_errors.cpp:158-164 | worker k's share has ceil((n-k)/W) jobs, and its j-th job is job k + j*W with that job's load |
| Dispatch.JobSendsInbox | simgrid_cluster_with_historical_errors.cpp:158-169 | the first loop delivers to worker k exactly its round-robin share, in increasing job order |
| Dispatch.RoundRobinInbox | simgrid_cluster_with_historical_errors.cpp:158-179 | every worker's inbox is its share followed by a single `"exit"`, which is therefore its last message |
| Dispatch.PlanLength | simgrid_cluster_with_historical_errors.cpp:158-179 | the master makes one send per job plus one per worker |
| Dispatch.NoJobIsExit | simgrid_cluster_with_historical_errors.cpp:161 | no job in any share is taken for the `"exit"` sentinel |
| Dispatch.ShareCountStep | simgrid_cluster_with_historical_errors.cpp:163 | adding job n enlarges exactly the share of worker n mod W, and places the job at that share's end |
| Dispatch.SharesAddUp | simgrid_cluster_with_historical_errors.cpp:158-169 | the workers' shares add up to the number of jobs: round robin loses and duplicates nothing |
| Sites.SelectSite | simgrid_cluster_with_historical_errors.cpp:228-235 | the copied map is the site's table when the queue is present, and empty (reported as not found) when it is absent |
| Sites.TotalWeight | simgrid_cluster_with_historical_errors.cpp:237-241 | the loop's total is the sum of all the counts |
| Sites.SiteWeight | simgrid_cluster_with_historical_errors.cpp:228-241 | an absent site weighs 0 and a present one the sum of its counts; with non-negative counts that sum is non-negative, and 0 exactly when every count is 0 |
| Simulation.WorkerProcessesItsShare | simgrid_cluster_with_historical_errors.cpp:99-108 | in a full run each worker processes exactly its round-robin share and stops at the `"exit"` behind it |
| Simulation.WorkerStep | simgrid_cluster_with_historical_errors.cpp:139-146 | one worker's run adds its share's size to successes plus histogram sum and keeps -1 the only error key |
| Simulation.RunAccountsForShares | simgrid_cluster_with_historical_errors.cpp:267-275 | after workers 0 .. m-1 have run, the counters account for exactly their shares |
| Simulation.EveryJobCountedOnce | simgrid_cluster_with_historical_errors.cpp:267-275 | after all workers exit, successes plus histogram sum equal the number of jobs sent, and -1 is the only error key |
| Simulation.SummaryOfCompleteRun | simgrid_cluster_with_historical_errors.cpp:278-290 | for counters covering all jobs, the failures are the histogram sum, never negative, and details appear exactly when there was a timeout |
| Simulation.HistoricalSummary | simgrid_cluster_with_historical_errors.cpp:278-290 | for `--n` >= 0, the failures are exactly the timeouts and details appear exactly when there was one; a negative `--n` sends nothing and reports `--n` itself as the failure count, without details |
| Simulation.FixedSummary | simgrid_cluster_with_errors.cpp:116-130 | with `total_jobs = 20`, the failures are the timeouts, never negative, and details appear exactly when there was one |
| Simulation.ShortJobsWorkerStep | simgrid_cluster_with_errors.cpp:42-72 | a worker whose loads are all at most 10 s adds only successes |
| Simulation.ShortJobsSucceedUpTo | simgrid_cluster_with_errors.cpp:105-114 | with no load above 10 s, workers 0 .. m-1 leave only successes, one per job of their shares |
| Simulation.ShortJobsAllSucceed | simgrid_cluster_with_errors.cpp:105-130 | with no load above 10 s, every job succeeds and the summary reports N successes, 0 failures and no details |
| Simulation.RunWorkersRecordsAllOutcomes | simgrid_cluster_with_errors.cpp:66-72 | running the workers one after another records all their outcomes in sequence |
| Simulation.AnyInterleavingSameCounts | simgrid_cluster_with_errors.cpp:66-72 | any interleaving of the workers' counter updates that records the same outcomes ends with the same counters |

Behaviour of the code worth noting:

- A load ranges over [1, 15], both ends included. It is exactly 15.0 when
  `rand()` returns `RAND_MAX`.
- A job whose load is exactly 10 s succeeds. The loop stops on `elapsed < load`
  before the `elapsed >= 10` check can fire.
- The -1 timeout is the only error code any job can get. The historical error
  table is read and weighed, but it never decides a job's outcome.
- An absent site does not stop the run. It leaves an empty code map of weight 0.
- `--n` may be zero or negative. A negative value sends no job, and the summary
  then reports a negative failure count.
- The termination message is an ordinary `Job` whose name is `"exit"`.

## Left out

- The SimGrid engine, `Mailbox`, `Actor::create`, `load_platform` and `Engine::run`. A mailbox is the sequence of messages that will arrive in it. `sleep_for` is adding to `elapsed`.
- Concurrency and `g_mutex`: workers run one after another. `Simulation.AnyInterleavingSameCounts` covers any other order of their counter updates.
- Jobs.ProcessJob: time is exact `real`, not IEEE `double`. In doubles, one hundred additions of 0.1 stay slightly below 10, so the real abort boundary is near 10.1 rather than 10.
- `rand()`, `random_device`, `mt19937` and `discrete_distribution`. The values `rand()` returns are a parameter (`rands`). The distribution built at simgrid_cluster_with_historical_errors.cpp:243-258 is never sampled.
- Reading and parsing the JSON file (simgrid_cluster_with_historical_errors.cpp:206-225). The model starts from the finished site → code → count table.
- Logging (`XBT_INFO`, `XBT_WARN`, the `muted` tests around them) and the text of every printed message, including the usage line. Only the kind of error is modelled.
- Decimal.Stoi: leading white space, an optional sign and the leading digits are modelled; locale is not. A value beyond `long` and a value beyond `int` both end in `out_of_range`, so the model checks the `int` range only.
- `int` overflow of `g_total_success`, of the histogram entries and of `total_weight`: counters are unbounded integers.
- Workers.RunWorker: a mailbox without `"exit"` would make the source wait forever. The model ends such a run with `exited` false.
- Deleting jobs and ownership of `Job*`: no job is shared, so values are used.
