# perfo core: metrics recorder and throttler, in Dafny

This project models the two state machines at the heart of the perfo
micro-benchmarking harness:

- the **metrics recorder** (`src/metrics.js`): global and per-window
  accumulators (success and failure counts, byte totals, latency sum and
  maximum, the append-only list of latency samples), the window flush in
  `endRecording`, completion detection and reset in `logMetricsIfDone`, and
  the nearest-rank percentile estimator `getPercentiles`;
- the **throttler** (`src/throttler.js`): the sleep unit derived by `init`,
  the rate test `shouldThrottle`, and `throttle`, which accumulates a sleep
  deficit and, once it reaches 2 ms, runs a compensating sleep loop, zeroes
  the deficit and counts one throttle event.

Both are immutable records (`Metrics.MetricsState`,
`Throttler.ThrottlerState`) with pure transition functions. Every
`Date.now()` is an explicit `nowMs` argument. The `nanoNow()` readings of a
compensating sleep are a supplied sequence: the first reading is taken
before the loop, the rest after each sleep. If those readings run out while
time is still owed, the call is `Suspended`, meaning its last sleep has not
returned yet. Module variables that stay `undefined` until `init` are
`Option`s. Before `init`, every JavaScript comparison on them is false, so no
window flush, no completion and no throttling happen, and the model does the
same.

Modules, one concept each:

- `Wrappers`: `Option`.
- `Sorting`: the ascending numeric sort used by `getPercentiles`. Every
  sorted permutation is the same sequence, so insertion sort stands in for
  `Array.prototype.sort`.
- `Percentiles`: rank index, lookup, and the nearest-rank characterisation.
- `Metrics`: the recorder's state and its operations.
- `MetricsRun`: sequences of completions as the driver in `src/index.js`
  feeds them, with `endRecording` then `logMetricsIfDone` per completion.
- `Throttler`: the throttler's state, its operations, and runs of
  `throttle` calls.

Behaviours of the code worth noting:

- Throttling is disabled only by a negative target (`src/throttler.js:23`).
  A target of exactly 0 gives the sleep unit `LONG_MAX`, which is 1,000,000
  ns, i.e. 1 ms. Every positive index is then throttled
  (`Throttler.ZeroTargetThrottles`, `Throttler.ZeroTargetSleeps`).
- `reset` does not clear the samples. Because `getPercentiles` sorts them in
  place, a completed run leaves them sorted. A later run's percentiles index
  into this array, which still holds the earlier run's samples
  (`MetricsRun.SamplesSurviveCompletion`).
- `init` resets neither the recorder's counters nor the throttler's deficit
  and count. It only configures the run.
- The option is `reportingProgressFrequency`. Because it is read with `||`,
  a value of 0 also falls back to 5000.
- A window is flushed at most once per `endRecording` call, and only
  inside such a call. If several report intervals pass between two calls,
  one report covers all of them (`Metrics.EndRecordingWindow`).
- A percentile index is checked against the length of the whole sample
  array, not against `size`. An index past the end reads `undefined`
  (`None`).

## Model

| member | source | states |
|---|---|---|
| Sorting.Sort | src/metrics.js:79 | the result is sorted ascending and is a permutation (same multiset) of the samples |
| Sorting.SortedPermutationUnique | src/metrics.js:79 | any two sorted orderings of the same samples are equal, so the sort's result does not depend on the algorithm |
| Percentiles.SampleSize | src/metrics.js:78 | `size` is the minimum of the execution count and the number of samples |
| Percentiles.GetPercentiles | src/metrics.js:77-86 | returns one result per fraction and leaves behind the samples sorted, as the same multiset |
| Percentiles.RankIndex | src/metrics.js:82 | `Math.floor(f * size)` in exact arithmetic: the index `r` satisfies `r <= f * size < r + 1` |
| Percentiles.Pick | src/metrics.js:83 | no contract of its own; `latencies[perIndex]`, `None` past the end of the whole array; described by Percentiles.NearestRank and Percentiles.PercentilesMonotone |
| Percentiles.RankIndexBelowSize | src/metrics.js:82 | for a fraction below 1 and size > 0, `floor(f * size) < size` |
| Percentiles.RankIndexMonotone | src/metrics.js:82 | a larger fraction never gives a smaller index |
| Percentiles.NearestRank | src/metrics.js:77-86 | for f < 1 and at least one counted sample, the result is defined, is one of the samples, and has at most `index` samples strictly below it and more than `index` at or below it |
| Percentiles.PercentilesMonotone | src/metrics.js:77-86 | a larger fraction never yields a smaller percentile, and is defined only if the smaller one is |
| Percentiles.EventPercentilesOrdered | src/metrics.js:93-97 | P95 <= P99 <= P99.9, and all three are defined and drawn from the samples once a success was recorded |
| Percentiles.TenSampleExample | src/metrics.js:77-86 | for samples 10, 20, ..., 100, P95 reads index 9, the value 100 |
| Metrics.OrElse | src/metrics.js:24-25 | `x || fallback`: a missing value or 0 gives the fallback, any other value is kept |
| Metrics.Init | src/metrics.js:20-26 | sets the payload size (default 0), the report frequency (default 5000), the expected count, and both run start and window start to now; samples, counters and window accumulators are unchanged |
| Metrics.CreateNewPerfWindow | src/metrics.js:42-48 | the window restarts at now with count, maximum, latency total and bytes at 0; run-wide totals are untouched |
| Metrics.Accumulate | src/metrics.js:57-69 | no contract of its own; the accumulator updates of `endRecording` before its flush test; described by Metrics.EndRecordingSuccess and Metrics.EndRecordingFailure |
| Metrics.EndRecording | src/metrics.js:56-75 | no contract of its own; `endRecording` with its window flush; described by Metrics.EndRecordingSuccess, Metrics.EndRecordingFailure and Metrics.EndRecordingWindow, and over sequences of calls by the MetricsRun.EndRecordingAll lemmas |
| Metrics.LogMetricsIfDone | src/metrics.js:119-128 | no contract of its own; `logMetricsIfDone` with `logPerformanceStats` and `reset`; described by Metrics.LogMetricsIfDoneOutcome and, over runs, MetricsRun.DriveReportsOnce |
| Metrics.Reset | src/metrics.js:111-117 | zeroes the success and failure counts, bytes, latency total and maximum; the samples, the window and the settings are untouched |
| Metrics.EndRecordingSuccess | src/metrics.js:57-65 | a success adds one success, adds the latency to both totals, folds it into both maxima, appends it to the samples, and adds the payload to both byte totals |
| Metrics.EndRecordingFailure | src/metrics.js:66-69 | a failure adds only one failure and one window execution, whatever latency is passed |
| Metrics.EndRecordingWindow | src/metrics.js:69-74 | a window report is emitted exactly when `now - windowStart >= frequency`; its count, latency total, maximum and bytes include this call, and the window then restarts at now with zeroed accumulators; otherwise the window only grows |
| Metrics.LogMetricsIfDoneOutcome | src/metrics.js:119-128 | reports and resets exactly when successes plus failures equal the expected count, and otherwise changes nothing; the report carries the totals, the elapsed time, the percentiles, the throttle count and, exactly when some failed, a failure notice holding the failure count; samples stay (sorted, same multiset), and the window, the settings and the payload size are kept |
| MetricsRun.EndRecordingAllCounts | src/metrics.js:56-69 | over any sequence of calls, successes grow by the number of successes and successes plus failures by the number of calls |
| MetricsRun.EndRecordingAllLatencies | src/metrics.js:57-65 | over any sequence of calls, the samples grow by the successful latencies in order, the total by their sum and the maximum by their maximum |
| MetricsRun.EndRecordingAllBytes | src/metrics.js:59 | over any sequence of calls, the bytes grow by one payload per success |
| MetricsRun.EndRecordingAllWindow | src/metrics.js:62-69 | within one window, the window count, latency total, maximum and bytes follow the same definitions over the calls since the window started |
| MetricsRun.MaxFromIsMaximum | src/metrics.js:61 | the folded `Math.max` is at least its start and every element, and equals the start or one of the elements |
| MetricsRun.MaxLatencySinceReset | src/metrics.js:56-65 | after a reset, `maxLatency` is the largest successful latency recorded since, or 0 if there was none |
| MetricsRun.DriveReportsOnce | src/metrics.js:119-128 | reaching the expected count emits exactly one final report, covering all expected executions, and brings the counters back to 0; before that there is no report and the count equals the calls handled |
| MetricsRun.DriveNeverReports | src/metrics.js:119-121 | a recorder that was never initialised, or whose count has reached or passed the expected one, never reports, and its count grows by one per completion |
| MetricsRun.ThreeSuccessScenario | src/metrics.js:88-109 | three successes of 5, 10 and 15 ms with an expected count of 3 give one report: 3 executions, total 30 (average 10), maximum 15, P95 = P99 = P99.9 = 15, and throttle count 0 read from a throttler initialised with target -1 after any run of calls |
| MetricsRun.SamplesSurviveCompletion | src/metrics.js:111-117 | after a completed run, the samples are kept sorted, including the last one |
| Throttler.SleepTimeNs | src/throttler.js:18 | the sleep unit is 1e9 / target for a positive target and 1,000,000 ns otherwise, so it is always positive |
| Throttler.Init | src/throttler.js:15-19 | records the start time, the target and the sleep unit; the deficit and the count are kept, and the invariant is preserved |
| Throttler.ShouldThrottle | src/throttler.js:21-29 | no contract of its own; `shouldThrottle`; described by Throttler.ShouldThrottleIff and Throttler.ZeroTargetThrottles |
| Throttler.ShouldThrottleIff | src/throttler.js:21-29 | true exactly when initialised with a target >= 0, time has passed, and `1000 * index > target * elapsedMs`; never true for index <= 0 |
| Throttler.ZeroTargetThrottles | src/throttler.js:23-28 | with target 0, throttling happens exactly when time has passed and index > 0 |
| Throttler.SleepLoop | src/throttler.js:41-48 | no contract of its own; the compensating sleep loop over supplied clock readings; described by Throttler.SleepLoopExit and Throttler.SleepRequestsShrink |
| Throttler.SleepLoopExit | src/throttler.js:41-48 | the loop first asks for the whole deficit, then for what remains after each reading; every request is positive; it exits at the first reading whose elapsed time reaches the deficit and at no earlier one |
| Throttler.SleepRequestsShrink | src/throttler.js:43-48 | with a clock that never goes back, each sleep request is at most the previous one |
| Throttler.Throttle | src/throttler.js:33-52 | no contract of its own; `throttle`; described by Throttler.ThrottleNoOp, Throttler.ThrottleCarriesDeficit, Throttler.ThrottleSleepsOffDeficit and Throttler.ThrottlePreservesValid |
| Throttler.GetThrottleCount | src/throttler.js:54 | no contract of its own; `getThrottleCount`; described by Throttler.ThrottleAllInvariant and Throttler.DisabledNeverCounts |
| Throttler.ThrottleNoOp | src/throttler.js:34-36 | without throttling, the state is unchanged and nothing sleeps |
| Throttler.ThrottleCarriesDeficit | src/throttler.js:37-40 | below the 2 ms threshold, the deficit grows by exactly one sleep unit, with no sleep and no count |
| Throttler.ThrottleSleepsOffDeficit | src/throttler.js:40-51 | at or above 2 ms, the call returns only once a reading shows the whole deficit elapsed; the deficit is then exactly 0 and the count has grown by 1 |
| Throttler.ThrottlePreservesValid | src/throttler.js:33-52 | every returned call keeps `0 <= deficit < 2 ms` and the count grows by at most 1 |
| Throttler.ThrottleAllInvariant | src/throttler.js:33-52 | over a run of calls, the invariant holds after each returned call; the count is non-decreasing and grows by at most one per call; a disabled throttler changes nothing |
| Throttler.DisabledNeverCounts | src/throttler.js:23-54 | with a negative target, `getThrottleCount` stays 0 for the whole run |
| Throttler.ZeroTargetSleeps | src/throttler.js:18-51 | with target 0, two 1 ms units reach the 2 ms threshold and one sleep is counted |

## Left out

- Log text and the floating-point report figures are not modelled. This
  covers records/sec, MB/sec, `toFixed` and averages. Reports are records
  of the raw integers they are formatted from (`WindowReport`,
  `FinalReport`). `src/utils/logger.js` is not part of this model.
- Real clocks and timers are not modelled: `Date.now`, `nano-time` and
  `setTimeout`. A sleep appears only as the duration it requests. Whether
  the timer honours that duration is left to the clock readings supplied
  after it.
- Each `Date.now()` reading within one synchronous call is collapsed into
  one `nowMs`. This covers the two readings of `init` and the up to three
  readings of a flushing `endRecording`.
- `src/index.js` is not modelled beyond the pairing of `endRecording` and
  `logMetricsIfDone` in `MetricsRun.Handle`. Its unawaited callbacks let
  completions arrive out of order. `MetricsRun` takes completions in the
  order they are recorded, so it has no concurrency.
- `example/e2e-test.js` is not part of this model.
- Percentiles.RankIndex: computes `floor(f * size)` in exact arithmetic
  for the fractions 95/100, 99/100 and 999/1000. For these three fractions
  this is the same index as JavaScript's `Math.floor` of the double product
  for every size below 10^12. The doubles nearest 0.95, 0.99 and 0.999 are
  within half an ulp of every integer product, so an integer product comes
  back exact. A product that is not an integer lies at least 1/1000 from
  one, and the rounding error stays far below that. Larger sizes are not
  covered by this argument.
- Throttler.SleepTimeNs: uses exact real division. JavaScript's
  `1e9 / target` rounds, and so does each addition to the deficit. For
  target 3000, six units of 1e9/3000 add up in doubles to
  1999999.9999999998, below 2e6, so JavaScript carries the deficit and
  sleeps on the 7th throttled call. The model reaches 2e6 exactly and sleeps
  on the 6th. Targets that are not numbers (`undefined` after a
  missing argument, NaN) are not modelled. `nano-time` returns strings,
  which the subtraction coerces to numbers; that coercion is not modelled.
- Throttler.ShouldThrottleIff: states the rate test of
  `src/throttler.js:28` over exact reals, as `1000 * index > target *
  elapsedMs`. JavaScript computes `index / (elapsed / 1000)` in doubles, and
  that can round across the boundary. For `init(15, 0)` and index 21 at
  `Date.now()` = 1400, `1400 / 1000` is just below 1.4 and `21 / 1.4`
  evaluates to 15.000000000000002. JavaScript therefore throttles, while
  the model's exact 15 > 15 does not.
- Throttler.ThrottleCarriesDeficit, Throttler.ThrottleSleepsOffDeficit:
  decide the 2 ms threshold on the exact deficit, so at the boundary they
  can sleep one call earlier or later than JavaScript, as the target 3000
  case above shows.
- The long-run rate convergence of the throttler is not stated. It depends
  on how timers overshoot, which is outside this model.
- Calling `throttle` or `endRecording` before `init` is not flagged as an
  error. The model does what the code does: nothing fires.
- MetricsRun.MaxLatencySinceReset: assumes non-negative latencies. For
  arbitrary latencies the maximum is taken together with the starting 0, as
  `MetricsRun.MaxFromIsMaximum` states.
