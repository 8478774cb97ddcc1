/** The metrics recorder of src/metrics.js as an immutable state record with
    pure transitions. Every `Date.now()` reading is an explicit `nowMs`
    argument; the log lines become report records carrying the raw figures
    they are formatted from. */
module Metrics {
  import opened Wrappers
  import opened Sorting
  import opened Percentiles

  const DefaultReportFrequencyMs: int := 5000

  /** The options object of `init`; a missing key is `None`. */
  datatype Options = Options(payloadSize: Option<int>, reportingProgressFrequency: Option<int>)

  /** The module variables that stay `undefined` until `init` runs. */
  datatype Settings = Settings(runStartMs: int, expectedExecutionCount: int, reportFrequencyMs: int)

  datatype MetricsState = MetricsState(
    settings: Option<Settings>,
    latencies: seq<int>,
    successCount: nat,
    failedCount: nat,
    bytes: int,
    maxLatency: int,
    bytesPerExecution: int,
    totalLatency: int,
    windowStart: int,
    windowCount: nat,
    windowMaxLatency: int,
    windowTotalLatency: int,
    windowBytes: int)

  /** The module state when src/metrics.js is loaded. `windowStart` is
      undefined there; its value here is never read before `init`. */
  const Fresh: MetricsState := MetricsState(None, [], 0, 0, 0, 0, 0, 0, 0, 0, 0, 0, 0)

  /** What a window report is formatted from. */
  datatype WindowReport = WindowReport(
    executions: nat, totalLatency: int, maxLatency: int, bytes: int, elapsedMs: int)

  /** What the final report is formatted from; `failedNotice` is the
      separate "failed to publish" line, emitted only when some failed. */
  datatype FinalReport = FinalReport(
    totalExecutions: nat,
    failedNotice: Option<nat>,
    bytes: int,
    totalLatency: int,
    maxLatency: int,
    elapsedMs: int,
    percentiles: seq<Option<int>>,
    throttleCount: nat)

  datatype Recorded = Recorded(state: MetricsState, report: Option<WindowReport>)

  datatype Logged = Logged(state: MetricsState, report: Option<FinalReport>)

  function Max(a: int, b: int): (r: int)
    ensures r >= a && r >= b && (r == a || r == b)
  {
    if a >= b then a else b
  }

  /** JavaScript's `x || fallback` for a numeric option: a missing value and
      0 are both falsy and give `fallback`. */
  function OrElse(x: Option<int>, fallback: int): (r: int)
    ensures x.None? ==> r == fallback
    ensures x.Some? && x.value != 0 ==> r == x.value
    ensures x.Some? && x.value == 0 ==> r == fallback
  {
    match x
    case None => fallback
    case Some(v) => if v == 0 then fallback else v
  }

  /** The run-wide accumulators that `reset` clears. */
  predicate SameTotals(a: MetricsState, b: MetricsState) {
    && a.successCount == b.successCount
    && a.failedCount == b.failedCount
    && a.bytes == b.bytes
    && a.totalLatency == b.totalLatency
    && a.maxLatency == b.maxLatency
  }

  /** The window accumulators that `createNewPerfWindow` clears. */
  predicate SameWindow(a: MetricsState, b: MetricsState) {
    && a.windowStart == b.windowStart
    && a.windowCount == b.windowCount
    && a.windowMaxLatency == b.windowMaxLatency
    && a.windowTotalLatency == b.windowTotalLatency
    && a.windowBytes == b.windowBytes
  }

  /** `init(executionCount, options)` read at time `nowMs`. It configures the
      run and nothing else: counters, samples and window accumulators left by
      an earlier run stay as they are. */
  function Init(s: MetricsState, executionCount: int, options: Options, nowMs: int): (r: MetricsState)
    ensures r.settings.Some?
    ensures r.settings.value.runStartMs == nowMs && r.windowStart == nowMs
    ensures r.settings.value.expectedExecutionCount == executionCount
    ensures r.bytesPerExecution == (if options.payloadSize.Some? then options.payloadSize.value else 0)
    ensures r.settings.value.reportFrequencyMs ==
              (match options.reportingProgressFrequency
               case Some(v) => if v != 0 then v else DefaultReportFrequencyMs
               case None => DefaultReportFrequencyMs)
    ensures r.latencies == s.latencies && SameTotals(r, s)
    ensures r.windowCount == s.windowCount && r.windowMaxLatency == s.windowMaxLatency
    ensures r.windowTotalLatency == s.windowTotalLatency && r.windowBytes == s.windowBytes
  {
    var settings := Settings(nowMs, executionCount,
                             OrElse(options.reportingProgressFrequency, DefaultReportFrequencyMs));
    s.(settings := Some(settings),
       windowStart := nowMs,
       bytesPerExecution := OrElse(options.payloadSize, 0))
  }

  /** `createNewPerfWindow` at time `nowMs`. */
  function CreateNewPerfWindow(s: MetricsState, nowMs: int): (r: MetricsState)
    ensures r.windowStart == nowMs
    ensures r.windowCount == 0 && r.windowMaxLatency == 0
    ensures r.windowTotalLatency == 0 && r.windowBytes == 0
    ensures r.settings == s.settings && r.latencies == s.latencies
    ensures r.bytesPerExecution == s.bytesPerExecution && SameTotals(r, s)
  {
    s.(windowStart := nowMs, windowCount := 0, windowMaxLatency := 0,
       windowTotalLatency := 0, windowBytes := 0)
  }

  /** The flush test of `endRecording`. Before `init` the window start and
      frequency are undefined and the comparison is false. */
  predicate FlushDue(s: MetricsState, nowMs: int) {
    s.settings.Some? && nowMs - s.windowStart >= s.settings.value.reportFrequencyMs
  }

  /** The figures `logPerfResultsInCurrentWindow` prints. */
  function WindowSummary(s: MetricsState, nowMs: int): WindowReport {
    WindowReport(s.windowCount, s.windowTotalLatency, s.windowMaxLatency, s.windowBytes, nowMs - s.windowStart)
  }

  /** The accumulator updates of `endRecording`, before the flush test. */
  function Accumulate(s: MetricsState, latency: int, success: bool): MetricsState {
    var t :=
      if success then
        s.(successCount := s.successCount + 1,
           bytes := s.bytes + s.bytesPerExecution,
           totalLatency := s.totalLatency + latency,
           maxLatency := Max(s.maxLatency, latency),
           windowBytes := s.windowBytes + s.bytesPerExecution,
           windowTotalLatency := s.windowTotalLatency + latency,
           windowMaxLatency := Max(s.windowMaxLatency, latency),
           latencies := s.latencies + [latency])
      else
        s.(failedCount := s.failedCount + 1);
    t.(windowCount := t.windowCount + 1)
  }

  /** `endRecording(latency, success)` at time `nowMs`: accumulate, then flush
      the window (emitting its report) once the frequency has elapsed. */
  function EndRecording(s: MetricsState, latency: int, success: bool, nowMs: int): Recorded {
    var t := Accumulate(s, latency, success);
    if FlushDue(t, nowMs) then Recorded(CreateNewPerfWindow(t, nowMs), Some(WindowSummary(t, nowMs)))
    else Recorded(t, None)
  }

  /** `reset`: clears the run-wide counters. The sample array, the window
      and the settings are kept. */
  function Reset(s: MetricsState): (r: MetricsState)
    ensures r.successCount == 0 && r.failedCount == 0
    ensures r.bytes == 0 && r.totalLatency == 0 && r.maxLatency == 0
    ensures r.latencies == s.latencies && SameWindow(r, s)
    ensures r.settings == s.settings && r.bytesPerExecution == s.bytesPerExecution
  {
    s.(failedCount := 0, successCount := 0, bytes := 0, totalLatency := 0, maxLatency := 0)
  }

  /** The completion test of `logMetricsIfDone`; false before `init`. */
  predicate RunComplete(s: MetricsState) {
    s.settings.Some? && s.successCount + s.failedCount == s.settings.value.expectedExecutionCount
  }

  /** `logMetricsIfDone()` at time `nowMs`, with the throttler's current
      count. On completion it reports, leaves the samples sorted in place
      (the side effect of `getPercentiles`) and resets the counters. */
  function LogMetricsIfDone(s: MetricsState, nowMs: int, throttleCount: nat): Logged {
    if RunComplete(s) then
      var p := GetPercentiles(s.latencies, s.successCount, EventPercentiles);
      var report := FinalReport(
        s.successCount + s.failedCount,
        if s.failedCount > 0 then Some(s.failedCount) else None,
        s.bytes, s.totalLatency, s.maxLatency,
        nowMs - s.settings.value.runStartMs,
        p.results, throttleCount);
      Logged(Reset(s.(latencies := p.sorted)), Some(report))
    else
      Logged(s, None)
  }

  // ---------------------------------------------------------------------------
  // One call at a time

  /** A successful execution: one more success, its latency added to both
      latency sums, folded into both maxima and appended to the samples, and
      the payload size added to both byte totals. */
  lemma EndRecordingSuccess(s: MetricsState, latency: int, nowMs: int)
    ensures var r := EndRecording(s, latency, true, nowMs).state;
            && r.successCount == s.successCount + 1
            && r.failedCount == s.failedCount
            && r.totalLatency == s.totalLatency + latency
            && r.maxLatency == Max(s.maxLatency, latency)
            && r.bytes == s.bytes + s.bytesPerExecution
            && r.latencies == s.latencies + [latency]
            && r.settings == s.settings && r.bytesPerExecution == s.bytesPerExecution
            && (!FlushDue(s, nowMs) ==>
                  && r.windowTotalLatency == s.windowTotalLatency + latency
                  && r.windowMaxLatency == Max(s.windowMaxLatency, latency)
                  && r.windowBytes == s.windowBytes + s.bytesPerExecution)
  {
  }

  /** A failed execution counts as one failure and one window execution;
      sums, maxima, byte totals and samples are untouched, whatever latency
      is passed. */
  lemma EndRecordingFailure(s: MetricsState, latency: int, nowMs: int)
    ensures var r := EndRecording(s, latency, false, nowMs).state;
            && r.failedCount == s.failedCount + 1
            && r.successCount == s.successCount
            && r.totalLatency == s.totalLatency && r.maxLatency == s.maxLatency
            && r.bytes == s.bytes && r.latencies == s.latencies
            && r.settings == s.settings && r.bytesPerExecution == s.bytesPerExecution
            && (!FlushDue(s, nowMs) ==>
                  && r.windowCount == s.windowCount + 1
                  && r.windowStart == s.windowStart
                  && r.windowTotalLatency == s.windowTotalLatency
                  && r.windowMaxLatency == s.windowMaxLatency
                  && r.windowBytes == s.windowBytes)
  {
  }

  /** A window report is emitted exactly when the frequency has elapsed since
      the window start. It covers this call too; the window then restarts at
      `nowMs` with zeroed accumulators. Otherwise the window only grows by
      one execution. */
  lemma EndRecordingWindow(s: MetricsState, latency: int, success: bool, nowMs: int)
    ensures var rec := EndRecording(s, latency, success, nowMs);
            && (rec.report.Some? <==> FlushDue(s, nowMs))
            && (FlushDue(s, nowMs) ==>
                  && rec.report.value.executions == s.windowCount + 1
                  && rec.report.value.elapsedMs == nowMs - s.windowStart
                  && rec.report.value.totalLatency == s.windowTotalLatency + (if success then latency else 0)
                  && rec.report.value.maxLatency == (if success then Max(s.windowMaxLatency, latency) else s.windowMaxLatency)
                  && rec.report.value.bytes == s.windowBytes + (if success then s.bytesPerExecution else 0)
                  && rec.state.windowStart == nowMs
                  && rec.state.windowCount == 0 && rec.state.windowMaxLatency == 0
                  && rec.state.windowTotalLatency == 0 && rec.state.windowBytes == 0)
            && (!FlushDue(s, nowMs) ==>
                  && rec.state.windowStart == s.windowStart
                  && rec.state.windowCount == s.windowCount + 1)
  {
  }

  /** `logMetricsIfDone` reports and resets exactly when the success and
      failure counts add up to the expected count, and otherwise changes
      nothing. The report carries a failure notice with the failure count
      exactly when some execution failed. The reset keeps the samples
      (sorted, as the same multiset), the window, the settings and the
      payload size. */
  lemma LogMetricsIfDoneOutcome(s: MetricsState, nowMs: int, throttleCount: nat)
    ensures var out := LogMetricsIfDone(s, nowMs, throttleCount);
            && (out.report.Some? <==> RunComplete(s))
            && (!RunComplete(s) ==> out.state == s)
            && (RunComplete(s) ==>
                  && out.state.successCount == 0 && out.state.failedCount == 0
                  && out.state.bytes == 0 && out.state.totalLatency == 0 && out.state.maxLatency == 0
                  && Sorted(out.state.latencies)
                  && multiset(out.state.latencies) == multiset(s.latencies)
                  && SameWindow(out.state, s)
                  && out.state.settings == s.settings
                  && out.state.bytesPerExecution == s.bytesPerExecution
                  && out.report.value.totalExecutions == s.settings.value.expectedExecutionCount
                  && out.report.value.totalLatency == s.totalLatency
                  && out.report.value.maxLatency == s.maxLatency
                  && out.report.value.bytes == s.bytes
                  && out.report.value.elapsedMs == nowMs - s.settings.value.runStartMs
                  && out.report.value.throttleCount == throttleCount
                  && out.report.value.failedNotice == (if s.failedCount > 0 then Some(s.failedCount) else None)
                  && out.report.value.percentiles
                       == GetPercentiles(s.latencies, s.successCount, EventPercentiles).results)
  {
  }
}
