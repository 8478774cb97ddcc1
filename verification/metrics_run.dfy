/** Sequences of completed executions fed to the metrics recorder, one after
    the other, as the driver in src/index.js does: every completion calls
    `endRecording` and then `logMetricsIfDone`. The lemmas relate the
    recorder's accumulators to plain definitions over the whole sequence. */
module MetricsRun {
  import opened Wrappers
  import opened Sorting
  import opened Percentiles
  import opened Metrics
  import Throttler

  /** One finished execution: its measured latency, its outcome and the clock
      reading at which it is recorded. */
  datatype Completion = Completion(latency: int, success: bool, nowMs: int)

  /** The latencies of the successful completions, in order. */
  function Successes(cs: seq<Completion>): seq<int> {
    if cs == [] then []
    else (if cs[0].success then [cs[0].latency] else []) + Successes(cs[1..])
  }

  function Sum(xs: seq<int>): int {
    if xs == [] then 0 else xs[0] + Sum(xs[1..])
  }

  /** The largest of `m` and the elements of `xs`. */
  function MaxFrom(m: int, xs: seq<int>): int
    decreases |xs|
  {
    if xs == [] then m else MaxFrom(Max(m, xs[0]), xs[1..])
  }

  /** `endRecording` for each completion in turn. */
  function EndRecordingAll(s: MetricsState, cs: seq<Completion>): MetricsState
    decreases |cs|
  {
    if cs == [] then s
    else EndRecordingAll(EndRecording(s, cs[0].latency, cs[0].success, cs[0].nowMs).state, cs[1..])
  }

  /** `MaxFrom` is the maximum: at least `m` and every element, and equal to
      `m` or to one of the elements. */
  lemma {:induction false} MaxFromIsMaximum(m: int, xs: seq<int>)
    ensures m <= MaxFrom(m, xs)
    ensures forall k :: 0 <= k < |xs| ==> xs[k] <= MaxFrom(m, xs)
    ensures MaxFrom(m, xs) == m || MaxFrom(m, xs) in xs
    decreases |xs|
  {
    if xs != [] {
      MaxFromIsMaximum(Max(m, xs[0]), xs[1..]);
      assert forall k :: 1 <= k < |xs| ==> xs[k] == xs[1..][k - 1];
    }
  }

  lemma {:induction false} SuccessesConcat(a: seq<Completion>, b: seq<Completion>)
    ensures Successes(a + b) == Successes(a) + Successes(b)
    decreases |a|
  {
    if a == [] {
      assert a + b == b;
    } else {
      assert (a + b)[0] == a[0];
      assert (a + b)[1..] == a[1..] + b;
      SuccessesConcat(a[1..], b);
    }
  }

  lemma {:induction false} SumConcat(a: seq<int>, b: seq<int>)
    ensures Sum(a + b) == Sum(a) + Sum(b)
    decreases |a|
  {
    if a == [] {
      assert a + b == b;
    } else {
      assert (a + b)[0] == a[0];
      assert (a + b)[1..] == a[1..] + b;
      SumConcat(a[1..], b);
    }
  }

  lemma {:induction false} MaxFromConcat(m: int, a: seq<int>, b: seq<int>)
    ensures MaxFrom(m, a + b) == MaxFrom(MaxFrom(m, a), b)
    decreases |a|
  {
    if a == [] {
      assert a + b == b;
    } else {
      assert (a + b)[0] == a[0];
      assert (a + b)[1..] == a[1..] + b;
      MaxFromConcat(Max(m, a[0]), a[1..], b);
    }
  }

  /** The successful latency one completion contributes. */
  function Contribution(c: Completion): seq<int> {
    if c.success then [c.latency] else []
  }

  lemma SuccessesCons(cs: seq<Completion>)
    requires cs != []
    ensures Successes(cs) == Contribution(cs[0]) + Successes(cs[1..])
  {
  }

  /** One `endRecording` in terms of the completion's contribution. */
  lemma StepTotals(s: MetricsState, c: Completion)
    ensures var t := EndRecording(s, c.latency, c.success, c.nowMs).state;
            var head := Contribution(c);
            && t.successCount == s.successCount + |head|
            && t.successCount + t.failedCount == s.successCount + s.failedCount + 1
            && t.latencies == s.latencies + head
            && t.totalLatency == s.totalLatency + Sum(head)
            && t.maxLatency == MaxFrom(s.maxLatency, head)
            && t.bytes == s.bytes + s.bytesPerExecution * |head|
            && t.settings == s.settings && t.bytesPerExecution == s.bytesPerExecution
  {
    EndRecordingSuccess(s, c.latency, c.nowMs);
    EndRecordingFailure(s, c.latency, c.nowMs);
  }

  /** Over any sequence of completions, flushes or not: the success count
      grows by the number of successes and success plus failure counts by the
      number of calls; the settings are kept. */
  lemma {:induction false} EndRecordingAllCounts(s: MetricsState, cs: seq<Completion>)
    ensures var r := EndRecordingAll(s, cs);
            && r.successCount == s.successCount + |Successes(cs)|
            && r.successCount + r.failedCount == s.successCount + s.failedCount + |cs|
            && r.settings == s.settings && r.bytesPerExecution == s.bytesPerExecution
    decreases |cs|
  {
    if cs != [] {
      var c := cs[0];
      StepTotals(s, c);
      EndRecordingAllCounts(EndRecording(s, c.latency, c.success, c.nowMs).state, cs[1..]);
      SuccessesCons(cs);
    }
  }

  /** Over any sequence of completions the samples grow by the successful
      latencies in order, the latency total by their sum and the maximum by
      their maximum. */
  lemma {:induction false} EndRecordingAllLatencies(s: MetricsState, cs: seq<Completion>)
    ensures var r := EndRecordingAll(s, cs);
            && r.latencies == s.latencies + Successes(cs)
            && r.totalLatency == s.totalLatency + Sum(Successes(cs))
            && r.maxLatency == MaxFrom(s.maxLatency, Successes(cs))
    decreases |cs|
  {
    if cs != [] {
      var c := cs[0];
      var head, tail := Contribution(c), Successes(cs[1..]);
      StepTotals(s, c);
      EndRecordingAllLatencies(EndRecording(s, c.latency, c.success, c.nowMs).state, cs[1..]);
      SuccessesCons(cs);
      assert s.latencies + (head + tail) == (s.latencies + head) + tail;
      SumConcat(head, tail);
      MaxFromConcat(s.maxLatency, head, tail);
    }
  }

  /** Over any sequence of completions the byte total grows by one payload
      per success. */
  lemma {:induction false} EndRecordingAllBytes(s: MetricsState, cs: seq<Completion>)
    ensures EndRecordingAll(s, cs).bytes == s.bytes + s.bytesPerExecution * |Successes(cs)|
    decreases |cs|
  {
    if cs != [] {
      var c := cs[0];
      var head, tail := Contribution(c), Successes(cs[1..]);
      StepTotals(s, c);
      EndRecordingAllBytes(EndRecording(s, c.latency, c.success, c.nowMs).state, cs[1..]);
      SuccessesCons(cs);
      assert s.bytesPerExecution * (|head| + |tail|)
          == s.bytesPerExecution * |head| + s.bytesPerExecution * |tail|;
    }
  }

  /** No completion in `cs` reaches the report frequency of the window that
      was open before them. */
  predicate NoFlush(s: MetricsState, cs: seq<Completion>) {
    forall k :: 0 <= k < |cs| ==> !FlushDue(s, cs[k].nowMs)
  }

  /** Within one window the window accumulators follow the same definitions
      as the run-wide ones: one count per call, the sum, the maximum and the
      bytes of the successes. */
  lemma {:induction false} EndRecordingAllWindow(s: MetricsState, cs: seq<Completion>)
    requires NoFlush(s, cs)
    ensures var r := EndRecordingAll(s, cs);
            && r.windowStart == s.windowStart
            && r.windowCount == s.windowCount + |cs|
            && r.windowTotalLatency == s.windowTotalLatency + Sum(Successes(cs))
            && r.windowMaxLatency == MaxFrom(s.windowMaxLatency, Successes(cs))
            && r.windowBytes == s.windowBytes + s.bytesPerExecution * |Successes(cs)|
    decreases |cs|
  {
    if cs != [] {
      var c := cs[0];
      var t := EndRecording(s, c.latency, c.success, c.nowMs).state;
      assert !FlushDue(s, c.nowMs);
      assert t.settings == s.settings && t.windowStart == s.windowStart;
      assert NoFlush(t, cs[1..]) by {
        forall k | 0 <= k < |cs[1..]|
          ensures !FlushDue(t, cs[1..][k].nowMs)
        {
          assert cs[1..][k] == cs[k + 1];
        }
      }
      EndRecordingAllWindow(t, cs[1..]);
      var head, tail := Contribution(c), Successes(cs[1..]);
      EndRecordingSuccess(s, c.latency, c.nowMs);
      EndRecordingFailure(s, c.latency, c.nowMs);
      assert t.windowTotalLatency == s.windowTotalLatency + Sum(head);
      assert t.windowMaxLatency == MaxFrom(s.windowMaxLatency, head);
      assert t.windowBytes == s.windowBytes + s.bytesPerExecution * |head|;
      SuccessesCons(cs);
      SumConcat(head, tail);
      MaxFromConcat(s.windowMaxLatency, head, tail);
      assert s.bytesPerExecution * (|head| + |tail|)
          == s.bytesPerExecution * |head| + s.bytesPerExecution * |tail|;
    }
  }

  /** After a reset (or on a fresh recorder) with non-negative latencies,
      `maxLatency` is the largest successful latency recorded since, or 0 if
      there was none. */
  lemma MaxLatencySinceReset(s: MetricsState, cs: seq<Completion>)
    requires s.maxLatency == 0
    requires forall k :: 0 <= k < |cs| ==> cs[k].latency >= 0
    ensures var r := EndRecordingAll(s, cs);
            && (Successes(cs) == [] ==> r.maxLatency == 0)
            && (Successes(cs) != [] ==> r.maxLatency in Successes(cs))
            && forall k :: 0 <= k < |Successes(cs)| ==> Successes(cs)[k] <= r.maxLatency
  {
    EndRecordingAllLatencies(s, cs);
    MaxFromIsMaximum(0, Successes(cs));
    SuccessesNonNegative(cs);
    if Successes(cs) != [] {
      assert 0 <= Successes(cs)[0] <= MaxFrom(0, Successes(cs));
    }
  }

  lemma {:induction false} SuccessesNonNegative(cs: seq<Completion>)
    requires forall k :: 0 <= k < |cs| ==> cs[k].latency >= 0
    ensures forall k :: 0 <= k < |Successes(cs)| ==> Successes(cs)[k] >= 0
    decreases |cs|
  {
    if cs != [] {
      SuccessesNonNegative(cs[1..]);
    }
  }

  // ---------------------------------------------------------------------------
  // Completion detection

  /** One completion as the driver handles it: `endRecording`, then
      `logMetricsIfDone` at the same clock reading. */
  datatype Handled = Handled(state: MetricsState, window: Option<WindowReport>, final: Option<FinalReport>)

  function Handle(s: MetricsState, c: Completion, throttleCount: nat): Handled {
    var rec := EndRecording(s, c.latency, c.success, c.nowMs);
    var out := LogMetricsIfDone(rec.state, c.nowMs, throttleCount);
    Handled(out.state, rec.report, out.report)
  }

  /** The state after handling every completion, with the final reports
      emitted on the way. */
  datatype Driven = Driven(state: MetricsState, finals: seq<FinalReport>)

  function Drive(s: MetricsState, cs: seq<Completion>, throttleCount: nat): Driven
    decreases |cs|
  {
    if cs == [] then Driven(s, [])
    else
      var h := Handle(s, cs[0], throttleCount);
      var rest := Drive(h.state, cs[1..], throttleCount);
      Driven(rest.state, (if h.final.Some? then [h.final.value] else []) + rest.finals)
  }

  /** `Drive` unfolded once. */
  lemma DriveStep(s: MetricsState, cs: seq<Completion>, throttleCount: nat)
    requires cs != []
    ensures var h := Handle(s, cs[0], throttleCount);
            Drive(s, cs, throttleCount).finals
              == (if h.final.Some? then [h.final.value] else []) + Drive(h.state, cs[1..], throttleCount).finals
  {
  }

  function Executions(s: MetricsState): nat {
    s.successCount + s.failedCount
  }

  /** Starting with `c0` executions counted and at most `expected - c0` more
      to come, the final report is emitted exactly once, by the completion
      that brings the count to the expected one, and the counters are then
      back at zero; before that no final report is emitted and the count is
      the number of completions handled. */
  lemma {:induction false} DriveReportsOnce(s: MetricsState, cs: seq<Completion>, throttleCount: nat)
    requires s.settings.Some?
    requires Executions(s) + |cs| <= s.settings.value.expectedExecutionCount
    ensures var d := Drive(s, cs, throttleCount);
            var expected := s.settings.value.expectedExecutionCount;
            && d.state.settings == s.settings
            && (cs != [] && Executions(s) + |cs| == expected ==>
                  |d.finals| == 1 && Executions(d.state) == 0
                  && d.finals[0].totalExecutions == expected)
            && (Executions(s) + |cs| < expected ==>
                  d.finals == [] && Executions(d.state) == Executions(s) + |cs|)
    decreases |cs|
  {
    if cs != [] {
      var c := cs[0];
      var rec := EndRecording(s, c.latency, c.success, c.nowMs);
      EndRecordingSuccess(s, c.latency, c.nowMs);
      EndRecordingFailure(s, c.latency, c.nowMs);
      assert Executions(rec.state) == Executions(s) + 1;
      assert rec.state.settings == s.settings;
      LogMetricsIfDoneOutcome(rec.state, c.nowMs, throttleCount);
      var h := Handle(s, c, throttleCount);
      if Executions(s) + 1 == s.settings.value.expectedExecutionCount {
        assert cs[1..] == [];
        assert h.final.Some? && Executions(h.state) == 0;
      } else {
        assert h.final.None? && h.state == rec.state;
        DriveReportsOnce(h.state, cs[1..], throttleCount);
      }
    }
  }

  /** A recorder whose count has already reached or passed the expected one,
      or that was never initialised, never reports: the count only grows. */
  lemma {:induction false} DriveNeverReports(s: MetricsState, cs: seq<Completion>, throttleCount: nat)
    requires s.settings.None? || Executions(s) >= s.settings.value.expectedExecutionCount
    ensures var d := Drive(s, cs, throttleCount);
            d.finals == [] && Executions(d.state) == Executions(s) + |cs|
    decreases |cs|
  {
    if cs != [] {
      var c := cs[0];
      var rec := EndRecording(s, c.latency, c.success, c.nowMs);
      EndRecordingSuccess(s, c.latency, c.nowMs);
      EndRecordingFailure(s, c.latency, c.nowMs);
      LogMetricsIfDoneOutcome(rec.state, c.nowMs, throttleCount);
      DriveNeverReports(Handle(s, c, throttleCount).state, cs[1..], throttleCount);
    }
  }

  /** P95, P99 and P99.9 of the samples 5, 10, 15 are all 15: every rank
      index floor(f * 3) is 2. */
  lemma ThreeSamplePercentiles(u: seq<int>)
    requires |u| == 3 && u[0] == 5 && u[1] == 10 && u[2] == 15
    ensures GetPercentiles(u, 3, EventPercentiles).results == [Some(15), Some(15), Some(15)]
  {
    assert Sorted(u);
    SortOfSorted(u);
    PercentileAt(u, 3, EventPercentiles, 0);
    PercentileAt(u, 3, EventPercentiles, 1);
    PercentileAt(u, 3, EventPercentiles, 2);
    assert RankIndex(P95, 3) == 2 && RankIndex(P99, 3) == 2 && RankIndex(P999, 3) == 2;
  }

  /** Three successful executions of 5, 10 and 15 ms in a fresh recorder
      configured for three, with the throttle count read from a throttler
      initialised with target -1 (unthrottled) after any run of calls: one
      final report with 3 executions, total latency 30 ms (average 10 ms),
      maximum 15 ms, P95 = P99 = P99.9 = 15 ms and throttle count 0. */
  lemma ThreeSuccessScenario(s: MetricsState, cs: seq<Completion>, t1: int, t2: int, t3: int,
                             attempts: seq<Throttler.Attempt>)
    requires s == Init(Fresh, 3, Options(None, None), 0)
    requires 0 <= t1 <= t2 <= t3 < DefaultReportFrequencyMs
    requires cs == [Completion(5, true, t1), Completion(10, true, t2), Completion(15, true, t3)]
    ensures var throttler := Throttler.ThrottleAll(Throttler.Init(Throttler.Fresh, -1.0, 0), attempts);
            var d := Drive(s, cs, Throttler.GetThrottleCount(throttler.state));
            && |d.finals| == 1
            && d.finals[0].totalExecutions == 3
            && d.finals[0].totalLatency == 30
            && d.finals[0].maxLatency == 15
            && d.finals[0].failedNotice == None
            && d.finals[0].percentiles == [Some(15), Some(15), Some(15)]
            && d.finals[0].throttleCount == 0
  {
    Throttler.DisabledNeverCounts(-1.0, 0, attempts);
    ThreeSuccessesFrom(s, cs, t1, t2, t3);
  }

  /** The single final report of the three-sample scenario. */
  predicate ThreeSampleReport(finals: seq<FinalReport>) {
    && |finals| == 1
    && finals[0].totalExecutions == 3
    && finals[0].totalLatency == 30
    && finals[0].maxLatency == 15
    && finals[0].failedNotice == None
    && finals[0].percentiles == [Some(15), Some(15), Some(15)]
    && finals[0].throttleCount == 0
  }

  /** The scenario one completion at a time: first the 5 ms sample, ... */
  lemma ThreeSuccessesFrom(s: MetricsState, cs: seq<Completion>, t1: int, t2: int, t3: int)
    requires s.settings == Some(Settings(0, 3, DefaultReportFrequencyMs))
    requires s.windowStart == 0 && s.latencies == [] && s.successCount == 0 && s.failedCount == 0
    requires s.totalLatency == 0 && s.maxLatency == 0
    requires 0 <= t1 <= t2 <= t3 < DefaultReportFrequencyMs
    requires cs == [Completion(5, true, t1), Completion(10, true, t2), Completion(15, true, t3)]
    ensures ThreeSampleReport(Drive(s, cs, 0).finals)
  {
    assert cs[0] == Completion(5, true, t1);
    QuietSuccess(s, cs[0], 0);
    DriveStep(s, cs, 0);
    TwoSuccessesFrom(Handle(s, cs[0], 0).state, cs[1..], t2, t3);
  }

  /** ... then the 10 ms sample, ... */
  lemma TwoSuccessesFrom(s: MetricsState, cs: seq<Completion>, t2: int, t3: int)
    requires s.settings == Some(Settings(0, 3, DefaultReportFrequencyMs))
    requires s.windowStart == 0 && |s.latencies| == 1 && s.latencies[0] == 5
    requires s.successCount == 1 && s.failedCount == 0
    requires s.totalLatency == 5 && s.maxLatency == 5
    requires 0 <= t2 <= t3 < DefaultReportFrequencyMs
    requires |cs| == 2 && cs[0] == Completion(10, true, t2) && cs[1] == Completion(15, true, t3)
    ensures ThreeSampleReport(Drive(s, cs, 0).finals)
  {
    QuietSuccess(s, cs[0], 0);
    DriveStep(s, cs, 0);
    LastSuccessFrom(Handle(s, cs[0], 0).state, cs[1..], t3);
  }

  /** ... and finally the 15 ms sample, which completes the run. */
  lemma LastSuccessFrom(s: MetricsState, cs: seq<Completion>, t3: int)
    requires s.settings == Some(Settings(0, 3, DefaultReportFrequencyMs))
    requires |s.latencies| == 2 && s.latencies[0] == 5 && s.latencies[1] == 10
    requires s.successCount == 2 && s.failedCount == 0
    requires s.totalLatency == 15 && s.maxLatency == 10
    requires |cs| == 1 && cs[0] == Completion(15, true, t3)
    ensures ThreeSampleReport(Drive(s, cs, 0).finals)
  {
    var c := cs[0];
    assert cs[1..] == [];
    var h := Handle(s, c, 0);
    FinalSuccess(s, c, 0);
    ThreeSamplePercentiles(s.latencies + [c.latency]);
    assert h.final.value.percentiles == [Some(15), Some(15), Some(15)];
    DriveStep(s, cs, 0);
    assert Drive(s, cs, 0).finals == [h.final.value];
  }

  /** A successful completion that neither flushes the window nor completes
      the run. */
  lemma QuietSuccess(s: MetricsState, c: Completion, throttleCount: nat)
    requires c.success && !FlushDue(s, c.nowMs)
    requires s.settings.Some? ==> Executions(s) + 1 != s.settings.value.expectedExecutionCount
    ensures var h := Handle(s, c, throttleCount);
            && h.final.None?
            && h.state.latencies == s.latencies + [c.latency]
            && h.state.successCount == s.successCount + 1 && h.state.failedCount == s.failedCount
            && h.state.totalLatency == s.totalLatency + c.latency
            && h.state.maxLatency == Max(s.maxLatency, c.latency)
            && h.state.settings == s.settings && h.state.windowStart == s.windowStart
  {
    var r := EndRecording(s, c.latency, c.success, c.nowMs);
    EndRecordingSuccess(s, c.latency, c.nowMs);
    EndRecordingWindow(s, c.latency, c.success, c.nowMs);
    LogMetricsIfDoneOutcome(r.state, c.nowMs, throttleCount);
  }

  /** The successful completion that completes the run (without a flush). */
  lemma FinalSuccess(s: MetricsState, c: Completion, throttleCount: nat)
    requires c.success && s.settings.Some?
    requires Executions(s) + 1 == s.settings.value.expectedExecutionCount
    ensures var h := Handle(s, c, throttleCount);
            && h.final.Some?
            && h.final.value.totalExecutions == Executions(s) + 1
            && h.final.value.totalLatency == s.totalLatency + c.latency
            && h.final.value.maxLatency == Max(s.maxLatency, c.latency)
            && (h.final.value.failedNotice.Some? <==> s.failedCount > 0)
            && h.final.value.throttleCount == throttleCount
            && h.final.value.percentiles
                 == GetPercentiles(s.latencies + [c.latency], s.successCount + 1, EventPercentiles).results
  {
    var r := EndRecording(s, c.latency, c.success, c.nowMs);
    EndRecordingSuccess(s, c.latency, c.nowMs);
    LogMetricsIfDoneOutcome(r.state, c.nowMs, throttleCount);
  }

  /** Samples are never cleared: after a completed run the next run's
      percentiles are taken over the sorted samples of both runs. */
  lemma SamplesSurviveCompletion(s: MetricsState, c: Completion, throttleCount: nat)
    requires RunComplete(EndRecording(s, c.latency, c.success, c.nowMs).state)
    ensures var h := Handle(s, c, throttleCount);
            && h.final.Some?
            && multiset(h.state.latencies) == multiset(s.latencies + Successes([c]))
            && Sorted(h.state.latencies)
  {
    var rec := EndRecording(s, c.latency, c.success, c.nowMs);
    EndRecordingSuccess(s, c.latency, c.nowMs);
    EndRecordingFailure(s, c.latency, c.nowMs);
    LogMetricsIfDoneOutcome(rec.state, c.nowMs, throttleCount);
    assert [c][1..] == [];
  }
}
