/** The deficit-based throttler of src/throttler.js. Rates and durations are
    exact reals (JavaScript numbers without rounding); `Date.now()` is the
    `nowMs` argument and the `nanoNow()` readings taken during a
    compensating sleep are a supplied sequence. */
module Throttler {
  import opened Wrappers

  const NanoSecondPerMs: real := 1000000.0
  const NanoSecondPerSec: real := 1000.0 * NanoSecondPerMs
  const MinSleepNanoSecond: real := 2.0 * NanoSecondPerMs
  /** The sleep unit used when the target is not positive (1 ms, despite
      its name). */
  const LongMax: real := 1000000.0

  /** The module variables that stay `undefined` until `init` runs. */
  datatype Pacing = Pacing(startMs: int, targetThroughput: real, sleepTimeNs: real)

  datatype ThrottlerState = ThrottlerState(pacing: Option<Pacing>, sleepDeficitNs: real, throttleCount: nat)

  /** The module state when src/throttler.js is loaded. */
  const Fresh: ThrottlerState := ThrottlerState(None, 0.0, 0)

  /** The state between `throttle` calls: the deficit is below the 2 ms
      threshold and never negative, and the sleep unit is positive. */
  predicate Valid(s: ThrottlerState) {
    && 0.0 <= s.sleepDeficitNs < MinSleepNanoSecond
    && (s.pacing.Some? ==> s.pacing.value.sleepTimeNs > 0.0)
  }

  /** Nanoseconds of deficit one throttled execution adds. */
  function SleepTimeNs(targetThroughput: real): (r: real)
    ensures r > 0.0
    ensures targetThroughput > 0.0 ==> r * targetThroughput == NanoSecondPerSec
    ensures targetThroughput <= 0.0 ==> r == LongMax
  {
    if targetThroughput > 0.0 then NanoSecondPerSec / targetThroughput else LongMax
  }

  /** `init(targetThroughput, startMs)`. The deficit and the throttle count
      are module variables that `init` leaves as they are. */
  function Init(s: ThrottlerState, targetThroughput: real, startMs: int): (r: ThrottlerState)
    ensures r.pacing == Some(Pacing(startMs, targetThroughput, SleepTimeNs(targetThroughput)))
    ensures r.sleepDeficitNs == s.sleepDeficitNs && r.throttleCount == s.throttleCount
    ensures Valid(s) ==> Valid(r)
  {
    s.(pacing := Some(Pacing(startMs, targetThroughput, SleepTimeNs(targetThroughput))))
  }

  /** Throttling is switched off: a negative target, or no `init` yet (the
      undefined start time makes the elapsed time NaN). */
  predicate Disabled(s: ThrottlerState) {
    s.pacing.None? || s.pacing.value.targetThroughput < 0.0
  }

  /** `shouldThrottle(index)` at time `nowMs`. */
  predicate ShouldThrottle(s: ThrottlerState, index: int, nowMs: int) {
    if Disabled(s) then false
    else
      var p := s.pacing.value;
      var elapsedSec := (nowMs - p.startMs) as real / 1000.0;
      elapsedSec > 0.0 && (index as real) / elapsedSec > p.targetThroughput
  }

  function GetThrottleCount(s: ThrottlerState): nat {
    s.throttleCount
  }

  /** The requests a compensating sleep loop makes and whether it left the
      loop within the clock readings supplied. */
  datatype SleepRun = SleepRun(sleepsMs: seq<real>, finished: bool)

  /** The loop `while (remaining > 0) { await sleep(remaining / 1e6); ... }`:
      `after` holds the `nanoNow()` readings taken after each sleep, `startNs`
      the reading before the loop. When the readings run out while time
      remains, the last sleep is still pending. */
  function SleepLoop(deficitNs: real, startNs: int, remaining: real, after: seq<int>): SleepRun
    decreases |after|
  {
    if remaining <= 0.0 then SleepRun([], true)
    else if after == [] then SleepRun([remaining / NanoSecondPerMs], false)
    else
      var elapsed := after[0] - startNs;
      var rest := SleepLoop(deficitNs, startNs, deficitNs - elapsed as real, after[1..]);
      SleepRun([remaining / NanoSecondPerMs] + rest.sleepsMs, rest.finished)
  }

  /** A `throttle` call either returns (`Done`, with the sleeps it made) or is
      still inside its sleep loop once the supplied clock readings are used up
      (`Suspended`, with the module state as it stands during the sleep). */
  datatype ThrottleResult =
    | Done(state: ThrottlerState, sleepsMs: seq<real>)
    | Suspended(state: ThrottlerState, sleepsMs: seq<real>)

  /** `throttle(index)` at time `nowMs`; `clockNs` are the `nanoNow()`
      readings, the first taken before the sleep loop. */
  function Throttle(s: ThrottlerState, index: int, nowMs: int, clockNs: seq<int>): ThrottleResult {
    if !ShouldThrottle(s, index, nowMs) then Done(s, [])
    else
      var deficit := s.sleepDeficitNs + s.pacing.value.sleepTimeNs;
      var owing := s.(sleepDeficitNs := deficit);
      if deficit < MinSleepNanoSecond then Done(owing, [])
      else if clockNs == [] then Suspended(owing, [])
      else
        var run := SleepLoop(deficit, clockNs[0], deficit, clockNs[1..]);
        if run.finished then Done(owing.(sleepDeficitNs := 0.0, throttleCount := s.throttleCount + 1), run.sleepsMs)
        else Suspended(owing, run.sleepsMs)
  }

  // ---------------------------------------------------------------------------
  // shouldThrottle

  lemma DivGreater(a: real, e: real, t: real)
    requires e > 0.0
    ensures a / e > t <==> a > t * e
  {
    var q := a / e;
    assert q * e == a;
    if q > t {
      assert q * e > t * e;
    }
    if a > t * e {
      assert q * e > t * e;
    }
  }

  /** Once initialised with a non-negative target, `shouldThrottle` holds
      exactly when time has passed since the start and more than
      `target * elapsed` executions have been started, i.e. the observed
      rate exceeds the target. Index 0 is never throttled. */
  lemma ShouldThrottleIff(s: ThrottlerState, index: int, nowMs: int)
    ensures ShouldThrottle(s, index, nowMs) <==>
              && !Disabled(s)
              && nowMs > s.pacing.value.startMs
              && (index as real) * 1000.0
                   > s.pacing.value.targetThroughput * (nowMs - s.pacing.value.startMs) as real
    ensures index <= 0 ==> !ShouldThrottle(s, index, nowMs)
  {
    if !Disabled(s) {
      var p := s.pacing.value;
      var elapsedMs := (nowMs - p.startMs) as real;
      var elapsedSec := elapsedMs / 1000.0;
      if elapsedSec > 0.0 {
        DivGreater(index as real, elapsedSec, p.targetThroughput);
        assert p.targetThroughput * elapsedSec * 1000.0 == p.targetThroughput * elapsedMs;
      }
    }
  }

  /** A target of exactly 0 does not disable throttling: every positive index
      is throttled as soon as any time has passed. */
  lemma ZeroTargetThrottles(s: ThrottlerState, index: int, nowMs: int)
    requires s.pacing.Some? && s.pacing.value.targetThroughput == 0.0
    ensures ShouldThrottle(s, index, nowMs) <==> nowMs > s.pacing.value.startMs && index > 0
  {
    ShouldThrottleIff(s, index, nowMs);
  }

  // ---------------------------------------------------------------------------
  // The compensating sleep loop

  /** Starting with time left, the loop asks first for `remaining`, then for
      the deficit minus the elapsed time after each reading; every request is
      positive. It leaves the loop at the first reading whose elapsed time
      reaches the deficit, and only there: all earlier readings fall short,
      and if it did not finish, no supplied reading reached the deficit. */
  lemma {:induction false} SleepLoopExit(deficitNs: real, startNs: int, remaining: real, after: seq<int>)
    requires remaining > 0.0
    ensures var r := SleepLoop(deficitNs, startNs, remaining, after);
            && |r.sleepsMs| >= 1
            && r.sleepsMs[0] == remaining / NanoSecondPerMs
            && (forall j :: 1 <= j < |r.sleepsMs| ==>
                  j - 1 < |after| &&
                  r.sleepsMs[j] == (deficitNs - (after[j - 1] - startNs) as real) / NanoSecondPerMs)
            && (forall j :: 0 <= j < |r.sleepsMs| ==> r.sleepsMs[j] > 0.0)
            && (forall j :: 0 <= j < |r.sleepsMs| - 1 ==> j < |after| && (after[j] - startNs) as real < deficitNs)
            && (r.finished ==>
                  |r.sleepsMs| <= |after| && (after[|r.sleepsMs| - 1] - startNs) as real >= deficitNs)
            && (!r.finished ==> |r.sleepsMs| == |after| + 1)
    decreases |after|
  {
    if after != [] {
      var next := deficitNs - (after[0] - startNs) as real;
      var rest := SleepLoop(deficitNs, startNs, next, after[1..]);
      var r := SleepLoop(deficitNs, startNs, remaining, after);
      assert r.sleepsMs == [remaining / NanoSecondPerMs] + rest.sleepsMs;
      if next > 0.0 {
        SleepLoopExit(deficitNs, startNs, next, after[1..]);
        forall j | 1 <= j < |r.sleepsMs|
          ensures j - 1 < |after|
          ensures r.sleepsMs[j] == (deficitNs - (after[j - 1] - startNs) as real) / NanoSecondPerMs
        {
          if j >= 2 {
            assert r.sleepsMs[j] == rest.sleepsMs[j - 1];
            assert after[1..][j - 2] == after[j - 1];
          }
        }
        forall j | 0 <= j < |r.sleepsMs| - 1
          ensures j < |after| && (after[j] - startNs) as real < deficitNs
        {
          if j >= 1 {
            assert after[1..][j - 1] == after[j];
          }
        }
        if r.finished {
          assert after[1..][|rest.sleepsMs| - 1] == after[|r.sleepsMs| - 1];
        }
      } else {
        assert rest == SleepRun([], true);
      }
    }
  }

  predicate NonDecreasing(s: seq<int>) {
    forall i, j :: 0 <= i < j < |s| ==> s[i] <= s[j]
  }

  /** With a clock that never goes backwards, each sleep request is at most
      the one before it: the loop asks for what is left of the deficit. */
  lemma SleepRequestsShrink(deficitNs: real, clockNs: seq<int>)
    requires deficitNs > 0.0 && clockNs != [] && NonDecreasing(clockNs)
    ensures var r := SleepLoop(deficitNs, clockNs[0], deficitNs, clockNs[1..]);
            forall j :: 0 <= j < |r.sleepsMs| - 1 ==> r.sleepsMs[j + 1] <= r.sleepsMs[j]
  {
    var after := clockNs[1..];
    var r := SleepLoop(deficitNs, clockNs[0], deficitNs, after);
    SleepLoopExit(deficitNs, clockNs[0], deficitNs, after);
    forall j | 0 <= j < |r.sleepsMs| - 1
      ensures r.sleepsMs[j + 1] <= r.sleepsMs[j]
    {
      assert after[j] == clockNs[j + 1];
      if j >= 1 {
        assert after[j - 1] == clockNs[j];
      }
    }
  }

  // ---------------------------------------------------------------------------
  // throttle

  /** When `shouldThrottle` is false, nothing changes and nothing sleeps. */
  lemma ThrottleNoOp(s: ThrottlerState, index: int, nowMs: int, clockNs: seq<int>)
    requires !ShouldThrottle(s, index, nowMs)
    ensures Throttle(s, index, nowMs, clockNs) == Done(s, [])
  {
  }

  /** A throttled call whose new deficit stays below 2 ms carries it forward,
      one sleep unit larger, without sleeping or counting. */
  lemma ThrottleCarriesDeficit(s: ThrottlerState, index: int, nowMs: int, clockNs: seq<int>)
    requires ShouldThrottle(s, index, nowMs)
    requires s.sleepDeficitNs + s.pacing.value.sleepTimeNs < MinSleepNanoSecond
    ensures var r := Throttle(s, index, nowMs, clockNs);
            && r.Done? && r.sleepsMs == []
            && r.state.sleepDeficitNs == s.sleepDeficitNs + s.pacing.value.sleepTimeNs
            && r.state.throttleCount == s.throttleCount
            && r.state.pacing == s.pacing
  {
  }

  /** A throttled call whose deficit reaches 2 ms sleeps: it returns only
      once a reading shows at least the deficit elapsed since the sleep
      started (no earlier reading does), and then the deficit is exactly 0
      and the count has grown by one. While suspended the state carries the
      whole deficit. */
  lemma ThrottleSleepsOffDeficit(s: ThrottlerState, index: int, nowMs: int, clockNs: seq<int>)
    requires ShouldThrottle(s, index, nowMs)
    requires s.sleepDeficitNs + s.pacing.value.sleepTimeNs >= MinSleepNanoSecond
    ensures var r := Throttle(s, index, nowMs, clockNs);
            var deficit := s.sleepDeficitNs + s.pacing.value.sleepTimeNs;
            && r.state.pacing == s.pacing
            && (r.Done? ==>
                  && r.state.sleepDeficitNs == 0.0
                  && r.state.throttleCount == s.throttleCount + 1
                  && 1 <= |r.sleepsMs| < |clockNs|
                  && (clockNs[|r.sleepsMs|] - clockNs[0]) as real >= deficit
                  && forall j :: 1 <= j < |r.sleepsMs| ==> (clockNs[j] - clockNs[0]) as real < deficit)
            && (r.Suspended? ==>
                  && r.state.sleepDeficitNs == deficit
                  && r.state.throttleCount == s.throttleCount
                  && forall j :: 1 <= j < |clockNs| ==> (clockNs[j] - clockNs[0]) as real < deficit)
  {
    var deficit := s.sleepDeficitNs + s.pacing.value.sleepTimeNs;
    if clockNs != [] {
      var after := clockNs[1..];
      var run := SleepLoop(deficit, clockNs[0], deficit, after);
      SleepLoopExit(deficit, clockNs[0], deficit, after);
      forall j | 1 <= j < |clockNs|
        ensures clockNs[j] == after[j - 1]
      {
      }
    }
  }

  /** Every completed call keeps the deficit in [0, 2 ms) and the sleep unit
      positive; the count never drops and grows by at most one. */
  lemma ThrottlePreservesValid(s: ThrottlerState, index: int, nowMs: int, clockNs: seq<int>)
    requires Valid(s)
    ensures var r := Throttle(s, index, nowMs, clockNs);
            && r.state.pacing == s.pacing
            && s.throttleCount <= r.state.throttleCount <= s.throttleCount + 1
            && (r.Done? ==> Valid(r.state))
            && (r.Suspended? ==> r.state.sleepDeficitNs >= MinSleepNanoSecond)
  {
    if ShouldThrottle(s, index, nowMs) {
      if s.sleepDeficitNs + s.pacing.value.sleepTimeNs >= MinSleepNanoSecond {
        ThrottleSleepsOffDeficit(s, index, nowMs, clockNs);
      }
    }
  }

  // ---------------------------------------------------------------------------
  // A run of throttle calls

  /** One `throttle(index)` call of the driver loop, with its clock. */
  datatype Attempt = Attempt(index: int, nowMs: int, clockNs: seq<int>)

  /** The driver awaits every call, so a suspended call ends the run seen so
      far; `completed` counts the calls that returned. */
  datatype RunResult = RunResult(state: ThrottlerState, completed: nat, suspended: bool)

  function ThrottleAll(s: ThrottlerState, attempts: seq<Attempt>): RunResult
    decreases |attempts|
  {
    if attempts == [] then RunResult(s, 0, false)
    else
      var a := attempts[0];
      match Throttle(s, a.index, a.nowMs, a.clockNs)
      case Suspended(t, _) => RunResult(t, 0, true)
      case Done(t, _) =>
        var rest := ThrottleAll(t, attempts[1..]);
        RunResult(rest.state, rest.completed + 1, rest.suspended)
  }

  /** Over a run of calls, the invariant holds after every returned call, the
      count never drops and grows by at most one per returned call, every call
      returns unless one is suspended, and a disabled throttler changes
      nothing at all. */
  lemma {:induction false} ThrottleAllInvariant(s: ThrottlerState, attempts: seq<Attempt>)
    requires Valid(s)
    ensures var r := ThrottleAll(s, attempts);
            && r.state.pacing == s.pacing
            && r.completed <= |attempts|
            && (!r.suspended ==> r.completed == |attempts| && Valid(r.state))
            && s.throttleCount <= r.state.throttleCount <= s.throttleCount + r.completed + (if r.suspended then 1 else 0)
            && (Disabled(s) ==> r == RunResult(s, |attempts|, false))
    decreases |attempts|
  {
    if attempts != [] {
      var a := attempts[0];
      ThrottlePreservesValid(s, a.index, a.nowMs, a.clockNs);
      if Disabled(s) {
        ThrottleNoOp(s, a.index, a.nowMs, a.clockNs);
      }
      match Throttle(s, a.index, a.nowMs, a.clockNs)
      case Suspended(t, _) =>
      case Done(t, _) =>
        ThrottleAllInvariant(t, attempts[1..]);
    }
  }

  /** With throttling disabled (a negative target), the throttle count read
      by the final report stays where it was, 0 for a fresh module. */
  lemma DisabledNeverCounts(targetThroughput: real, startMs: int, attempts: seq<Attempt>)
    requires targetThroughput < 0.0
    ensures var r := ThrottleAll(Init(Fresh, targetThroughput, startMs), attempts);
            GetThrottleCount(r.state) == 0 && !r.suspended
  {
    ThrottleAllInvariant(Init(Fresh, targetThroughput, startMs), attempts);
  }

  /** A target of 0 throttles: two calls at index 1, one millisecond after the
      start, make the 1 ms units add up to the 2 ms threshold and one sleep is
      counted. */
  lemma ZeroTargetSleeps(clockNs: seq<int>)
    requires |clockNs| == 2 && clockNs[1] - clockNs[0] >= 2000000
    ensures var s := Init(Fresh, 0.0, 0);
            var first := Throttle(s, 1, 1, []);
            && first == Done(s.(sleepDeficitNs := 1000000.0), [])
            && Throttle(first.state, 1, 1, clockNs).Done?
            && GetThrottleCount(Throttle(first.state, 1, 1, clockNs).state) == 1
  {
    var s := Init(Fresh, 0.0, 0);
    ZeroTargetThrottles(s, 1, 1);
    var t := s.(sleepDeficitNs := 1000000.0);
    ZeroTargetThrottles(t, 1, 1);
    ThrottleSleepsOffDeficit(t, 1, 1, clockNs);
    SleepLoopExit(2000000.0, clockNs[0], 2000000.0, clockNs[1..]);
  }
}
