/** The nearest-rank percentile estimator of `getPercentiles`
    (src/metrics.js): sort the latency samples ascending and, for a fraction
    `f`, read the sample at index `floor(f * size)` where
    `size = min(totalExecutions, number of samples)`. */
module Percentiles {
  import opened Wrappers
  import opened Sorting

  /** An exact fraction `num / den`. */
  datatype Ratio = Ratio(num: nat, den: nat)

  type Fraction = f: Ratio | f.den > 0 witness Ratio(0, 1)

  /** The fractions of the final report: P95, P99 and P99.9. */
  const P95: Fraction := Ratio(95, 100)
  const P99: Fraction := Ratio(99, 100)
  const P999: Fraction := Ratio(999, 1000)
  const EventPercentiles: seq<Fraction> := [P95, P99, P999]

  /** `f <= g` as rationals. */
  predicate AtMost(f: Fraction, g: Fraction) {
    f.num * g.den <= g.num * f.den
  }

  /** `f < 1`. */
  predicate BelowOne(f: Fraction) {
    f.num < f.den
  }

  /** `Math.min(totalExecutions, latencies.length)`. */
  function SampleSize(totalExecutions: nat, sampleCount: nat): (r: nat)
    ensures r <= totalExecutions && r <= sampleCount
    ensures r == totalExecutions || r == sampleCount
  {
    if totalExecutions < sampleCount then totalExecutions else sampleCount
  }

  /** `Math.floor(f * size)`, computed exactly: the largest `r` with
      `r <= f * size`. */
  function RankIndex(f: Fraction, size: nat): (r: nat)
    ensures r * f.den <= f.num * size < (r + 1) * f.den
  {
    f.num * size / f.den
  }

  /** `latencies[index]`: `None` (undefined) when the index is past the end of
      the whole sample array. */
  function Pick(sorted: seq<int>, f: Fraction, size: nat): Option<int> {
    var i := RankIndex(f, size);
    if i < |sorted| then Some(sorted[i]) else None
  }

  /** What `getPercentiles` returns, together with the sample array it leaves
      behind: the JavaScript sort works in place. */
  datatype PercentileRun = PercentileRun(sorted: seq<int>, results: seq<Option<int>>)

  function GetPercentiles(samples: seq<int>, totalExecutions: nat, fractions: seq<Fraction>): (r: PercentileRun)
    ensures Sorted(r.sorted) && multiset(r.sorted) == multiset(samples)
    ensures |r.results| == |fractions|
  {
    var sorted := Sort(samples);
    var size := SampleSize(totalExecutions, |samples|);
    PercentileRun(sorted, seq(|fractions|, k requires 0 <= k < |fractions| => Pick(sorted, fractions[k], size)))
  }

  /** Number of samples strictly below `v`; `CountBelow(s, v + 1)` counts
      those at most `v`. */
  function CountBelow(s: seq<int>, v: int): nat {
    if s == [] then 0
    else (if s[0] < v then 1 else 0) + CountBelow(s[1..], v)
  }

  // ---------------------------------------------------------------------------
  // Index arithmetic

  lemma CancelFactor(x: int, y: int, d: int)
    requires d > 0 && x * d < y * d
    ensures x < y
  {
  }

  lemma MulStrict(x: int, y: int, c: int)
    requires x < y && c > 0
    ensures x * c < y * c
  {
  }

  lemma DivFloor(a: nat, d: nat)
    requires d > 0
    ensures (a / d) * d <= a < (a / d + 1) * d
  {
  }

  lemma DivLowerBound(a: nat, d: nat, q: nat)
    requires d > 0
    requires q * d <= a
    ensures q <= a / d
  {
    DivFloor(a, d);
    CancelFactor(q, a / d + 1, d);
  }

  /** For a fraction below one and a non-empty sample, the rank index falls
      inside the sample. */
  lemma RankIndexBelowSize(f: Fraction, size: nat)
    requires BelowOne(f) && size > 0
    ensures RankIndex(f, size) < size
  {
    var a := f.num * size;
    DivFloor(a, f.den);
    MulStrict(f.num, f.den, size);
    CancelFactor(a / f.den, size, f.den);
  }

  /** A larger fraction never selects a smaller index. */
  lemma RankIndexMonotone(f: Fraction, g: Fraction, size: nat)
    requires AtMost(f, g)
    ensures RankIndex(f, size) <= RankIndex(g, size)
  {
    var q := RankIndex(f, size);
    assert q * f.den <= f.num * size;
    assert q * f.den * g.den <= f.num * size * g.den;
    assert f.num * size * g.den == (f.num * g.den) * size;
    assert (f.num * g.den) * size <= (g.num * f.den) * size;
    assert (q * g.den) * f.den <= (g.num * size) * f.den;
    assert (q * g.den) * f.den < (g.num * size + 1) * f.den;
    CancelFactor(q * g.den, g.num * size + 1, f.den);
    DivLowerBound(g.num * size, g.den, q);
  }

  // ---------------------------------------------------------------------------
  // Counting samples

  lemma {:induction false} CountBelowConcat(a: seq<int>, b: seq<int>, v: int)
    ensures CountBelow(a + b, v) == CountBelow(a, v) + CountBelow(b, v)
    decreases |a|
  {
    if a == [] {
      assert a + b == b;
    } else {
      assert (a + b)[0] == a[0];
      assert (a + b)[1..] == a[1..] + b;
      CountBelowConcat(a[1..], b, v);
    }
  }

  lemma {:induction false} CountBelowNone(s: seq<int>, v: int)
    requires forall k :: 0 <= k < |s| ==> v <= s[k]
    ensures CountBelow(s, v) == 0
    decreases |s|
  {
    if s != [] {
      CountBelowNone(s[1..], v);
    }
  }

  lemma {:induction false} CountBelowAll(s: seq<int>, v: int)
    requires forall k :: 0 <= k < |s| ==> s[k] < v
    ensures CountBelow(s, v) == |s|
    decreases |s|
  {
    if s != [] {
      CountBelowAll(s[1..], v);
    }
  }

  lemma {:induction false} CountBelowAtMostLength(s: seq<int>, v: int)
    ensures CountBelow(s, v) <= |s|
    decreases |s|
  {
    if s != [] {
      CountBelowAtMostLength(s[1..], v);
    }
  }

  /** Removing the sample at index `k` lowers the count by that sample's share. */
  lemma CountBelowRemove(t: seq<int>, k: nat, v: int)
    requires k < |t|
    ensures CountBelow(t, v) == CountBelow(t[..k] + t[k+1..], v) + (if t[k] < v then 1 else 0)
  {
    assert t == t[..k] + ([t[k]] + t[k+1..]);
    CountBelowConcat(t[..k], [t[k]] + t[k+1..], v);
    CountBelowConcat(t[..k], t[k+1..], v);
  }

  /** Counts depend only on the multiset of samples, not on their order. */
  lemma {:induction false} CountBelowPermutation(s: seq<int>, t: seq<int>, v: int)
    requires multiset(s) == multiset(t)
    ensures CountBelow(s, v) == CountBelow(t, v)
    decreases |s|
  {
    if s == [] {
      assert |t| == |multiset(t)| == 0;
    } else {
      var x := s[0];
      assert x in multiset(t);
      var k :| 0 <= k < |t| && t[k] == x;
      var rest := t[..k] + t[k+1..];
      assert t == t[..k] + [x] + t[k+1..];
      assert multiset(rest) == multiset(t) - multiset{x};
      assert s == [x] + s[1..];
      assert multiset(s[1..]) == multiset(s) - multiset{x};
      CountBelowPermutation(s[1..], rest, v);
      CountBelowRemove(t, k, v);
    }
  }

  /** In a sorted sequence the element at index `i` has at most `i` samples
      strictly below it and more than `i` samples at or below it. */
  lemma SortedRank(u: seq<int>, i: nat)
    requires Sorted(u) && i < |u|
    ensures CountBelow(u, u[i]) <= i < CountBelow(u, u[i] + 1)
  {
    var v := u[i];
    assert u == u[..i] + u[i..];
    CountBelowConcat(u[..i], u[i..], v);
    CountBelowNone(u[i..], v);
    CountBelowAtMostLength(u[..i], v);
    assert u == u[..i+1] + u[i+1..];
    CountBelowConcat(u[..i+1], u[i+1..], v + 1);
    CountBelowAll(u[..i+1], v + 1);
  }

  /** `v` is a sample value of rank `i`: at most `i` samples lie strictly
      below it and more than `i` lie at or below it. */
  predicate HasRank(samples: seq<int>, v: int, i: nat) {
    v in samples && CountBelow(samples, v) <= i < CountBelow(samples, v + 1)
  }

  /** The same rank bounds, counted over any ordering of the samples. */
  lemma PermutedRank(u: seq<int>, samples: seq<int>, i: nat)
    requires Sorted(u) && multiset(u) == multiset(samples) && i < |u|
    ensures HasRank(samples, u[i], i)
  {
    assert u[i] in multiset(samples);
    SortedRank(u, i);
    CountBelowPermutation(u, samples, u[i]);
    CountBelowPermutation(u, samples, u[i] + 1);
  }

  // ---------------------------------------------------------------------------
  // Properties of getPercentiles

  /** Entry `k` of the result reads the sorted samples at the rank index. */
  lemma PercentileAt(samples: seq<int>, totalExecutions: nat, fractions: seq<Fraction>, k: nat)
    requires k < |fractions|
    ensures var r := GetPercentiles(samples, totalExecutions, fractions);
            r.sorted == Sort(samples)
            && r.results[k] == Pick(r.sorted, fractions[k], SampleSize(totalExecutions, |samples|))
  {
  }

  /** For a fraction below one and at least one counted sample, the result is
      defined and is a sample of rank `floor(f * size)` among the unsorted
      samples. */
  lemma NearestRank(samples: seq<int>, totalExecutions: nat, fractions: seq<Fraction>, k: nat)
    requires k < |fractions| && BelowOne(fractions[k])
    requires totalExecutions > 0 && samples != []
    ensures var r := GetPercentiles(samples, totalExecutions, fractions);
            && r.results[k].Some?
            && HasRank(samples, r.results[k].value, RankIndex(fractions[k], SampleSize(totalExecutions, |samples|)))
  {
    var r := GetPercentiles(samples, totalExecutions, fractions);
    var size := SampleSize(totalExecutions, |samples|);
    var i := RankIndex(fractions[k], size);
    RankIndexBelowSize(fractions[k], size);
    PercentileAt(samples, totalExecutions, fractions, k);
    var u := r.sorted;
    assert i < |u|;
    var v := u[i];
    assert r.results[k] == Some(v);
    PermutedRank(u, samples, i);
  }

  /** A larger fraction never yields a smaller percentile, and is defined
      whenever the smaller one's index is. */
  lemma PercentilesMonotone(samples: seq<int>, totalExecutions: nat, fractions: seq<Fraction>, k1: nat, k2: nat)
    requires k1 < |fractions| && k2 < |fractions|
    requires AtMost(fractions[k1], fractions[k2])
    ensures var r := GetPercentiles(samples, totalExecutions, fractions);
            r.results[k2].Some? ==> r.results[k1].Some? && r.results[k1].value <= r.results[k2].value
  {
    var r := GetPercentiles(samples, totalExecutions, fractions);
    var size := SampleSize(totalExecutions, |samples|);
    RankIndexMonotone(fractions[k1], fractions[k2], size);
    PercentileAt(samples, totalExecutions, fractions, k1);
    PercentileAt(samples, totalExecutions, fractions, k2);
  }

  /** The report's P95 <= P99 <= P99.9, all three defined and taken from the
      samples as soon as one execution succeeded and its sample is present. */
  lemma EventPercentilesOrdered(samples: seq<int>, successCount: nat)
    ensures var r := GetPercentiles(samples, successCount, EventPercentiles);
            && (r.results[1].Some? ==> r.results[0].Some? && r.results[0].value <= r.results[1].value)
            && (r.results[2].Some? ==> r.results[1].Some? && r.results[1].value <= r.results[2].value)
            && (successCount > 0 && samples != [] ==>
                  forall k :: 0 <= k < 3 ==> r.results[k].Some? && r.results[k].value in samples)
  {
    PercentilesMonotone(samples, successCount, EventPercentiles, 0, 1);
    PercentilesMonotone(samples, successCount, EventPercentiles, 1, 2);
    if successCount > 0 && samples != [] {
      NearestRank(samples, successCount, EventPercentiles, 0);
      NearestRank(samples, successCount, EventPercentiles, 1);
      NearestRank(samples, successCount, EventPercentiles, 2);
    }
  }

  /** Ten samples 10, 20, ..., 100: P95 reads index floor(0.95 * 10) = 9,
      the value 100. */
  lemma TenSampleExample(s: seq<int>)
    requires |s| == 10 && forall k :: 0 <= k < 10 ==> s[k] == 10 * (k + 1)
    ensures GetPercentiles(s, 10, EventPercentiles).results[0] == Some(100)
  {
    assert Sorted(s);
    SortOfSorted(s);
    PercentileAt(s, 10, EventPercentiles, 0);
    assert RankIndex(P95, 10) == 9;
  }
}
