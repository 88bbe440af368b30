/** Inter-spike intervals (ISIs) of the detected spikes and the statistics the
    coefficient of variation is built from: the mean and the population
    variance of the intervals. */
module IsiStatistics {
  import opened PeakDetection

  /** Consecutive differences of a sequence (numpy's diff). */
  function Diff(s: seq<real>): (d: seq<real>)
    ensures |d| == if |s| == 0 then 0 else |s| - 1
    ensures forall k :: 0 <= k < |d| ==> d[k] == s[k + 1] - s[k]
  {
    if |s| < 2 then [] else [s[1] - s[0]] + Diff(s[1..])
  }

  function Sum(xs: seq<real>): real
  {
    if xs == [] then 0.0 else xs[0] + Sum(xs[1..])
  }

  /** Arithmetic mean (numpy's mean): it lies between the smallest and the
      largest element. */
  function Mean(xs: seq<real>): (r: real)
    requires |xs| > 0
    ensures exists i, j :: 0 <= i < |xs| && 0 <= j < |xs| && xs[i] <= r <= xs[j]
  {
    MeanBetweenExtremes(xs);
    Sum(xs) / |xs| as real
  }

  /** Sum of squared deviations of the elements from m. */
  function SquaredDeviations(xs: seq<real>, m: real): real
  {
    if xs == [] then 0.0 else (xs[0] - m) * (xs[0] - m) + SquaredDeviations(xs[1..], m)
  }

  /** Population variance (numpy's default, ddof = 0): the square of np.std.
      It is never negative, and it is zero when all elements are equal. */
  function Variance(xs: seq<real>): (r: real)
    requires |xs| > 0
    ensures r >= 0.0
    ensures (forall k :: 0 <= k < |xs| ==> xs[k] == xs[0]) ==> r == 0.0
  {
    SquaredDeviationsNonNegative(xs, Mean(xs));
    SquaredDeviationsAtCommonValue(xs, Mean(xs));
    SquaredDeviations(xs, Mean(xs)) / |xs| as real
  }

  /** Result of the ISI analysis: too few spikes for an interval, or the
      intervals with their mean and variance. */
  datatype IsiStats =
    | InsufficientSpikes
    | Stats(isis: seq<real>, mean: real, variance: real)

  /** Statistics of the intervals between the given spike times. */
  function StatsOf(spikeTimes: seq<real>): (r: IsiStats)
    ensures r.InsufficientSpikes? <==> |spikeTimes| < 2
    ensures r.Stats? ==> |r.isis| == |spikeTimes| - 1
    ensures r.Stats? ==> forall k :: 0 <= k < |r.isis| ==> r.isis[k] == spikeTimes[k + 1] - spikeTimes[k]
  {
    if |spikeTimes| < 2 then InsufficientSpikes
    else
      var isis := Diff(spikeTimes);
      Stats(isis, Mean(isis), Variance(isis))
  }

  /** The intervals telescope: they add up to the span from first to last. */
  lemma {:induction false} SumOfDiff(s: seq<real>)
    requires |s| > 0
    ensures Sum(Diff(s)) == s[|s| - 1] - s[0]
  {
    if |s| >= 2 {
      SumOfDiff(s[1..]);
    }
  }

  /** The mean interval is the span of the spike times over the number of intervals. */
  lemma MeanIsiIsSpanOverCount(spikeTimes: seq<real>)
    requires |spikeTimes| >= 2
    ensures StatsOf(spikeTimes).mean ==
      (spikeTimes[|spikeTimes| - 1] - spikeTimes[0]) / (|spikeTimes| - 1) as real
  {
    SumOfDiff(spikeTimes);
  }

  /** The smallest and the largest element bound the sum, times the length. */
  lemma {:induction false} SumBetweenExtremes(xs: seq<real>) returns (lo: int, hi: int)
    requires |xs| > 0
    ensures 0 <= lo < |xs| && 0 <= hi < |xs|
    ensures forall k :: 0 <= k < |xs| ==> xs[lo] <= xs[k] <= xs[hi]
    ensures xs[lo] * |xs| as real <= Sum(xs) <= xs[hi] * |xs| as real
  {
    var tail := xs[1..];
    assert Sum(xs) == xs[0] + Sum(tail);
    if |xs| == 1 {
      lo, hi := 0, 0;
      assert tail == [];
    } else {
      var l, h := SumBetweenExtremes(tail);
      ExtendBounds(xs[0], tail[l], tail[h], Sum(tail), |tail| as real);
      lo := if xs[0] <= tail[l] then 0 else l + 1;
      hi := if tail[h] <= xs[0] then 0 else h + 1;
      assert forall k :: 1 <= k < |xs| ==> xs[k] == tail[k - 1];
    }
  }

  /** One more element x in front of a part bounded by a and b, times m. */
  lemma ExtendBounds(x: real, a: real, b: real, t: real, m: real)
    requires m >= 0.0 && a * m <= t <= b * m
    ensures (if x <= a then x else a) * (m + 1.0) <= x + t
    ensures x + t <= (if b <= x then x else b) * (m + 1.0)
  {
    if x <= a {
      assert a * m - x * m == (a - x) * m;
    }
    if b <= x {
      assert x * m - b * m == (x - b) * m;
    }
  }

  /** The mean lies between the smallest and the largest element. */
  lemma MeanBetweenExtremes(xs: seq<real>)
    requires |xs| > 0
    ensures exists i, j :: 0 <= i < |xs| && 0 <= j < |xs| && xs[i] <= Sum(xs) / |xs| as real <= xs[j]
  {
    var lo, hi := SumBetweenExtremes(xs);
    var n := |xs| as real;
    var total := Sum(xs);
    DivideBounds(xs[lo], total, xs[hi], n);
  }

  lemma DivideBounds(lo: real, total: real, hi: real, n: real)
    requires n > 0.0 && lo * n <= total <= hi * n
    ensures lo <= total / n <= hi
  {
    assert total / n - lo == (total - lo * n) / n;
    assert hi - total / n == (hi * n - total) / n;
  }

  /** Deviations from the common value of equal elements add up to zero. */
  lemma {:induction false} SquaredDeviationsAtCommonValue(xs: seq<real>, m: real)
    ensures (forall k :: 0 <= k < |xs| ==> xs[k] == xs[0]) && m == (if xs == [] then m else xs[0]) ==>
      SquaredDeviations(xs, m) == 0.0
  {
    if xs != [] && (forall k :: 0 <= k < |xs| ==> xs[k] == xs[0]) && m == xs[0] {
      var tail := xs[1..];
      if tail != [] {
        assert tail[0] == xs[0];
      }
      SquaredDeviationsAtCommonValue(tail, m);
    }
  }

  /** A sum of elements each above b exceeds b times their number. */
  lemma {:induction false} SumAbove(xs: seq<real>, b: real)
    requires forall k :: 0 <= k < |xs| ==> xs[k] > b
    ensures |xs| > 0 ==> Sum(xs) > b * |xs| as real
  {
    if |xs| > 1 {
      SumAbove(xs[1..], b);
    }
  }

  /** The mean of elements each above b is above b. */
  lemma MeanAbove(xs: seq<real>, b: real)
    requires |xs| > 0
    requires forall k :: 0 <= k < |xs| ==> xs[k] > b
    ensures Mean(xs) > b
  {
    SumAbove(xs, b);
  }

  lemma {:induction false} SquaredDeviationsNonNegative(xs: seq<real>, m: real)
    ensures SquaredDeviations(xs, m) >= 0.0
  {
    if xs != [] {
      var d := xs[0] - m;
      assert d * d >= 0.0;
      SquaredDeviationsNonNegative(xs[1..], m);
    }
  }

  /** For spike times spaced more than the refractory gap apart, with at least
      two of them: every interval, and so the mean, exceeds the gap (the
      coefficient of variation never divides by zero) and the variance is
      non-negative (its square root exists). */
  lemma SpacedStats(spikeTimes: seq<real>)
    requires Spaced(spikeTimes) && |spikeTimes| >= 2
    ensures StatsOf(spikeTimes).Stats?
    ensures forall k :: 0 <= k < |StatsOf(spikeTimes).isis| ==> StatsOf(spikeTimes).isis[k] > RefractoryGap
    ensures StatsOf(spikeTimes).mean > RefractoryGap
    ensures StatsOf(spikeTimes).variance >= 0.0
  {
    var isis := Diff(spikeTimes);
    forall k | 0 <= k < |isis| ensures isis[k] > RefractoryGap {
      assert isis[k] == spikeTimes[k + 1] - spikeTimes[k];
    }
    MeanAbove(isis, RefractoryGap);
    SquaredDeviationsNonNegative(isis, Mean(isis));
  }

  /** The whole analysis of one trace: detect the spikes, then report too few
      spikes, or the intervals with their mean and variance. */
  method ComputeIsiStats(v: seq<real>, threshold: real, dt: real) returns (r: IsiStats)
    ensures r == StatsOf(SpikeTimes(v, threshold, dt))
    ensures r.InsufficientSpikes? <==> |SpikeTimes(v, threshold, dt)| < 2
    ensures r.Stats? ==> forall k :: 0 <= k < |r.isis| ==> r.isis[k] > RefractoryGap
    ensures r.Stats? ==> r.mean > RefractoryGap && r.variance >= 0.0
  {
    var spikeTimes := DetectSpikeTimes(v, threshold, dt);
    if |spikeTimes| < 2 {
      return InsufficientSpikes;
    }
    var isis := Diff(spikeTimes);
    r := Stats(isis, Mean(isis), Variance(isis));
    SpacedStats(spikeTimes);
  }

  /** A trace with a single peak yields too few spikes, not a division by zero. */
  lemma SinglePeakInsufficient()
    ensures StatsOf(SpikeTimes([0.0, 1.0, 0.0], DefaultThreshold, Dt)) == InsufficientSpikes
  {
  }
}
