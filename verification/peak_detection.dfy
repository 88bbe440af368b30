/** Local-maximum spike detection with a refractory gap, run over a recorded
    voltage trace (the Hindmarsh-Rose x-variable sampled once per step).
    A trace is a sequence of reals; sample i lies at time i * dt. */
module PeakDetection {

  /** Least time, in the trace's time units, between two accepted spikes. */
  const RefractoryGap: real := 5.0

  /** Threshold used when the caller gives none. */
  const DefaultThreshold: real := 0.0

  /** Step size of the Hindmarsh-Rose simulations whose traces are analysed. */
  const Dt: real := 0.01

  /** Time of sample i. */
  function TimeOf(i: int, dt: real): real
  {
    i as real * dt
  }

  /** Sample i is interior, above the threshold and strictly above both neighbours. */
  predicate IsPeak(v: seq<real>, threshold: real, i: int)
  {
    1 <= i < |v| - 1 && v[i] > threshold && v[i] > v[i - 1] && v[i] > v[i + 1]
  }

  /** A candidate at sample i may follow the spikes accepted so far: there is
      none yet, or the latest lies more than the refractory gap before it. */
  predicate OutsideGap(accepted: seq<int>, i: int, dt: real)
  {
    |accepted| == 0 || TimeOf(i, dt) - TimeOf(accepted[|accepted| - 1], dt) > RefractoryGap
  }

  /** Indices of the spikes accepted once the scan has visited samples 1 .. n-1. */
  function AcceptedBefore(v: seq<real>, threshold: real, dt: real, n: int): seq<int>
    decreases n
  {
    if n <= 1 then []
    else
      var prev := AcceptedBefore(v, threshold, dt, n - 1);
      if IsPeak(v, threshold, n - 1) && OutsideGap(prev, n - 1, dt) then prev + [n - 1] else prev
  }

  /** Indices of all accepted spikes: the scan visits every interior sample. */
  function SpikeIndices(v: seq<real>, threshold: real, dt: real): seq<int>
  {
    AcceptedBefore(v, threshold, dt, |v| - 1)
  }

  /** Times of the given sample indices. */
  function TimesOf(indices: seq<int>, dt: real): seq<real>
  {
    seq(|indices|, k requires 0 <= k < |indices| => TimeOf(indices[k], dt))
  }

  /** Times of all accepted spikes. */
  function SpikeTimes(v: seq<real>, threshold: real, dt: real): seq<real>
  {
    TimesOf(SpikeIndices(v, threshold, dt), dt)
  }

  /** Consecutive times differ by more than the refractory gap. */
  predicate Spaced(times: seq<real>)
  {
    forall k :: 0 <= k < |times| - 1 ==> times[k + 1] - times[k] > RefractoryGap
  }

  /** The detector: scans the interior samples in order, appending the time of
      every peak that lies more than the refractory gap after the latest
      accepted spike. */
  method DetectSpikeTimes(v: seq<real>, threshold: real, dt: real) returns (spikeTimes: seq<real>)
    ensures spikeTimes == SpikeTimes(v, threshold, dt)
    ensures Spaced(spikeTimes)
  {
    spikeTimes := [];
    ghost var indices: seq<int> := [];
    var i := 1;
    while i < |v| - 1
      invariant 1 <= i && (i <= |v| - 1 || i == 1)
      invariant indices == AcceptedBefore(v, threshold, dt, i)
      invariant spikeTimes == TimesOf(indices, dt)
    {
      assert |indices| > 0 ==> spikeTimes[|spikeTimes| - 1] == TimeOf(indices[|indices| - 1], dt);
      if v[i] > threshold && v[i] > v[i - 1] && v[i] > v[i + 1] {
        if |spikeTimes| == 0 || i as real * dt - spikeTimes[|spikeTimes| - 1] > RefractoryGap {
          assert TimesOf(indices + [i], dt) == TimesOf(indices, dt) + [TimeOf(i, dt)];
          spikeTimes := spikeTimes + [i as real * dt];
          indices := indices + [i];
        }
      }
      i := i + 1;
    }
    SpikeTimesSpaced(v, threshold, dt);
  }

  // ---------------------------------------------------------------------
  // Properties of the scan after n samples
  // ---------------------------------------------------------------------

  /** Every accepted index is a peak the scan has already visited. */
  lemma {:induction false} AcceptedArePeaks(v: seq<real>, threshold: real, dt: real, n: int)
    ensures forall k :: 0 <= k < |AcceptedBefore(v, threshold, dt, n)| ==>
      IsPeak(v, threshold, AcceptedBefore(v, threshold, dt, n)[k]) &&
      AcceptedBefore(v, threshold, dt, n)[k] < n
  {
    if n > 1 {
      AcceptedArePeaks(v, threshold, dt, n - 1);
    }
  }

  /** Accepted indices increase strictly, and consecutive accepted times are
      more than the refractory gap apart. */
  lemma {:induction false} AcceptedIncreasing(v: seq<real>, threshold: real, dt: real, n: int)
    ensures forall k :: 0 <= k < |AcceptedBefore(v, threshold, dt, n)| - 1 ==>
      AcceptedBefore(v, threshold, dt, n)[k] < AcceptedBefore(v, threshold, dt, n)[k + 1] &&
      TimeOf(AcceptedBefore(v, threshold, dt, n)[k + 1], dt) - TimeOf(AcceptedBefore(v, threshold, dt, n)[k], dt) > RefractoryGap
  {
    if n > 1 {
      AcceptedIncreasing(v, threshold, dt, n - 1);
      AcceptedArePeaks(v, threshold, dt, n - 1);
    }
  }

  /** Position k holds the latest accepted index before sample i, and sample i
      lies within the refractory gap after it. */
  predicate ShadowedBy(accepted: seq<int>, i: int, dt: real, k: int)
  {
    0 <= k < |accepted| && accepted[k] < i && (k == |accepted| - 1 || i < accepted[k + 1]) &&
    TimeOf(i, dt) - TimeOf(accepted[k], dt) <= RefractoryGap
  }

  /** A visited peak is rejected only when it lies within the refractory gap
      after the most recently accepted spike. */
  lemma {:induction false} RejectedAreShadowed(v: seq<real>, threshold: real, dt: real, n: int)
    ensures forall i :: 1 <= i < n && IsPeak(v, threshold, i) && i !in AcceptedBefore(v, threshold, dt, n) ==>
      exists k :: ShadowedBy(AcceptedBefore(v, threshold, dt, n), i, dt, k)
  {
    if n > 1 {
      var prev := AcceptedBefore(v, threshold, dt, n - 1);
      var cur := AcceptedBefore(v, threshold, dt, n);
      RejectedAreShadowed(v, threshold, dt, n - 1);
      AcceptedArePeaks(v, threshold, dt, n - 1);
      forall i | 1 <= i < n && IsPeak(v, threshold, i) && i !in cur
        ensures exists k :: ShadowedBy(cur, i, dt, k)
      {
        if i == n - 1 {
          assert cur == prev;
          assert ShadowedBy(cur, i, dt, |prev| - 1);
        } else {
          assert i !in prev;
          var k :| ShadowedBy(prev, i, dt, k);
          assert ShadowedBy(cur, i, dt, k);
        }
      }
    }
  }

  // ---------------------------------------------------------------------
  // Properties of the detector's result
  // ---------------------------------------------------------------------

  /** Every spike time is i * dt for an interior peak i; so a trace of fewer
      than three samples has no spikes. */
  lemma SpikeTimesAtPeaks(v: seq<real>, threshold: real, dt: real)
    ensures |SpikeTimes(v, threshold, dt)| == |SpikeIndices(v, threshold, dt)|
    ensures forall k :: 0 <= k < |SpikeIndices(v, threshold, dt)| ==>
      1 <= SpikeIndices(v, threshold, dt)[k] <= |v| - 2 &&
      IsPeak(v, threshold, SpikeIndices(v, threshold, dt)[k]) &&
      SpikeTimes(v, threshold, dt)[k] == TimeOf(SpikeIndices(v, threshold, dt)[k], dt)
    ensures |v| < 3 ==> SpikeTimes(v, threshold, dt) == []
  {
    AcceptedArePeaks(v, threshold, dt, |v| - 1);
  }

  /** Any two spike times, not only neighbours, are more than the refractory
      gap apart; hence the spike times increase strictly. */
  lemma SpikeTimesSpaced(v: seq<real>, threshold: real, dt: real)
    ensures Spaced(SpikeTimes(v, threshold, dt))
    ensures forall a, b :: 0 <= a < b < |SpikeTimes(v, threshold, dt)| ==>
      SpikeTimes(v, threshold, dt)[b] - SpikeTimes(v, threshold, dt)[a] > RefractoryGap
    ensures forall a, b :: 0 <= a < b < |SpikeIndices(v, threshold, dt)| ==>
      SpikeIndices(v, threshold, dt)[a] < SpikeIndices(v, threshold, dt)[b]
  {
    var indices := SpikeIndices(v, threshold, dt);
    var times := SpikeTimes(v, threshold, dt);
    AcceptedIncreasing(v, threshold, dt, |v| - 1);
    SpacedIsPairwise(times);
    IncreasingIsPairwise(indices);
  }

  /** The first peak of the trace is always accepted, as the first spike. */
  lemma FirstPeakAccepted(v: seq<real>, threshold: real, dt: real, first: int)
    requires IsPeak(v, threshold, first)
    requires forall j :: 1 <= j < first ==> !IsPeak(v, threshold, j)
    ensures |SpikeTimes(v, threshold, dt)| > 0
    ensures SpikeIndices(v, threshold, dt)[0] == first
    ensures SpikeTimes(v, threshold, dt)[0] == TimeOf(first, dt)
  {
    var indices := SpikeIndices(v, threshold, dt);
    AcceptedArePeaks(v, threshold, dt, |v| - 1);
    // no spike precedes the first peak, so nothing can shadow it
    assert forall k :: 0 <= k < |indices| ==> indices[k] >= first;
    assert forall k :: !ShadowedBy(indices, first, dt, k);
    RejectedAreShadowed(v, threshold, dt, |v| - 1);
    assert first in indices;
    var p :| 0 <= p < |indices| && indices[p] == first;
    SpikeTimesSpaced(v, threshold, dt);
    assert indices[0] <= indices[p];
  }

  /** Every peak that is not a spike lies within the refractory gap after the
      spike accepted most recently before it. */
  lemma RejectedPeakShadowed(v: seq<real>, threshold: real, dt: real, i: int)
    requires IsPeak(v, threshold, i)
    requires i !in SpikeIndices(v, threshold, dt)
    ensures exists k :: ShadowedBy(SpikeIndices(v, threshold, dt), i, dt, k)
  {
    RejectedAreShadowed(v, threshold, dt, |v| - 1);
  }

  /** Of a spike and a later sample no more than the refractory gap after it,
      the earlier is kept and the later is not a spike. */
  lemma LaterCloseSampleRejected(v: seq<real>, threshold: real, dt: real, i: int, j: int)
    requires i in SpikeIndices(v, threshold, dt)
    requires i < j && TimeOf(j, dt) - TimeOf(i, dt) <= RefractoryGap
    ensures j !in SpikeIndices(v, threshold, dt)
  {
    var indices := SpikeIndices(v, threshold, dt);
    SpikeTimesSpaced(v, threshold, dt);
    var times := SpikeTimes(v, threshold, dt);
    var a :| 0 <= a < |indices| && indices[a] == i;
    forall b | 0 <= b < |indices| ensures indices[b] != j {
      if a < b {
        assert times[b] - times[a] > RefractoryGap;
      }
    }
  }

  /** Two maxima 0.02 time units apart give exactly one spike, the first. */
  lemma CloseMaximaGiveOneSpike()
    ensures SpikeTimes([0.0, 1.0, 0.5, 1.0, 0.0], DefaultThreshold, Dt) == [0.01]
  {
    var v := [0.0, 1.0, 0.5, 1.0, 0.0];
    assert IsPeak(v, DefaultThreshold, 1) && !IsPeak(v, DefaultThreshold, 2) && IsPeak(v, DefaultThreshold, 3);
    assert AcceptedBefore(v, DefaultThreshold, Dt, 2) == [1];
    assert AcceptedBefore(v, DefaultThreshold, Dt, 3) == [1];
    assert AcceptedBefore(v, DefaultThreshold, Dt, 4) == [1];
  }

  // ---------------------------------------------------------------------
  // From neighbours to all pairs
  // ---------------------------------------------------------------------

  lemma {:induction false} SpacedIsPairwise(times: seq<real>)
    requires Spaced(times)
    ensures forall a, b :: 0 <= a < b < |times| ==> times[b] - times[a] > RefractoryGap
  {
    if |times| > 1 {
      var init := times[..|times| - 1];
      SpacedIsPairwise(init);
      forall a, b | 0 <= a < b < |times| ensures times[b] - times[a] > RefractoryGap {
        if b < |times| - 1 {
          assert times[b] - times[a] == init[b] - init[a];
        } else if a < b - 1 {
          assert times[b - 1] - times[a] > RefractoryGap;
        }
      }
    }
  }

  lemma {:induction false} IncreasingIsPairwise(s: seq<int>)
    requires forall k :: 0 <= k < |s| - 1 ==> s[k] < s[k + 1]
    ensures forall a, b :: 0 <= a < b < |s| ==> s[a] < s[b]
  {
    if |s| > 1 {
      var init := s[..|s| - 1];
      IncreasingIsPairwise(init);
      forall a, b | 0 <= a < b < |s| ensures s[a] < s[b] {
        if b < |s| - 1 {
          assert s[a] == init[a] && s[b] == init[b];
        } else if a < b - 1 {
          assert s[a] == init[a] && s[b - 1] == init[b - 1];
        }
      }
    }
  }
}
