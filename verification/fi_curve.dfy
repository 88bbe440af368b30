/** Firing-rate versus input-current (F-I) curve of a Hodgkin-Huxley neuron:
    spikes are upward crossings of 0 mV in the membrane-voltage trace, and
    the firing rate is the spike count over the simulated duration.
    Each trace holds the voltage read after every integration step; the
    integration itself happens outside this model. */
module FiCurve {

  /** Membrane voltage (mV) the neuron is reset to before every current. */
  const ResetVoltage: real := -80.0

  /** Simulated duration of one run, in ms. */
  const DurationMs: real := 500.0

  /** Voltage seen before step k: the reset voltage for the first step,
      otherwise the voltage after the previous step. */
  function VoltageBefore(v0: real, trace: seq<real>, k: int): real
    requires 0 <= k <= |trace|
  {
    if k == 0 then v0 else trace[k - 1]
  }

  /** Step k goes from below 0 to at or above 0. */
  predicate IsUpCrossing(v0: real, trace: seq<real>, k: int)
  {
    0 <= k < |trace| && VoltageBefore(v0, trace, k) < 0.0 && trace[k] >= 0.0
  }

  /** Number of upward crossings, counted step by step: each step adds at
      most one, so there are no more crossings than steps. */
  function CrossingCount(v0: real, trace: seq<real>): (count: nat)
    ensures count <= |trace|
  {
    if trace == [] then 0
    else
      var n := |trace| - 1;
      CrossingCount(v0, trace[..n]) + (if IsUpCrossing(v0, trace, n) then 1 else 0)
  }

  /** The steps that are upward crossings. */
  function CrossingSteps(v0: real, trace: seq<real>): set<int>
  {
    set k | 0 <= k < |trace| && IsUpCrossing(v0, trace, k)
  }

  /** Spikes per second for a count over a duration in ms. */
  function FiringRate(spikeCount: nat, durationMs: real): (rate: real)
    requires durationMs > 0.0
    ensures rate >= 0.0
    ensures rate * (durationMs / 1000.0) == spikeCount as real
  {
    spikeCount as real / (durationMs / 1000.0)
  }

  /** Counts the upward zero crossings of the trace, starting from the reset
      voltage, as the simulation loop does after each step. */
  method CountSpikes(trace: seq<real>) returns (spikeCount: nat)
    ensures spikeCount == CrossingCount(ResetVoltage, trace)
    ensures spikeCount == |CrossingSteps(ResetVoltage, trace)|
    ensures spikeCount <= (|trace| + 1) / 2
  {
    spikeCount := 0;
    var prevV := ResetVoltage;
    var step := 0;
    while step < |trace|
      invariant 0 <= step <= |trace|
      invariant prevV == VoltageBefore(ResetVoltage, trace, step)
      invariant spikeCount == CrossingCount(ResetVoltage, trace[..step])
    {
      var v := trace[step];
      if prevV < 0.0 && v >= 0.0 {
        spikeCount := spikeCount + 1;
      }
      prevV := v;
      step := step + 1;
      CountExtends(ResetVoltage, trace, step);
    }
    assert trace[..|trace|] == trace;
    CountIsCardinality(ResetVoltage, trace);
    CountBound(ResetVoltage, trace);
  }

  /** Firing rate of one trace, in Hz. */
  method FiringRateOf(trace: seq<real>) returns (rate: real)
    ensures rate == FiringRate(CrossingCount(ResetVoltage, trace), DurationMs)
    ensures rate == 2.0 * CrossingCount(ResetVoltage, trace) as real
  {
    var spikeCount := CountSpikes(trace);
    rate := spikeCount as real / (DurationMs / 1000.0);
  }

  /** The F-I curve: one firing rate per injected current, each from the trace
      simulated after resetting the neuron. */
  method FiringRates(traces: seq<seq<real>>) returns (firingRates: seq<real>)
    ensures |firingRates| == |traces|
    ensures forall j :: 0 <= j < |traces| ==>
      firingRates[j] == FiringRate(CrossingCount(ResetVoltage, traces[j]), DurationMs)
  {
    firingRates := [];
    for j := 0 to |traces|
      invariant |firingRates| == j
      invariant forall i :: 0 <= i < j ==>
        firingRates[i] == FiringRate(CrossingCount(ResetVoltage, traces[i]), DurationMs)
    {
      var rate := FiringRateOf(traces[j]);
      firingRates := firingRates + [rate];
    }
  }

  // ---------------------------------------------------------------------
  // Lemmas
  // ---------------------------------------------------------------------

  /** Counting one more step adds one exactly when that step is a crossing. */
  lemma CountExtends(v0: real, trace: seq<real>, n: int)
    requires 0 < n <= |trace|
    ensures CrossingCount(v0, trace[..n]) ==
      CrossingCount(v0, trace[..n - 1]) + (if IsUpCrossing(v0, trace, n - 1) then 1 else 0)
  {
    assert trace[..n][..n - 1] == trace[..n - 1];
    assert IsUpCrossing(v0, trace[..n], n - 1) == IsUpCrossing(v0, trace, n - 1);
  }

  /** The step-by-step count is the number of crossing steps. */
  lemma {:induction false} CountIsCardinality(v0: real, trace: seq<real>)
    ensures CrossingCount(v0, trace) == |CrossingSteps(v0, trace)|
  {
    if trace != [] {
      var n := |trace| - 1;
      var init := trace[..n];
      CountIsCardinality(v0, init);
      assert forall k :: 0 <= k < n ==> IsUpCrossing(v0, init, k) == IsUpCrossing(v0, trace, k);
      if IsUpCrossing(v0, trace, n) {
        assert CrossingSteps(v0, trace) == CrossingSteps(v0, init) + {n};
      } else {
        assert CrossingSteps(v0, trace) == CrossingSteps(v0, init);
      }
    }
  }

  /** A counted step leaves the voltage at or above 0, so the next step is
      never counted; hence at most one step in two is a spike. */
  lemma {:induction false} CountBound(v0: real, trace: seq<real>)
    ensures forall k :: IsUpCrossing(v0, trace, k) ==> !IsUpCrossing(v0, trace, k + 1)
    ensures CrossingCount(v0, trace) <= (|trace| + 1) / 2
  {
    if trace != [] {
      var n := |trace| - 1;
      CountBound(v0, trace[..n]);
      if IsUpCrossing(v0, trace, n) && n > 0 {
        CountBound(v0, trace[..n - 1]);
        CountExtends(v0, trace, n);
        assert !IsUpCrossing(v0, trace, n - 1);
      }
    }
  }

  /** No spike is counted exactly when no step goes from below 0 to at or
      above 0. */
  lemma {:induction false} CountZeroIff(v0: real, trace: seq<real>)
    ensures CrossingCount(v0, trace) == 0 <==> forall k :: 0 <= k < |trace| ==> !IsUpCrossing(v0, trace, k)
  {
    if trace != [] {
      var n := |trace| - 1;
      var init := trace[..n];
      CountZeroIff(v0, init);
      assert forall k :: 0 <= k < n ==> IsUpCrossing(v0, init, k) == IsUpCrossing(v0, trace, k);
    }
  }

  /** A trace that stays below 0 has no spikes. */
  lemma {:induction false} SubthresholdTraceNoSpikes(v0: real, trace: seq<real>)
    requires forall k :: 0 <= k < |trace| ==> trace[k] < 0.0
    ensures CrossingCount(v0, trace) == 0
  {
    CountZeroIff(v0, trace);
  }
}
