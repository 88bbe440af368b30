# Spike detection over simulated neuron traces

The workshop scripts simulate Hindmarsh-Rose (HR) and Hodgkin-Huxley (HH)
neurons with the `neun_py` library and then analyse the recorded voltage
traces. The only logic the scripts implement themselves is that analysis,
and this project models it:

- `PeakDetection` (`peak_detection.dfy`) models the local-maximum detector of
  `compute_ISI_stats_HR`. It scans the interior samples of an HR trace. An
  interior sample above the threshold and strictly above both neighbours is
  a peak. A peak is accepted when no spike has been accepted yet, or when it
  lies more than 5 time units after the latest accepted spike. Its time is
  `i * dt`. The method `DetectSpikeTimes` appends to a local sequence inside a
  `while` loop, as the source appends to its list. It is proved equal to the
  recursive specification `SpikeTimes`, and the lemmas state what the source
  promises about that specification.
- `IsiStatistics` (`isi_statistics.dfy`) models the rest of
  `compute_ISI_stats_HR`. With fewer than two spikes the result is
  `InsufficientSpikes`, which stands for `(None, None)`. Otherwise the result
  holds the inter-spike intervals (numpy's `diff`) with their mean and their
  population variance. The coefficient of variation is the square root of
  that variance divided by the mean.
- `FiCurve` (`fi_curve.dfy`) models the F-I curve loop of the HH script.
  Starting from the reset voltage of -80 mV, it counts the steps whose
  previous voltage is below 0 and whose current voltage is at or above 0.
  The count is turned into a rate in Hz by dividing by `T / 1000`, with
  `T = 500` ms. `CountSpikes` keeps the source's `spike_count` and `prev_V`
  as loop variables. Its loop invariant says that `prev_V` is always the
  latest post-step voltage.

Traces are inputs: a sequence of `real` values, one per integration step.
Arithmetic is exact over `real`.

Choices the model makes, following the code:

- The refractory gap is the fixed constant 5, not a parameter.
- The CV computation has no zero-mean guard. The model proves that the guard
  is never needed, because the mean interval exceeds 5.
- The threshold defaults to 0.0 and `dt` is the script's global 0.01 (the
  constants `DefaultThreshold` and `Dt`). Both are parameters of the model's
  operations.
- `dt` needs no sign condition. Accepted times are more than 5 apart in
  scan order whatever `dt` is, so they increase strictly.

## Model

| member | source | states |
|---|---|---|
| `PeakDetection.DetectSpikeTimes` | src/cv-isis.py:53-61 | the loop's list of spike times equals the specification `SpikeTimes`, and consecutive times are more than 5 apart |
| `PeakDetection.AcceptedArePeaks` | src/cv-isis.py:57-61 | after visiting samples 1..n-1, every accepted index is below n, interior, above the threshold and strictly above both neighbours |
| `PeakDetection.AcceptedIncreasing` | src/cv-isis.py:57-61 | after n samples, accepted indices increase strictly and consecutive accepted times differ by more than the refractory gap |
| `PeakDetection.RejectedAreShadowed` | src/cv-isis.py:58-61 | after n samples, every visited peak that was not accepted lies no more than 5 after the spike accepted most recently before it |
| `PeakDetection.SpikeTimesAtPeaks` | src/cv-isis.py:57-61 | each spike time is `i*dt` for a peak index `1 <= i <= len(V)-2`; a trace of fewer than 3 samples has no spikes |
| `PeakDetection.SpikeTimesSpaced` | src/cv-isis.py:59-61 | any two spike times, not only neighbours, are more than 5 apart, and spike indices increase strictly |
| `PeakDetection.FirstPeakAccepted` | src/cv-isis.py:60-61 | the first peak of the trace is always accepted, as the first spike, at time `first*dt` |
| `PeakDetection.RejectedPeakShadowed` | src/cv-isis.py:59-61 | a peak that is not a spike lies no more than 5 after the most recently accepted spike before it |
| `PeakDetection.LaterCloseSampleRejected` | src/cv-isis.py:59-61 | of an accepted spike and a later sample no more than 5 after it, the earlier is kept and the later is not a spike |
| `PeakDetection.CloseMaximaGiveOneSpike` | src/cv-isis.py:57-61 | two maxima 0.02 apart with `dt = 0.01` give exactly one spike, at the first |
| `IsiStatistics.Diff` | src/cv-isis.py:66 | the intervals number one fewer than the spike times, and interval k is `t[k+1] - t[k]` |
| `IsiStatistics.StatsOf` | src/cv-isis.py:63-67 | "insufficient spikes" exactly when fewer than 2 spikes; otherwise `len-1` intervals, interval k being `t[k+1] - t[k]` |
| `IsiStatistics.Mean` | src/cv-isis.py:67 | the mean of the intervals (`np.mean`) lies between the smallest and the largest interval |
| `IsiStatistics.Variance` | src/cv-isis.py:67 | the population variance of the intervals (the square of `np.std`, ddof = 0) is non-negative, and zero when all intervals are equal |
| `IsiStatistics.SumOfDiff` | src/cv-isis.py:66 | the intervals add up to the span from the first to the last spike time |
| `IsiStatistics.MeanIsiIsSpanOverCount` | src/cv-isis.py:66-67 | the mean interval is `(t_last - t_first) / (n - 1)` |
| `IsiStatistics.MeanAbove` | src/cv-isis.py:67 | the mean of values each above a bound is above that bound |
| `IsiStatistics.SquaredDeviationsNonNegative` | src/cv-isis.py:67 | the sum of squared deviations behind `np.std` is non-negative |
| `IsiStatistics.SpacedStats` | src/cv-isis.py:60-67 | for at least two spike times more than 5 apart, every interval and the mean exceed 5, so the CV division is never by zero, and the variance is non-negative |
| `IsiStatistics.ComputeIsiStats` | src/cv-isis.py:53-69 | the result is the statistics of the detected spike times; "insufficient spikes" iff fewer than 2 spikes; otherwise every interval and the mean exceed 5 and the variance is non-negative |
| `IsiStatistics.SinglePeakInsufficient` | src/cv-isis.py:63-64 | a trace with a single peak yields "insufficient spikes", not a division by zero |
| `FiCurve.CrossingCount` | src/fr-i-curve.py:45-58 | the count of upward zero-crossing steps starts at 0, grows by at most one per step, and so never exceeds the number of steps |
| `FiCurve.CountSpikes` | src/fr-i-curve.py:44-58 | starting from -80 mV, the loop's count equals the number of upward zero-crossing steps, which is at most half the steps rounded up |
| `FiCurve.FiringRate` | src/fr-i-curve.py:60 | the rate is non-negative and, multiplied by the duration in seconds, gives back the spike count |
| `FiCurve.FiringRateOf` | src/fr-i-curve.py:44-60 | the firing rate of one trace is the crossing count over 0.5 s, which is twice the count |
| `FiCurve.FiringRates` | src/fr-i-curve.py:43-61 | one rate per injected current, in order, each from its own trace counted from the reset voltage |
| `FiCurve.CountExtends` | src/fr-i-curve.py:55-56 | one more step raises the count by one exactly when that step is a crossing, and by nothing otherwise |
| `FiCurve.CountIsCardinality` | src/fr-i-curve.py:48-58 | the step-by-step count equals the number of steps k with `prev < 0 <= V[k]`, where `prev` is `V[k-1]`, or the start voltage for k = 0 |
| `FiCurve.CountBound` | src/fr-i-curve.py:55-58 | a counted step is never followed by a counted step, so the count is at most `(n_steps + 1) / 2` |
| `FiCurve.CountZeroIff` | src/fr-i-curve.py:55-56 | the count is zero exactly when no step goes from below 0 to at or above 0 |
| `FiCurve.SubthresholdTraceNoSpikes` | src/fr-i-curve.py:55 | a trace that stays below 0 gives no spikes |

## Left out

- IsiStatistics.ComputeIsiStats: returns the mean and the population variance of the intervals instead of CV = std / mean. The square root in `np.std` has no exact counterpart over `real`. The model proves that the mean exceeds 5 and that the variance is non-negative, so the CV is always defined.
- IsiStatistics.StatsOf: returns the mean and the population variance of the intervals instead of CV = std / mean, for the same reason: the square root in `np.std` has no exact counterpart over `real`.
- The neuron models, their RK4 integration, the synaptic-input accumulator and the `set`/`get`/`set_param` calls belong to the `neun_py` library, whose source is not part of this model. The traces they produce are inputs here: the HR x-variable for the peak detector, and the HH voltage after each step for the crossing counter.
- The `simulate_HR` loop and the parameter and initial-condition helpers (src/cv-isis.py:16-48) only forward library calls.
- Floating-point rounding of `i*dt`, of `T/1000` and of `n_steps = int(T/dt)`. Times and rates are exact reals, and the number of steps is the length of the given trace.
- Generation of the input currents (`np.ones`, `np.random.randn`, `np.linspace`), plotting and printing.
- src/chaotic-regime.py, src/izhikevich.py, src/spike-generation.py and src/subthreshold-responses.py. They only set up library neurons and collect traces for plotting; the Izhikevich reset lives inside the library.
