# Probability-series event detection, modelled in Dafny

The modelled program turns a one-dimensional series of probability values
(model confidence scores sampled over time) into discrete events. It has two
functions, both in `src/detect.py`:

- `smooth_moving_avg(x, window)` is a moving-average smoother. It pads both
  ends of `x` by repeating the edge sample `window // 2` times. It then takes
  a "valid" convolution with a uniform kernel of `window` weights `1/window`.
- `detect_event_windows(prob_series, enter_thr, exit_thr, peak_thr)` makes one
  pass over the series with a two-state machine (idle / in an event):
  - An event starts at a sample that reaches `enter_thr`.
  - It collects every later sample and closes at the first later sample below
    `exit_thr`.
  - It is reported only if its running maximum reached `peak_thr`.
  - An event still open at the end of the series is closed at the last index.
  - Each report carries `start`, `end`, the maximum, the mean and the
    trapezoidal area of the samples from `start` to `end`.

All values, thresholds and statistics are Dafny `real`s (exact arithmetic).
Python's default arguments (`window=5`; `enter_thr=0.15`, `exit_thr=0.15`,
`peak_thr=0.5`) are the constants `Smoothing.DefaultWindow` and
`Detection.DefaultThresholds`. Dafny has no default parameters, so callers
pass these values explicitly.

Files:

- `stats.dfy` (module `Stats`): what Python's `max`, `np.mean` and `np.trapz`
  mean here (`Max`, `Sum`, `Mean`, `SeqMax`, `Trapz`), with their properties.
- `smoothing.dfy` (module `Smoothing`): the smoother as a pure function.
  - `EdgePad` models `np.pad(..., mode='edge')`.
  - `ConvolveValid` models `np.convolve(..., mode='valid')`, with the kernel
    reversed as numpy applies it.
  - `SmoothMovingAvg` composes the two.
  - `ClampedWindowSum` is an independent reference definition of the window
    sum, used to state what each output is.
- `detection.dfy` (modules `Detection`, `DetectionScenarios`): the detector.
  - `Detect` is the pure specification. `Scan` folds `Step` over the first
    `n` samples, and `Finish` performs the end-of-series step.
  - `DetectWindows` is the imperative loop as the source writes it, with
    `inEvent`, `start`, `maxVal`, `runningVals` and `events`. It is proved to
    return `Detect`.
  - The lemmas state what `Detect`'s output satisfies.
  - `DetectionScenarios` checks five concrete series against the
    specification.

## Model

Slices are written as in Dafny: `s[a..b]` holds `s[a]` up to `s[b-1]`, so
the samples of an event are `series[start..end + 1]` (inclusive of `end`).

| member | source | states |
|---|---|---|
| Stats.Max | src/detect.py:31 | Python's two-argument `max`: the result is at least both arguments and equals one of them |
| Stats.SeqMax | src/detect.py:26-31 | the running maximum of a non-empty buffer is one of its elements and is at least every element |
| Stats.SumSplit | src/detect.py:35 | the sum behind `np.mean` splits at any index into the sums of the two parts |
| Stats.Mean | src/detect.py:35 | `np.mean` of a non-empty buffer: the mean times the number of samples is their sum |
| Stats.MeanAtMost | src/detect.py:35 | `np.mean` of samples that are all at most `hi` is at most `hi` |
| Stats.MeanAtLeast | src/detect.py:35 | `np.mean` of samples that are all at least `lo` is at least `lo` |
| Stats.Trapz | src/detect.py:36 | `np.trapz` with unit spacing is 0 for fewer than two samples and non-negative for non-negative samples |
| Stats.TrapzIsSumMinusHalfEnds | src/detect.py:36 | `np.trapz` with unit spacing equals the plain sum minus half of the first and half of the last sample (so one sample gives 0) |
| Smoothing.EdgePad | src/detect.py:6-7 | edge padding by `p` on both sides has length `|x| + 2p`, and position `j` holds `x[clamp(j - p, 0, |x|-1)]` |
| Smoothing.UniformKernel | src/detect.py:8 | `np.ones(window) / window` has `window` weights, each `1/window` |
| Smoothing.UniformKernelSumsToOne | src/detect.py:8 | the kernel's weights add up to 1 |
| Smoothing.ConvolveValid | src/detect.py:9 | `np.convolve(..., mode='valid')` of a signal with a kernel no longer than it has `|signal| - |kernel| + 1` outputs |
| Smoothing.UniformFlippedDot | src/detect.py:8-9 | with all kernel weights equal to `c`, each term of `np.convolve` is `c` times the plain sum of the covered samples, so the kernel reversal does not matter |
| Smoothing.EdgePadWindowSum | src/detect.py:7 | the sum over a slice of the padded signal is the sum of `x` at the clamped positions |
| Smoothing.SmoothMovingAvg | src/detect.py:5-9 | output length is `|x|` for an odd window and `|x| + 1` for an even window (`window >= 1`, `|x| >= 1`) |
| Smoothing.SmoothAtPadded | src/detect.py:6-9 | output `i` is `1/window` times the sum of `padded[i..i + window]` |
| Smoothing.SmoothAt | src/detect.py:6-9 | output `i` is the sum of `x[clamp(i + k - window/2, 0, |x|-1)]` for `k` in `0 .. window-1`, divided by `window` |
| Smoothing.SmoothWindowOne | src/detect.py:5-9 | a window of 1 returns `x` unchanged |
| Smoothing.SmoothConstant | src/detect.py:5-9 | a constant input is smoothed to the same constant at every output position, for every window and length |
| Smoothing.SmoothFiveOnes | src/detect.py:5-9 | five ones smoothed with the default window (`DefaultWindow`, 5) give five ones |
| Smoothing.SmoothEvenWindowOverlong | src/detect.py:6-9 | `[0, 1]` smoothed with window 2 gives `[0, 0.5, 1]`: three outputs for two inputs |
| Smoothing.SmoothSameLength | src/detect.py:5-9 | the corrected smoother returns exactly `|x|` outputs; each is the clamped window mean, and for odd windows it equals the as-written one |
| Detection.Summarise | src/detect.py:35-43 | the reported record keeps `start`, `end` and `max_prob`; a one-sample event has that sample as its mean and area 0; the mean never exceeds a maximum that bounds every sample |
| Detection.Step | src/detect.py:24-44 | one iteration only appends to `events`, at most one record, and only when a sample below `exit_thr` ends an open event; that record ends at the current index and the detector is idle afterwards |
| Detection.Finish | src/detect.py:46-56 | the finalisation appends at most one record, and only for an open event whose maximum reached `peak_thr`; that record summarises the open buffer with the given last index as its end; conversely, an open event whose maximum reached `peak_thr` is always appended |
| Detection.Scan | src/detect.py:23-44 | after the first `n` samples, an open event started before `n` and its buffer holds exactly the samples from its start up to `n` |
| Detection.Detect | src/detect.py:23-58 | an empty series yields no events |
| Detection.DetectWindows | src/detect.py:16-58 | the loop with in-place updates of `in_event`, `start`, `max_val`, `running_vals` and `events`, plus the finalisation step, returns exactly `Detect` |
| Detection.StepFromIdle | src/detect.py:24-28 | from idle, a sample at or above `enter_thr` opens an event at its index with that sample as buffer and maximum; a lower one leaves the detector idle; events are unchanged; the scan invariant is kept |
| Detection.ExtendBuffer | src/detect.py:30-31 | appending sample `n` to the buffer of an event started at `s` gives `series[s..n + 1]`, and `max(max_val, val)` is that buffer's maximum |
| Detection.StepStay | src/detect.py:29-31 | inside an event, a sample at or above `exit_thr` keeps the event open with the buffer `series[start..n + 1]` and its maximum as running maximum; events are unchanged; the scan invariant is kept |
| Detection.StepCloseReport | src/detect.py:32-44 | a sample below `exit_thr` that closes an event whose maximum reached `peak_thr` makes the detector idle and appends exactly the summary of `series[start..n + 1]` ending at `n`; the scan invariant (every event property, disjointness) is kept |
| Detection.StepCloseDiscard | src/detect.py:32-44 | a sample below `exit_thr` that closes an event whose maximum stayed below `peak_thr` makes the detector idle with the events unchanged; the scan invariant is kept |
| Detection.ScanInvariant | src/detect.py:23-44 | after every prefix, reported events are well formed and disjoint, and the open event (if any) matches its buffer, maximum and thresholds |
| Detection.DetectHolds | src/detect.py:16-58 | the output satisfies every event property, how-events-end, disjointness and coverage together |
| Detection.DetectEventBounds | src/detect.py:24-52 | every event has `0 <= start <= end <= |series|-1`; every event but the last was closed by the exit threshold, with `start < end` and `series[end] < exit_thr`; each event is closed that way or ends at the last index |
| Detection.DetectBoundaryThresholds | src/detect.py:24-52 | `series[start] >= enter_thr`, the detector was idle just before `start` (`Scan` of the first `start` samples is idle), and so `start` is 0 or its predecessor is below `enter_thr` or `exit_thr`; every sample strictly between `start` and `end` is `>= exit_thr`; the event either closed by exit (`start < end`, `series[end] < exit_thr`) or was finalised (`end = |series|-1`, every sample after `start` is `>= exit_thr`) |
| Detection.ScanEntries | src/detect.py:24-44 | after every prefix, an idle detector has just seen a sample below `enter_thr` or `exit_thr`, and the open event and every reported event start at a sample before which the detector was idle |
| Detection.DetectEntryAfterIdle | src/detect.py:24-25 | every event starts at a sample before which the detector was idle, so never at a later sample of an excursion already under way, also when `enter_thr` and `exit_thr` differ; hence `start` is 0 or follows a sample below `enter_thr` or `exit_thr` |
| Detection.DetectOrdered | src/detect.py:24-44 | events are strictly ordered and disjoint: for every earlier event `k` and later event `l`, `events[k].end < events[l].start` |
| Detection.DetectPeakGate | src/detect.py:26-47 | each event's `max_prob` is the maximum of `series[start..end + 1]` and is `>= peak_thr` |
| Detection.DetectStatistics | src/detect.py:27-49 | each event's `mean_prob` is the mean and `area_under_curve` the trapezoidal area of `series[start..end + 1]`; the mean never exceeds `max_prob` |
| Detection.DetectCoversConfident | src/detect.py:24-47 | every sample reaching both `enter_thr` and `peak_thr` lies inside some reported event |
| Detection.EventReachesPeak | src/detect.py:31-34 | a reported event contains a sample at or above `peak_thr` |
| Detection.DetectReachesPeak | src/detect.py:34-47 | if anything is reported, some sample reached `peak_thr` |
| Detection.DetectEmptyBelowPeak | src/detect.py:34-47 | if no sample reaches `peak_thr`, nothing is reported, whatever excursions cross the enter and exit thresholds |
| DetectionScenarios.SingleExcursion | src/detect.py:16-58 | `[0, 0.2, 0.6, 0.1, 0]` with the default thresholds (`DefaultThresholds`, 0.15/0.15/0.5) gives one event: start 1, end 3, max 0.6, mean 0.3, area 0.75 |
| DetectionScenarios.ExcursionFromFirstSample | src/detect.py:16-58 | `[0.2, 0.3, 0.6, 0.1]` with the default thresholds gives one event from index 0 to 3: max 0.6, mean 0.3, area 1.05 |
| DetectionScenarios.HysteresisKeepsEntry | src/detect.py:24-44 | with thresholds 0.5/0.1/0.55, `[0.52, 0.3, 0.6, 0.05]` gives one event from index 0 to 3 (max 0.6, mean 0.3675, area 1.185): the dip below `enter_thr` inside the event does not restart it |
| DetectionScenarios.OpenExcursionBelowPeak | src/detect.py:46-47 | `[0.2, 0.3, 0.2]` with the default thresholds (peak 0.5) reports nothing: the series ends inside an excursion whose maximum 0.3 stays below the peak threshold |
| DetectionScenarios.OpenExcursionFinalised | src/detect.py:46-56 | `[0.2, 0.3, 0.2]` with peak 0.25 gives one finalised event: start 0, end 2, max 0.3, mean 0.7/3, area 0.5 |

## Left out

- Floating-point rounding and IEEE special values (NaN comparisons, infinities) are not modelled; every value is an exact `real`.
- The `-np.inf` initial value of `max_val` and the `None` initial value of `start` are modelled as `0.0` and `0`. Neither is read while the detector is idle.
- numpy internals (`np.pad`, `np.ones`, `np.convolve`, `np.mean`, `np.trapz`) are modelled only by their mathematical meaning as used here.
- `np.convolve` swaps its arguments when the kernel is longer than the signal. That case cannot arise, because the padded signal is never shorter than the window. Only the kernel-not-longer case is modelled.
- Smoothing.SmoothMovingAvg: requires `|x| >= 1` and `window >= 1`. For an empty `x`, `np.pad` or `np.convolve` raises an error. A window below 1 also raises, so those inputs have no result to model.
- The unused `scipy.ndimage.uniform_filter1d` import is not modelled. It is a foreign library call with no effect.
- Event records are a datatype instead of a dictionary. The key names have no behaviour.
- Parameter validation (rejecting a non-positive window or non-finite thresholds with an error) is not modelled. The code performs no such validation.
- For an even window the smoother returns one sample more than its input. The model keeps that behaviour (see Findings).

## Findings

| source | as written | input that shows it | evidently intended | confidence | as-written member | corrected member |
|---|---|---|---|---|---|---|
| src/detect.py:6-9 | padding `window // 2` on both sides and a valid convolution give `|x| + 1` outputs for an even window, each centred half a sample early | `x = [0, 1]`, `window = 2` gives `[0, 0.5, 1]` (three outputs for two samples) | one smoothed sample per input sample, as for odd windows | medium; not executed | Smoothing.SmoothEvenWindowOverlong | Smoothing.SmoothSameLength |
