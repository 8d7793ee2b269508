# Peak finding and windowed sniffing frequency, modelled in Dafny

This project models the numeric core of a respiratory-signal toolkit for
mice:

- `peakfinder` (`signal_processing.py`) is a Python port of the MATLAB
  peakfinder. It validates its arguments and flips the signal for minima
  mode. Candidate extrema are the points where the first difference changes
  sign, optionally with the two endpoints. A scan loop keeps candidates
  that rise more than the selectivity above the candidate floor, an
  optional parabolic refinement adjusts each peak, and an optional strict
  threshold filters the result.
- The windowing loop of `compute_sniffing_frequency`
  (`frequency_analysis.py`) tiles the recording from sample 0 with
  `range(0, len - w, w)`, where `w` is `int(window_size * sampling_rate)`.
  It converts peak indices to times and emits one entry per window: 0 for
  fewer than two peaks, else the mean of the reciprocal inter-peak
  intervals. The peak indices are a parameter.

Files:

- `wrappers.dfy` defines `Option` and `Result`.
- `array_ops.dfy` (module `ArrayOps`) defines the numpy operations the core
  uses: `np.min`, `np.max`, negation, `np.diff`, `np.sum`, `np.mean`,
  `np.where` on a comparison, boolean-mask selection and integer-array
  indexing.
- `signal_processing.dfy` (module `SignalProcessing`) defines `peakfinder`:
  - the imperative scan loop `Scan`;
  - the in-place array refinement `Interpolate`;
  - the method `PeakFinder`, proved equal to the reference function
    `PeakFinderSpec`;
  - lemmas about `PeakFinderSpec`.
- `frequency_analysis.dfy` (module `FrequencyAnalysis`) defines the window
  loop `ComputeSniffingFrequency`, proved equal to the reference function
  `SniffingFrequencies`, plus lemmas about it.

Modelling choices:

- Samples, times and frequencies are exact `real`s; sample indices are
  `int`.
- A disabled threshold (the NaN the source uses) is `Option.None`.
- The exceptions are `Result.Err`, raised in the order the source raises
  them:
  - `np.max` of an empty array for the default selectivity;
  - an invalid `extrema`;
  - `x0[[0, -1]]` on an empty signal;
  - `np.min` of an empty candidate list;
  - `range` with step 0.

Where the code behaves differently from what its docstring
(signal_processing.py:34-56) and the usual reading of a peak finder
suggest, the model follows the code:

- Refinement reads the sign-flipped signal, because line 73 rebinds `x0`.
  In minima mode the refined magnitudes are therefore those of the negated
  signal, like the unrefined ones.
- The refined magnitude `mag + (x1-x3)^2 / (8*denom)` is not the parabola's
  vertex value. At a strict maximum with unequal neighbours it lies below
  the sample, while the vertex lies above it
  (`RefinedMagDropsAtStrictMaximum`, `RefinedMagExample`).
- With refinement, two peaks can share a location. Both samples of a
  plateau can be turns, and their refined locations can meet halfway
  between them: `[0, 1, 1, 2, 0]` with the defaults gives the locations
  `1.5, 1.5, 17/6` (`RefinedLocationsCanRepeat`). The refined locations
  are non-decreasing, not strictly increasing (`InterpolatedLocationsInRange`).
- `left_min` starts at the global minimum of the candidate values, so its
  update never fires (`LeftMinNeverUpdates`). The scan therefore emits
  each candidate, other than the last candidate, whose value exceeds that
  minimum by more than `sel`. "Peaks must be this much above surrounding
  data" suggests a running floor between peaks instead. Candidates are
  turns of either kind, so a valley that lies more than `sel` above the
  candidate minimum is reported as a peak too: `[0, 3, 2.5, 3.2, 0]` gives
  the locations `1, 2, 3` (`ValleyReportedAsPeak`).
- With the endpoints included, sample 0 is the first candidate and is
  reported whenever it lies more than `sel` above the candidate minimum,
  whether the signal rises or falls there. Two periods of a sine sampled
  four times per period, `[0, 1, 0, -1, 0, 1, 0, -1, 0]`, give three peaks,
  at `0, 1, 5` (`RisingStartReportedAsPeak`).
- The last candidate is never emitted, so a flat signal yields no peaks at
  all (`ConstantSignalHasNoPeaks`), not its two endpoints. Without the
  endpoints a flat signal has no candidate, and the call fails with
  `np.min` of an empty array (`ConstantSignalWithoutEndpointsFails`).
- For a positive window length `w` and a recording of `len >= 1` samples,
  `range(0, len - w, w)` yields `(len - 1) / w` windows, not the
  `floor(len / w)` that tiling the whole recording would give. An empty
  recording gives no window, and so does a negative `w`
  (`WindowCount`, `EntryCount`). A recording of exactly `m` windows gets
  `m - 1` (`CompleteFinalWindowDropped`). The final sample is never in any
  window (`WindowsEndBeforeLastSample`). In windows of 20 samples, 95
  samples give 4 windows and so do 100 samples (`WindowCountExamples`).
- The windowed frequency takes its peaks from `nk.signal_findpeaks`, not
  from `peakfinder`.

## Model

| member | source | states |
|---|---|---|
| SignalProcessing.DefaultSelectivity | signal_processing.py:66-67 | the default selectivity is non-negative and is a quarter of the largest difference between two samples, attained by some pair |
| SignalProcessing.TurnIsSignChange | signal_processing.py:77-79 | an interior index is a turn exactly when the strict signs of the differences on its two sides differ, a zero difference counting as negative |
| SignalProcessing.InteriorCandidatesAreTurns | signal_processing.py:76-79 | the interior candidates are strictly increasing, each is a turn, and every turn of the signal is among them |
| SignalProcessing.ConstantSignalHasNoTurns | signal_processing.py:77-79 | a constant signal has no interior candidate, the zero differences all counting as negative |
| SignalProcessing.CandidatesShape | signal_processing.py:82-83 | with endpoints the list has two more entries, starts at 0 and ends at n-1; without them it lies in [1, n-2]; it is strictly increasing from two samples on, and its interior members are turns |
| SignalProcessing.CandidatesAreTurns | signal_processing.py:76-83 | a sample strictly inside the signal is a candidate if and only if it is a turn |
| SignalProcessing.Scan | signal_processing.py:85-110 | the loop emits, in order, exactly the candidates before the last whose value exceeds the candidate minimum plus `sel`, each with its own value as magnitude |
| SignalProcessing.LeftMinNeverUpdates | signal_processing.py:104-105 | no candidate value is below the global candidate minimum, so the guard of the `left_min` update is false at every step; `Scan` keeps this as its loop invariant `leftMin == minMag` |
| SignalProcessing.Interpolate | signal_processing.py:113-122 | every location and magnitude becomes its refined value, and peaks that are not strictly inside the signal or have a zero denominator are left unchanged |
| SignalProcessing.RefinedLocIsVertex | signal_processing.py:119-121 | the refined location is where the slope of the parabola through the three samples is zero |
| SignalProcessing.RefinedLocWithinHalfSample | signal_processing.py:117-121 | at a turn the refinement moves the location by at most half a sample |
| SignalProcessing.RefinedLocsOrdered | signal_processing.py:116-121 | refinement keeps two whole-number locations in order when each interior one is a turn: the earlier refined location is at most the later one |
| SignalProcessing.RefinedMagAtTurn | signal_processing.py:116-122 | at a turn the refined magnitude is at most the sample where the signal rises into it, and at most one of the neighbours where it falls into it |
| SignalProcessing.RefinedMagDropsAtStrictMaximum | signal_processing.py:122 | at a strict local maximum with unequal neighbours the refined magnitude is below the input magnitude, while the parabola's vertex lies above the sample |
| SignalProcessing.RefinedMagExample | signal_processing.py:117-122 | for samples 0, 1, 0.5 the location moves to 1 + 1/6, the magnitude becomes 1 - 1/96, and the vertex value is 1 + 1/48 |
| SignalProcessing.ThresholdAsPick | signal_processing.py:129-132 | the threshold mask indexes locations and magnitudes with the same positions, those whose magnitude is above the threshold |
| SignalProcessing.ThresholdSurvivors | signal_processing.py:129-132 | the arrays stay parallel and no longer than before, every surviving magnitude is strictly above the threshold, and each surviving pair is an input pair |
| SignalProcessing.ThresholdKeepsAllAbove | signal_processing.py:129-132 | every input pair whose magnitude is strictly above the threshold survives |
| SignalProcessing.ThresholdKeepsOrder | signal_processing.py:129-132 | strictly increasing locations stay strictly increasing after the threshold |
| SignalProcessing.ThresholdKeepsWeakOrder | signal_processing.py:129-132 | non-decreasing locations stay non-decreasing after the threshold |
| SignalProcessing.ThresholdAboveAll | signal_processing.py:129-132 | a threshold at or above every magnitude leaves nothing |
| SignalProcessing.Selectivity | signal_processing.py:66-67 | the selectivity in effect is never negative |
| SignalProcessing.Detect | signal_processing.py:85-122 | detection yields parallel arrays with fewer entries than there are candidates |
| SignalProcessing.Confirmed | signal_processing.py:95-110 | the positions the scan confirms all lie before the last candidate |
| SignalProcessing.ConfirmedSound | signal_processing.py:95-110 | the confirmed positions are strictly increasing, and each holds a candidate value more than `sel` above the candidate minimum |
| SignalProcessing.DetectFromScan | signal_processing.py:85-122 | detection is the scan's output, converted to floats or refined |
| SignalProcessing.DetectPeaks | signal_processing.py:85-126 | the scan followed by the refinement, when asked for and a peak was found, computes the reference detection |
| SignalProcessing.PeakFinder | signal_processing.py:33-134 | the method returns exactly the reference result `PeakFinderSpec`, error cases included |
| SignalProcessing.InvalidExtremaRejected | signal_processing.py:66-71 | the call fails with the invalid-mode error if and only if the mode is neither 1 nor -1 and the default selectivity did not fail first |
| SignalProcessing.EmptySignalRejected | signal_processing.py:66-86 | an empty signal always fails: through the default selectivity, the mode check, the endpoint lookup or the empty candidate minimum, in that order |
| SignalProcessing.SpecOk | signal_processing.py:58-134 | a successful call has a valid mode, a non-empty candidate list and the thresholded detection on the sign-flipped signal as its result |
| SignalProcessing.MinimaAreMaximaOfNegation | signal_processing.py:66-74 | minima mode gives the same result as maxima mode on the negated signal with the negated threshold, the default selectivity being unchanged by negation |
| SignalProcessing.DetectedLocationsOrdered | signal_processing.py:95-110 | on increasing candidates, the unrefined locations are strictly increasing whole numbers from the first candidate up to, but excluding, the last |
| SignalProcessing.DetectFindsNothingBelowFloor | signal_processing.py:95-110 | when no candidate before the last rises more than `sel` above the floor, no peak is emitted |
| SignalProcessing.DetectedMagnitudesAreSamples | signal_processing.py:85-110 | every unrefined magnitude is a value of the (sign-flipped) signal |
| SignalProcessing.RefinedLocationsInRange | signal_processing.py:113-122 | when the interior candidates are turns, refined locations stay within [0, n-1] |
| SignalProcessing.RefinedLocationsNonDecreasing | signal_processing.py:95-122 | on increasing candidates whose interior members are turns, the refined locations are non-decreasing |
| SignalProcessing.DetectedMagnitudesAtMostMax | signal_processing.py:95-122 | when the interior candidates are turns, every magnitude, refined or not, is at most the largest sample |
| SignalProcessing.ThresholdedSubset | signal_processing.py:128-132 | the optional threshold keeps the arrays parallel, keeps only input locations and magnitudes, and preserves strictly increasing and non-decreasing order |
| SignalProcessing.PeakLocationsWellFormed | signal_processing.py:76-134 | without refinement, a successful call returns parallel arrays of strictly increasing whole locations in [0, n-1), never including the last sample, and never the first without endpoints |
| SignalProcessing.ThresholdedOnCandidatesWellFormed | signal_processing.py:82-132 | the same shape holds for the thresholded peaks found on the candidate list |
| SignalProcessing.DetectedOnCandidatesWellFormed | signal_processing.py:82-110 | the same shape holds for the peaks found on the candidate list before the threshold |
| SignalProcessing.InterpolatedLocationsInRange | signal_processing.py:113-134 | with refinement, a successful call returns parallel arrays whose locations lie in [0, n-1] and are non-decreasing |
| SignalProcessing.RefinedOnCandidatesInRange | signal_processing.py:82-122 | refined peaks found on the candidate list lie in [0, n-1], in non-decreasing order |
| SignalProcessing.ConstantSignalHasNoPeaks | signal_processing.py:76-134 | a non-empty constant signal with endpoints yields no peak, whatever the selectivity, threshold, refinement and mode |
| SignalProcessing.ConstantSignalWithoutEndpointsFails | signal_processing.py:76-86 | without endpoints a non-empty constant signal has no candidate, so the call fails with the empty-array error of `np.min` |
| SignalProcessing.ThresholdAboveMaximumLeavesNothing | signal_processing.py:113-134 | in maxima mode, with or without refinement, a threshold at or above the signal's maximum leaves no peak: whenever the candidate list is non-empty, the call succeeds with an empty result |
| SignalProcessing.RefinedLocationsCanRepeat | signal_processing.py:76-134 | `[0, 1, 1, 2, 0]` with the default selectivity, endpoints and refinement gives locations `1.5, 1.5, 17/6` with magnitudes `15/16, 17/16, 95/48`: a location repeats |
| SignalProcessing.RisingStartReportedAsPeak | signal_processing.py:76-110 | `[0, 1, 0, -1, 0, 1, 0, -1, 0]` with the defaults and the endpoints gives locations `0, 1, 5` with magnitudes `0, 1, 1`: the rising first sample is reported as a peak, so two periods yield three peaks |
| SignalProcessing.ValleyReportedAsPeak | signal_processing.py:76-110 | `[0, 3, 2.5, 3.2, 0]` with the defaults gives locations `1, 2, 3` with magnitudes `3, 2.5, 3.2`: the local minimum at index 2 is reported as a peak |
| ArrayOps.Min | signal_processing.py:86 | `np.min` is an element no greater than any element |
| ArrayOps.Max | signal_processing.py:67 | `np.max` is an element no smaller than any element |
| ArrayOps.NegatedExtremes | signal_processing.py:67-73 | the maximum of the negated signal is the negated minimum, and the other way round |
| ArrayOps.IndicesAboveSound | signal_processing.py:130 | the positions a mask selects are strictly increasing and each holds an element above the bound |
| ArrayOps.IndicesAboveComplete | signal_processing.py:130 | every position whose element is above the bound is selected |
| ArrayOps.IndicesAboveNone | signal_processing.py:130 | nothing is selected when no element is above the bound |
| ArrayOps.SelectAboveIsPick | signal_processing.py:130-132 | boolean-mask selection is integer indexing with the selected positions |
| FrequencyAnalysis.Trunc | frequency_analysis.py:64 | `int()` truncates toward zero: the result has the sign of its argument and is within one of it, on the zero side |
| FrequencyAnalysis.WindowSamplesZero | frequency_analysis.py:64 | the window length is zero samples exactly when the product of window size and sampling rate lies strictly between -1 and 1 |
| FrequencyAnalysis.RangeElements | frequency_analysis.py:80 | the range yields `k * step` exactly for the indices below its length: the multiples of a positive step below the stop, or of a negative step above it |
| FrequencyAnalysis.WindowCount | frequency_analysis.py:80 | with a positive window, a non-empty recording of n samples has `(n - 1) / w` windows, and one of at most w samples has none |
| FrequencyAnalysis.CompleteFinalWindowDropped | frequency_analysis.py:80 | a recording of exactly m windows' worth of samples gets m - 1 windows |
| FrequencyAnalysis.WindowCountExamples | frequency_analysis.py:80 | windows of 20 samples: 95 samples give 4, 100 give 4, 101 give 5 |
| FrequencyAnalysis.TimesDistinct | frequency_analysis.py:76 | distinct peak indices give distinct peak times |
| FrequencyAnalysis.TimesIncreasing | frequency_analysis.py:76 | at a positive rate, increasing peak indices give increasing peak times |
| FrequencyAnalysis.WindowIndicesSound | frequency_analysis.py:86 | the positions the window mask selects are strictly increasing and each holds a time inside the half-open window |
| FrequencyAnalysis.WindowIndicesComplete | frequency_analysis.py:86 | every position whose time is inside the half-open window is selected |
| FrequencyAnalysis.WindowPeaksExact | frequency_analysis.py:86 | the window's peaks are exactly the peak times inside the half-open window |
| FrequencyAnalysis.WindowPeaksIncreasing | frequency_analysis.py:86 | selecting a window keeps increasing times increasing |
| FrequencyAnalysis.WindowPeaksDistinct | frequency_analysis.py:86 | selecting a window introduces no repeated time |
| FrequencyAnalysis.FrequencyPositive | frequency_analysis.py:89-93 | two or more increasing peak times give a strictly positive frequency |
| FrequencyAnalysis.SteadyRhythm | frequency_analysis.py:92-93 | peaks evenly spaced d apart give the frequency 1/d |
| FrequencyAnalysis.FrequencyExample | frequency_analysis.py:92-93 | peaks at 2.0 s, 2.5 s and 3.0 s give 2.0 Hz |
| FrequencyAnalysis.ReciprocalInSamples | frequency_analysis.py:76-93 | for distinct peak indices, `1 / np.diff(peak_times)` has no zero interval and equals the sampling rate over each distance in samples between successive peaks |
| FrequencyAnalysis.ComputeSniffingFrequency | frequency_analysis.py:51-95 | the loop returns exactly the reference result `SniffingFrequencies`, error included |
| FrequencyAnalysis.FailsIffEmptyWindow | frequency_analysis.py:64-80 | the call fails if and only if the window truncates to zero samples |
| FrequencyAnalysis.EntryCount | frequency_analysis.py:79-93 | a successful call has one entry per window: `(n - 1) / w` for a positive window length, none for a negative one |
| FrequencyAnalysis.WindowsEndBeforeLastSample | frequency_analysis.py:80-86 | each emitted window has a positive length, starts at or after 0 and ends before the last sample |
| FrequencyAnalysis.WindowMembershipInSamples | frequency_analysis.py:82-86 | at a positive rate the peak at sample p is in the window from `start` exactly when `start <= p < start + w`, and the window holds only peak times |
| FrequencyAnalysis.WindowsDisjoint | frequency_analysis.py:80-86 | at a positive rate no peak time lies in two different windows |
| FrequencyAnalysis.SeparatedWindowsDisjoint | frequency_analysis.py:86 | two half-open windows that do not overlap select no common time |
| FrequencyAnalysis.EntryPositiveIffTwoPeaks | frequency_analysis.py:86-93 | with increasing peaks at a positive rate, every entry is non-negative, and it is positive if and only if its window holds two peaks |
| FrequencyAnalysis.EntryPositiveIffTwoPeaksAt | frequency_analysis.py:82-93 | the same for the window starting at any sample |
| FrequencyAnalysis.WindowEntryInSamples | frequency_analysis.py:76-93 | a window's entry is 0 for fewer than two peaks, else the mean of `sr / (q - p)` over its successive peak indices `p`, `q` |
| FrequencyAnalysis.SniffingExample | frequency_analysis.py:64-95 | peaks at samples 20, 25 and 30 of 100 samples at 10 Hz, with 5 s windows, give the single entry 2.0 |
| FrequencyAnalysis.WindowEntryExample | frequency_analysis.py:82-93 | the window from sample 0 of 50 samples, with peaks 20, 25 and 30 at 10 Hz, gives 2.0 |
| FrequencyAnalysis.DemoCallIsEmpty | frequency_analysis.py:98-101 | the module's demo, 1000 samples at 100 Hz with 20 s windows, has no window, whatever the peaks |

## Left out

- `mice_rsp_clean`, `nk.rsp_clean` and `nk.signal_findpeaks` (signal_processing.py:6-31, frequency_analysis.py:67-71) are calls into neurokit2. The window loop takes the peak indices as a parameter instead.
- The `print` calls (frequency_analysis.py:72-73), the module-level demo with random noise (frequency_analysis.py:98-101) and the `detect_sniffing` function, which sits commented out in a string literal (frequency_analysis.py:5-49). `DemoCallIsEmpty` states only what the demo's parameters imply.
- `resp_plotting.py` is plotting and is not part of this model.
- The one-dimensionality check (signal_processing.py:60-61) is enforced by the type `seq<real>`.
- The complex-input branch with its warning and `np.abs` (signal_processing.py:62-64) is left out, because inputs are real.
- Floating point is left out: rounding, overflow, NaN and infinities. The `-eps` substitution is modelled by its sign alone (`Slope`): every zero difference counts as negative. Underflow of the product of two differences to zero is left out with the rest of floating point.
- A disabled threshold is `None`, not a NaN compared against.
- PeakFinder: requires a non-negative `sel`. With a negative `sel` the scan can append `ind[temp_loc]` before `temp_loc` is assigned, which raises UnboundLocalError, or append a stale location; that path is not modelled.
- ComputeSniffingFrequency: requires distinct peak indices, which `nk.signal_findpeaks` always returns. A repeated index would make an interval zero, and numpy would turn its reciprocal into an infinity.
- ComputeSniffingFrequency: an empty window's entry is the real `0.0`; the source appends the integer `0` into a list that otherwise holds floats.
- The Python lists the loops append to are `seq`s reassigned by the methods. Only the refinement, which updates existing entries in place, works on arrays.
- A peak finder is usually expected to find one peak per period of a sampled sinusoid, within one sample of the analytic maximum. A general statement of this needs `sin`, which the model lacks. For exact samples the count fails anyway: the first endpoint can add a peak (`RisingStartReportedAsPeak`).
