/**
 * The windowing loop of `compute_sniffing_frequency`: the recording is cut
 * into half-open windows of `int(window_size * sampling_rate)` samples,
 * starting at sample 0, by `range(0, len - w, w)`; in each window the breath
 * peaks (given here as sample indices) are converted to times, and the window
 * yields 0 when it holds fewer than two peaks, otherwise the mean of the
 * reciprocals of the intervals between successive peaks, in Hz.
 */
module FrequencyAnalysis {
  import opened Wrappers
  import opened ArrayOps

  /** `range` with step 0 raises: a window of zero samples fails the call. */
  datatype FreqError = ZeroWindow

  // ---------------------------------------------------------------------
  // Integer arithmetic of the window layout
  // ---------------------------------------------------------------------

  /** Python's `int()` on a float: truncation toward zero. */
  function Trunc(r: real): (n: int)
    ensures 0.0 <= r ==> 0 <= n && n as real <= r < n as real + 1.0
    ensures r < 0.0 ==> n <= 0 && n as real - 1.0 < r <= n as real
  {
    if r >= 0.0 then r.Floor else -((-r).Floor)
  }

  /** `window_samples = int(window_size * sampling_rate)`. */
  function WindowSamples(windowSize: real, samplingRate: real): int
  {
    Trunc(windowSize * samplingRate)
  }

  /** The window length truncates to zero exactly when the product lies strictly between -1 and 1. */
  lemma WindowSamplesZero(windowSize: real, samplingRate: real)
    ensures WindowSamples(windowSize, samplingRate) == 0 <==> -1.0 < windowSize * samplingRate < 1.0
  {
    var p := windowSize * samplingRate;
    if p >= 0.0 {
      assert Trunc(p) == p.Floor;
    } else {
      assert Trunc(p) == -((-p).Floor);
    }
  }

  /** `len(range(0, stop, step))` for a non-zero step. */
  function RangeLen(stop: int, step: int): nat
    requires step != 0
  {
    if step > 0 then (if stop <= 0 then 0 else (stop + step - 1) / step)
    else (if stop >= 0 then 0 else (-stop - step - 1) / (-step))
  }

  lemma MulLe(a: int, b: int, c: int)
    requires a <= b && c >= 0
    ensures a * c <= b * c
  {
    assert (b - a) * c >= 0;
  }

  /**
   * `range(0, stop, step)` produces `k * step` exactly for the `k` below its
   * length: the multiples of a positive step below `stop`, or of a negative
   * step above it.
   */
  lemma RangeElements(stop: int, step: int, k: nat)
    requires step != 0
    ensures step > 0 ==> (k < RangeLen(stop, step) <==> k * step < stop)
    ensures step < 0 ==> (k < RangeLen(stop, step) <==> k * step > stop)
  {
    var L := RangeLen(stop, step);
    if step > 0 {
      if stop > 0 {
        assert L * step <= stop + step - 1 < L * step + step;
        if k < L { MulLe(k, L - 1, step); } else { MulLe(L, k, step); }
      } else {
        MulLe(0, k, step);
      }
    } else {
      var m := -step;
      assert k * step == -(k * m);
      if stop < 0 {
        assert L * m <= -stop + m - 1 < L * m + m;
        if k < L { MulLe(k, L - 1, m); } else { MulLe(L, k, m); }
      } else {
        MulLe(0, k, m);
      }
    }
  }

  /**
   * With `w > 0` samples per window, `range(0, n - w, w)` yields `(n - 1) / w`
   * windows: a recording of `m * w` samples gets `m - 1`, its complete final
   * window is dropped, and one of at most `w` samples gets none.
   */
  lemma WindowCount(n: nat, w: int)
    requires w > 0
    ensures RangeLen(n - w, w) == if n == 0 then 0 else (n - 1) / w
    ensures n <= w ==> RangeLen(n - w, w) == 0
  {
  }

  lemma CompleteFinalWindowDropped(m: nat, w: int)
    requires m > 0 && w > 0
    ensures RangeLen(m * w - w, w) == m - 1
  {
    MulLe(1, m, w);
    WindowCount(m * w, w);
    DivUnique(m * w - 1, w, m - 1);
  }

  /** Euclidean division recovers the quotient `q` of any `a` with `q * w <= a < q * w + w`. */
  lemma DivUnique(a: int, w: int, q: int)
    requires w > 0 && q * w <= a < q * w + w
    ensures a / w == q
  {
    var d := a / w;
    assert d * w <= a < d * w + w;
    if d < q {
      MulLe(d + 1, q, w);
    } else if d > q {
      MulLe(q + 1, d, w);
    }
  }

  lemma WindowCountExamples()
    ensures RangeLen(95 - 20, 20) == 4
    ensures RangeLen(100 - 20, 20) == 4
    ensures RangeLen(101 - 20, 20) == 5
  {
  }

  // ---------------------------------------------------------------------
  // Peak times and window selection
  // ---------------------------------------------------------------------

  /** `peak_times = peak_indices / sampling_rate`. */
  function Times(peaks: seq<int>, samplingRate: real): (ts: seq<real>)
    requires samplingRate != 0.0
    ensures |ts| == |peaks|
    ensures forall i :: 0 <= i < |peaks| ==> ts[i] == peaks[i] as real / samplingRate
  {
    seq(|peaks|, i requires 0 <= i < |peaks| => peaks[i] as real / samplingRate)
  }

  lemma DivLe(a: real, b: real, sr: real)
    requires sr > 0.0
    ensures a <= b <==> a / sr <= b / sr
  {
    assert b / sr - a / sr == (b - a) / sr;
    if a <= b { assert (b - a) / sr >= 0.0; } else { assert (b - a) / sr < 0.0; }
  }

  lemma DivLt(a: real, b: real, sr: real)
    requires sr > 0.0
    ensures a < b <==> a / sr < b / sr
  {
    assert b / sr - a / sr == (b - a) / sr;
    if a < b { assert (b - a) / sr > 0.0; } else { assert (b - a) / sr <= 0.0; }
  }

  /** Distinct peak indices give distinct times, and increasing ones increasing times at a positive rate. */
  lemma TimesDistinct(peaks: seq<int>, samplingRate: real)
    requires samplingRate != 0.0 && Distinct(peaks)
    ensures Distinct(Times(peaks, samplingRate))
  {
    var ts := Times(peaks, samplingRate);
    forall i, j | 0 <= i < j < |ts| ensures ts[i] != ts[j] {
      assert peaks[i] as real == ts[i] * samplingRate;
      assert peaks[j] as real == ts[j] * samplingRate;
    }
  }

  lemma TimesIncreasing(peaks: seq<int>, samplingRate: real)
    requires samplingRate > 0.0 && StrictlyIncreasing(peaks)
    ensures StrictlyIncreasingReals(Times(peaks, samplingRate))
  {
    var ts := Times(peaks, samplingRate);
    forall i, j | 0 <= i < j < |ts| ensures ts[i] < ts[j] {
      DivLt(peaks[i] as real, peaks[j] as real, samplingRate);
    }
  }

  /**
   * `np.where((ts[:n] >= lo) & (ts[:n] < hi))[0]`: the positions below `n`
   * whose time lies in the half-open window, in increasing order.
   */
  function WindowIndices(ts: seq<real>, lo: real, hi: real, n: nat): (r: seq<nat>)
    requires n <= |ts|
    ensures |r| <= n
    ensures forall j :: 0 <= j < |r| ==> r[j] < n
  {
    if n == 0 then []
    else
      var init := WindowIndices(ts, lo, hi, n - 1);
      if lo <= ts[n - 1] < hi then init + [n - 1] else init
  }

  /** The selected positions increase, and each holds a time inside the window. */
  lemma {:induction false} WindowIndicesSound(ts: seq<real>, lo: real, hi: real, n: nat)
    requires n <= |ts|
    ensures var r := WindowIndices(ts, lo, hi, n);
      && StrictlyIncreasing(r)
      && (forall j :: 0 <= j < |r| ==> lo <= ts[r[j]] < hi)
  {
    if n > 0 {
      WindowIndicesSound(ts, lo, hi, n - 1);
    }
  }

  /** Every position below `n` whose time lies in the window is selected. */
  lemma {:induction false} WindowIndicesComplete(ts: seq<real>, lo: real, hi: real, n: nat)
    requires n <= |ts|
    ensures forall i :: 0 <= i < n && lo <= ts[i] < hi ==> i in WindowIndices(ts, lo, hi, n)
  {
    if n > 0 {
      WindowIndicesComplete(ts, lo, hi, n - 1);
    }
  }

  /** `peak_times[(peak_times >= lo) & (peak_times < hi)]`. */
  function WindowPeaks(ts: seq<real>, lo: real, hi: real): (wp: seq<real>)
    ensures |wp| <= |ts|
  {
    Pick(ts, WindowIndices(ts, lo, hi, |ts|))
  }

  /**
   * The selected times are exactly the times inside the window, and
   * selection keeps their order and introduces no repetition.
   */
  lemma WindowPeaksExact(ts: seq<real>, lo: real, hi: real)
    ensures var wp := WindowPeaks(ts, lo, hi);
            && (forall t :: t in wp ==> t in ts && lo <= t < hi)
            && (forall i :: 0 <= i < |ts| && lo <= ts[i] < hi ==> ts[i] in wp)
  {
    var idx := WindowIndices(ts, lo, hi, |ts|);
    WindowIndicesSound(ts, lo, hi, |ts|);
    WindowIndicesComplete(ts, lo, hi, |ts|);
    var wp := WindowPeaks(ts, lo, hi);
    forall i | 0 <= i < |ts| && lo <= ts[i] < hi ensures ts[i] in wp {
      var j :| 0 <= j < |idx| && idx[j] == i;
      assert wp[j] == ts[i];
    }
  }

  lemma WindowPeaksIncreasing(ts: seq<real>, lo: real, hi: real)
    requires StrictlyIncreasingReals(ts)
    ensures StrictlyIncreasingReals(WindowPeaks(ts, lo, hi))
  {
    WindowIndicesSound(ts, lo, hi, |ts|);
    PickIncreasingReals(ts, WindowIndices(ts, lo, hi, |ts|));
  }

  lemma WindowPeaksDistinct(ts: seq<real>, lo: real, hi: real)
    requires Distinct(ts)
    ensures Distinct(WindowPeaks(ts, lo, hi))
  {
    WindowIndicesSound(ts, lo, hi, |ts|);
    PickDistinct(ts, WindowIndices(ts, lo, hi, |ts|));
  }

  // ---------------------------------------------------------------------
  // Frequency of one window
  // ---------------------------------------------------------------------

  /** `1 / intervals` on non-zero intervals. */
  function Reciprocals(d: seq<real>): (r: seq<real>)
    requires forall j :: 0 <= j < |d| ==> d[j] != 0.0
    ensures |r| == |d|
    ensures forall j :: 0 <= j < |d| ==> r[j] == 1.0 / d[j]
  {
    seq(|d|, j requires 0 <= j < |d| => 1.0 / d[j])
  }

  /** 0 for fewer than two peaks, else `np.mean(1 / np.diff(window_peaks))`. */
  function WindowFrequency(wp: seq<real>): real
    requires Distinct(wp)
  {
    if |wp| < 2 then 0.0 else Mean(Reciprocals(Diff(wp)))
  }

  /** Two or more increasing peak times give a positive frequency. */
  lemma FrequencyPositive(wp: seq<real>)
    requires StrictlyIncreasingReals(wp) && |wp| >= 2
    ensures WindowFrequency(wp) > 0.0
  {
    MeanPositive(Reciprocals(Diff(wp)));
  }

  /** Peaks evenly spaced `d` apart give the frequency `1 / d`. */
  lemma SteadyRhythm(wp: seq<real>, d: real)
    requires Distinct(wp) && |wp| >= 2 && d != 0.0
    requires forall j :: 0 <= j < |wp| - 1 ==> wp[j + 1] - wp[j] == d
    ensures WindowFrequency(wp) == 1.0 / d
  {
    MeanConstant(Reciprocals(Diff(wp)), 1.0 / d);
  }

  /** Peaks at 2.0 s, 2.5 s and 3.0 s give 2.0 Hz. */
  lemma FrequencyExample()
    ensures WindowFrequency([2.0, 2.5, 3.0]) == 2.0
  {
    SteadyRhythm([2.0, 2.5, 3.0], 0.5);
  }

  /** The rate of each interval between successive peaks, in samples: `sr / (q - p)`. */
  function IntervalRates(ps: seq<int>, samplingRate: real): (r: seq<real>)
    requires |ps| > 0 && Distinct(ps)
    ensures |r| == |ps| - 1
  {
    seq(|ps| - 1, j requires 0 <= j < |ps| - 1 => samplingRate / (ps[j + 1] - ps[j]) as real)
  }

  /**
   * `1 / np.diff(peak_times)` taken on the times is the sampling rate over
   * each distance in samples: converting to seconds and back cancels out.
   */
  lemma ReciprocalInSamples(ps: seq<int>, samplingRate: real)
    requires samplingRate != 0.0 && |ps| > 0 && Distinct(ps)
    ensures forall j :: 0 <= j < |ps| - 1 ==> Diff(Times(ps, samplingRate))[j] != 0.0
    ensures Reciprocals(Diff(Times(ps, samplingRate))) == IntervalRates(ps, samplingRate)
  {
    var ts := Times(ps, samplingRate);
    var d := Diff(ts);
    forall j | 0 <= j < |ps| - 1
      ensures d[j] != 0.0 && 1.0 / d[j] == samplingRate / (ps[j + 1] - ps[j]) as real
    {
      IntervalReciprocal(ps[j], ps[j + 1], samplingRate);
    }
  }

  lemma IntervalReciprocal(p1: int, p2: int, samplingRate: real)
    requires samplingRate != 0.0 && p1 != p2
    ensures p2 as real / samplingRate - p1 as real / samplingRate != 0.0
    ensures 1.0 / (p2 as real / samplingRate - p1 as real / samplingRate) == samplingRate / (p2 - p1) as real
  {
    var d := (p2 - p1) as real;
    assert p2 as real / samplingRate - p1 as real / samplingRate == d / samplingRate;
    assert d / samplingRate != 0.0;
    assert (d / samplingRate) * (samplingRate / d) == 1.0;
  }

  // ---------------------------------------------------------------------
  // The whole computation
  // ---------------------------------------------------------------------

  /** The entry of the window of `w` samples starting at sample `start`. */
  function WindowEntry(peaks: seq<int>, samplingRate: real, start: int, w: int): real
    requires samplingRate != 0.0 && Distinct(peaks)
  {
    TimesDistinct(peaks, samplingRate);
    var times := Times(peaks, samplingRate);
    var lo, hi := start as real / samplingRate, (start + w) as real / samplingRate;
    WindowPeaksDistinct(times, lo, hi);
    WindowFrequency(WindowPeaks(times, lo, hi))
  }

  /** What `compute_sniffing_frequency` returns for a recording of `n` samples. */
  function SniffingFrequencies(n: nat, peaks: seq<int>, samplingRate: real, windowSize: real)
    : Result<seq<real>, FreqError>
    requires Distinct(peaks)
  {
    var w := WindowSamples(windowSize, samplingRate);
    if w == 0 then Err(ZeroWindow)
    else
      Ok(seq(RangeLen(n - w, w), k requires 0 <= k < RangeLen(n - w, w) => WindowEntry(peaks, samplingRate, k * w, w)))
  }

  /**
   * The loop of `compute_sniffing_frequency` over the window starts, with the
   * detected peak indices passed in.
   */
  method ComputeSniffingFrequency(signal: seq<real>, peaks: seq<int>, samplingRate: real, windowSize: real)
    returns (r: Result<seq<real>, FreqError>)
    requires Distinct(peaks)
    ensures r == SniffingFrequencies(|signal|, peaks, samplingRate, windowSize)
  {
    var windowSamples := WindowSamples(windowSize, samplingRate);
    if windowSamples == 0 {
      return Err(ZeroWindow);
    }
    TimesDistinct(peaks, samplingRate);
    var peakTimes := Times(peaks, samplingRate);
    var frequencies: seq<real> := [];
    var count := RangeLen(|signal| - windowSamples, windowSamples);
    for k := 0 to count
      invariant |frequencies| == k
      invariant forall j :: 0 <= j < k ==>
        frequencies[j] == WindowEntry(peaks, samplingRate, j * windowSamples, windowSamples)
    {
      var start := k * windowSamples;
      var startTime := start as real / samplingRate;
      var endTime := (start + windowSamples) as real / samplingRate;
      var windowPeaks := WindowPeaks(peakTimes, startTime, endTime);
      WindowEntryIs(peaks, samplingRate, start, windowSamples);
      var frequency: real;
      if |windowPeaks| < 2 {
        frequency := 0.0;
      } else {
        frequency := Mean(Reciprocals(Diff(windowPeaks)));
      }
      frequencies := frequencies + [frequency];
    }
    r := Ok(frequencies);
    SniffingFrequenciesAre(|signal|, peaks, samplingRate, windowSize, frequencies);
  }

  /** The entry of a window is the frequency of the peak times that fall in it. */
  lemma WindowEntryIs(peaks: seq<int>, samplingRate: real, start: int, w: int)
    requires samplingRate != 0.0 && Distinct(peaks)
    ensures var wp := WindowPeaks(Times(peaks, samplingRate), start as real / samplingRate,
                                  (start + w) as real / samplingRate);
      && Distinct(wp)
      && WindowEntry(peaks, samplingRate, start, w) == WindowFrequency(wp)
  {
    TimesDistinct(peaks, samplingRate);
    WindowPeaksDistinct(Times(peaks, samplingRate), start as real / samplingRate, (start + w) as real / samplingRate);
  }

  /**
   * A window's entry in samples: 0 for fewer than two peaks in it, else the
   * mean of `sr / (q - p)` over its successive peak indices `p`, `q`.
   */
  lemma WindowEntryInSamples(peaks: seq<int>, samplingRate: real, start: int, w: int)
    requires samplingRate != 0.0 && Distinct(peaks)
    ensures var ts := Times(peaks, samplingRate);
      var idx := WindowIndices(ts, start as real / samplingRate, (start + w) as real / samplingRate, |ts|);
      var ps := Pick(peaks, idx);
      && Distinct(ps)
      && WindowEntry(peaks, samplingRate, start, w) == if |ps| < 2 then 0.0 else Mean(IntervalRates(ps, samplingRate))
  {
    var ts := Times(peaks, samplingRate);
    var lo, hi := start as real / samplingRate, (start + w) as real / samplingRate;
    var idx := WindowIndices(ts, lo, hi, |ts|);
    WindowIndicesSound(ts, lo, hi, |ts|);
    var ps := Pick(peaks, idx);
    PickDistinct(peaks, idx);
    assert Times(ps, samplingRate) == WindowPeaks(ts, lo, hi);
    WindowEntryIs(peaks, samplingRate, start, w);
    if |ps| >= 2 {
      ReciprocalInSamples(ps, samplingRate);
    }
  }

  /** A list with the entry of every window is the successful result. */
  lemma SniffingFrequenciesAre(n: nat, peaks: seq<int>, samplingRate: real, windowSize: real, fs: seq<real>)
    requires Distinct(peaks) && samplingRate != 0.0
    requires var w := WindowSamples(windowSize, samplingRate);
      && w != 0
      && |fs| == RangeLen(n - w, w)
      && forall j :: 0 <= j < |fs| ==> fs[j] == WindowEntry(peaks, samplingRate, j * w, w)
    ensures SniffingFrequencies(n, peaks, samplingRate, windowSize) == Ok(fs)
  {
    assert fs == SniffingFrequencies(n, peaks, samplingRate, windowSize).value;
  }

  // ---------------------------------------------------------------------
  // Properties of SniffingFrequencies
  // ---------------------------------------------------------------------

  /** The call fails exactly when the window truncates to zero samples. */
  lemma FailsIffEmptyWindow(n: nat, peaks: seq<int>, samplingRate: real, windowSize: real)
    requires Distinct(peaks)
    ensures SniffingFrequencies(n, peaks, samplingRate, windowSize).Err?
            <==> -1.0 < windowSize * samplingRate < 1.0
  {
    WindowSamplesZero(windowSize, samplingRate);
  }

  /** One entry per window: `(n - 1) / w` of them for a positive window, none for a negative one. */
  lemma EntryCount(n: nat, peaks: seq<int>, samplingRate: real, windowSize: real)
    requires Distinct(peaks)
    requires SniffingFrequencies(n, peaks, samplingRate, windowSize).Ok?
    ensures var w := WindowSamples(windowSize, samplingRate);
            var r := SniffingFrequencies(n, peaks, samplingRate, windowSize).value;
            && (w > 0 ==> |r| == if n == 0 then 0 else (n - 1) / w)
            && (w < 0 ==> |r| == 0)
  {
    var w := WindowSamples(windowSize, samplingRate);
    if w > 0 {
      WindowCount(n, w);
    } else {
      assert RangeLen(n - w, w) == 0;
    }
  }

  /** Every window ends before the last sample, which no window covers. */
  lemma WindowsEndBeforeLastSample(n: nat, peaks: seq<int>, samplingRate: real, windowSize: real, k: nat)
    requires Distinct(peaks)
    requires SniffingFrequencies(n, peaks, samplingRate, windowSize).Ok?
    requires k < |SniffingFrequencies(n, peaks, samplingRate, windowSize).value|
    ensures var w := WindowSamples(windowSize, samplingRate);
            w > 0 && 0 <= k * w && k * w + w < n
  {
    var w := WindowSamples(windowSize, samplingRate);
    RangeElements(n - w, w, k);
    if w < 0 {
      assert RangeLen(n - w, w) == 0;
    }
    MulLe(0, k, w);
  }

  /**
   * At a positive sampling rate the peak at sample `p` falls in the window
   * starting at `start` exactly when `start <= p < start + w`, and the window
   * holds nothing but peak times.
   */
  lemma WindowMembershipInSamples(peaks: seq<int>, samplingRate: real, start: int, w: int)
    requires samplingRate > 0.0
    ensures var ts := Times(peaks, samplingRate);
            var wp := WindowPeaks(ts, start as real / samplingRate, (start + w) as real / samplingRate);
            && (forall i :: 0 <= i < |peaks| ==> (ts[i] in wp <==> start <= peaks[i] < start + w))
            && (forall t :: t in wp ==> t in ts)
  {
    var ts := Times(peaks, samplingRate);
    var lo, hi := start as real / samplingRate, (start + w) as real / samplingRate;
    WindowPeaksExact(ts, lo, hi);
    forall i | 0 <= i < |peaks| ensures lo <= ts[i] < hi <==> start <= peaks[i] < start + w {
      DivLe(start as real, peaks[i] as real, samplingRate);
      DivLt(peaks[i] as real, (start + w) as real, samplingRate);
    }
  }

  /** At a positive sampling rate, two different windows share no peak time. */
  lemma WindowsDisjoint(peaks: seq<int>, samplingRate: real, w: int, k1: nat, k2: nat)
    requires samplingRate > 0.0 && w > 0 && k1 < k2
    ensures var ts := Times(peaks, samplingRate);
            var wp1 := WindowPeaks(ts, (k1 * w) as real / samplingRate, (k1 * w + w) as real / samplingRate);
            var wp2 := WindowPeaks(ts, (k2 * w) as real / samplingRate, (k2 * w + w) as real / samplingRate);
            forall t :: t in wp1 ==> t !in wp2
  {
    MulLe(k1 + 1, k2, w);
    DivLe((k1 * w + w) as real, (k2 * w) as real, samplingRate);
    SeparatedWindowsDisjoint(Times(peaks, samplingRate),
                             (k1 * w) as real / samplingRate, (k1 * w + w) as real / samplingRate,
                             (k2 * w) as real / samplingRate, (k2 * w + w) as real / samplingRate);
  }

  /** Windows that do not overlap select no common time. */
  lemma SeparatedWindowsDisjoint(ts: seq<real>, lo1: real, hi1: real, lo2: real, hi2: real)
    requires hi1 <= lo2
    ensures forall t :: t in WindowPeaks(ts, lo1, hi1) ==> t !in WindowPeaks(ts, lo2, hi2)
  {
    WindowPeaksExact(ts, lo1, hi1);
    WindowPeaksExact(ts, lo2, hi2);
  }

  /** Two peaks at samples `start <= p < q < start + w`. */
  predicate TwoPeaksIn(peaks: seq<int>, start: int, w: int)
  {
    exists i, j :: 0 <= i < j < |peaks| && start <= peaks[i] && peaks[j] < start + w
  }

  /**
   * At a positive sampling rate with increasing peaks, every entry is
   * non-negative, and positive exactly when its window holds two peaks.
   */
  lemma EntryPositiveIffTwoPeaks(n: nat, peaks: seq<int>, samplingRate: real, windowSize: real, k: nat)
    requires samplingRate > 0.0 && StrictlyIncreasing(peaks)
    requires SniffingFrequencies(n, peaks, samplingRate, windowSize).Ok?
    requires k < |SniffingFrequencies(n, peaks, samplingRate, windowSize).value|
    ensures var w := WindowSamples(windowSize, samplingRate);
            var f := SniffingFrequencies(n, peaks, samplingRate, windowSize).value[k];
            && f >= 0.0
            && (f > 0.0 <==> TwoPeaksIn(peaks, k * w, w))
  {
    var w := WindowSamples(windowSize, samplingRate);
    EntryPositiveIffTwoPeaksAt(peaks, samplingRate, k * w, w);
  }

  lemma EntryPositiveIffTwoPeaksAt(peaks: seq<int>, samplingRate: real, start: int, w: int)
    requires samplingRate > 0.0 && StrictlyIncreasing(peaks)
    ensures var f := WindowEntry(peaks, samplingRate, start, w);
            && f >= 0.0
            && (f > 0.0 <==> TwoPeaksIn(peaks, start, w))
  {
    var ts := Times(peaks, samplingRate);
    var lo, hi := start as real / samplingRate, (start + w) as real / samplingRate;
    var idx := WindowIndices(ts, lo, hi, |ts|);
    var wp := WindowPeaks(ts, lo, hi);
    TimesIncreasing(peaks, samplingRate);
    WindowPeaksIncreasing(ts, lo, hi);
    WindowIndicesSound(ts, lo, hi, |ts|);
    if TwoPeaksIn(peaks, start, w) {
      var i, j :| 0 <= i < j < |peaks| && start <= peaks[i] && peaks[j] < start + w;
      WindowMembershipInSamples(peaks, samplingRate, start, w);
      TwoMembers(wp, ts[i], ts[j]);
    }
    if |wp| >= 2 {
      FrequencyPositive(wp);
      DivLe(start as real, peaks[idx[0]] as real, samplingRate);
      DivLt(peaks[idx[1]] as real, (start + w) as real, samplingRate);
      assert TwoPeaksIn(peaks, start, w);
    }
  }

  lemma TwoMembers(s: seq<real>, a: real, b: real)
    requires a in s && b in s && a != b
    ensures |s| >= 2
  {
  }

  /** Peaks at samples 20, 25 and 30 of a 100-sample recording at 10 Hz fill one 5 s window: 2.0 Hz. */
  lemma SniffingExample()
    ensures SniffingFrequencies(100, [20, 25, 30], 10.0, 5.0) == Ok([2.0])
  {
    assert WindowSamples(5.0, 10.0) == 50;
    assert RangeLen(100 - 50, 50) == 1;
    WindowEntryExample();
    var r := SniffingFrequencies(100, [20, 25, 30], 10.0, 5.0).value;
    assert |r| == 1 && r[0] == WindowEntry([20, 25, 30], 10.0, 0 * 50, 50);
    assert r == [2.0];
  }

  lemma WindowEntryExample()
    ensures WindowEntry([20, 25, 30], 10.0, 0, 50) == 2.0
  {
    var ts := Times([20, 25, 30], 10.0);
    assert ts == [2.0, 2.5, 3.0];
    assert WindowIndices(ts, 0.0, 5.0, 3) == [0, 1, 2];
    assert WindowPeaks(ts, 0.0, 5.0) == [2.0, 2.5, 3.0];
    FrequencyExample();
  }

  /** The module's own demo call (1000 samples at 100 Hz, 20 s windows) has no window at all. */
  lemma DemoCallIsEmpty(peaks: seq<int>)
    requires Distinct(peaks)
    ensures SniffingFrequencies(1000, peaks, 100.0, 20.0) == Ok([])
  {
    assert WindowSamples(20.0, 100.0) == 2000;
    assert RangeLen(1000 - 2000, 2000) == 0;
    assert |SniffingFrequencies(1000, peaks, 100.0, 20.0).value| == 0;
  }
}
