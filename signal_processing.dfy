/**
 * Model of `peakfinder` (signal_processing.py), the Python port of the MATLAB
 * peakfinder: candidate extrema from sign changes of the first difference, a
 * scan loop that confirms peaks, optional parabolic refinement, and a strict
 * threshold filter. Samples and magnitudes are `real`; sample indices `int`.
 */
module SignalProcessing {
  import opened Wrappers
  import opened ArrayOps

  /** The exceptions `peakfinder` can raise on a one-dimensional real input. */
  datatype PeakError =
    | InvalidExtrema     // ValueError: extrema is neither 1 nor -1
    | EmptyArray         // ValueError: np.max / np.min of a zero-size array
    | IndexOutOfBounds   // IndexError: x0[[0, -1]] on an empty array

  /** Two parallel arrays: peak locations (as floats) and peak magnitudes. */
  datatype PeakSet = PeakSet(locs: seq<real>, mags: seq<real>)

  // ---------------------------------------------------------------------------
  // Defaults

  /** Default selectivity: a quarter of the signal's range, never negative. */
  function DefaultSelectivity(x0: seq<real>): (sel: real)
    requires |x0| > 0
    ensures sel >= 0.0
    ensures forall i, j :: 0 <= i < |x0| && 0 <= j < |x0| ==> x0[i] - x0[j] <= 4.0 * sel
    ensures exists i, j :: 0 <= i < |x0| && 0 <= j < |x0| && x0[i] - x0[j] == 4.0 * sel
  {
    (Max(x0) - Min(x0)) / 4.0
  }

  // ---------------------------------------------------------------------------
  // Candidate extrema

  /**
   * The sign a first difference takes once exact zeros are forced negative:
   * the source overwrites zero differences with a tiny negative number, which
   * only matters through its sign.
   */
  function Slope(d: real): int
  {
    if d > 0.0 then 1 else -1
  }

  /** Interior index k is a turn when the differences on its two sides have a negative product. */
  predicate IsTurn(x: seq<real>, k: int)
    requires 1 <= k <= |x| - 2
  {
    Slope(x[k] - x[k - 1]) * Slope(x[k + 1] - x[k]) < 0
  }

  /** A turn is exactly a strict sign change of the differences, zero counting as negative. */
  lemma TurnIsSignChange(x: seq<real>, k: int)
    requires 1 <= k <= |x| - 2
    ensures IsTurn(x, k) <==> ((x[k] - x[k - 1] > 0.0) != (x[k + 1] - x[k] > 0.0))
  {
  }

  /** `np.where(dx0[:-1] * dx0[1:] < 0)[0] + 1`: the turns, in increasing order. */
  function InteriorCandidates(x: seq<real>): (ind: seq<nat>)
    ensures forall j :: 0 <= j < |ind| ==> 1 <= ind[j] <= |x| - 2
  {
    if |x| < 2 then [] else TurnsBelow(x, |x| - 1)
  }

  /** The turns strictly below `n`, in increasing order. */
  function TurnsBelow(x: seq<real>, n: nat): (ind: seq<nat>)
    requires n <= |x| - 1
    ensures forall j :: 0 <= j < |ind| ==> 1 <= ind[j] < n
  {
    if n <= 1 then []
    else
      var init := TurnsBelow(x, n - 1);
      if IsTurn(x, n - 1) then init + [n - 1] else init
  }

  /** The turns found below `n` are strictly increasing, and each is a turn. */
  lemma {:induction false} TurnsBelowSound(x: seq<real>, n: nat)
    requires n <= |x| - 1
    ensures var ind := TurnsBelow(x, n);
      && StrictlyIncreasing(ind)
      && (forall j :: 0 <= j < |ind| ==> IsTurn(x, ind[j]))
  {
    if n > 1 {
      TurnsBelowSound(x, n - 1);
    }
  }

  /** Every turn below `n` is found. */
  lemma {:induction false} TurnsBelowComplete(x: seq<real>, n: nat)
    requires n <= |x| - 1
    ensures forall k :: 1 <= k < n && IsTurn(x, k) ==> k in TurnsBelow(x, n)
  {
    if n > 1 {
      TurnsBelowComplete(x, n - 1);
    }
  }

  /** Nothing is found below `n` when there is no turn there. */
  lemma {:induction false} TurnsBelowNone(x: seq<real>, n: nat)
    requires n <= |x| - 1
    requires forall k :: 1 <= k < n ==> !IsTurn(x, k)
    ensures TurnsBelow(x, n) == []
  {
    if n > 1 {
      TurnsBelowNone(x, n - 1);
    }
  }

  /** The interior candidates are strictly increasing, and they are exactly the turns. */
  lemma InteriorCandidatesAreTurns(x: seq<real>)
    ensures var ind := InteriorCandidates(x);
      && StrictlyIncreasing(ind)
      && (forall j :: 0 <= j < |ind| ==> IsTurn(x, ind[j]))
      && (forall k :: 1 <= k <= |x| - 2 && IsTurn(x, k) ==> k in ind)
  {
    if |x| >= 2 {
      TurnsBelowSound(x, |x| - 1);
      TurnsBelowComplete(x, |x| - 1);
    }
  }

  /** A constant signal has no interior candidates. */
  lemma ConstantSignalHasNoTurns(x: seq<real>)
    requires forall i :: 0 <= i < |x| ==> x[i] == x[0]
    ensures InteriorCandidates(x) == []
  {
    if |x| >= 2 {
      forall k | 1 <= k < |x| - 1 ensures !IsTurn(x, k) {
        assert x[k - 1] == x[0] && x[k] == x[0] && x[k + 1] == x[0];
      }
      TurnsBelowNone(x, |x| - 1);
    }
  }

  /** The candidate list: the interior candidates, between the two endpoints when asked for. */
  function Candidates(x: seq<real>, includeEndpoints: bool): (ind: seq<int>)
    ensures |x| > 0 || !includeEndpoints ==> forall j :: 0 <= j < |ind| ==> 0 <= ind[j] < |x|
  {
    var interior := InteriorCandidates(x);
    if includeEndpoints then [0] + interior + [|x| - 1] else interior
  }

  /**
   * With the endpoints, the list starts at 0 and ends at n-1; without them
   * it lies strictly inside the signal. It is strictly increasing from two
   * samples on, and each member strictly inside the signal is a turn.
   */
  lemma CandidatesShape(x: seq<real>, includeEndpoints: bool)
    ensures var ind := Candidates(x, includeEndpoints);
      && (includeEndpoints ==>
            |ind| == |InteriorCandidates(x)| + 2 && ind[0] == 0 && ind[|ind| - 1] == |x| - 1)
      && (!includeEndpoints ==> forall j :: 0 <= j < |ind| ==> 1 <= ind[j] <= |x| - 2)
      && (|x| >= 2 || !includeEndpoints ==> StrictlyIncreasing(ind))
      && (forall j :: 0 <= j < |ind| && 1 <= ind[j] <= |x| - 2 ==> IsTurn(x, ind[j]))
  {
    var interior := InteriorCandidates(x);
    if |x| >= 2 {
      TurnsBelowSound(x, |x| - 1);
    }
    var ind := Candidates(x, includeEndpoints);
    forall j | 0 <= j < |ind| && 1 <= ind[j] <= |x| - 2 ensures IsTurn(x, ind[j]) {
      if includeEndpoints {
        assert ind[j] == interior[j - 1];
      }
    }
  }

  /** A sample strictly inside the signal is a candidate exactly when it is a turn. */
  lemma CandidatesAreTurns(x: seq<real>, includeEndpoints: bool, k: int)
    requires 1 <= k <= |x| - 2
    ensures k in Candidates(x, includeEndpoints) <==> IsTurn(x, k)
  {
    CandidatesShape(x, includeEndpoints);
    InteriorCandidatesAreTurns(x);
    var ind := Candidates(x, includeEndpoints);
    if k in ind {
      var j :| 0 <= j < |ind| && ind[j] == k;
    }
    if IsTurn(x, k) && includeEndpoints {
      var interior := InteriorCandidates(x);
      var j :| 0 <= j < |interior| && interior[j] == k;
      assert ind[j + 1] == k;
    }
  }

  // ---------------------------------------------------------------------------
  // Scan loop

  /**
   * The peak-finding loop. `left_min` starts at the global minimum of the
   * candidate values, so its update never fires; with `sel >= 0` the loop
   * emits exactly the candidates before the last one whose value exceeds
   * that minimum by more than `sel`, in candidate order, each with its value
   * as magnitude.
   */
  method Scan(x: seq<real>, ind: seq<int>, sel: real) returns (locs: seq<int>, mags: seq<real>)
    requires |x| == |ind| > 0
    requires sel >= 0.0
    ensures locs == SelectAbove(ind, x, Min(x) + sel, |x| - 1)
    ensures mags == SelectAbove(x, x, Min(x) + sel, |x| - 1)
  {
    var minMag := Min(x);
    var leftMin := minMag;
    locs, mags := [], [];
    var foundPeak := false;
    var tempMag := minMag;
    var tempLoc := 0;
    var i := 0;
    while i < |x| - 1
      invariant 0 <= i <= |x| - 1
      invariant leftMin == minMag
      invariant !foundPeak ==> tempMag == minMag
      invariant locs == SelectAbove(ind, x, minMag + sel, i)
      invariant mags == SelectAbove(x, x, minMag + sel, i)
    {
      if foundPeak {
        tempMag := minMag;
        foundPeak := false;
      }
      if x[i] > tempMag && x[i] > leftMin + sel {
        tempLoc := i;
        tempMag := x[i];
      }
      if i + 1 < |x| {
        var next := x[i + 1];
        if next < leftMin {
          leftMin := next;
        }
      }
      if x[i] > leftMin + sel {
        foundPeak := true;
        locs := locs + [ind[tempLoc]];
        mags := mags + [tempMag];
      }
      i := i + 1;
    }
  }

  /** The `left_min` update condition of the scan is false at every step. */
  lemma LeftMinNeverUpdates(x: seq<real>, i: int)
    requires 0 <= i < |x| - 1
    ensures !(x[i + 1] < Min(x))
  {
  }

  // ---------------------------------------------------------------------------
  // Parabolic refinement

  /** The guard of the refinement: an interior location whose three-point denominator is nonzero. */
  predicate Refinable(x0: seq<real>, loc: int)
  {
    1 <= loc < |x0| - 1 && Denominator(x0, loc) != 0.0
  }

  /** `denom = 2 * (x1 - 2*x2 + x3)` around an interior location. */
  function Denominator(x0: seq<real>, loc: int): real
    requires 1 <= loc < |x0| - 1
  {
    2.0 * (x0[loc - 1] - 2.0 * x0[loc] + x0[loc + 1])
  }

  /** The refined location: shifted by `(x1 - x3) / denom` where refinable, unchanged elsewhere. */
  function RefinedLoc(x0: seq<real>, loc: int): real
  {
    if Refinable(x0, loc)
    then loc as real + (x0[loc - 1] - x0[loc + 1]) / Denominator(x0, loc)
    else loc as real
  }

  /** The refined magnitude: raised by `(x1 - x3)^2 / (8 * denom)` where refinable, unchanged elsewhere. */
  function RefinedMag(x0: seq<real>, loc: int, mag: real): real
  {
    if Refinable(x0, loc)
    then mag + (x0[loc - 1] - x0[loc + 1]) * (x0[loc - 1] - x0[loc + 1]) / (8.0 * Denominator(x0, loc))
    else mag
  }

  /**
   * The interpolation loop: the indices become a float array, and each
   * refinable peak has its location and magnitude updated in place.
   */
  method Interpolate(x0: seq<real>, locs: seq<int>, mags: seq<real>) returns (rl: seq<real>, rm: seq<real>)
    requires |locs| == |mags|
    ensures |rl| == |locs| && |rm| == |locs|
    ensures forall i :: 0 <= i < |locs| ==>
      rl[i] == RefinedLoc(x0, locs[i]) && rm[i] == RefinedMag(x0, locs[i], mags[i])
    ensures forall i :: 0 <= i < |locs| && !Refinable(x0, locs[i]) ==>
      rl[i] == locs[i] as real && rm[i] == mags[i]
  {
    var peakLocs := new real[|locs|](i requires 0 <= i < |locs| => locs[i] as real);
    var peakMags := new real[|mags|](i requires 0 <= i < |mags| => mags[i]);
    for i := 0 to peakLocs.Length
      invariant forall j :: 0 <= j < i ==>
        peakLocs[j] == RefinedLoc(x0, locs[j]) && peakMags[j] == RefinedMag(x0, locs[j], mags[j])
      invariant forall j :: i <= j < peakLocs.Length ==>
        peakLocs[j] == locs[j] as real && peakMags[j] == mags[j]
    {
      if 1.0 <= peakLocs[i] < (|x0| - 1) as real {
        var k := peakLocs[i].Floor;
        assert k == locs[i];
        var x1, x2, x3 := x0[k - 1], x0[k], x0[k + 1];
        var denom := 2.0 * (x1 - 2.0 * x2 + x3);
        if denom != 0.0 {
          peakLocs[i] := peakLocs[i] + (x1 - x3) / denom;
          peakMags[i] := peakMags[i] + ((x1 - x3) * (x1 - x3)) / (8.0 * denom);
        }
      }
    }
    rl, rm := peakLocs[..], peakMags[..];
  }

  /** The parabola through (-1, x1), (0, x2), (1, x3), evaluated at offset t. */
  function Parabola(x1: real, x2: real, x3: real, t: real): real
  {
    x2 + (x3 - x1) / 2.0 * t + (x1 - 2.0 * x2 + x3) / 2.0 * t * t
  }

  /** The refined location is the vertex of the parabola through the three samples around the peak. */
  lemma RefinedLocIsVertex(x0: seq<real>, loc: int)
    requires Refinable(x0, loc)
    ensures var x1, x2, x3 := x0[loc - 1], x0[loc], x0[loc + 1];
            var t := RefinedLoc(x0, loc) - loc as real;
            (x3 - x1) / 2.0 + (x1 - 2.0 * x2 + x3) * t == 0.0
  {
    var x1, x2, x3 := x0[loc - 1], x0[loc], x0[loc + 1];
    var d := Denominator(x0, loc);
    var t := (x1 - x3) / d;
    assert t * d == x1 - x3;
    assert (x1 - 2.0 * x2 + x3) * t == (x1 - x3) / 2.0;
  }

  /** At a turn the refinement moves the location by at most half a sample. */
  lemma RefinedLocWithinHalfSample(x0: seq<real>, loc: int)
    requires 1 <= loc <= |x0| - 2 && IsTurn(x0, loc)
    ensures loc as real - 0.5 <= RefinedLoc(x0, loc) <= loc as real + 0.5
  {
    if Refinable(x0, loc) {
      var d1, d2 := x0[loc] - x0[loc - 1], x0[loc + 1] - x0[loc];
      var d := Denominator(x0, loc);
      assert d == 2.0 * (d2 - d1);
      var q := (x0[loc - 1] - x0[loc + 1]) / d;
      assert q * d == -(d1 + d2);
      if d1 > 0.0 {
        assert d2 <= 0.0 && d < 0.0;
        assert -(d1 + d2) >= d / 2.0;
        assert -(d1 + d2) <= -d / 2.0;
        assert -0.5 <= q <= 0.5;
      } else {
        assert d2 > 0.0 && d > 0.0;
        assert -(d1 + d2) <= d / 2.0;
        assert -(d1 + d2) >= -d / 2.0;
        assert -0.5 <= q <= 0.5;
      }
    }
  }

  /**
   * Refinement keeps two whole-number locations in order, though not
   * strictly: each turn moves by at most half a sample, and a location that
   * is not strictly inside the signal does not move.
   */
  lemma RefinedLocsOrdered(x0: seq<real>, l1: int, l2: int)
    requires l1 < l2
    requires 1 <= l1 <= |x0| - 2 ==> IsTurn(x0, l1)
    requires 1 <= l2 <= |x0| - 2 ==> IsTurn(x0, l2)
    ensures RefinedLoc(x0, l1) <= RefinedLoc(x0, l2)
  {
    if 1 <= l1 <= |x0| - 2 {
      RefinedLocWithinHalfSample(x0, l1);
    }
    if 1 <= l2 <= |x0| - 2 {
      RefinedLocWithinHalfSample(x0, l2);
    }
  }

  /**
   * At a turn the refined magnitude never exceeds the three samples around
   * it: at a maximum-type turn (rising into it) it is at most the sample, at
   * a minimum-type turn at most the larger neighbour.
   */
  lemma RefinedMagAtTurn(x0: seq<real>, loc: int)
    requires 1 <= loc <= |x0| - 2 && IsTurn(x0, loc)
    ensures x0[loc] - x0[loc - 1] > 0.0 ==> RefinedMag(x0, loc, x0[loc]) <= x0[loc]
    ensures x0[loc] - x0[loc - 1] <= 0.0 ==>
      RefinedMag(x0, loc, x0[loc]) <= x0[loc - 1] || RefinedMag(x0, loc, x0[loc]) <= x0[loc + 1]
  {
    if Refinable(x0, loc) {
      var x1, x2, x3 := x0[loc - 1], x0[loc], x0[loc + 1];
      var d := Denominator(x0, loc);
      if x2 - x1 > 0.0 {
        assert x3 - x2 <= 0.0 && d < 0.0;
        if x1 != x3 {
          SquareOverNegative(x1 - x3, d);
        }
      } else {
        var a, b := x1 - x2, x3 - x2;
        assert a >= 0.0 && b > 0.0;
        assert x1 - x3 == a - b && 8.0 * d == 16.0 * (a + b);
        SquareOverPositiveSum(a, b);
      }
    }
  }

  /** `(a - b)^2 / (16 (a + b))` is at most the larger of `a >= 0` and `b > 0`. */
  lemma SquareOverPositiveSum(a: real, b: real)
    requires a >= 0.0 && b > 0.0
    ensures (a - b) * (a - b) / (16.0 * (a + b)) <= (if a >= b then a else b)
  {
    var m := if a >= b then a else b;
    var c := a - b;
    var den := 16.0 * (a + b);
    assert 0.0 < m <= den;
    assert -m <= c <= m;
    if c >= 0.0 {
      assert c * c <= c * m <= m * m;
    } else {
      assert c * c == (-c) * (-c) <= (-c) * m <= m * m;
    }
    assert m * m <= m * den;
    assert c * c <= m * den;
    DivAtMost(c * c, den, m);
  }

  /** `u / den <= m` when `u <= m * den` and `den > 0`. */
  lemma DivAtMost(u: real, den: real, m: real)
    requires den > 0.0 && u <= m * den
    ensures u / den <= m
  {
    var r := 1.0 / den;
    assert den * r == 1.0;
    assert u / den == u * r;
    assert u * r <= m * den * r;
  }

  /**
   * At a strict local maximum with unequal neighbours the refined magnitude
   * is BELOW the sample, although the parabola's vertex lies above it.
   */
  lemma RefinedMagDropsAtStrictMaximum(x0: seq<real>, loc: int, mag: real)
    requires 1 <= loc < |x0| - 1
    requires x0[loc - 1] < x0[loc] && x0[loc + 1] < x0[loc] && x0[loc - 1] != x0[loc + 1]
    ensures RefinedMag(x0, loc, mag) < mag
    ensures Parabola(x0[loc - 1], x0[loc], x0[loc + 1], RefinedLoc(x0, loc) - loc as real) > x0[loc]
  {
    var x1, x2, x3 := x0[loc - 1], x0[loc], x0[loc + 1];
    var d := Denominator(x0, loc);
    assert d < 0.0;
    SquareOverNegative(x1 - x3, d);
    var t := (x1 - x3) / d;
    assert t * d == x1 - x3;
    assert t != 0.0;
    var a := (x1 - 2.0 * x2 + x3) / 2.0;
    assert a < 0.0;
    assert (x1 - 2.0 * x2 + x3) * t == (x1 - x3) / 2.0 by { RefinedLocIsVertex(x0, loc); }
    assert Parabola(x1, x2, x3, t) == x2 - a * t * t;
    NegativeTimesSquare(a, t);
  }

  /** `u^2 / (8d)` is negative for `u != 0` and `d < 0`. */
  lemma SquareOverNegative(u: real, d: real)
    requires u != 0.0 && d < 0.0
    ensures u * u / (8.0 * d) < 0.0
  {
    if u > 0.0 {
      assert u / (8.0 * d) < 0.0;
    } else {
      assert u / (8.0 * d) > 0.0;
    }
    assert u * u / (8.0 * d) == (u / (8.0 * d)) * u;
  }

  /** `a t^2` is negative for `a < 0` and `t != 0`. */
  lemma NegativeTimesSquare(a: real, t: real)
    requires a < 0.0 && t != 0.0
    ensures a * t * t < 0.0
  {
    if t > 0.0 {
      assert a * t < 0.0;
    } else {
      assert a * t > 0.0;
    }
  }

  /** A concrete instance: samples 0, 1, 0.5 around index 1 give magnitude 1 - 1/96, the vertex 1 + 1/48. */
  lemma RefinedMagExample()
    ensures RefinedLoc([0.0, 1.0, 0.5], 1) == 1.0 + 1.0 / 6.0
    ensures RefinedMag([0.0, 1.0, 0.5], 1, 1.0) == 1.0 - 1.0 / 96.0
    ensures Parabola(0.0, 1.0, 0.5, 1.0 / 6.0) == 1.0 + 1.0 / 48.0
  {
    assert Refinable([0.0, 1.0, 0.5], 1);
    assert Denominator([0.0, 1.0, 0.5], 1) == -3.0;
  }

  /** The refinement applied to every peak. */
  function RefineAll(x0: seq<real>, locs: seq<int>, mags: seq<real>): (ps: PeakSet)
    requires |locs| == |mags|
    ensures |ps.locs| == |locs| && |ps.mags| == |locs|
    ensures forall i :: 0 <= i < |locs| ==>
      ps.locs[i] == RefinedLoc(x0, locs[i]) && ps.mags[i] == RefinedMag(x0, locs[i], mags[i])
  {
    PeakSet(seq(|locs|, i requires 0 <= i < |locs| => RefinedLoc(x0, locs[i])),
            seq(|locs|, i requires 0 <= i < |locs| => RefinedMag(x0, locs[i], mags[i])))
  }

  // ---------------------------------------------------------------------------
  // Threshold

  /**
   * The mask `peak_mags > thresh`: exactly the peaks whose magnitude is
   * strictly above `t` survive, with their locations, in their original order.
   */
  function ApplyThreshold(ps: PeakSet, t: real): (r: PeakSet)
    requires |ps.locs| == |ps.mags|
  {
    PeakSet(SelectAbove(ps.locs, ps.mags, t, |ps.mags|), SelectAbove(ps.mags, ps.mags, t, |ps.mags|))
  }

  /** The mask selection is indexing both arrays with the positions whose magnitude is above `t`. */
  lemma ThresholdAsPick(ps: PeakSet, t: real)
    requires |ps.locs| == |ps.mags|
    ensures var keep := IndicesAbove(ps.mags, t, |ps.mags|);
      ApplyThreshold(ps, t) == PeakSet(Pick(ps.locs, keep), Pick(ps.mags, keep))
  {
    SelectAboveIsPick(ps.locs, ps.mags, t, |ps.mags|);
    SelectAboveIsPick(ps.mags, ps.mags, t, |ps.mags|);
  }

  /** Each surviving pair is an input pair, parallel arrays, with a magnitude above `t`. */
  lemma ThresholdSurvivors(ps: PeakSet, t: real)
    requires |ps.locs| == |ps.mags|
    ensures var r := ApplyThreshold(ps, t);
      && |r.locs| == |r.mags| <= |ps.mags|
      && (forall j :: 0 <= j < |r.mags| ==> r.mags[j] > t)
      && (forall j :: 0 <= j < |r.mags| ==>
            exists i :: 0 <= i < |ps.mags| && r.locs[j] == ps.locs[i] && r.mags[j] == ps.mags[i])
  {
    var n := |ps.mags|;
    var keep := IndicesAbove(ps.mags, t, n);
    ThresholdAsPick(ps, t);
    IndicesAboveSound(ps.mags, t, n);
    var r := ApplyThreshold(ps, t);
    forall j | 0 <= j < |r.mags|
      ensures r.mags[j] > t
      ensures exists i :: 0 <= i < |ps.mags| && r.locs[j] == ps.locs[i] && r.mags[j] == ps.mags[i]
    {
      var i := keep[j];
      assert r.locs[j] == ps.locs[i] && r.mags[j] == ps.mags[i];
    }
  }

  /** Every input pair with a magnitude above `t` survives. */
  lemma ThresholdKeepsAllAbove(ps: PeakSet, t: real)
    requires |ps.locs| == |ps.mags|
    ensures var r := ApplyThreshold(ps, t);
      forall i :: 0 <= i < |ps.mags| && ps.mags[i] > t ==>
        exists j :: 0 <= j < |r.mags| && r.locs[j] == ps.locs[i] && r.mags[j] == ps.mags[i]
  {
    var n := |ps.mags|;
    var keep := IndicesAbove(ps.mags, t, n);
    ThresholdAsPick(ps, t);
    IndicesAboveComplete(ps.mags, t, n);
    var r := ApplyThreshold(ps, t);
    forall i | 0 <= i < n && ps.mags[i] > t
      ensures exists j :: 0 <= j < |r.mags| && r.locs[j] == ps.locs[i] && r.mags[j] == ps.mags[i]
    {
      assert i in keep;
      var j :| 0 <= j < |keep| && keep[j] == i;
      assert r.locs[j] == ps.locs[i] && r.mags[j] == ps.mags[i];
    }
  }

  /** Increasing locations stay increasing. */
  lemma ThresholdKeepsOrder(ps: PeakSet, t: real)
    requires |ps.locs| == |ps.mags|
    requires StrictlyIncreasingReals(ps.locs)
    ensures StrictlyIncreasingReals(ApplyThreshold(ps, t).locs)
  {
    ThresholdAsPick(ps, t);
    IndicesAboveSound(ps.mags, t, |ps.mags|);
    PickIncreasingReals(ps.locs, IndicesAbove(ps.mags, t, |ps.mags|));
  }

  /** Non-decreasing locations stay non-decreasing. */
  lemma ThresholdKeepsWeakOrder(ps: PeakSet, t: real)
    requires |ps.locs| == |ps.mags|
    requires NonDecreasingReals(ps.locs)
    ensures NonDecreasingReals(ApplyThreshold(ps, t).locs)
  {
    ThresholdAsPick(ps, t);
    IndicesAboveSound(ps.mags, t, |ps.mags|);
    PickNonDecreasingReals(ps.locs, IndicesAbove(ps.mags, t, |ps.mags|));
  }

  /** Nothing survives a threshold at or above every magnitude. */
  lemma ThresholdAboveAll(ps: PeakSet, t: real)
    requires |ps.locs| == |ps.mags|
    requires forall i :: 0 <= i < |ps.mags| ==> ps.mags[i] <= t
    ensures ApplyThreshold(ps, t) == PeakSet([], [])
  {
    ThresholdAsPick(ps, t);
    IndicesAboveNone(ps.mags, t, |ps.mags|);
  }

  // ---------------------------------------------------------------------------
  // The whole function

  /** The selectivity in effect: the one given, else the default. */
  function Selectivity(x0: seq<real>, sel: Option<real>): (s: real)
    requires sel.Some? ==> sel.value >= 0.0
    requires sel.Some? || |x0| > 0
    ensures s >= 0.0
  {
    if sel.Some? then sel.value else DefaultSelectivity(x0)
  }

  /**
   * Everything between validation and threshold: take the candidate values,
   * keep those the scan confirms, refine them when asked.
   */
  function Detect(x: seq<real>, ind: seq<int>, s: real, interpolate: bool): (ps: PeakSet)
    requires |ind| > 0 && forall j :: 0 <= j < |ind| ==> 0 <= ind[j] < |x|
    ensures |ps.locs| == |ps.mags| <= |ind| - 1
  {
    var keep := Confirmed(x, ind, s);
    var locs, mags := Pick(ind, keep), Pick(Pick(x, ind), keep);
    if interpolate then RefineAll(x, locs, mags) else PeakSet(Reals(locs), mags)
  }

  /**
   * The positions in the candidate list that the scan confirms: those
   * before the last whose value exceeds the candidate minimum by more than `s`.
   */
  function Confirmed(x: seq<real>, ind: seq<int>, s: real): (keep: seq<nat>)
    requires |ind| > 0 && forall j :: 0 <= j < |ind| ==> 0 <= ind[j] < |x|
    ensures forall j :: 0 <= j < |keep| ==> keep[j] < |ind| - 1
  {
    var c := Pick(x, ind);
    IndicesAbove(c, Min(c) + s, |c| - 1)
  }

  /** The confirmed positions increase, and each holds a value above the floor plus `s`. */
  lemma ConfirmedSound(x: seq<real>, ind: seq<int>, s: real)
    requires |ind| > 0 && forall j :: 0 <= j < |ind| ==> 0 <= ind[j] < |x|
    ensures var keep := Confirmed(x, ind, s);
      && StrictlyIncreasing(keep)
      && forall j :: 0 <= j < |keep| ==> x[ind[keep[j]]] > Min(Pick(x, ind)) + s
  {
    var c := Pick(x, ind);
    IndicesAboveSound(c, Min(c) + s, |c| - 1);
  }

  /** `extrema * v` for a mode of 1 or -1. */
  function Orient(v: real, extrema: int): real
  {
    if extrema == 1 then v else -v
  }

  /** `extrema * x0` for a mode of 1 or -1: minima of the signal become maxima. */
  function OrientAll(x0: seq<real>, extrema: int): (x: seq<real>)
    ensures |x| == |x0|
  {
    if extrema == 1 then x0 else Negated(x0)
  }

  /** `thresh *= extrema`, with `None` standing for the NaN that disables the threshold. */
  function OrientThreshold(thresh: Option<real>, extrema: int): Option<real>
  {
    match thresh
    case None => None
    case Some(t) => Some(Orient(t, extrema))
  }

  /** The optional threshold, already in the transformed space. */
  function Thresholded(ps: PeakSet, thresh: Option<real>): PeakSet
    requires |ps.locs| == |ps.mags|
  {
    match thresh
    case None => ps
    case Some(t) => ApplyThreshold(ps, t)
  }

  /**
   * Everything after the orientation of the signal: the candidate list and
   * its two exceptions, detection with selectivity `s`, then the threshold.
   */
  function Detection(x: seq<real>, s: real, thresh: Option<real>, includeEndpoints: bool, interpolate: bool)
    : Result<PeakSet, PeakError>
  {
    var ind := Candidates(x, includeEndpoints);
    if includeEndpoints && |x| == 0 then Err(IndexOutOfBounds)
    else if |ind| == 0 then Err(EmptyArray)
    else Ok(Thresholded(Detect(x, ind, s, interpolate), thresh))
  }

  /**
   * Reference definition of `peakfinder`, with its scan loop collapsed into
   * a filter, and its exceptions in the order the source raises them.
   */
  function PeakFinderSpec(x0: seq<real>, sel: Option<real>, thresh: Option<real>, extrema: int,
                          includeEndpoints: bool, interpolate: bool): Result<PeakSet, PeakError>
    requires sel.Some? ==> sel.value >= 0.0
  {
    if sel.None? && |x0| == 0 then Err(EmptyArray)
    else if extrema != 1 && extrema != -1 then Err(InvalidExtrema)
    else Detection(OrientAll(x0, extrema), Selectivity(x0, sel), OrientThreshold(thresh, extrema),
                   includeEndpoints, interpolate)
  }

  /** Detection is the scan's output, refined when asked. */
  lemma DetectFromScan(x: seq<real>, ind: seq<int>, s: real, interpolate: bool, locs: seq<int>, mags: seq<real>)
    requires |ind| > 0 && forall j :: 0 <= j < |ind| ==> 0 <= ind[j] < |x|
    requires var c := Pick(x, ind);
      locs == SelectAbove(ind, c, Min(c) + s, |c| - 1) && mags == SelectAbove(c, c, Min(c) + s, |c| - 1)
    ensures |locs| == |mags|
    ensures Detect(x, ind, s, interpolate)
            == if interpolate then RefineAll(x, locs, mags) else PeakSet(Reals(locs), mags)
  {
    var c := Pick(x, ind);
    SelectAboveIsPick(ind, c, Min(c) + s, |c| - 1);
    SelectAboveIsPick(c, c, Min(c) + s, |c| - 1);
  }

  /** The scan over the candidate values, then the interpolation when asked and a peak was found. */
  method DetectPeaks(x: seq<real>, ind: seq<int>, s: real, interpolate: bool) returns (ps: PeakSet)
    requires |ind| > 0 && forall j :: 0 <= j < |ind| ==> 0 <= ind[j] < |x|
    requires s >= 0.0
    ensures ps == Detect(x, ind, s, interpolate)
  {
    var c := Pick(x, ind);
    var locs, mags := Scan(c, ind, s);
    DetectFromScan(x, ind, s, interpolate, locs, mags);
    if interpolate && |locs| > 0 {
      var rl, rm := Interpolate(x, locs, mags);
      ps := PeakSet(rl, rm);
      assert ps == RefineAll(x, locs, mags);
    } else {
      ps := PeakSet(Reals(locs), mags);
      assert interpolate ==> ps == RefineAll(x, locs, mags);
    }
  }

  /** `peakfinder(x0, sel, thresh, extrema, include_endpoints, interpolate)`. */
  method PeakFinder(x0: seq<real>, sel: Option<real>, thresh: Option<real>, extrema: int,
                    includeEndpoints: bool, interpolate: bool) returns (r: Result<PeakSet, PeakError>)
    requires sel.Some? ==> sel.value >= 0.0
    ensures r == PeakFinderSpec(x0, sel, thresh, extrema, includeEndpoints, interpolate)
  {
    var s: real;
    if sel.None? {
      if |x0| == 0 {
        return Err(EmptyArray);
      }
      s := DefaultSelectivity(x0);
    } else {
      s := sel.value;
    }
    if extrema != 1 && extrema != -1 {
      return Err(InvalidExtrema);
    }
    var x := OrientAll(x0, extrema);
    var ind := Candidates(x, includeEndpoints);
    if includeEndpoints && |x| == 0 {
      return Err(IndexOutOfBounds);
    }
    if |ind| == 0 {
      return Err(EmptyArray);
    }
    var ps := DetectPeaks(x, ind, s, interpolate);
    if thresh.Some? {
      ps := ApplyThreshold(ps, Orient(thresh.value, extrema));
    }
    assert ps == Thresholded(Detect(x, ind, s, interpolate), OrientThreshold(thresh, extrema));
    r := Ok(ps);
  }

  // ---------------------------------------------------------------------------
  // Properties of the whole function

  /** A mode other than 1 or -1 is rejected, unless the empty-signal error of the default selectivity comes first. */
  lemma InvalidExtremaRejected(x0: seq<real>, sel: Option<real>, thresh: Option<real>, extrema: int,
                               includeEndpoints: bool, interpolate: bool)
    requires sel.Some? ==> sel.value >= 0.0
    ensures PeakFinderSpec(x0, sel, thresh, extrema, includeEndpoints, interpolate) == Err(InvalidExtrema)
            <==> extrema != 1 && extrema != -1 && (sel.Some? || |x0| > 0)
  {
  }

  /**
   * The empty signal is rejected: by the default selectivity, by the
   * endpoint lookup, or for want of candidates, in that order.
   */
  lemma EmptySignalRejected(sel: Option<real>, thresh: Option<real>, extrema: int,
                            includeEndpoints: bool, interpolate: bool)
    requires sel.Some? ==> sel.value >= 0.0
    ensures var r := PeakFinderSpec([], sel, thresh, extrema, includeEndpoints, interpolate);
      r == if sel.None? then Err(EmptyArray)
           else if extrema != 1 && extrema != -1 then Err(InvalidExtrema)
           else if includeEndpoints then Err(IndexOutOfBounds)
           else Err(EmptyArray)
  {
    assert InteriorCandidates([]) == [];
  }

  /** A successful call: the mode is valid, and the result is the thresholded detection on the transformed signal. */
  lemma SpecOk(x0: seq<real>, sel: Option<real>, thresh: Option<real>, extrema: int,
               includeEndpoints: bool, interpolate: bool)
    requires sel.Some? ==> sel.value >= 0.0
    requires PeakFinderSpec(x0, sel, thresh, extrema, includeEndpoints, interpolate).Ok?
    ensures extrema == 1 || extrema == -1
    ensures sel.Some? || |x0| > 0
    ensures var x := OrientAll(x0, extrema);
            var ind := Candidates(x, includeEndpoints);
            && (!includeEndpoints || |x0| > 0)
            && |ind| > 0
            && PeakFinderSpec(x0, sel, thresh, extrema, includeEndpoints, interpolate).value
               == Thresholded(Detect(x, ind, Selectivity(x0, sel), interpolate), OrientThreshold(thresh, extrema))
  {
  }

  /**
   * Minima mode is maxima mode on the negated signal with the negated
   * threshold: magnitudes stay in the transformed space, and the default
   * selectivity, taken before the flip, is the same for both.
   */
  lemma MinimaAreMaximaOfNegation(x0: seq<real>, sel: Option<real>, thresh: Option<real>,
                                  includeEndpoints: bool, interpolate: bool)
    requires sel.Some? ==> sel.value >= 0.0
    ensures PeakFinderSpec(x0, sel, thresh, -1, includeEndpoints, interpolate)
         == PeakFinderSpec(Negated(x0), sel, OrientThreshold(thresh, -1), 1, includeEndpoints, interpolate)
  {
    var y := Negated(x0);
    assert OrientAll(y, 1) == OrientAll(x0, -1);
    assert OrientThreshold(OrientThreshold(thresh, -1), 1) == OrientThreshold(thresh, -1);
    if |x0| > 0 {
      NegatedExtremes(x0);
      assert Selectivity(y, sel) == Selectivity(x0, sel);
    }
  }

  /**
   * Without refinement, the emitted locations are candidate indices other
   * than the last candidate: strictly increasing when the candidates are,
   * and between the first candidate and the last one (excluded).
   */
  lemma DetectedLocationsOrdered(x: seq<real>, ind: seq<int>, s: real)
    requires |ind| > 0 && forall j :: 0 <= j < |ind| ==> 0 <= ind[j] < |x|
    requires StrictlyIncreasing(ind)
    ensures var ps := Detect(x, ind, s, false);
      && StrictlyIncreasingReals(ps.locs)
      && forall j :: 0 <= j < |ps.locs| ==>
           IsWhole(ps.locs[j]) && ind[0] as real <= ps.locs[j] < ind[|ind| - 1] as real
  {
    var keep := Confirmed(x, ind, s);
    ConfirmedSound(x, ind, s);
    PickedIndicesOrdered(ind, keep);
  }

  /** Picking increasing positions before the last from increasing indices. */
  lemma PickedIndicesOrdered(ind: seq<int>, keep: seq<nat>)
    requires |ind| > 0 && StrictlyIncreasing(ind) && StrictlyIncreasing(keep)
    requires forall j :: 0 <= j < |keep| ==> keep[j] < |ind| - 1
    ensures var l := Reals(Pick(ind, keep));
      && StrictlyIncreasingReals(l)
      && forall j :: 0 <= j < |l| ==> IsWhole(l[j]) && ind[0] as real <= l[j] < ind[|ind| - 1] as real
  {
    var locs := Pick(ind, keep);
    PickIncreasing(ind, keep);
    RealsIncreasing(locs);
    forall j | 0 <= j < |locs| ensures ind[0] <= locs[j] < ind[|ind| - 1] {
      assert keep[j] < |ind| - 1;
    }
  }

  /** When no candidate before the last exceeds the floor by more than `s`, nothing is emitted. */
  lemma DetectFindsNothingBelowFloor(x: seq<real>, ind: seq<int>, s: real, interpolate: bool)
    requires |ind| > 0 && forall j :: 0 <= j < |ind| ==> 0 <= ind[j] < |x|
    requires forall j :: 0 <= j < |ind| - 1 ==> x[ind[j]] <= Min(Pick(x, ind)) + s
    ensures Detect(x, ind, s, interpolate) == PeakSet([], [])
  {
    var c := Pick(x, ind);
    IndicesAboveNone(c, Min(c) + s, |c| - 1);
    assert Confirmed(x, ind, s) == [];
  }

  /** Without refinement, every magnitude is a value of the transformed signal. */
  lemma DetectedMagnitudesAreSamples(x: seq<real>, ind: seq<int>, s: real)
    requires |ind| > 0 && forall j :: 0 <= j < |ind| ==> 0 <= ind[j] < |x|
    ensures var ps := Detect(x, ind, s, false);
      forall j :: 0 <= j < |ps.mags| ==> ps.mags[j] in x
  {
    PickedValuesAreSamples(x, ind, Confirmed(x, ind, s));
  }

  /** Values picked through two levels of indexing are elements of the innermost array. */
  lemma PickedValuesAreSamples(x: seq<real>, ind: seq<int>, keep: seq<nat>)
    requires forall j :: 0 <= j < |ind| ==> 0 <= ind[j] < |x|
    requires forall j :: 0 <= j < |keep| ==> keep[j] < |ind|
    ensures forall j :: 0 <= j < |keep| ==> Pick(Pick(x, ind), keep)[j] in x
  {
    forall j | 0 <= j < |keep| ensures Pick(Pick(x, ind), keep)[j] in x {
      assert Pick(Pick(x, ind), keep)[j] == x[ind[keep[j]]];
    }
  }

  /**
   * With refinement, every location still lies in [0, n-1]: only candidates
   * strictly inside the signal are refined, each of them is a turn, and a
   * turn is moved by at most half a sample.
   */
  lemma RefinedLocationsInRange(x: seq<real>, ind: seq<int>, s: real)
    requires |ind| > 0 && forall j :: 0 <= j < |ind| ==> 0 <= ind[j] < |x|
    requires forall j :: 0 <= j < |ind| && 1 <= ind[j] <= |x| - 2 ==> IsTurn(x, ind[j])
    ensures var ps := Detect(x, ind, s, true);
      forall j :: 0 <= j < |ps.locs| ==> 0.0 <= ps.locs[j] <= (|x| - 1) as real
  {
    var keep := Confirmed(x, ind, s);
    var locs := Pick(ind, keep);
    var ps := RefineAll(x, locs, Pick(Pick(x, ind), keep));
    forall j | 0 <= j < |ps.locs| ensures 0.0 <= ps.locs[j] <= (|x| - 1) as real {
      var k := locs[j];
      assert k == ind[keep[j]];
      if 1 <= k <= |x| - 2 {
        RefinedLocWithinHalfSample(x, k);
      }
    }
  }

  /**
   * With refinement, the locations are non-decreasing: the unrefined ones
   * strictly increase in whole samples, and refinement keeps any two of
   * them in order.
   */
  lemma RefinedLocationsNonDecreasing(x: seq<real>, ind: seq<int>, s: real)
    requires |ind| > 0 && forall j :: 0 <= j < |ind| ==> 0 <= ind[j] < |x|
    requires StrictlyIncreasing(ind)
    requires forall j :: 0 <= j < |ind| && 1 <= ind[j] <= |x| - 2 ==> IsTurn(x, ind[j])
    ensures NonDecreasingReals(Detect(x, ind, s, true).locs)
  {
    var keep := Confirmed(x, ind, s);
    ConfirmedSound(x, ind, s);
    var locs := Pick(ind, keep);
    PickIncreasing(ind, keep);
    var ps := RefineAll(x, locs, Pick(Pick(x, ind), keep));
    forall i, j | 0 <= i < j < |ps.locs| ensures ps.locs[i] <= ps.locs[j] {
      assert locs[i] == ind[keep[i]] && locs[j] == ind[keep[j]];
      RefinedLocsOrdered(x, locs[i], locs[j]);
    }
  }

  /**
   * Every magnitude, refined or not, is at most the largest sample: an
   * unrefined one is a sample, and a refined one sits at a turn.
   */
  lemma DetectedMagnitudesAtMostMax(x: seq<real>, ind: seq<int>, s: real, interpolate: bool)
    requires |ind| > 0 && forall j :: 0 <= j < |ind| ==> 0 <= ind[j] < |x|
    requires forall j :: 0 <= j < |ind| && 1 <= ind[j] <= |x| - 2 ==> IsTurn(x, ind[j])
    ensures var ps := Detect(x, ind, s, interpolate);
      forall j :: 0 <= j < |ps.mags| ==> ps.mags[j] <= Max(x)
  {
    var keep := Confirmed(x, ind, s);
    var locs := Pick(ind, keep);
    var mags := Pick(Pick(x, ind), keep);
    forall j | 0 <= j < |keep| ensures mags[j] <= Max(x) && RefinedMag(x, locs[j], mags[j]) <= Max(x) {
      var k := locs[j];
      assert k == ind[keep[j]] && mags[j] == x[k];
      if 1 <= k <= |x| - 2 {
        RefinedMagAtTurn(x, k);
      }
    }
  }

  /** The optional threshold keeps a subset of the pairs, in order. */
  lemma ThresholdedSubset(ps: PeakSet, thresh: Option<real>)
    requires |ps.locs| == |ps.mags|
    ensures var r := Thresholded(ps, thresh);
      && |r.locs| == |r.mags|
      && (forall j :: 0 <= j < |r.locs| ==> r.locs[j] in ps.locs && r.mags[j] in ps.mags)
      && (StrictlyIncreasingReals(ps.locs) ==> StrictlyIncreasingReals(r.locs))
      && (NonDecreasingReals(ps.locs) ==> NonDecreasingReals(r.locs))
  {
    if thresh.Some? {
      ThresholdSurvivors(ps, thresh.value);
      if StrictlyIncreasingReals(ps.locs) {
        ThresholdKeepsOrder(ps, thresh.value);
      }
      if NonDecreasingReals(ps.locs) {
        ThresholdKeepsWeakOrder(ps, thresh.value);
      }
    }
  }

  /** A real that is a whole number. */
  predicate IsWhole(r: real)
  {
    r.Floor as real == r
  }

  /**
   * The output of `peakfinder` without refinement: parallel arrays of
   * strictly increasing whole-number locations in [0, n-1); the last sample
   * is never a peak, and without the endpoints neither is the first.
   */
  lemma PeakLocationsWellFormed(x0: seq<real>, sel: Option<real>, thresh: Option<real>, extrema: int,
                                includeEndpoints: bool)
    requires sel.Some? ==> sel.value >= 0.0
    requires PeakFinderSpec(x0, sel, thresh, extrema, includeEndpoints, false).Ok?
    ensures var ps := PeakFinderSpec(x0, sel, thresh, extrema, includeEndpoints, false).value;
            && |ps.locs| == |ps.mags|
            && StrictlyIncreasingReals(ps.locs)
            && (forall j :: 0 <= j < |ps.locs| ==> IsWhole(ps.locs[j]) && 0.0 <= ps.locs[j] < (|x0| - 1) as real)
            && (!includeEndpoints ==> forall j :: 0 <= j < |ps.locs| ==> 1.0 <= ps.locs[j])
  {
    var x := OrientAll(x0, extrema);
    SpecOk(x0, sel, thresh, extrema, includeEndpoints, false);
    ThresholdedOnCandidatesWellFormed(x, includeEndpoints, Selectivity(x0, sel), OrientThreshold(thresh, extrema));
  }

  /** The shape of the peaks found on the candidate list, after the optional threshold. */
  lemma ThresholdedOnCandidatesWellFormed(x: seq<real>, includeEndpoints: bool, s: real, t: Option<real>)
    requires includeEndpoints ==> |x| > 0
    requires |Candidates(x, includeEndpoints)| > 0
    requires s >= 0.0
    ensures var ps := Thresholded(Detect(x, Candidates(x, includeEndpoints), s, false), t);
            && |ps.locs| == |ps.mags|
            && StrictlyIncreasingReals(ps.locs)
            && (forall j :: 0 <= j < |ps.locs| ==> IsWhole(ps.locs[j]) && 0.0 <= ps.locs[j] < (|x| - 1) as real)
            && (!includeEndpoints ==> forall j :: 0 <= j < |ps.locs| ==> 1.0 <= ps.locs[j])
  {
    var ps := Detect(x, Candidates(x, includeEndpoints), s, false);
    DetectedOnCandidatesWellFormed(x, includeEndpoints, s);
    ThresholdedSubset(ps, t);
  }

  /** The shape of the peaks found on the candidate list, before the threshold. */
  lemma DetectedOnCandidatesWellFormed(x: seq<real>, includeEndpoints: bool, s: real)
    requires includeEndpoints ==> |x| > 0
    requires |Candidates(x, includeEndpoints)| > 0
    requires s >= 0.0
    ensures var ps := Detect(x, Candidates(x, includeEndpoints), s, false);
            && StrictlyIncreasingReals(ps.locs)
            && (forall j :: 0 <= j < |ps.locs| ==> IsWhole(ps.locs[j]) && 0.0 <= ps.locs[j] < (|x| - 1) as real)
            && (!includeEndpoints ==> forall j :: 0 <= j < |ps.locs| ==> 1.0 <= ps.locs[j])
  {
    var ind := Candidates(x, includeEndpoints);
    CandidatesShape(x, includeEndpoints);
    if |x| >= 2 || !includeEndpoints {
      DetectedLocationsOrdered(x, ind, s);
    } else {
      assert ind == [0, 0];
      assert Pick(x, ind) == [x[0], x[0]];
      DetectFindsNothingBelowFloor(x, ind, s, false);
    }
  }

  /**
   * With refinement, the locations of the output of `peakfinder` lie in
   * [0, n-1] and are non-decreasing (not strictly: see `RefinedLocationsCanRepeat`).
   */
  lemma InterpolatedLocationsInRange(x0: seq<real>, sel: Option<real>, thresh: Option<real>, extrema: int,
                                     includeEndpoints: bool)
    requires sel.Some? ==> sel.value >= 0.0
    requires PeakFinderSpec(x0, sel, thresh, extrema, includeEndpoints, true).Ok?
    ensures var ps := PeakFinderSpec(x0, sel, thresh, extrema, includeEndpoints, true).value;
            && |ps.locs| == |ps.mags|
            && (forall j :: 0 <= j < |ps.locs| ==> 0.0 <= ps.locs[j] <= (|x0| - 1) as real)
            && NonDecreasingReals(ps.locs)
  {
    SpecOk(x0, sel, thresh, extrema, includeEndpoints, true);
    var x := OrientAll(x0, extrema);
    var ind := Candidates(x, includeEndpoints);
    RefinedOnCandidatesInRange(x, includeEndpoints, Selectivity(x0, sel));
    ThresholdedSubset(Detect(x, ind, Selectivity(x0, sel), true), OrientThreshold(thresh, extrema));
  }

  /** The refined peaks found on the candidate list lie in [0, n-1], in non-decreasing order. */
  lemma RefinedOnCandidatesInRange(x: seq<real>, includeEndpoints: bool, s: real)
    requires includeEndpoints ==> |x| > 0
    requires |Candidates(x, includeEndpoints)| > 0
    ensures var ps := Detect(x, Candidates(x, includeEndpoints), s, true);
            && (forall j :: 0 <= j < |ps.locs| ==> 0.0 <= ps.locs[j] <= (|x| - 1) as real)
            && NonDecreasingReals(ps.locs)
  {
    var ind := Candidates(x, includeEndpoints);
    CandidatesShape(x, includeEndpoints);
    RefinedLocationsInRange(x, ind, s);
    if |x| >= 2 || !includeEndpoints {
      RefinedLocationsNonDecreasing(x, ind, s);
    } else {
      assert |ind| == 2;
      assert |Detect(x, ind, s, true).locs| <= 1;
    }
  }

  /** A non-empty constant signal yields no peaks at all, whatever the selectivity, threshold and refinement. */
  lemma ConstantSignalHasNoPeaks(x0: seq<real>, sel: Option<real>, thresh: Option<real>, extrema: int,
                                 interpolate: bool)
    requires sel.Some? ==> sel.value >= 0.0
    requires |x0| > 0 && forall i :: 0 <= i < |x0| ==> x0[i] == x0[0]
    requires extrema == 1 || extrema == -1
    ensures PeakFinderSpec(x0, sel, thresh, extrema, true, interpolate) == Ok(PeakSet([], []))
  {
    var s := Selectivity(x0, sel);
    var x := OrientAll(x0, extrema);
    assert forall i :: 0 <= i < |x| ==> x[i] == x[0];
    ConstantSignalHasNoTurns(x);
    var ind := Candidates(x, true);
    assert ind == [0, |x| - 1];
    var c := Pick(x, ind);
    assert c == [x[0], x[0]];
    DetectFindsNothingBelowFloor(x, ind, s, interpolate);
    if thresh.Some? {
      ThresholdSurvivors(PeakSet([], []), Orient(thresh.value, extrema));
    }
  }

  /**
   * Without the endpoints a constant signal has no candidate at all, so the
   * call fails with `np.min` of an empty array.
   */
  lemma ConstantSignalWithoutEndpointsFails(x0: seq<real>, sel: Option<real>, thresh: Option<real>, extrema: int,
                                            interpolate: bool)
    requires sel.Some? ==> sel.value >= 0.0
    requires |x0| > 0 && forall i :: 0 <= i < |x0| ==> x0[i] == x0[0]
    requires extrema == 1 || extrema == -1
    ensures PeakFinderSpec(x0, sel, thresh, extrema, false, interpolate) == Err(EmptyArray)
  {
    var x := OrientAll(x0, extrema);
    assert forall i :: 0 <= i < |x| ==> x[i] == x[0];
    ConstantSignalHasNoTurns(x);
  }

  /**
   * In maxima mode, with or without refinement, a threshold at or above the
   * signal's maximum leaves no peak.
   */
  lemma ThresholdAboveMaximumLeavesNothing(x0: seq<real>, sel: Option<real>, t: real, includeEndpoints: bool,
                                           interpolate: bool)
    requires sel.Some? ==> sel.value >= 0.0
    requires |x0| > 0 && t >= Max(x0)
    requires |Candidates(x0, includeEndpoints)| > 0
    ensures PeakFinderSpec(x0, sel, Some(t), 1, includeEndpoints, interpolate) == Ok(PeakSet([], []))
  {
    var ind := Candidates(x0, includeEndpoints);
    var ps := Detect(x0, ind, Selectivity(x0, sel), interpolate);
    assert PeakFinderSpec(x0, sel, Some(t), 1, includeEndpoints, interpolate) == Ok(ApplyThreshold(ps, t));
    CandidatesShape(x0, includeEndpoints);
    DetectedMagnitudesAtMostMax(x0, ind, Selectivity(x0, sel), interpolate);
    ThresholdAboveAll(ps, t);
  }

  /**
   * With refinement two peaks can share a location: in `[0, 1, 1, 2, 0]`
   * the plateau's two samples are both turns, and their refined locations
   * meet halfway between them.
   */
  lemma RefinedLocationsCanRepeat()
    ensures PeakFinderSpec([0.0, 1.0, 1.0, 2.0, 0.0], None, None, 1, true, true)
            == Ok(PeakSet([1.5, 1.5, 17.0 / 6.0], [15.0 / 16.0, 17.0 / 16.0, 95.0 / 48.0]))
  {
    var x := [0.0, 1.0, 1.0, 2.0, 0.0];
    var ind := PlateauCandidates();
    PlateauExtremes();
    assert Selectivity(x, None) == 0.5;
    PlateauDetection();
  }

  lemma PlateauExtremes()
    ensures Min([0.0, 1.0, 1.0, 2.0, 0.0]) == 0.0 && Max([0.0, 1.0, 1.0, 2.0, 0.0]) == 2.0
  {
    var x := [0.0, 1.0, 1.0, 2.0, 0.0];
    assert forall i :: 0 <= i < |x| ==> 0.0 <= x[i] <= 2.0;
    var i :| 0 <= i < |x| && x[i] == Min(x);
    var k :| 0 <= k < |x| && x[k] == Max(x);
    assert Min(x) <= x[0] && Max(x) >= x[3];
  }

  /**
   * A valley between two peaks is reported as a peak when it lies more than
   * `sel` above the candidate minimum: in `[0, 3, 2.5, 3.2, 0]` the local
   * minimum at index 2 is emitted with the two maxima around it.
   */
  lemma ValleyReportedAsPeak()
    ensures PeakFinderSpec([0.0, 3.0, 2.5, 3.2, 0.0], None, None, 1, true, false)
            == Ok(PeakSet([1.0, 2.0, 3.0], [3.0, 2.5, 3.2]))
  {
    var x := [0.0, 3.0, 2.5, 3.2, 0.0];
    ValleyCandidates();
    ValleyExtremes();
    assert Selectivity(x, None) == 0.8;
    ValleyDetection();
  }

  /**
   * With the endpoints, sample 0 is reported whenever it lies more than
   * `sel` above the candidate minimum, even where the signal rises: two
   * periods of a sine sampled at four points per period give three peaks.
   */
  lemma RisingStartReportedAsPeak()
    ensures PeakFinderSpec([0.0, 1.0, 0.0, -1.0, 0.0, 1.0, 0.0, -1.0, 0.0], None, None, 1, true, false)
            == Ok(PeakSet([0.0, 1.0, 5.0], [0.0, 1.0, 1.0]))
  {
    var x := [0.0, 1.0, 0.0, -1.0, 0.0, 1.0, 0.0, -1.0, 0.0];
    SineCandidates();
    SineExtremes();
    assert Selectivity(x, None) == 0.5;
    SineDetection();
  }

  lemma SineCandidates()
    ensures Candidates([0.0, 1.0, 0.0, -1.0, 0.0, 1.0, 0.0, -1.0, 0.0], true) == [0, 1, 3, 5, 7, 8]
  {
    var x := [0.0, 1.0, 0.0, -1.0, 0.0, 1.0, 0.0, -1.0, 0.0];
    assert IsTurn(x, 1) && !IsTurn(x, 2) && IsTurn(x, 3) && !IsTurn(x, 4);
    assert IsTurn(x, 5) && !IsTurn(x, 6) && IsTurn(x, 7);
    assert TurnsBelow(x, 2) == [1];
    assert TurnsBelow(x, 3) == [1];
    assert TurnsBelow(x, 4) == [1, 3];
    assert TurnsBelow(x, 5) == [1, 3];
    assert TurnsBelow(x, 6) == [1, 3, 5];
    assert TurnsBelow(x, 7) == [1, 3, 5];
    assert InteriorCandidates(x) == [1, 3, 5, 7];
  }

  lemma SineExtremes()
    ensures Min([0.0, 1.0, 0.0, -1.0, 0.0, 1.0, 0.0, -1.0, 0.0]) == -1.0
    ensures Max([0.0, 1.0, 0.0, -1.0, 0.0, 1.0, 0.0, -1.0, 0.0]) == 1.0
  {
    SineMinimum();
    SineMaximum();
  }

  lemma SineMinimum()
    ensures Min([0.0, 1.0, 0.0, -1.0, 0.0, 1.0, 0.0, -1.0, 0.0]) == -1.0
  {
    var x := [0.0, 1.0, 0.0, -1.0, 0.0, 1.0, 0.0, -1.0, 0.0];
    assert forall i :: 0 <= i < |x| ==> -1.0 <= x[i];
    var i :| 0 <= i < |x| && x[i] == Min(x);
    assert Min(x) <= x[3];
  }

  lemma SineMaximum()
    ensures Max([0.0, 1.0, 0.0, -1.0, 0.0, 1.0, 0.0, -1.0, 0.0]) == 1.0
  {
    var x := [0.0, 1.0, 0.0, -1.0, 0.0, 1.0, 0.0, -1.0, 0.0];
    assert forall i :: 0 <= i < |x| ==> x[i] <= 1.0;
    var k :| 0 <= k < |x| && x[k] == Max(x);
    assert Max(x) >= x[1];
  }

  lemma SineCandidateExtremes()
    ensures Min([0.0, 1.0, -1.0, 1.0, -1.0, 0.0]) == -1.0
  {
    var c := [0.0, 1.0, -1.0, 1.0, -1.0, 0.0];
    assert forall i :: 0 <= i < |c| ==> -1.0 <= c[i];
    var i :| 0 <= i < |c| && c[i] == Min(c);
    assert Min(c) <= c[2];
  }

  lemma SineDetection()
    ensures Detect([0.0, 1.0, 0.0, -1.0, 0.0, 1.0, 0.0, -1.0, 0.0], [0, 1, 3, 5, 7, 8], 0.5, false)
            == PeakSet([0.0, 1.0, 5.0], [0.0, 1.0, 1.0])
  {
    SineConfirmed();
    SineLocations();
    SineMagnitudes();
  }

  lemma SineValues()
    ensures Pick([0.0, 1.0, 0.0, -1.0, 0.0, 1.0, 0.0, -1.0, 0.0], [0, 1, 3, 5, 7, 8])
            == [0.0, 1.0, -1.0, 1.0, -1.0, 0.0]
  {
    var c := Pick([0.0, 1.0, 0.0, -1.0, 0.0, 1.0, 0.0, -1.0, 0.0], [0, 1, 3, 5, 7, 8]);
    assert c[0] == 0.0 && c[1] == 1.0 && c[2] == -1.0 && c[3] == 1.0 && c[4] == -1.0 && c[5] == 0.0;
  }

  lemma SineConfirmed()
    ensures Confirmed([0.0, 1.0, 0.0, -1.0, 0.0, 1.0, 0.0, -1.0, 0.0], [0, 1, 3, 5, 7, 8], 0.5) == [0, 1, 3]
  {
    SineValues();
    SineCandidateExtremes();
    SineAbove();
  }

  lemma SineAbove()
    ensures IndicesAbove([0.0, 1.0, -1.0, 1.0, -1.0, 0.0], -0.5, 5) == [0, 1, 3]
  {
    var c := [0.0, 1.0, -1.0, 1.0, -1.0, 0.0];
    assert IndicesAbove(c, -0.5, 1) == [0];
    assert IndicesAbove(c, -0.5, 2) == [0, 1];
    assert IndicesAbove(c, -0.5, 3) == [0, 1];
    assert IndicesAbove(c, -0.5, 4) == [0, 1, 3];
  }

  lemma SineLocations()
    ensures Reals(Pick([0, 1, 3, 5, 7, 8], [0, 1, 3])) == [0.0, 1.0, 5.0]
  {
    assert Pick([0, 1, 3, 5, 7, 8], [0, 1, 3]) == [0, 1, 5];
  }

  lemma SineMagnitudes()
    ensures Pick(Pick([0.0, 1.0, 0.0, -1.0, 0.0, 1.0, 0.0, -1.0, 0.0], [0, 1, 3, 5, 7, 8]), [0, 1, 3])
            == [0.0, 1.0, 1.0]
  {
    SineValues();
    var c := [0.0, 1.0, -1.0, 1.0, -1.0, 0.0];
    assert Pick(c, [0, 1, 3]) == [0.0, 1.0, 1.0];
  }

  lemma ValleyCandidates()
    ensures Candidates([0.0, 3.0, 2.5, 3.2, 0.0], true) == [0, 1, 2, 3, 4]
  {
    var x := [0.0, 3.0, 2.5, 3.2, 0.0];
    assert IsTurn(x, 1) && IsTurn(x, 2) && IsTurn(x, 3);
    assert TurnsBelow(x, 2) == [1];
    assert TurnsBelow(x, 3) == [1, 2];
    assert InteriorCandidates(x) == [1, 2, 3];
  }

  lemma ValleyExtremes()
    ensures Min([0.0, 3.0, 2.5, 3.2, 0.0]) == 0.0 && Max([0.0, 3.0, 2.5, 3.2, 0.0]) == 3.2
  {
    var x := [0.0, 3.0, 2.5, 3.2, 0.0];
    assert forall i :: 0 <= i < |x| ==> 0.0 <= x[i] <= 3.2;
    var i :| 0 <= i < |x| && x[i] == Min(x);
    var k :| 0 <= k < |x| && x[k] == Max(x);
    assert Min(x) <= x[0] && Max(x) >= x[3];
  }

  lemma ValleyDetection()
    ensures Detect([0.0, 3.0, 2.5, 3.2, 0.0], [0, 1, 2, 3, 4], 0.8, false)
            == PeakSet([1.0, 2.0, 3.0], [3.0, 2.5, 3.2])
  {
    var x := [0.0, 3.0, 2.5, 3.2, 0.0];
    var ind := [0, 1, 2, 3, 4];
    ValleyConfirmed();
    ValleyLocations();
    ValleyMagnitudes();
  }

  lemma ValleyLocations()
    ensures Reals(Pick([0, 1, 2, 3, 4], [1, 2, 3])) == [1.0, 2.0, 3.0]
  {
    assert Pick([0, 1, 2, 3, 4], [1, 2, 3]) == [1, 2, 3];
  }

  lemma ValleyConfirmed()
    ensures Confirmed([0.0, 3.0, 2.5, 3.2, 0.0], [0, 1, 2, 3, 4], 0.8) == [1, 2, 3]
  {
    var x := [0.0, 3.0, 2.5, 3.2, 0.0];
    var c := Pick(x, [0, 1, 2, 3, 4]);
    assert c == x;
    ValleyExtremes();
    ValleyAbove();
  }

  lemma ValleyAbove()
    ensures IndicesAbove([0.0, 3.0, 2.5, 3.2, 0.0], 0.8, 4) == [1, 2, 3]
  {
    var x := [0.0, 3.0, 2.5, 3.2, 0.0];
    assert IndicesAbove(x, 0.8, 1) == [];
    assert IndicesAbove(x, 0.8, 2) == [1];
    assert IndicesAbove(x, 0.8, 3) == [1, 2];
  }

  lemma ValleyMagnitudes()
    ensures Pick(Pick([0.0, 3.0, 2.5, 3.2, 0.0], [0, 1, 2, 3, 4]), [1, 2, 3]) == [3.0, 2.5, 3.2]
  {
    var c := Pick([0.0, 3.0, 2.5, 3.2, 0.0], [0, 1, 2, 3, 4]);
    assert c[1] == 3.0 && c[2] == 2.5 && c[3] == 3.2;
  }

  lemma PlateauCandidates() returns (ind: seq<int>)
    ensures ind == Candidates([0.0, 1.0, 1.0, 2.0, 0.0], true) == [0, 1, 2, 3, 4]
  {
    var x := [0.0, 1.0, 1.0, 2.0, 0.0];
    assert IsTurn(x, 1) && IsTurn(x, 2) && IsTurn(x, 3);
    assert TurnsBelow(x, 2) == [1];
    assert TurnsBelow(x, 3) == [1, 2];
    assert InteriorCandidates(x) == [1, 2, 3];
    ind := Candidates(x, true);
  }

  lemma PlateauDetection()
    ensures Detect([0.0, 1.0, 1.0, 2.0, 0.0], [0, 1, 2, 3, 4], 0.5, true)
            == PeakSet([1.5, 1.5, 17.0 / 6.0], [15.0 / 16.0, 17.0 / 16.0, 95.0 / 48.0])
  {
    var x := [0.0, 1.0, 1.0, 2.0, 0.0];
    var ind := [0, 1, 2, 3, 4];
    PlateauConfirmed();
    assert Pick(ind, [1, 2, 3]) == [1, 2, 3];
    PlateauMagnitudes();
    PlateauRefinement();
  }

  lemma PlateauMagnitudes()
    ensures Pick(Pick([0.0, 1.0, 1.0, 2.0, 0.0], [0, 1, 2, 3, 4]), [1, 2, 3]) == [1.0, 1.0, 2.0]
  {
    var c := Pick([0.0, 1.0, 1.0, 2.0, 0.0], [0, 1, 2, 3, 4]);
    assert c[1] == 1.0 && c[2] == 1.0 && c[3] == 2.0;
  }

  lemma PlateauConfirmed()
    ensures Confirmed([0.0, 1.0, 1.0, 2.0, 0.0], [0, 1, 2, 3, 4], 0.5) == [1, 2, 3]
  {
    var x := [0.0, 1.0, 1.0, 2.0, 0.0];
    var c := Pick(x, [0, 1, 2, 3, 4]);
    assert c == x;
    PlateauExtremes();
    PlateauAbove();
  }

  lemma PlateauAbove()
    ensures IndicesAbove([0.0, 1.0, 1.0, 2.0, 0.0], 0.5, 4) == [1, 2, 3]
  {
    var x := [0.0, 1.0, 1.0, 2.0, 0.0];
    assert IndicesAbove(x, 0.5, 1) == [];
    assert IndicesAbove(x, 0.5, 2) == [1];
    assert IndicesAbove(x, 0.5, 3) == [1, 2];
  }


  lemma PlateauRefinement()
    ensures RefineAll([0.0, 1.0, 1.0, 2.0, 0.0], [1, 2, 3], [1.0, 1.0, 2.0])
            == PeakSet([1.5, 1.5, 17.0 / 6.0], [15.0 / 16.0, 17.0 / 16.0, 95.0 / 48.0])
  {
    var x := [0.0, 1.0, 1.0, 2.0, 0.0];
    assert Denominator(x, 1) == -2.0 && Denominator(x, 2) == 2.0 && Denominator(x, 3) == -6.0;
    assert RefinedLoc(x, 1) == 1.5 && RefinedMag(x, 1, 1.0) == 15.0 / 16.0;
    assert RefinedLoc(x, 2) == 1.5 && RefinedMag(x, 2, 1.0) == 17.0 / 16.0;
    assert RefinedLoc(x, 3) == 17.0 / 6.0 && RefinedMag(x, 3, 2.0) == 95.0 / 48.0;
  }


}
