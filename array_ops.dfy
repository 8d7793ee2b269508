/**
 * The numpy array operations the core relies on, over `seq<real>`:
 * reductions (np.min, np.max, np.sum, np.mean), negation, differences
 * (np.diff), boolean-mask selection (np.where on a comparison) and
 * integer-array indexing.
 */
module ArrayOps {

  predicate StrictlyIncreasing(s: seq<int>)
  {
    forall i, j :: 0 <= i < j < |s| ==> s[i] < s[j]
  }

  predicate StrictlyIncreasingReals(s: seq<real>)
  {
    forall i, j :: 0 <= i < j < |s| ==> s[i] < s[j]
  }

  /** np.min: the smallest element, which is one of the elements. */
  function Min(s: seq<real>): (m: real)
    requires |s| > 0
    ensures m in s
    ensures forall i :: 0 <= i < |s| ==> m <= s[i]
  {
    if |s| == 1 then s[0]
    else
      var rest := Min(s[1..]);
      if s[0] <= rest then s[0] else rest
  }

  /** np.max: the largest element, which is one of the elements. */
  function Max(s: seq<real>): (m: real)
    requires |s| > 0
    ensures m in s
    ensures forall i :: 0 <= i < |s| ==> s[i] <= m
  {
    if |s| == 1 then s[0]
    else
      var rest := Max(s[1..]);
      if s[0] >= rest then s[0] else rest
  }

  /** `-s` on an array. */
  function Negated(s: seq<real>): (r: seq<real>)
    ensures |r| == |s|
    ensures forall i :: 0 <= i < |s| ==> r[i] == -s[i]
  {
    seq(|s|, i requires 0 <= i < |s| => -s[i])
  }

  /** `np.asarray(s, dtype=float)` on integer indices. */
  function Reals(s: seq<int>): (r: seq<real>)
    ensures |r| == |s|
    ensures forall i :: 0 <= i < |s| ==> r[i] == s[i] as real
  {
    seq(|s|, i requires 0 <= i < |s| => s[i] as real)
  }

  /** Converting increasing integers to reals keeps them increasing. */
  lemma RealsIncreasing(s: seq<int>)
    requires StrictlyIncreasing(s)
    ensures StrictlyIncreasingReals(Reals(s))
  {
  }

  /**
   * `np.where(s[:n] > bound)[0]`: the positions below `n` whose element
   * exceeds `bound`, every one of them, in increasing order.
   */
  function IndicesAbove(s: seq<real>, bound: real, n: nat): (r: seq<nat>)
    requires n <= |s|
    ensures |r| <= n
    ensures forall j :: 0 <= j < |r| ==> r[j] < n
  {
    if n == 0 then []
    else
      var init := IndicesAbove(s, bound, n - 1);
      if s[n - 1] > bound then init + [n - 1] else init
  }

  /** The selected positions are strictly increasing, and each selects an element above the bound. */
  lemma {:induction false} IndicesAboveSound(s: seq<real>, bound: real, n: nat)
    requires n <= |s|
    ensures var r := IndicesAbove(s, bound, n);
      && StrictlyIncreasing(r)
      && (forall j :: 0 <= j < |r| ==> s[r[j]] > bound)
  {
    if n > 0 {
      IndicesAboveSound(s, bound, n - 1);
    }
  }

  /** Every position below `n` whose element is above the bound is selected. */
  lemma {:induction false} IndicesAboveComplete(s: seq<real>, bound: real, n: nat)
    requires n <= |s|
    ensures forall i :: 0 <= i < n && s[i] > bound ==> i in IndicesAbove(s, bound, n)
  {
    if n > 0 {
      IndicesAboveComplete(s, bound, n - 1);
    }
  }

  /** Nothing is selected when no element below `n` is above the bound. */
  lemma {:induction false} IndicesAboveNone(s: seq<real>, bound: real, n: nat)
    requires n <= |s|
    requires forall i :: 0 <= i < n ==> s[i] <= bound
    ensures IndicesAbove(s, bound, n) == []
  {
    if n > 0 {
      IndicesAboveNone(s, bound, n - 1);
    }
  }

  /**
   * Boolean-mask selection `vals[:n][keys[:n] > bound]`: the elements of
   * `vals` below `n` whose key exceeds `bound`, in their original order.
   */
  function SelectAbove<T>(vals: seq<T>, keys: seq<real>, bound: real, n: nat): (r: seq<T>)
    requires n <= |keys| == |vals|
    ensures |r| == CountAbove(keys, bound, n) <= n
  {
    if n == 0 then []
    else
      var init := SelectAbove(vals, keys, bound, n - 1);
      if keys[n - 1] > bound then init + [vals[n - 1]] else init
  }

  /** The number of keys below `n` that exceed `bound`. */
  function CountAbove(keys: seq<real>, bound: real, n: nat): nat
    requires n <= |keys|
  {
    if n == 0 then 0 else CountAbove(keys, bound, n - 1) + (if keys[n - 1] > bound then 1 else 0)
  }

  /** Mask selection is indexing with the positions the mask selects. */
  lemma {:induction false} SelectAboveIsPick<T>(vals: seq<T>, keys: seq<real>, bound: real, n: nat)
    requires n <= |keys| == |vals|
    ensures SelectAbove(vals, keys, bound, n) == Pick(vals, IndicesAbove(keys, bound, n))
  {
    if n > 0 {
      SelectAboveIsPick(vals, keys, bound, n - 1);
      if keys[n - 1] > bound {
        PickSnoc(vals, IndicesAbove(keys, bound, n - 1), n - 1);
      }
    }
  }

  /** Integer-array indexing `s[idx]`. */
  function Pick<T>(s: seq<T>, idx: seq<int>): (r: seq<T>)
    requires forall j :: 0 <= j < |idx| ==> 0 <= idx[j] < |s|
    ensures |r| == |idx|
    ensures forall j :: 0 <= j < |idx| ==> r[j] == s[idx[j]]
  {
    seq(|idx|, j requires 0 <= j < |idx| => s[idx[j]])
  }

  lemma PickSnoc<T>(s: seq<T>, idx: seq<int>, k: int)
    requires forall j :: 0 <= j < |idx| ==> 0 <= idx[j] < |s|
    requires 0 <= k < |s|
    ensures Pick(s, idx + [k]) == Pick(s, idx) + [s[k]]
  {
  }

  /** Selecting an increasing set of positions from an increasing array keeps it increasing. */
  lemma PickIncreasing(s: seq<int>, idx: seq<int>)
    requires forall j :: 0 <= j < |idx| ==> 0 <= idx[j] < |s|
    requires StrictlyIncreasing(s) && StrictlyIncreasing(idx)
    ensures StrictlyIncreasing(Pick(s, idx))
  {
  }

  lemma PickIncreasingReals(s: seq<real>, idx: seq<int>)
    requires forall j :: 0 <= j < |idx| ==> 0 <= idx[j] < |s|
    requires StrictlyIncreasingReals(s) && StrictlyIncreasing(idx)
    ensures StrictlyIncreasingReals(Pick(s, idx))
  {
  }

  /** Each element is at most every later one; equal neighbours are allowed. */
  predicate NonDecreasingReals(s: seq<real>)
  {
    forall i, j :: 0 <= i < j < |s| ==> s[i] <= s[j]
  }

  lemma PickNonDecreasingReals(s: seq<real>, idx: seq<int>)
    requires forall j :: 0 <= j < |idx| ==> 0 <= idx[j] < |s|
    requires NonDecreasingReals(s) && StrictlyIncreasing(idx)
    ensures NonDecreasingReals(Pick(s, idx))
  {
  }

  /** Selecting increasing positions of an array without repetitions gives no repetitions. */
  lemma PickDistinct<T>(s: seq<T>, idx: seq<int>)
    requires forall j :: 0 <= j < |idx| ==> 0 <= idx[j] < |s|
    requires Distinct(s) && StrictlyIncreasing(idx)
    ensures Distinct(Pick(s, idx))
  {
  }

  /** The maximum of the negated array is the negated minimum, and vice versa. */
  lemma NegatedExtremes(s: seq<real>)
    requires |s| > 0
    ensures Max(Negated(s)) == -Min(s)
    ensures Min(Negated(s)) == -Max(s)
  {
    var t := Negated(s);
    var i :| 0 <= i < |s| && s[i] == Min(s);
    var k :| 0 <= k < |s| && s[k] == Max(s);
    assert t[i] == -Min(s);
    assert t[k] == -Max(s);
  }

  /** No element occurs twice. */
  predicate Distinct<T(==)>(s: seq<T>)
  {
    forall i, j :: 0 <= i < j < |s| ==> s[i] != s[j]
  }

  /** np.diff: the differences of successive elements. */
  function Diff(s: seq<real>): (d: seq<real>)
    requires |s| > 0
    ensures |d| == |s| - 1
    ensures forall j :: 0 <= j < |d| ==> d[j] == s[j + 1] - s[j]
  {
    seq(|s| - 1, j requires 0 <= j < |s| - 1 => s[j + 1] - s[j])
  }

  /** np.sum. */
  function Sum(s: seq<real>): real
  {
    if |s| == 0 then 0.0 else s[0] + Sum(s[1..])
  }

  /** np.mean of a non-empty array. */
  function Mean(s: seq<real>): real
    requires |s| > 0
  {
    Sum(s) / |s| as real
  }

  /** A sum of positive elements is positive, and a sum of copies of `c` is their count times `c`. */
  lemma {:induction false} SumPositive(s: seq<real>)
    requires |s| > 0 && forall j :: 0 <= j < |s| ==> s[j] > 0.0
    ensures Sum(s) > 0.0
  {
    if |s| > 1 {
      SumPositive(s[1..]);
    }
  }

  lemma {:induction false} SumConstant(s: seq<real>, c: real)
    requires forall j :: 0 <= j < |s| ==> s[j] == c
    ensures Sum(s) == |s| as real * c
  {
    if |s| > 0 {
      SumConstant(s[1..], c);
    }
  }

  /** The mean of positive elements is positive; the mean of copies of `c` is `c`. */
  lemma MeanPositive(s: seq<real>)
    requires |s| > 0 && forall j :: 0 <= j < |s| ==> s[j] > 0.0
    ensures Mean(s) > 0.0
  {
    SumPositive(s);
  }

  lemma MeanConstant(s: seq<real>, c: real)
    requires |s| > 0 && forall j :: 0 <= j < |s| ==> s[j] == c
    ensures Mean(s) == c
  {
    SumConstant(s, c);
  }
}
