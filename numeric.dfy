/** The numeric summary of a column (App.js lines 19-34), over exact reals:
    sum, mean, median of the ascending sort, minimum, maximum and the
    population variance. */
module Numeric {
  import opened Sorting

  /** The sum of `f` over the values, as the source's left fold from 0
      computes it; addition of reals is associative, so the total does not
      depend on the grouping. */
  function Total(s: seq<real>, f: real -> real): real {
    if s == [] then 0.0 else f(s[0]) + Total(s[1..], f)
  }

  function Id(x: real): real { x }

  /** The sum of the values, starting from 0. */
  function Sum(s: seq<real>): real {
    Total(s, Id)
  }

  /** `Math.pow(d, 2)`. */
  function Square(d: real): real {
    d * d
  }

  function SquaredDeviationFrom(m: real): real -> real {
    x => Square(x - m)
  }

  /** The sum of the squared distances of the values from `m`. */
  function SumSquaredDeviations(s: seq<real>, m: real): real {
    Total(s, SquaredDeviationFrom(m))
  }

  /** `sum / values.length`. */
  function Mean(s: seq<real>): real
    requires |s| > 0
  {
    Sum(s) / (|s| as real)
  }

  /** Population variance: the squared deviations from the mean divided by
      the count (not by count - 1). The reported `stdDev` is its square root. */
  function Variance(s: seq<real>): real
    requires |s| > 0
  {
    SumSquaredDeviations(s, Mean(s)) / (|s| as real)
  }

  /** `Math.min(...values)`: a value of `s` that no value of `s` is below. */
  function Min(s: seq<real>): (r: real)
    requires |s| > 0
    ensures r in s
    ensures forall i :: 0 <= i < |s| ==> r <= s[i]
  {
    if |s| == 1 then s[0]
    else
      var m := Min(s[1..]);
      assert forall i :: 1 <= i < |s| ==> s[i] == s[1..][i - 1];
      if s[0] <= m then s[0] else m
  }

  /** `Math.max(...values)`: a value of `s` that no value of `s` exceeds. */
  function Max(s: seq<real>): (r: real)
    requires |s| > 0
    ensures r in s
    ensures forall i :: 0 <= i < |s| ==> s[i] <= r
  {
    if |s| == 1 then s[0]
    else
      var m := Max(s[1..]);
      assert forall i :: 1 <= i < |s| ==> s[i] == s[1..][i - 1];
      if s[0] >= m then s[0] else m
  }

  /** Middle-index selection on an ascending sequence, `mid = n div 2`:
      the mean of the two middle values for an even length, the middle
      value for an odd one. */
  function Median(sorted: seq<real>): real
    requires |sorted| > 0
  {
    var mid := |sorted| / 2;
    if |sorted| % 2 == 0 then (sorted[mid - 1] + sorted[mid]) / 2.0 else sorted[mid]
  }

  // ---------------------------------------------------------------------
  // Order statistics

  /** The minimum is the first value of the ascending sort. */
  lemma MinIsSortFirst(s: seq<real>)
    requires |s| > 0
    ensures Min(s) == SortSeq(s)[0]
  {
    var t := SortSeq(s);
    assert t[0] in multiset(s);
    assert Min(s) in multiset(t);
    var k :| 0 <= k < |t| && t[k] == Min(s);
    assert Min(s) <= t[0] <= t[k];
  }

  /** The maximum is the last value of the ascending sort. */
  lemma MaxIsSortLast(s: seq<real>)
    requires |s| > 0
    ensures Max(s) == SortSeq(s)[|s| - 1]
  {
    var t := SortSeq(s);
    assert t[|s| - 1] in multiset(s);
    assert Max(s) in multiset(t);
    var l :| 0 <= l < |t| && t[l] == Max(s);
    assert t[l] <= t[|s| - 1] <= Max(s);
  }

  /** The minimum is the first value of the ascending sort and the maximum
      its last. */
  lemma MinMaxAreSortEnds(s: seq<real>)
    requires |s| > 0
    ensures Min(s) == SortSeq(s)[0]
    ensures Max(s) == SortSeq(s)[|s| - 1]
  {
    MinIsSortFirst(s);
    MaxIsSortLast(s);
  }

  /** Selecting the middle of a sorted sequence stays between its ends. */
  lemma {:induction false} MedianBetweenEnds(t: seq<real>)
    requires |t| > 0 && Sorted(t)
    ensures t[0] <= Median(t) <= t[|t| - 1]
  {
    var mid := |t| / 2;
    if |t| % 2 == 0 {
      assert t[0] <= t[mid - 1] <= t[mid] <= t[|t| - 1];
    } else {
      assert t[0] <= t[mid] <= t[|t| - 1];
    }
  }

  /** min <= median <= max over the numeric values of a column. */
  lemma MedianBounds(s: seq<real>)
    requires |s| > 0
    ensures Min(s) <= Median(SortSeq(s)) <= Max(s)
  {
    MinMaxAreSortEnds(s);
    MedianBetweenEnds(SortSeq(s));
  }

  // ---------------------------------------------------------------------
  // Mean

  lemma {:induction false} SumBounds(s: seq<real>, lo: real, hi: real)
    requires forall i :: 0 <= i < |s| ==> lo <= s[i] <= hi
    ensures (|s| as real) * lo <= Sum(s) <= (|s| as real) * hi
  {
    if s != [] {
      assert forall i :: 0 <= i < |s| - 1 ==> s[1..][i] == s[i + 1];
      SumBounds(s[1..], lo, hi);
    }
  }

  lemma QuotientBounds(a: real, n: real, lo: real, hi: real, q: real)
    requires n > 0.0 && n * lo <= a <= n * hi && q == a / n
    ensures lo <= q <= hi
  {
  }

  lemma MeanBetween(s: seq<real>, lo: real, hi: real)
    requires |s| > 0
    requires forall i :: 0 <= i < |s| ==> lo <= s[i] <= hi
    ensures lo <= Mean(s) <= hi
  {
    SumBounds(s, lo, hi);
    QuotientBounds(Sum(s), |s| as real, lo, hi, Mean(s));
  }

  /** min <= mean <= max. */
  lemma MeanBounds(s: seq<real>)
    requires |s| > 0
    ensures Min(s) <= Mean(s) <= Max(s)
  {
    MeanBetween(s, Min(s), Max(s));
  }

  lemma {:induction false} SumOfConstant(s: seq<real>, v: real)
    requires forall i :: 0 <= i < |s| ==> s[i] == v
    ensures Sum(s) == (|s| as real) * v
    ensures SumSquaredDeviations(s, v) == 0.0
  {
    if s != [] {
      assert forall i :: 0 <= i < |s| - 1 ==> s[1..][i] == s[i + 1];
      SumOfConstant(s[1..], v);
      assert SquaredDeviationFrom(v)(s[0]) == Square(0.0) == 0.0;
    }
  }

  /** A column whose values all equal `v` has mean `v`. */
  lemma MeanOfConstant(s: seq<real>, v: real)
    requires |s| > 0
    requires forall i :: 0 <= i < |s| ==> s[i] == v
    ensures Mean(s) == v
    ensures Variance(s) == 0.0
  {
    SumOfConstant(s, v);
  }

  // ---------------------------------------------------------------------
  // Variance

  lemma ProductPositive(a: real, b: real, q: real)
    requires a > 0.0 && b > 0.0 && q == a * b
    ensures q > 0.0
  {
  }

  lemma ProductNonNegative(a: real, b: real, q: real)
    requires a >= 0.0 && b >= 0.0 && q == a * b
    ensures q >= 0.0
  {
  }

  lemma SquareNonNegative(d: real)
    ensures Square(d) >= 0.0
  {
    if d >= 0.0 {
      ProductNonNegative(d, d, Square(d));
    } else {
      ProductNonNegative(-d, -d, Square(d));
    }
  }

  lemma SquarePositive(d: real)
    requires d != 0.0
    ensures Square(d) > 0.0
  {
    if d > 0.0 {
      ProductPositive(d, d, Square(d));
    } else {
      ProductPositive(-d, -d, Square(d));
    }
  }

  lemma {:induction false} SumSquaredDeviationsNonNegative(s: seq<real>, m: real)
    ensures SumSquaredDeviations(s, m) >= 0.0
  {
    if s != [] {
      SquareNonNegative(s[0] - m);
      SumSquaredDeviationsNonNegative(s[1..], m);
    }
  }

  /** The squared deviations sum to zero only when every value is `m`. */
  lemma {:induction false} ZeroDeviationsMeansConstant(s: seq<real>, m: real)
    requires SumSquaredDeviations(s, m) == 0.0
    ensures forall i :: 0 <= i < |s| ==> s[i] == m
  {
    if s != [] {
      SumSquaredDeviationsNonNegative(s[1..], m);
      if s[0] != m {
        SquarePositive(s[0] - m);
      }
      assert SquaredDeviationFrom(m)(s[0]) == Square(s[0] - m) == 0.0;
      ZeroDeviationsMeansConstant(s[1..], m);
      assert forall i :: 1 <= i < |s| ==> s[i] == s[1..][i - 1];
    }
  }

  /** The population variance is never negative. */
  lemma VarianceNonNegative(s: seq<real>)
    requires |s| > 0
    ensures Variance(s) >= 0.0
  {
    SumSquaredDeviationsNonNegative(s, Mean(s));
  }

  predicate AllEqual(s: seq<real>) {
    forall i, j :: 0 <= i < |s| && 0 <= j < |s| ==> s[i] == s[j]
  }

  /** The population variance (and so the standard deviation) is zero
      exactly when all numeric values are equal. */
  lemma VarianceZeroIffAllEqual(s: seq<real>)
    requires |s| > 0
    ensures Variance(s) == 0.0 <==> AllEqual(s)
  {
    var n := |s| as real;
    if Variance(s) == 0.0 {
      assert SumSquaredDeviations(s, Mean(s)) == Variance(s) * n;
      ZeroDeviationsMeansConstant(s, Mean(s));
    }
    if AllEqual(s) {
      MeanOfConstant(s, s[0]);
    }
  }

  /** A single value `v`: mean, median, minimum and maximum are all `v` and
      the variance is zero. */
  lemma SingleValue(v: real)
    ensures Mean([v]) == v && Median(SortSeq([v])) == v
    ensures Min([v]) == v && Max([v]) == v
    ensures Variance([v]) == 0.0
  {
    MeanOfConstant([v], v);
    MinMaxAreSortEnds([v]);
  }

  // ---------------------------------------------------------------------
  // Independence from the order of the values

  lemma {:induction false} TotalInsert(x: real, s: seq<real>, f: real -> real)
    requires Sorted(s)
    ensures Total(Insert(x, s), f) == f(x) + Total(s, f)
  {
    if s != [] && x > s[0] {
      TotalInsert(x, s[1..], f);
      assert Insert(x, s)[1..] == Insert(x, s[1..]);
    }
  }

  /** Folding over the sorted values gives the same total as folding over
      the values in their original order. */
  lemma {:induction false} TotalSortSeq(s: seq<real>, f: real -> real)
    ensures Total(SortSeq(s), f) == Total(s, f)
  {
    if s != [] {
      TotalSortSeq(s[1..], f);
      TotalInsert(s[0], SortSeq(s[1..]), f);
    }
  }

  /** Two arrangements of the same values have the same sum, mean, median,
      minimum, maximum and variance. */
  lemma StatisticsIgnoreOrder(a: seq<real>, b: seq<real>)
    requires |a| > 0 && multiset(a) == multiset(b)
    ensures |b| == |a|
    ensures Sum(a) == Sum(b) && Mean(a) == Mean(b)
    ensures Median(SortSeq(a)) == Median(SortSeq(b))
    ensures Min(a) == Min(b) && Max(a) == Max(b)
    ensures Variance(a) == Variance(b)
  {
    assert |b| == |multiset(b)| == |multiset(a)| == |a|;
    SortedUnique(SortSeq(a), SortSeq(b));
    TotalSortSeq(a, Id);
    TotalSortSeq(b, Id);
    TotalSortSeq(a, SquaredDeviationFrom(Mean(a)));
    TotalSortSeq(b, SquaredDeviationFrom(Mean(a)));
    MinMaxAreSortEnds(a);
    MinMaxAreSortEnds(b);
  }
}
