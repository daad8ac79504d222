/** Descriptive statistics over exact reals, as pandas computes them on a column with no
    missing values: sum, mean, minimum, maximum, median, the mean of a boolean mask and the
    population variance (`std(ddof=0)` squared). */
module Stats {
  import opened Sorting

  function Sum(xs: seq<real>): real {
    if |xs| == 0 then 0.0 else xs[0] + Sum(xs[1..])
  }

  function Mean(xs: seq<real>): real
    requires |xs| > 0
  {
    Sum(xs) / (|xs| as real)
  }

  function Min(xs: seq<real>): (m: real)
    requires |xs| > 0
    ensures m in xs
    ensures forall i :: 0 <= i < |xs| ==> m <= xs[i]
  {
    if |xs| == 1 then xs[0]
    else
      var rest := Min(xs[1..]);
      if xs[0] <= rest then xs[0] else rest
  }

  function Max(xs: seq<real>): (m: real)
    requires |xs| > 0
    ensures m in xs
    ensures forall i :: 0 <= i < |xs| ==> xs[i] <= m
  {
    if |xs| == 1 then xs[0]
    else
      var rest := Max(xs[1..]);
      if xs[0] >= rest then xs[0] else rest
  }

  predicate RealLe(a: real, b: real) {
    a <= b
  }

  lemma RealLeIsTotalOrder()
    ensures Total(RealLe) && Transitive(RealLe) && Antisymmetric(RealLe)
  {
  }

  /** The middle of a list, or the mean of its two middle entries. */
  function Middle(s: seq<real>): real
    requires |s| > 0
  {
    var n := |s|;
    if n % 2 == 1 then s[n / 2] else (s[n / 2 - 1] + s[n / 2]) / 2.0
  }

  /** pandas' median: the middle of the values in ascending order, whichever sorting
      algorithm puts them there. */
  function Median(xs: seq<real>): (m: real)
    requires |xs| > 0
    ensures forall s :: SortedBy(s, RealLe) && multiset(s) == multiset(xs) ==> |s| > 0 && m == Middle(s)
  {
    var sorted := Sort(xs, RealLe);
    RealLeIsTotalOrder();
    SortIsSorted(xs, RealLe);
    SortedPermutationsAgree(xs, sorted);
    Middle(sorted)
  }

  lemma SortedPermutationsAgree(xs: seq<real>, sorted: seq<real>)
    requires SortedBy(sorted, RealLe) && multiset(sorted) == multiset(xs)
    ensures forall s :: SortedBy(s, RealLe) && multiset(s) == multiset(xs) ==> s == sorted
  {
    RealLeIsTotalOrder();
    forall s | SortedBy(s, RealLe) && multiset(s) == multiset(xs) ensures s == sorted {
      SortedUnique(s, sorted, RealLe);
    }
  }

  /** Number of true entries of a boolean mask. */
  function CountTrue(bs: seq<bool>): nat {
    if |bs| == 0 then 0 else (if bs[0] then 1 else 0) + CountTrue(bs[1..])
  }

  /** A boolean mask as 1.0 / 0.0, which is what `.mean()` averages. */
  function Indicator(bs: seq<bool>): (xs: seq<real>)
    ensures |xs| == |bs|
  {
    if |bs| == 0 then [] else [if bs[0] then 1.0 else 0.0] + Indicator(bs[1..])
  }

  /** Element-wise division by `d`. */
  function Scaled(xs: seq<real>, d: real): (ys: seq<real>)
    requires d != 0.0
    ensures |ys| == |xs|
  {
    if |xs| == 0 then [] else [xs[0] / d] + Scaled(xs[1..], d)
  }

  function Square(a: real): real {
    a * a
  }

  function SquaredDeviations(xs: seq<real>, m: real): (ds: seq<real>)
    ensures |ds| == |xs|
  {
    if |xs| == 0 then [] else [Square(xs[0] - m)] + SquaredDeviations(xs[1..], m)
  }

  /** Population variance, the square of pandas' `std(ddof=0)`. */
  function PopVariance(xs: seq<real>): real
    requires |xs| > 0
  {
    Mean(SquaredDeviations(xs, Mean(xs)))
  }

  predicate AllEqual(xs: seq<real>) {
    forall i, j :: 0 <= i < |xs| && 0 <= j < |xs| ==> xs[i] == xs[j]
  }

  lemma {:induction false} SumAtLeast(xs: seq<real>, lo: real)
    requires forall i :: 0 <= i < |xs| ==> lo <= xs[i]
    ensures (|xs| as real) * lo <= Sum(xs)
  {
    if |xs| > 0 {
      SumAtLeast(xs[1..], lo);
      assert (|xs| as real) * lo == (|xs[1..]| as real) * lo + lo;
    }
  }

  lemma {:induction false} SumAtMost(xs: seq<real>, hi: real)
    requires forall i :: 0 <= i < |xs| ==> xs[i] <= hi
    ensures Sum(xs) <= (|xs| as real) * hi
  {
    if |xs| > 0 {
      SumAtMost(xs[1..], hi);
      assert (|xs| as real) * hi == (|xs[1..]| as real) * hi + hi;
    }
  }

  /** A mean lies within any bounds that hold for every value. */
  lemma MeanWithin(xs: seq<real>, lo: real, hi: real)
    requires |xs| > 0
    requires forall i :: 0 <= i < |xs| ==> lo <= xs[i] <= hi
    ensures lo <= Mean(xs) <= hi
  {
    SumAtLeast(xs, lo);
    SumAtMost(xs, hi);
    QuotientWithin(Sum(xs), |xs| as real, lo, hi);
  }

  lemma QuotientWithin(s: real, n: real, lo: real, hi: real)
    requires n > 0.0 && n * lo <= s <= n * hi
    ensures lo <= s / n <= hi
  {
    assert s / n - lo == (s - n * lo) / n;
    assert hi - s / n == (n * hi - s) / n;
  }

  lemma MeanBetweenMinMax(xs: seq<real>)
    requires |xs| > 0
    ensures Min(xs) <= Mean(xs) <= Max(xs)
  {
    MeanWithin(xs, Min(xs), Max(xs));
  }

  lemma MedianBetweenMinMax(xs: seq<real>)
    requires |xs| > 0
    ensures Min(xs) <= Median(xs) <= Max(xs)
  {
    var s := Sort(xs, RealLe);
    var n := |s|;
    forall k | 0 <= k < n ensures Min(xs) <= s[k] <= Max(xs) {
      assert s[k] in multiset(s);
      assert s[k] in xs;
    }
    if n % 2 == 0 {
      assert Min(xs) <= s[n / 2 - 1] && Min(xs) <= s[n / 2];
      assert s[n / 2 - 1] <= Max(xs) && s[n / 2] <= Max(xs);
    }
  }

  lemma {:induction false} SumOfIndicator(bs: seq<bool>)
    ensures Sum(Indicator(bs)) == CountTrue(bs) as real
  {
    if |bs| > 0 {
      SumOfIndicator(bs[1..]);
    }
  }

  lemma {:induction false} IndicatorAt(bs: seq<bool>, i: nat)
    requires i < |bs|
    ensures Indicator(bs)[i] == if bs[i] then 1.0 else 0.0
  {
    if i > 0 {
      IndicatorAt(bs[1..], i - 1);
    }
  }

  /** The mean of a boolean mask is the share of true entries, a fraction in [0, 1]. */
  lemma IndicatorMeanIsShare(bs: seq<bool>)
    requires |bs| > 0
    ensures Mean(Indicator(bs)) == (CountTrue(bs) as real) / (|bs| as real)
    ensures 0.0 <= Mean(Indicator(bs)) <= 1.0
  {
    SumOfIndicator(bs);
    var xs := Indicator(bs);
    forall i | 0 <= i < |xs| ensures 0.0 <= xs[i] <= 1.0 {
      IndicatorAt(bs, i);
    }
    MeanWithin(xs, 0.0, 1.0);
  }

  lemma {:induction false} ScaledAt(xs: seq<real>, d: real, i: nat)
    requires d != 0.0 && i < |xs|
    ensures Scaled(xs, d)[i] == xs[i] / d
  {
    if i > 0 {
      ScaledAt(xs[1..], d, i - 1);
    }
  }

  lemma {:induction false} DeviationAt(xs: seq<real>, m: real, i: nat)
    requires i < |xs|
    ensures SquaredDeviations(xs, m)[i] == Square(xs[i] - m)
  {
    if i > 0 {
      DeviationAt(xs[1..], m, i - 1);
    }
  }

  lemma {:induction false} SumPositive(xs: seq<real>, k: nat)
    requires forall i :: 0 <= i < |xs| ==> 0.0 <= xs[i]
    requires k < |xs| && xs[k] > 0.0
    ensures Sum(xs) > 0.0
  {
    if k == 0 {
      SumAtLeast(xs[1..], 0.0);
    } else {
      SumPositive(xs[1..], k - 1);
    }
  }

  lemma SquareOfPositive(a: real)
    requires a > 0.0
    ensures Square(a) > 0.0
  {
    calc {
      Square(a);
    ==
      a * a;
    >
      0.0;
    }
  }

  lemma SquarePositive(a: real)
    ensures Square(a) >= 0.0
    ensures a != 0.0 ==> Square(a) > 0.0
  {
    if a > 0.0 {
      SquareOfPositive(a);
    } else if a < 0.0 {
      SquareOfPositive(-a);
      assert Square(-a) == Square(a);
    }
  }

  lemma DeviationsNonnegative(xs: seq<real>, m: real)
    ensures forall i :: 0 <= i < |xs| ==> 0.0 <= SquaredDeviations(xs, m)[i]
  {
    forall i | 0 <= i < |xs| ensures 0.0 <= SquaredDeviations(xs, m)[i] {
      DeviationAt(xs, m, i);
      SquarePositive(xs[i] - m);
    }
  }

  lemma PositiveDeviation(xs: seq<real>, m: real, k: nat)
    requires k < |xs| && xs[k] != m
    ensures SquaredDeviations(xs, m)[k] > 0.0
  {
    DeviationAt(xs, m, k);
    SquarePositive(xs[k] - m);
  }

  lemma QuotientPositive(s: real, n: real)
    requires s > 0.0 && n > 0.0
    ensures s / n > 0.0
  {
  }

  lemma VarianceZeroIfAllEqual(xs: seq<real>)
    requires |xs| > 0 && AllEqual(xs)
    ensures PopVariance(xs) == 0.0
  {
    MeanWithin(xs, xs[0], xs[0]);
    var ds := SquaredDeviations(xs, Mean(xs));
    forall i | 0 <= i < |ds| ensures ds[i] == 0.0 {
      DeviationAt(xs, Mean(xs), i);
    }
    MeanWithin(ds, 0.0, 0.0);
  }

  lemma VariancePositiveIfNotAllEqual(xs: seq<real>)
    requires |xs| > 0 && !AllEqual(xs)
    ensures PopVariance(xs) > 0.0
  {
    var m := Mean(xs);
    var ds := SquaredDeviations(xs, m);
    var i, j :| 0 <= i < |xs| && 0 <= j < |xs| && xs[i] != xs[j];
    var k := if xs[i] != m then i else j;
    PositiveDeviation(xs, m, k);
    DeviationsNonnegative(xs, m);
    SumPositive(ds, k);
    QuotientPositive(Sum(ds), |ds| as real);
  }

  /** The population variance is positive exactly when the values are not all equal. */
  lemma VariancePositiveIffNotAllEqual(xs: seq<real>)
    requires |xs| > 0
    ensures PopVariance(xs) >= 0.0
    ensures PopVariance(xs) > 0.0 <==> !AllEqual(xs)
  {
    var ds := SquaredDeviations(xs, Mean(xs));
    DeviationsNonnegative(xs, Mean(xs));
    MeanWithin(ds, 0.0, Max(ds));
    if AllEqual(xs) {
      VarianceZeroIfAllEqual(xs);
    } else {
      VariancePositiveIfNotAllEqual(xs);
    }
  }
}
