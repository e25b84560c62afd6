/** Descriptive statistics of a column of measurements (app.py:33-50):
    missing entries are dropped, then count, mean, sample standard deviation
    (divisor n - 1), minimum and maximum are reported, each None where there is
    too little data. */
module Statistics {
  import opened Numbers

  /** The record `summarize` returns. */
  datatype Summary = Summary(count: nat, mean: Num, std: Num, min: Num, max: Num)

  /** The square root `np.std` applies to the sample variance, given as a
      parameter: any function that is a non-negative square root on the
      non-negative reals. */
  ghost predicate IsSquareRoot(sqrt: real -> real) {
    forall x: real :: 0.0 <= x ==> 0.0 <= sqrt(x) && Square(sqrt(x)) == x
  }

  // ---------------------------------------------------------------------
  // Dropping the missing entries
  // ---------------------------------------------------------------------

  /** The present (non-NaN) entries, in their original order. */
  function Present(values: seq<Num>): (arr: seq<real>)
    ensures |arr| <= |values|
    ensures forall x :: x in arr <==> Some(x) in values
    ensures |arr| == |values| <==> forall i :: 0 <= i < |values| ==> values[i].Some?
  {
    if values == [] then []
    else
      var rest := Present(values[1..]);
      assert forall v :: v in values <==> v == values[0] || v in values[1..];
      if values[0].Some? then [values[0].value] + rest else rest
  }

  lemma {:induction false} PresentAppend(a: seq<Num>, b: seq<Num>)
    ensures Present(a + b) == Present(a) + Present(b)
    decreases |a|
  {
    if a == [] {
      assert a + b == b;
    } else {
      assert (a + b)[0] == a[0];
      assert (a + b)[1..] == a[1..] + b;
      PresentAppend(a[1..], b);
    }
  }

  // ---------------------------------------------------------------------
  // np.sum, np.mean, np.min, np.max and the sample variance
  // ---------------------------------------------------------------------

  function Sum(s: seq<real>): real
  {
    if s == [] then 0.0 else s[0] + Sum(s[1..])
  }

  /** The arithmetic mean `np.mean`: n copies of it make up the total, and
      the mean of equal values is that value. */
  function Mean(s: seq<real>): (m: real)
    requires |s| > 0
    ensures m * (|s| as real) == Sum(s)
    ensures AllEqual(s) ==> m == s[0]
  {
    assert AllEqual(s) ==> Sum(s) == (|s| as real) * s[0] by {
      if AllEqual(s) {
        SumConstant(s, s[0]);
      }
    }
    Sum(s) / (|s| as real)
  }

  function SumSquaredDeviations(s: seq<real>, m: real): real
  {
    if s == [] then 0.0 else Square(s[0] - m) + SumSquaredDeviations(s[1..], m)
  }

  /** The sample variance: squared deviations from the mean over n - 1, the
      square of `np.std(arr, ddof=1)`. */
  function SampleVariance(s: seq<real>): (v: real)
    requires |s| >= 2
    ensures 0.0 <= v
    ensures v * ((|s| - 1) as real) == SumSquaredDeviations(s, Mean(s))
  {
    SumSquaredDeviationsNonNegative(s, Mean(s));
    Quotient(SumSquaredDeviations(s, Mean(s)), (|s| - 1) as real);
    SumSquaredDeviations(s, Mean(s)) / ((|s| - 1) as real)
  }

  /** `np.min`: an element that no element is below. */
  function Minimum(s: seq<real>): (m: real)
    requires |s| > 0
    ensures m in s
    ensures forall x :: x in s ==> m <= x
  {
    if |s| == 1 then s[0]
    else
      var rest := Minimum(s[1..]);
      assert forall x :: x in s ==> x == s[0] || x in s[1..];
      if s[0] <= rest then s[0] else rest
  }

  /** `np.max`: an element that no element is above. */
  function Maximum(s: seq<real>): (m: real)
    requires |s| > 0
    ensures m in s
    ensures forall x :: x in s ==> x <= m
  {
    if |s| == 1 then s[0]
    else
      var rest := Maximum(s[1..]);
      assert forall x :: x in s ==> x == s[0] || x in s[1..];
      if rest <= s[0] then s[0] else rest
  }

  predicate AllEqual(s: seq<real>) {
    forall i, j :: 0 <= i < |s| && 0 <= j < |s| ==> s[i] == s[j]
  }

  // ---------------------------------------------------------------------
  // summarize
  // ---------------------------------------------------------------------

  /** `summarize(values)`: statistics of the present entries; None marks a
      statistic the source reports as NaN. */
  function Summarize(values: seq<Num>, sqrt: real -> real): (r: Summary)
    ensures r.count == |Present(values)|
    ensures r.count == 0 <==> r.mean.None?
    ensures r.mean.None? <==> r.min.None?
    ensures r.mean.None? <==> r.max.None?
    ensures r.std.Some? <==> r.count >= 2
  {
    var arr := Present(values);
    if |arr| == 0 then
      Summary(0, None, None, None, None)
    else if |arr| == 1 then
      Summary(1, Some(Mean(arr)), None, Some(Minimum(arr)), Some(Maximum(arr)))
    else
      Summary(|arr|, Some(Mean(arr)), Some(sqrt(SampleVariance(arr))), Some(Minimum(arr)), Some(Maximum(arr)))
  }

  // ---------------------------------------------------------------------
  // Properties
  // ---------------------------------------------------------------------

  /** A lower bound of every element bounds the sum from below n times over,
      an upper bound from above. */
  lemma {:induction false} SumBounds(s: seq<real>, lo: real, hi: real)
    requires forall x :: x in s ==> lo <= x <= hi
    ensures (|s| as real) * lo <= Sum(s) <= (|s| as real) * hi
    decreases |s|
  {
    if s != [] {
      assert s[0] in s;
      assert forall x :: x in s[1..] ==> x in s;
      SumBounds(s[1..], lo, hi);
      assert (|s| as real) * lo == lo + ((|s| - 1) as real) * lo;
      assert (|s| as real) * hi == hi + ((|s| - 1) as real) * hi;
    }
  }

  /** Bounds on every value bound the mean. */
  lemma MeanBounds(s: seq<real>, lo: real, hi: real)
    requires |s| > 0
    requires forall x :: x in s ==> lo <= x <= hi
    ensures lo <= Mean(s) <= hi
  {
    SumBounds(s, lo, hi);
    DivideBounds(Sum(s), |s| as real, lo, hi);
  }

  /** The mean lies between the smallest and the largest value. */
  lemma MeanBetweenExtremes(s: seq<real>)
    requires |s| > 0
    ensures Minimum(s) <= Mean(s) <= Maximum(s)
  {
    MeanBounds(s, Minimum(s), Maximum(s));
  }

  /** A single value is its own mean, minimum and maximum. */
  lemma SingleValue(s: seq<real>)
    requires |s| == 1
    ensures Mean(s) == Minimum(s) == Maximum(s) == s[0]
  {
    assert Sum(s) == s[0] + Sum([]);
  }

  lemma {:induction false} SumSquaredDeviationsNonNegative(s: seq<real>, m: real)
    ensures 0.0 <= SumSquaredDeviations(s, m)
    decreases |s|
  {
    if s != [] {
      SumSquaredDeviationsNonNegative(s[1..], m);
    }
  }

  /** One value away from the centre makes the squared deviations positive. */
  lemma {:induction false} SumSquaredDeviationsPositive(s: seq<real>, m: real, i: int)
    requires 0 <= i < |s| && s[i] != m
    ensures 0.0 < SumSquaredDeviations(s, m)
    decreases |s|
  {
    if i == 0 {
      SumSquaredDeviationsNonNegative(s[1..], m);
    } else {
      SumSquaredDeviationsPositive(s[1..], m, i - 1);
    }
  }

  /** No squared deviation from a constant every value equals. */
  lemma {:induction false} SumSquaredDeviationsOfConstant(s: seq<real>, c: real)
    requires forall i :: 0 <= i < |s| ==> s[i] == c
    ensures SumSquaredDeviations(s, c) == 0.0
    decreases |s|
  {
    if s != [] {
      SumSquaredDeviationsOfConstant(s[1..], c);
    }
  }

  /** The sum of n copies of c is n * c. */
  lemma {:induction false} SumConstant(s: seq<real>, c: real)
    requires forall i :: 0 <= i < |s| ==> s[i] == c
    ensures Sum(s) == (|s| as real) * c
    decreases |s|
  {
    if s != [] {
      SumConstant(s[1..], c);
    }
  }

  /** The sample variance is never negative; it is zero exactly when all the
      values are equal. */
  lemma {:induction false} SampleVarianceSign(s: seq<real>)
    requires |s| >= 2
    ensures 0.0 <= SampleVariance(s)
    ensures SampleVariance(s) == 0.0 <==> AllEqual(s)
  {
    var m := Mean(s);
    var ssd := SumSquaredDeviations(s, m);
    SumSquaredDeviationsNonNegative(s, m);
    Quotient(ssd, (|s| - 1) as real);
    if AllEqual(s) {
      SumConstant(s, s[0]);
      assert m == s[0];
      SumSquaredDeviationsOfConstant(s, m);
    } else {
      var i, j :| 0 <= i < |s| && 0 <= j < |s| && s[i] != s[j];
      if s[i] != m {
        SumSquaredDeviationsPositive(s, m, i);
      } else {
        SumSquaredDeviationsPositive(s, m, j);
      }
    }
  }

  /** What a summary with at least one present value reports: the mean of the
      present values, lying between their minimum and maximum, which are
      themselves present values and bound all the others. */
  lemma SummarizeLocation(values: seq<Num>, sqrt: real -> real)
    requires Summarize(values, sqrt).count >= 1
    ensures var r := Summarize(values, sqrt);
            && r.mean == Some(Mean(Present(values)))
            && r.min.value <= r.mean.value <= r.max.value
            && r.min.value in Present(values) && r.max.value in Present(values)
            && (forall x :: x in Present(values) ==> r.min.value <= x <= r.max.value)
  {
    MeanBetweenExtremes(Present(values));
  }

  /** A single present value is the mean, the minimum and the maximum. */
  lemma SummarizeSingle(values: seq<Num>, sqrt: real -> real)
    requires Summarize(values, sqrt).count == 1
    ensures var r := Summarize(values, sqrt);
            r.mean == r.min == r.max == Some(Present(values)[0])
  {
    SingleValue(Present(values));
  }

  /** With a square root, the reported standard deviation squares to the
      sample variance, and it is zero exactly when all the present
      measurements are equal and positive otherwise. */
  lemma SummarizeSpread(values: seq<Num>, sqrt: real -> real)
    requires IsSquareRoot(sqrt)
    requires Summarize(values, sqrt).count >= 2
    ensures var sd := Summarize(values, sqrt).std.value;
            && 0.0 <= sd && Square(sd) == SampleVariance(Present(values))
            && (sd == 0.0 <==> AllEqual(Present(values)))
            && (0.0 < sd <==> !AllEqual(Present(values)))
  {
    SampleVarianceSign(Present(values));
  }

  /** Missing entries do not matter: inserting one anywhere leaves the summary
      unchanged. */
  lemma SummarizeIgnoresMissing(a: seq<Num>, b: seq<Num>, sqrt: real -> real)
    ensures Summarize(a + [None] + b, sqrt) == Summarize(a + b, sqrt)
  {
    PresentAppend(a + [None], b);
    PresentAppend(a, [None]);
    assert Present([None]) == [];
    assert Present(a) + [] == Present(a);
    PresentAppend(a, b);
  }

  /** The statistics of 1, 2, 3: mean 2, extremes 1 and 3, sample
      variance 1. */
  lemma ExampleStatistics()
    ensures Minimum([1.0, 2.0, 3.0]) == 1.0 && Maximum([1.0, 2.0, 3.0]) == 3.0
    ensures Mean([1.0, 2.0, 3.0]) == 2.0 && SampleVariance([1.0, 2.0, 3.0]) == 1.0
  {
    var arr := [1.0, 2.0, 3.0];
    assert arr[1..] == [2.0, 3.0] && arr[1..][1..] == [3.0];
    assert Sum(arr) == 6.0;
    assert SumSquaredDeviations(arr, 2.0) == 2.0;
  }

  /** The worked example: 1, NaN, 2, 3 has mean 2 and sample variance 1. */
  lemma SummarizeExample(sqrt: real -> real)
    ensures var r := Summarize([Some(1.0), None, Some(2.0), Some(3.0)], sqrt);
            && r.count == 3 && r.mean == Some(2.0) && r.min == Some(1.0) && r.max == Some(3.0)
            && r.std == Some(sqrt(1.0))
  {
    assert Present([Some(3.0)]) == [3.0];
    assert Present([Some(2.0), Some(3.0)]) == [2.0, 3.0];
    assert Present([None, Some(2.0), Some(3.0)]) == [2.0, 3.0];
    assert Present([Some(1.0), None, Some(2.0), Some(3.0)]) == [1.0, 2.0, 3.0];
    ExampleStatistics();
  }
}
