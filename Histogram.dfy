/** Histograms (Histogram.kt): a fixed number of buckets over [minValue, maxValue],
    each holding the fraction of samples that fell into it, and the
    low / high / median threshold queries on them. */
module Histograms {
  import opened RealSeqs

  datatype HistogramData = HistogramData(minValue: real, maxValue: real, histogram: seq<real>)

  /** `Double.toInt()`: truncation toward zero. */
  function Trunc(v: real): (t: int)
    ensures v >= 0.0 ==> t == v.Floor
    ensures v < 0.0 ==> t == -((-v).Floor)
    ensures -1.0 < v < 1.0 ==> t == 0
  {
    if v >= 0.0 then v.Floor else -((-v).Floor)
  }

  /** The index `buildHistogram` computes for value `v`, before its range test.
      When maxValue == minValue the quotient is 0/0 = NaN (which `toInt`
      turns into 0) when the numerator is 0, and an infinity (never a valid
      index) otherwise; -1 stands for the latter. */
  function BucketIndex(v: real, minValue: real, maxValue: real, precision: nat): int
  {
    if maxValue == minValue then
      (if v == minValue || precision == 1 then 0 else -1)
    else
      Trunc((v - minValue) * (precision - 1) as real / (maxValue - minValue))
  }

  predicate InBucketRange(v: real, minValue: real, maxValue: real, precision: nat)
  {
    0 <= BucketIndex(v, minValue, maxValue, precision) < precision
  }

  /** How many of `values` land in bucket `j`. */
  function Count(values: seq<real>, minValue: real, maxValue: real, precision: nat, j: int): (c: nat)
    ensures c <= |values|
  {
    if values == [] then 0
    else
      var last := values[|values| - 1];
      Count(values[..|values| - 1], minValue, maxValue, precision, j)
        + (if BucketIndex(last, minValue, maxValue, precision) == j then 1 else 0)
  }

  /** How many of `values` land in some bucket (the others are dropped). */
  function Kept(values: seq<real>, minValue: real, maxValue: real, precision: nat): (c: nat)
    ensures c <= |values|
  {
    if values == [] then 0
    else
      var last := values[|values| - 1];
      Kept(values[..|values| - 1], minValue, maxValue, precision)
        + (if InBucketRange(last, minValue, maxValue, precision) then 1 else 0)
  }

  /** `1.0 / dataSize`; unused when there are no samples. */
  function Step(n: nat): real
  {
    if n == 0 then 0.0 else 1.0 / n as real
  }

  /** `c` samples out of `n`, as a fraction (0.0 when there are no samples). */
  function Frac(c: nat, n: nat): real
  {
    c as real * Step(n)
  }

  lemma FracStep(c: nat, n: nat)
    ensures Frac(c + 1, n) == Frac(c, n) + Step(n)
  {
  }

  /** The histogram of `values`: bucket `j` holds the number of samples whose
      index is `j`, as a fraction of |values|. */
  function HistogramOf(minValue: real, maxValue: real, precision: nat, values: seq<real>): HistogramData
  {
    HistogramData(minValue, maxValue,
      seq(precision, j => Frac(Count(values, minValue, maxValue, precision, j), |values|)))
  }

  /** `buildHistogram(minValue, maxValue, precision, dataSize, dataSource)`,
      where `values[i]` is `dataSource(i)` and `dataSize` is |values|. */
  method BuildHistogram(minValue: real, maxValue: real, precision: nat, values: seq<real>)
    returns (data: HistogramData)
    ensures data == HistogramOf(minValue, maxValue, precision, values)
  {
    var histogram := new real[precision](_ => 0.0);
    var step := Step(|values|);
    for i := 0 to |values|
      invariant forall j :: 0 <= j < precision ==>
        histogram[j] == Frac(Count(values[..i], minValue, maxValue, precision, j), |values|)
    {
      var index := BucketIndex(values[i], minValue, maxValue, precision);
      CountStep(values, minValue, maxValue, precision, i);
      if index >= 0 && index < histogram.Length {
        var c := Count(values[..i], minValue, maxValue, precision, index);
        FracStep(c, |values|);
        histogram[index] := histogram[index] + step;
      }
    }
    assert values[..|values|] == values;
    data := HistogramData(minValue, maxValue, histogram[..]);
    assert data.histogram == HistogramOf(minValue, maxValue, precision, values).histogram;
  }

  /** When every sample lands in bucket `j`, bucket `j` counts them all. */
  lemma {:induction false} CountAllInBucket(values: seq<real>, minValue: real, maxValue: real, precision: nat, j: int)
    requires forall k :: 0 <= k < |values| ==> BucketIndex(values[k], minValue, maxValue, precision) == j
    ensures Count(values, minValue, maxValue, precision, j) == |values|
  {
    if values != [] {
      var init := values[..|values| - 1];
      assert forall k :: 0 <= k < |init| ==> init[k] == values[k];
      CountAllInBucket(init, minValue, maxValue, precision, j);
    }
  }

  /** Taking one more sample adds one to the count of its own bucket only. */
  lemma CountStep(values: seq<real>, minValue: real, maxValue: real, precision: nat, i: nat)
    requires i < |values|
    ensures forall j :: Count(values[..i + 1], minValue, maxValue, precision, j)
                        == Count(values[..i], minValue, maxValue, precision, j)
                           + (if BucketIndex(values[i], minValue, maxValue, precision) == j then 1 else 0)
  {
    assert values[..i + 1][..i] == values[..i];
  }

  /** Every bucket is a non-negative fraction. */
  lemma BucketsNonNegative(minValue: real, maxValue: real, precision: nat, values: seq<real>)
    ensures forall j :: 0 <= j < precision ==> HistogramOf(minValue, maxValue, precision, values).histogram[j] >= 0.0
  {
  }

  /** The buckets add up to (kept samples) / (all samples). */
  lemma HistogramMass(minValue: real, maxValue: real, precision: nat, values: seq<real>)
    ensures Sum(HistogramOf(minValue, maxValue, precision, values).histogram)
            == Frac(Kept(values, minValue, maxValue, precision), |values|)
    ensures Sum(HistogramOf(minValue, maxValue, precision, values).histogram) <= 1.0
  {
    MassOfPrefix(values, minValue, maxValue, precision, |values|);
    FracAtMostOne(Kept(values, minValue, maxValue, precision), |values|);
  }

  /** Buckets of `values` with a fixed weight of 1/n per sample. */
  function Weighted(values: seq<real>, minValue: real, maxValue: real, precision: nat, n: nat): seq<real>
  {
    seq(precision, j => Frac(Count(values, minValue, maxValue, precision, j), n))
  }

  /** Every kept sample adds its weight to exactly one bucket. */
  lemma {:induction false} MassOfPrefix(values: seq<real>, minValue: real, maxValue: real, precision: nat, n: nat)
    ensures Sum(Weighted(values, minValue, maxValue, precision, n)) == Frac(Kept(values, minValue, maxValue, precision), n)
  {
    var w := Weighted(values, minValue, maxValue, precision, n);
    if values == [] {
      SumConstant(w, 0.0);
    } else {
      var init := values[..|values| - 1];
      var index := BucketIndex(values[|values| - 1], minValue, maxValue, precision);
      var before := Weighted(init, minValue, maxValue, precision, n);
      MassOfPrefix(init, minValue, maxValue, precision, n);
      var kept := Kept(init, minValue, maxValue, precision);
      if 0 <= index < precision {
        forall j | 0 <= j < precision
          ensures w[j] == before[index := before[index] + Step(n)][j]
        {
          if j == index {
            FracStep(Count(init, minValue, maxValue, precision, j), n);
          }
        }
        assert w == before[index := before[index] + Step(n)];
        SumUpdate(before, index, Step(n));
        FracStep(kept, n);
      } else {
        assert w == before;
      }
    }
  }

  lemma FracAtMostOne(c: nat, n: nat)
    requires c <= n
    ensures 0.0 <= Frac(c, n) <= 1.0
    ensures n > 0 && c == n ==> Frac(c, n) == 1.0
  {
    if n > 0 {
      assert Frac(c, n) == c as real / n as real;
    }
  }

  /** A value inside [minValue, maxValue] always lands in a bucket. */
  lemma InRangeIsKept(v: real, minValue: real, maxValue: real, precision: nat)
    requires minValue < maxValue && minValue <= v <= maxValue && precision >= 1
    ensures InBucketRange(v, minValue, maxValue, precision)
  {
    var span := maxValue - minValue;
    var p := (precision - 1) as real;
    var q := (v - minValue) * p / span;
    assert q * span == (v - minValue) * p;
    assert (v - minValue) * p <= span * p;
    assert 0.0 <= (v - minValue) * p;
    assert 0.0 <= q <= p;
  }

  lemma {:induction false} AllInRangeAllKept(values: seq<real>, minValue: real, maxValue: real, precision: nat)
    requires minValue < maxValue && precision >= 1
    requires forall k :: 0 <= k < |values| ==> minValue <= values[k] <= maxValue
    ensures Kept(values, minValue, maxValue, precision) == |values|
  {
    if values != [] {
      AllInRangeAllKept(values[..|values| - 1], minValue, maxValue, precision);
      InRangeIsKept(values[|values| - 1], minValue, maxValue, precision);
    }
  }

  /** Mass conservation: when every sample lies in [minValue, maxValue] and the
      range is not empty, the buckets sum to exactly 1. */
  lemma HistogramMassIsOne(minValue: real, maxValue: real, precision: nat, values: seq<real>)
    requires minValue < maxValue && precision >= 1 && values != []
    requires forall k :: 0 <= k < |values| ==> minValue <= values[k] <= maxValue
    ensures Sum(HistogramOf(minValue, maxValue, precision, values).histogram) == 1.0
  {
    HistogramMass(minValue, maxValue, precision, values);
    AllInRangeAllKept(values, minValue, maxValue, precision);
  }

  /** `indexOfFirst { v > threshold }`. */
  function IndexOfFirstAbove(h: seq<real>, threshold: real): (i: int)
    ensures -1 <= i < |h|
    ensures i >= 0 ==> h[i] > threshold && forall k :: 0 <= k < i ==> h[k] <= threshold
    ensures i == -1 <==> forall k :: 0 <= k < |h| ==> h[k] <= threshold
  {
    if h == [] then -1
    else if h[0] > threshold then 0
    else
      var j := IndexOfFirstAbove(h[1..], threshold);
      assert forall k :: 1 <= k < |h| ==> h[k] == h[1..][k - 1];
      if j < 0 then -1 else j + 1
  }

  /** `indexOfLast { v > threshold }`. */
  function IndexOfLastAbove(h: seq<real>, threshold: real): (i: int)
    ensures -1 <= i < |h|
    ensures i >= 0 ==> h[i] > threshold && forall k :: i < k < |h| ==> h[k] <= threshold
    ensures i == -1 <==> forall k :: 0 <= k < |h| ==> h[k] <= threshold
  {
    if h == [] then -1
    else if h[|h| - 1] > threshold then |h| - 1
    else IndexOfLastAbove(h[..|h| - 1], threshold)
  }

  /** `convertIndexToValue`: -1 (nothing found) becomes 0.0; otherwise bucket
      0 maps to minValue and the last bucket to maxValue, linearly between.
      With a single bucket the source divides 0 by 0. */
  function ConvertIndexToValue(data: HistogramData, index: int): (v: real)
    requires index < 0 || |data.histogram| >= 2
  {
    if index < 0 then 0.0
    else data.minValue + ScaledFraction(data.maxValue - data.minValue, index as real, |data.histogram| as real - 1.0)
  }

  /** `s * a / c`, the share `a / c` of the span `s`. */
  function ScaledFraction(s: real, a: real, c: real): real
    requires c != 0.0
  {
    s * a / c
  }

  /** Bucket 0 is worth minValue and the last bucket maxValue. */
  lemma ConvertEndpoints(data: HistogramData)
    requires |data.histogram| >= 2
    ensures ConvertIndexToValue(data, 0) == data.minValue
    ensures ConvertIndexToValue(data, |data.histogram| - 1) == data.maxValue
  {
    var last := |data.histogram| as real - 1.0;
    assert (|data.histogram| - 1) as real == last;
    assert ScaledFraction(data.maxValue - data.minValue, last, last) == data.maxValue - data.minValue;
    assert ScaledFraction(data.maxValue - data.minValue, 0.0, last) == 0.0;
  }

  /** Larger bucket indices give larger values when minValue <= maxValue, and
      every bucket's value lies in [minValue, maxValue]. */
  lemma ConvertMonotone(data: HistogramData, i: int, j: int)
    requires |data.histogram| >= 2 && 0 <= i <= j < |data.histogram|
    requires data.minValue <= data.maxValue
    ensures ConvertIndexToValue(data, i) <= ConvertIndexToValue(data, j)
    ensures data.minValue <= ConvertIndexToValue(data, i) <= data.maxValue
  {
    var span := data.maxValue - data.minValue;
    var last := |data.histogram| as real - 1.0;
    assert (|data.histogram| - 1) as real == last;
    ScaledFractionBounds(span, i as real, j as real, last);
  }

  /** For 0 <= a <= b <= c and s >= 0: 0 <= s*a/c <= s*b/c <= s. */
  lemma ScaledFractionBounds(s: real, a: real, b: real, c: real)
    requires s >= 0.0 && 0.0 <= a <= b <= c && c > 0.0
    ensures 0.0 <= ScaledFraction(s, a, c) <= ScaledFraction(s, b, c) <= s
  {
    assert s * a <= s * b <= s * c;
    assert (s * a / c) * c == s * a;
    assert (s * b / c) * c == s * b;
    assert s * c / c == s;
  }

  /** `getHistogramLowValue`: the value of the first bucket above threshold,
      0.0 (not minValue) when there is none. */
  function LowValue(data: HistogramData, threshold: real): (v: real)
    requires |data.histogram| != 1
    ensures (forall k :: 0 <= k < |data.histogram| ==> data.histogram[k] <= threshold) ==> v == 0.0
    ensures data.minValue <= data.maxValue && (exists k :: 0 <= k < |data.histogram| && data.histogram[k] > threshold)
            ==> data.minValue <= v <= data.maxValue
  {
    var i := IndexOfFirstAbove(data.histogram, threshold);
    if i >= 0 && data.minValue <= data.maxValue then
      ConvertMonotone(data, i, i);
      ConvertIndexToValue(data, i)
    else ConvertIndexToValue(data, i)
  }

  /** `getHistogramHighValue`: the value of the last bucket above threshold,
      0.0 when there is none. */
  function HighValue(data: HistogramData, threshold: real): (v: real)
    requires |data.histogram| != 1
    ensures (forall k :: 0 <= k < |data.histogram| ==> data.histogram[k] <= threshold) ==> v == 0.0
    ensures data.minValue <= data.maxValue && (exists k :: 0 <= k < |data.histogram| && data.histogram[k] > threshold)
            ==> data.minValue <= v <= data.maxValue
  {
    var i := IndexOfLastAbove(data.histogram, threshold);
    if i >= 0 && data.minValue <= data.maxValue then
      ConvertMonotone(data, i, i);
      ConvertIndexToValue(data, i)
    else ConvertIndexToValue(data, i)
  }

  /** When some bucket exceeds the threshold, low <= high. */
  lemma LowNotAboveHigh(data: HistogramData, threshold: real, k: int)
    requires |data.histogram| != 1 && data.minValue <= data.maxValue
    requires 0 <= k < |data.histogram| && data.histogram[k] > threshold
    ensures LowValue(data, threshold) <= HighValue(data, threshold)
  {
    var i := IndexOfFirstAbove(data.histogram, threshold);
    var j := IndexOfLastAbove(data.histogram, threshold);
    assert i <= k <= j;
    ConvertMonotone(data, i, j);
  }

  /** h[0] + ... + h[i]: the running sum after bucket `i`. */
  function RunningSum(h: seq<real>, i: nat): real
    requires i < |h|
  {
    Sum(h[..i + 1])
  }

  /** The first position `i >= from` whose prefix sum h[0] + ... + h[i]
      exceeds the threshold, or -1. */
  function FirstPrefixAbove(h: seq<real>, threshold: real, from: nat): (i: int)
    requires from <= |h|
    decreases |h| - from
    ensures i == -1 || from <= i < |h|
    ensures i >= 0 ==> RunningSum(h, i) > threshold &&
                       forall k :: from <= k < i ==> RunningSum(h, k) <= threshold
    ensures i == -1 ==> forall k :: from <= k < |h| ==> RunningSum(h, k) <= threshold
  {
    if from == |h| then -1
    else if RunningSum(h, from) > threshold then from
    else FirstPrefixAbove(h, threshold, from + 1)
  }

  function MedianIndex(h: seq<real>, threshold: real): int
  {
    FirstPrefixAbove(h, threshold, 0)
  }

  /** What `getHistogramMedianValue` returns: the value at the first index
      whose running sum exceeds the threshold, else the middle of the range. */
  function MedianValueOf(data: HistogramData, threshold: real): real
    requires |data.histogram| != 1
  {
    var i := MedianIndex(data.histogram, threshold);
    if i >= 0 then ConvertIndexToValue(data, i) else 0.5 * (data.minValue + data.maxValue)
  }

  /** `getHistogramMedianValue`: a running sum with an early return. */
  method MedianValue(data: HistogramData, threshold: real) returns (v: real)
    requires |data.histogram| != 1
    ensures v == MedianValueOf(data, threshold)
  {
    var h := data.histogram;
    var sum := 0.0;
    for i := 0 to |h|
      invariant sum == Sum(h[..i])
      invariant forall k :: 0 <= k < i ==> RunningSum(h, k) <= threshold
    {
      assert h[..i + 1][..i] == h[..i];
      sum := sum + h[i];
      assert sum == RunningSum(h, i);
      if sum > threshold {
        assert MedianIndex(h, threshold) == i;
        return ConvertIndexToValue(data, i);
      }
    }
    v := 0.5 * (data.minValue + data.maxValue);
  }

  /** A larger threshold never moves the median down (once both are found). */
  lemma MedianMonotone(data: HistogramData, t1: real, t2: real)
    requires |data.histogram| != 1 && data.minValue <= data.maxValue && t1 <= t2
    requires MedianIndex(data.histogram, t1) >= 0 && MedianIndex(data.histogram, t2) >= 0
    ensures MedianValueOf(data, t1) <= MedianValueOf(data, t2)
  {
    var i1 := MedianIndex(data.histogram, t1);
    var i2 := MedianIndex(data.histogram, t2);
    assert i1 <= i2;
    ConvertMonotone(data, i1, i2);
  }

  lemma {:induction false} PrefixSumsGrow(h: seq<real>, i: nat, j: nat)
    requires forall k :: 0 <= k < |h| ==> h[k] >= 0.0
    requires i <= j <= |h|
    ensures Sum(h[..i]) <= Sum(h[..j])
  {
    if i < j {
      PrefixSumsGrow(h, i, j - 1);
      assert h[..j][..j - 1] == h[..j - 1];
    }
  }

  /** With non-negative buckets the median search succeeds exactly when the
      total mass exceeds the threshold; otherwise the midpoint comes back. */
  lemma MedianFoundIffMassAbove(h: seq<real>, threshold: real)
    requires h != [] && forall k :: 0 <= k < |h| ==> h[k] >= 0.0
    ensures MedianIndex(h, threshold) >= 0 <==> Sum(h) > threshold
  {
    assert h[..|h|] == h;
    var i := MedianIndex(h, threshold);
    if i >= 0 {
      assert RunningSum(h, i) > threshold;
      PrefixSumsGrow(h, i + 1, |h|);
    } else {
      assert RunningSum(h, |h| - 1) <= threshold;
      assert RunningSum(h, |h| - 1) == Sum(h);
    }
  }
}
