/** The spline grid search of SplineAdjuster.kt: knots are laid out evenly
    over [minValue, maxValue], and for several levels every combination of
    `steps` offsets per interior knot is tried around the best curve so far,
    keeping the candidate whose histogram is closest to some sample. */
module Adjuster {
  import opened Wrappers
  import opened RealSeqs
  import opened Histograms
  import Splines

  /** `Double.MAX_VALUE`, (2^53 - 1) * 2^971. */
  const DoubleMax: real := 179769313486231570814527423731704356798070567525844996598917476803157260780028538760589558632766878171540458953514382464234321326889464182768467546703537516986049910576551282076245490090389328944075868508455133942304583236903222948165808559332123348274797826204144723168738177180919299881250404026184124858368.0

  /** What the search works on. `test` maps a spline, given by its knots and
      knot values, to the histogram it produces; `error` compares a test
      histogram with a sample histogram. */
  datatype Problem = Problem(
    samples: seq<seq<real>>,
    minValue: real,
    maxValue: real,
    adjustPoints: nat,
    steps: nat,
    test: (seq<real>, seq<real>) -> seq<real>,
    error: (seq<real>, seq<real>) -> real)

  /** What the source needs to produce a spline: increasing knots, and a step
      count other than 1 (which divides 0 by 0 in `getVariant`); every test
      histogram must have a size other than 1 for the median query. */
  ghost predicate WellFormed(p: Problem)
  {
    p.minValue < p.maxValue && p.steps != 1 &&
    forall knots, values :: |p.test(knots, values)| != 1
  }

  function Pow(b: nat, e: nat): nat
  {
    if e == 0 then 1 else b * Pow(b, e - 1)
  }

  /** Half the gap between interior knots. With no interior knot the source
      divides by zero, but then the value is never used. */
  function Range(minValue: real, maxValue: real, adjustPoints: nat): real
  {
    if adjustPoints == 0 then 0.0 else (maxValue - minValue) / (2.0 * adjustPoints as real)
  }

  /** Knot `i` of `keyPoints`. */
  function KeyPoint(minValue: real, maxValue: real, adjustPoints: nat, i: nat): real
  {
    if i == 0 then minValue
    else if i == adjustPoints + 1 then maxValue
    else minValue + Range(minValue, maxValue, adjustPoints) * (1 + (i - 1) * 2) as real
  }

  function KeyPoints(minValue: real, maxValue: real, adjustPoints: nat): (k: seq<real>)
    ensures |k| == adjustPoints + 2
  {
    seq(adjustPoints + 2, i requires 0 <= i => KeyPoint(minValue, maxValue, adjustPoints, i))
  }

  /** The interior knots, which `bestPoints` and `nextBestPoints` start from. */
  function InteriorKnots(minValue: real, maxValue: real, adjustPoints: nat): (k: seq<real>)
    ensures |k| == adjustPoints
  {
    seq(adjustPoints, i requires 0 <= i => KeyPoint(minValue, maxValue, adjustPoints, i + 1))
  }

  /** The knot values of a candidate: the end knots stay fixed. */
  function SplineValues(minValue: real, maxValue: real, points: seq<real>): seq<real>
  {
    [minValue] + points + [maxValue]
  }

  /** The knots sit at the ends and then at `range`, `3 range`, ...,
      `(2n - 1) range` from minValue: the end gaps are `range`, the inner
      ones `2 range`. */
  lemma KeyPointSpacing(minValue: real, maxValue: real, adjustPoints: nat, i: nat)
    requires adjustPoints >= 1 && i <= adjustPoints
    ensures var k := KeyPoints(minValue, maxValue, adjustPoints);
            var range := Range(minValue, maxValue, adjustPoints);
            k[i + 1] - k[i] == if i == 0 || i == adjustPoints then range else 2.0 * range
  {
    var range := Range(minValue, maxValue, adjustPoints);
    var n := adjustPoints as real;
    assert range * (2.0 * n) == maxValue - minValue;
    if i == adjustPoints {
      assert (1 + (i - 1) * 2) as real == 2.0 * n - 1.0;
      assert range * (2.0 * n - 1.0) == maxValue - minValue - range;
    } else if i > 0 {
      assert (1 + i * 2) as real == (1 + (i - 1) * 2) as real + 2.0;
    }
  }

  /** With maxValue > minValue the knots strictly increase, so every
      candidate spline is well defined. */
  lemma {:induction false} KeyPointsIncreasing(minValue: real, maxValue: real, adjustPoints: nat)
    requires minValue < maxValue
    ensures Splines.StrictlyIncreasing(KeyPoints(minValue, maxValue, adjustPoints))
  {
    var k := KeyPoints(minValue, maxValue, adjustPoints);
    if adjustPoints >= 1 {
      var range := Range(minValue, maxValue, adjustPoints);
      assert range > 0.0;
      forall i | 0 <= i < |k| - 1
        ensures k[i] < k[i + 1]
      {
        KeyPointSpacing(minValue, maxValue, adjustPoints, i);
      }
    }
    forall i, j | 0 <= i < j < |k|
      ensures k[i] < k[j]
    {
      AdjacentToAll(k, i, j);
    }
  }

  lemma {:induction false} AdjacentToAll(k: seq<real>, i: nat, j: nat)
    requires forall m :: 0 <= m < |k| - 1 ==> k[m] < k[m + 1]
    requires i < j < |k|
    decreases j - i
    ensures k[i] < k[j]
  {
    if i + 1 < j {
      AdjacentToAll(k, i + 1, j);
    }
  }

  /** The first search centre puts every knot value on its knot, so the first
      curve tried around is the identity. */
  lemma InitialCentreIsIdentity(minValue: real, maxValue: real, adjustPoints: nat, v: real)
    requires minValue < maxValue
    ensures SplineValues(minValue, maxValue, InteriorKnots(minValue, maxValue, adjustPoints))
            == KeyPoints(minValue, maxValue, adjustPoints)
    ensures var k := KeyPoints(minValue, maxValue, adjustPoints);
            Splines.StrictlyIncreasing(k) &&
            Splines.Eval(Splines.NaturalSpline(k, SplineValues(minValue, maxValue, InteriorKnots(minValue, maxValue, adjustPoints))), v) == v
  {
    var k := KeyPoints(minValue, maxValue, adjustPoints);
    assert SplineValues(minValue, maxValue, InteriorKnots(minValue, maxValue, adjustPoints)) == k;
    KeyPointsIncreasing(minValue, maxValue, adjustPoints);
    Splines.IdentityPreserved(k, v);
  }

  // ---- getVariant ----

  /** The first `n` base-`count` digits of `v`, least significant first:
      exactly what `t % count` followed by `t /= count` produces. */
  function Digits(v: nat, count: nat, n: nat): (ds: seq<nat>)
    requires count >= 1 || n == 0
    ensures |ds| == n
    ensures forall i :: 0 <= i < n ==> ds[i] < count
  {
    if n == 0 then [] else [v % count] + Digits(v / count, count, n - 1)
  }

  /** The number whose base-`count` digits are `ds`. */
  function Encode(ds: seq<nat>, count: nat): nat
  {
    if ds == [] then 0 else ds[0] + count * Encode(ds[1..], count)
  }

  /** The offset `getVariant` gives a knot for digit `pos`. */
  function Offset(point: real, range: real, count: nat, pos: nat): real
    requires count >= 2
  {
    point - range + pos as real * 2.0 * range / (count - 1) as real
  }

  /** What `getVariant(points, range, count, variant)` returns. */
  function Variant(points: seq<real>, range: real, count: nat, variant: nat): (r: seq<real>)
    requires count >= 2 || points == []
    ensures |r| == |points|
  {
    var ds := Digits(variant, count, |points|);
    seq(|points|, i requires 0 <= i < |points| => Offset(points[i], range, count, ds[i]))
  }

  /** `getVariant`: decodes `variant` digit by digit while filling the array. */
  method GetVariant(points: seq<real>, range: real, count: nat, variant: nat) returns (r: seq<real>)
    requires count >= 2 || points == []
    ensures r == Variant(points, range, count, variant)
  {
    var n := |points|;
    var t: nat := variant;
    var a := new real[n](_ => 0.0);
    for i := 0 to n
      invariant i <= n
      invariant Digits(t, count, n - i) == Digits(variant, count, n)[i..]
      invariant forall k :: 0 <= k < i ==> a[k] == Offset(points[k], range, count, Digits(variant, count, n)[k])
    {
      var pos := t % count;
      t := t / count;
      a[i] := Offset(points[i], range, count, pos);
    }
    r := a[..];
  }

  lemma {:induction false} PowPositive(b: nat, e: nat)
    requires b >= 1
    ensures Pow(b, e) >= 1
  {
    if e > 0 {
      PowPositive(b, e - 1);
    }
  }

  lemma MulMonotone(c: int, a: int, b: int)
    requires c >= 0
    ensures a <= b ==> c * a <= c * b
  {
    if a <= b {
      assert c * b - c * a == c * (b - a);
    }
  }

  lemma MulAtLeast(c: int, k: int)
    requires c >= 0
    ensures k >= 1 ==> c * k >= c
    ensures k <= -1 ==> c * k <= -c
  {
    MulMonotone(c, 1, k);
    MulMonotone(c, k, -1);
  }

  /** Quotient and remainder are unique. */
  lemma DivModUnique(x: int, c: int, q: int, r: int)
    requires c > 0 && x == c * q + r && 0 <= r < c
    ensures x / c == q && x % c == r
  {
    var q', r' := x / c, x % c;
    assert x == c * q' + r';
    assert c * (q' - q) == r - r';
    MulAtLeast(c, q' - q);
  }

  lemma DivBelow(v: nat, c: nat, p: nat)
    requires c >= 1 && v < c * p
    ensures v / c < p
  {
    MulMonotone(c, p, v / c);
    assert c * (v / c) <= v;
  }

  /** Decoding and re-encoding: every number below `count^n` is recovered from
      its digits. */
  lemma {:induction false} EncodeDigits(v: nat, count: nat, n: nat)
    requires count >= 1 && v < Pow(count, n)
    ensures Encode(Digits(v, count, n), count) == v
  {
    if n > 0 {
      var p := Pow(count, n - 1);
      assert Pow(count, n) == count * p;
      DivBelow(v, count, p);
      EncodeDigits(v / count, count, n - 1);
      var ds := Digits(v, count, n);
      assert ds == [v % count] + Digits(v / count, count, n - 1);
      assert ds[1..] == Digits(v / count, count, n - 1);
      assert Encode(ds, count) == v % count + count * (v / count);
      DivModSplit(v, count);
    }
  }

  lemma DivModSplit(v: nat, c: nat)
    requires c >= 1
    ensures v == v % c + c * (v / c)
  {
  }

  /** Encoding and decoding: digit strings below `count` come back unchanged,
      and their code is below `count^n`. Together with EncodeDigits this makes
      the decoding a bijection from [0, count^n) onto the digit strings. */
  lemma {:induction false} DigitsEncode(ds: seq<nat>, count: nat)
    requires count >= 1 && forall i :: 0 <= i < |ds| ==> ds[i] < count
    ensures Encode(ds, count) < Pow(count, |ds|)
    ensures Digits(Encode(ds, count), count, |ds|) == ds
  {
    if ds != [] {
      var rest := Encode(ds[1..], count);
      var p := Pow(count, |ds| - 1);
      DigitsEncode(ds[1..], count);
      var x := Encode(ds, count);
      assert x == ds[0] + count * rest;
      LeadingDigit(ds[0], rest, count, p);
      assert Pow(count, |ds|) == count * p;
      assert Digits(x, count, |ds|) == [ds[0]] + Digits(rest, count, |ds| - 1);
      assert [ds[0]] + ds[1..] == ds;
    }
  }

  /** The number `d + count * rest` with a digit `d` in front of a code
      `rest` below `p`: its last digit is `d`, the rest is `rest`, and it is
      below `count * p`. */
  lemma LeadingDigit(d: nat, rest: nat, count: nat, p: nat)
    requires d < count && rest < p
    ensures (d + count * rest) % count == d && (d + count * rest) / count == rest
    ensures d + count * rest < count * p
  {
    DivModUnique(d + count * rest, count, rest, d);
    MulMonotone(count, rest, p - 1);
    assert count * (p - 1) == count * p - count;
  }

  /** Digit 0 moves a knot down by `range`, digit `count - 1` up by `range`,
      and the digits in between step evenly through that interval. */
  lemma OffsetBounds(point: real, range: real, count: nat, pos: nat)
    requires count >= 2 && pos < count && range >= 0.0
    ensures Offset(point, range, count, 0) == point - range
    ensures Offset(point, range, count, count - 1) == point + range
    ensures point - range <= Offset(point, range, count, pos) <= point + range
  {
    var m := (count - 1) as real;
    assert (count - 1) as real * 2.0 * range / m == 2.0 * range;
    var q := pos as real * 2.0 * range / m;
    assert q * m == pos as real * 2.0 * range;
    assert pos as real * 2.0 * range <= m * 2.0 * range;
    if q > 2.0 * range {
      assert q * m > 2.0 * range * m;
    }
  }

  /** Each candidate moves every knot by at most the half-width. */
  lemma VariantWithinRange(points: seq<real>, range: real, count: nat, variant: nat, i: nat)
    requires count >= 2 && range >= 0.0 && i < |points|
    ensures points[i] - range <= Variant(points, range, count, variant)[i] <= points[i] + range
  {
    OffsetBounds(points[i], range, count, Digits(variant, count, |points|)[i]);
  }

  /** `0.45 * range / level`. */
  function HalfWidth(range: real, level: nat): real
    requires level >= 1
  {
    0.45 * range / level as real
  }

  /** Later levels search strictly closer around the centre. */
  lemma HalfWidthShrinks(range: real, l1: nat, l2: nat)
    requires range > 0.0 && 1 <= l1 < l2
    ensures 0.0 < HalfWidth(range, l2) < HalfWidth(range, l1)
  {
    var w := 0.45 * range;
    assert w > 0.0;
    assert w / l2 as real * l2 as real == w;
    assert w / l1 as real * l1 as real == w;
    assert w / l2 as real * l1 as real < w;
  }

  // ---- the search ----

  /** `samples.map { errorFunction(hist, it) }`. */
  function Errors(p: Problem, hist: seq<real>): (es: seq<real>)
    ensures |es| == |p.samples|
  {
    seq(|p.samples|, k requires 0 <= k < |p.samples| => p.error(hist, p.samples[k]))
  }

  /** `errors.min() ?: Double.MAX_VALUE`. */
  function MinError(errors: seq<real>): real
  {
    if errors == [] then DoubleMax else Min(errors)
  }

  /** The state the candidate loop updates; `nextBest` is `nextBestPoints`. */
  datatype SearchState = SearchState(smallestError: real, selected: int, bestHistogram: Option<seq<real>>, nextBest: seq<real>)

  /** One candidate: adopted only when strictly better than all before it. */
  function Consider(st: SearchState, points: seq<real>, hist: seq<real>, errors: seq<real>): SearchState
  {
    var m := MinError(errors);
    if m < st.smallestError then
      (if errors == [] then SearchState(m, -1, Some(hist), points)
       else SearchState(m, IndexOf(errors, m), Some(hist), points))
    else st
  }

  /** A candidate is adopted only when strictly better; then it records the
      first sample attaining the error, its histogram and its knots. */
  lemma ConsiderProperties(st: SearchState, points: seq<real>, hist: seq<real>, errors: seq<real>)
    ensures var r := Consider(st, points, hist, errors);
            r.smallestError <= st.smallestError &&
            r.smallestError <= MinError(errors) &&
            (r == st || (r.smallestError == MinError(errors) < st.smallestError)) &&
            (r != st && errors == [] ==> r.selected == -1 && r.bestHistogram == Some(hist) && r.nextBest == points) &&
            (r != st && errors != [] ==>
               0 <= r.selected < |errors| && errors[r.selected] == r.smallestError &&
               (forall k :: 0 <= k < r.selected ==> errors[k] > r.smallestError) &&
               r.bestHistogram == Some(hist) && r.nextBest == points)
  {
  }

  /** The knot values tried for candidate `variant` of a level. */
  function Candidate(p: Problem, best: seq<real>, level: nat, variant: nat): seq<real>
    requires level >= 1 && (p.steps >= 2 || best == [])
  {
    Variant(best, HalfWidth(Range(p.minValue, p.maxValue, p.adjustPoints), level), p.steps, variant)
  }

  /** Trying one candidate against the samples. */
  function Step(p: Problem, best: seq<real>, level: nat, st: SearchState, variant: nat): SearchState
    requires level >= 1 && (p.steps >= 2 || best == [])
  {
    var points := Candidate(p, best, level, variant);
    var hist := p.test(KeyPoints(p.minValue, p.maxValue, p.adjustPoints), SplineValues(p.minValue, p.maxValue, points));
    Consider(st, points, hist, Errors(p, hist))
  }

  /** The state after candidates 0 .. count-1 of one level. */
  function ScanLevel(p: Problem, best: seq<real>, level: nat, st: SearchState, count: nat): SearchState
    requires level >= 1 && (count == 0 || p.steps >= 2 || best == [])
  {
    if count == 0 then st
    else Step(p, best, level, ScanLevel(p, best, level, st, count - 1), count - 1)
  }

  /** With zero steps and some knot to move there is no candidate at all. */
  lemma PowZero(e: nat)
    requires e >= 1
    ensures Pow(0, e) == 0
  {
  }

  function Candidates(p: Problem): nat
  {
    Pow(p.steps, p.adjustPoints)
  }

  lemma CandidatesDefined(p: Problem, best: seq<real>)
    requires p.steps != 1 && |best| == p.adjustPoints
    ensures Candidates(p) == 0 || p.steps >= 2 || best == []
  {
    if p.steps == 0 && best != [] {
      PowZero(p.adjustPoints);
    }
  }

  function InitialState(p: Problem): SearchState
  {
    SearchState(DoubleMax, 0, None, InteriorKnots(p.minValue, p.maxValue, p.adjustPoints))
  }

  /** The state and `bestPoints` after levels 1 .. level. At the end of each
      level `bestPoints` takes the level's best candidate. */
  function LevelsUpTo(p: Problem, level: nat): (r: (SearchState, seq<real>))
    requires p.steps != 1
    ensures |r.1| == p.adjustPoints && |r.0.nextBest| == p.adjustPoints
  {
    if level == 0 then (InitialState(p), InteriorKnots(p.minValue, p.maxValue, p.adjustPoints))
    else
      var prev := LevelsUpTo(p, level - 1);
      CandidatesDefined(p, prev.1);
      var st := ScanLevel(p, prev.1, level, prev.0, Candidates(p));
      ScanLength(p, prev.1, level, prev.0, Candidates(p));
      (st, st.nextBest)
  }

  lemma {:induction false} ScanLength(p: Problem, best: seq<real>, level: nat, st: SearchState, count: nat)
    requires level >= 1 && (count == 0 || p.steps >= 2 || best == [])
    requires |st.nextBest| == |best|
    ensures |ScanLevel(p, best, level, st, count).nextBest| == |best|
  {
    if count > 0 {
      ScanLength(p, best, level, st, count - 1);
    }
  }

  /** `findInitialError`: the best error of the identity spline on the two
      end knots, 0.0 when there are no samples. */
  function InitialError(p: Problem): (e: real)
    ensures p.samples == [] ==> e == 0.0
    ensures var errors := Errors(p, p.test([p.minValue, p.maxValue], [p.minValue, p.maxValue]));
            p.samples != [] ==> e in errors && forall k :: 0 <= k < |errors| ==> e <= errors[k]
  {
    var errors := Errors(p, p.test([p.minValue, p.maxValue], [p.minValue, p.maxValue]));
    if errors == [] then 0.0 else Min(errors)
  }

  /** `initialError / smallestError`; None where the quotient is not a finite
      number (a zero divisor). */
  function Improvement(initialError: real, smallestError: real): Option<real>
  {
    if smallestError == 0.0 then None else Some(initialError / smallestError)
  }

  /** Every histogram the search adopts is a test histogram, so its size is
      never 1 when no test histogram has that size. */
  lemma {:induction false} ScanHistograms(p: Problem, best: seq<real>, level: nat, st: SearchState, count: nat)
    requires level >= 1 && (count == 0 || p.steps >= 2 || best == [])
    requires forall knots, values :: |p.test(knots, values)| != 1
    requires st.bestHistogram.Some? ==> |st.bestHistogram.value| != 1
    ensures var r := ScanLevel(p, best, level, st, count);
            r.bestHistogram.Some? ==> |r.bestHistogram.value| != 1
  {
    if count > 0 {
      ScanHistograms(p, best, level, st, count - 1);
    }
  }

  lemma {:induction false} LevelsHistograms(p: Problem, level: nat)
    requires p.steps != 1
    requires forall knots, values :: |p.test(knots, values)| != 1
    ensures var st := LevelsUpTo(p, level).0;
            st.bestHistogram.Some? ==> |st.bestHistogram.value| != 1
  {
    if level > 0 {
      LevelsHistograms(p, level - 1);
      var prev := LevelsUpTo(p, level - 1);
      CandidatesDefined(p, prev.1);
      ScanHistograms(p, prev.1, level, prev.0, Candidates(p));
    }
  }

  /** What a successful search produces. */
  datatype Outcome = Outcome(
    knots: seq<real>,
    values: seq<real>,
    smallestError: real,
    selected: int,
    bestHistogram: seq<real>,
    bestMedian: real,
    improvement: Option<real>)

  /** What `findSpline` computes with `levels` levels: a failure when no
      candidate ever beat Double.MAX_VALUE (`bestHistogram!!`). */
  function Search(p: Problem, levels: int): Result<Outcome>
    requires WellFormed(p)
  {
    var last := if levels < 0 then 0 else levels;
    LevelsHistograms(p, last);
    var r := LevelsUpTo(p, last);
    var st := r.0;
    match st.bestHistogram
    case None => Failure(NullDereference)
    case Some(hist) =>
      Success(Outcome(
        KeyPoints(p.minValue, p.maxValue, p.adjustPoints),
        SplineValues(p.minValue, p.maxValue, r.1),
        st.smallestError,
        st.selected,
        hist,
        MedianValueOf(HistogramData(0.0, 1.0, hist), 0.5),
        Improvement(InitialError(p), st.smallestError)))
  }

  // ---- properties of the search ----

  /** Within a level the smallest error never increases, ends at or below
      every candidate's best error, and is either where it started or some
      candidate's best error. */
  lemma {:induction false} ScanIsMinimum(p: Problem, best: seq<real>, level: nat, st: SearchState, count: nat)
    requires level >= 1 && (count == 0 || p.steps >= 2 || best == [])
    ensures var r := ScanLevel(p, best, level, st, count);
            r.smallestError <= st.smallestError &&
            (forall v :: 0 <= v < count ==> r.smallestError <= CandidateError(p, best, level, v)) &&
            (r == st || exists v :: 0 <= v < count && r.smallestError == CandidateError(p, best, level, v))
  {
    if count > 0 {
      ScanIsMinimum(p, best, level, st, count - 1);
      var prev := ScanLevel(p, best, level, st, count - 1);
      StepError(p, best, level, prev, count - 1);
      var r := ScanLevel(p, best, level, st, count);
      assert r == Step(p, best, level, prev, count - 1);
      assert r.smallestError <= prev.smallestError;
      forall v | 0 <= v < count
        ensures r.smallestError <= CandidateError(p, best, level, v)
      {
        if v < count - 1 {
          assert prev.smallestError <= CandidateError(p, best, level, v);
        }
      }
      if r != st && r != prev {
        assert r.smallestError == CandidateError(p, best, level, count - 1);
      }
    }
  }

  /** The best error of the samples against candidate `variant`. */
  function CandidateError(p: Problem, best: seq<real>, level: nat, variant: nat): real
    requires level >= 1 && (p.steps >= 2 || best == [])
  {
    MinError(Errors(p, p.test(KeyPoints(p.minValue, p.maxValue, p.adjustPoints),
                              SplineValues(p.minValue, p.maxValue, Candidate(p, best, level, variant)))))
  }

  /** One candidate lowers the smallest error to at most its own best error,
      and either leaves the state alone or takes that error. */
  lemma StepError(p: Problem, best: seq<real>, level: nat, st: SearchState, variant: nat)
    requires level >= 1 && (p.steps >= 2 || best == [])
    ensures var r := Step(p, best, level, st, variant);
            r.smallestError <= st.smallestError && r.smallestError <= CandidateError(p, best, level, variant) &&
            (r == st || r.smallestError == CandidateError(p, best, level, variant))
  {
    var points := Candidate(p, best, level, variant);
    var hist := p.test(KeyPoints(p.minValue, p.maxValue, p.adjustPoints), SplineValues(p.minValue, p.maxValue, points));
    ConsiderProperties(st, points, hist, Errors(p, hist));
  }

  /** Across levels the smallest error never increases either. */
  lemma {:induction false} LevelsNeverWorsen(p: Problem, l1: nat, l2: nat)
    requires p.steps != 1 && l1 <= l2
    ensures LevelsUpTo(p, l2).0.smallestError <= LevelsUpTo(p, l1).0.smallestError
  {
    if l1 < l2 {
      LevelsNeverWorsen(p, l1, l2 - 1);
      var prev := LevelsUpTo(p, l2 - 1);
      CandidatesDefined(p, prev.1);
      ScanIsMinimum(p, prev.1, l2, prev.0, Candidates(p));
    }
  }

  /** Once a histogram has been adopted it is never dropped again. */
  lemma {:induction false} ScanKeepsHistogram(p: Problem, best: seq<real>, level: nat, st: SearchState, count: nat)
    requires level >= 1 && (count == 0 || p.steps >= 2 || best == [])
    requires st.bestHistogram.Some?
    ensures ScanLevel(p, best, level, st, count).bestHistogram.Some?
  {
    if count > 0 {
      ScanKeepsHistogram(p, best, level, st, count - 1);
    }
  }

  /** With no samples every candidate's best error is Double.MAX_VALUE, which
      never beats the starting value, so `bestHistogram!!` fails. */
  lemma {:induction false} NoSamplesNoHistogram(p: Problem, best: seq<real>, level: nat, st: SearchState, count: nat)
    requires level >= 1 && (count == 0 || p.steps >= 2 || best == [])
    requires p.samples == [] && st.smallestError <= DoubleMax && st.bestHistogram.None?
    ensures ScanLevel(p, best, level, st, count) == st
  {
    if count > 0 {
      NoSamplesNoHistogram(p, best, level, st, count - 1);
    }
  }

  lemma {:induction false} NoSamplesFailsAt(p: Problem, level: nat)
    requires p.steps != 1 && p.samples == []
    ensures LevelsUpTo(p, level).0 == InitialState(p)
  {
    if level > 0 {
      NoSamplesFailsAt(p, level - 1);
      CandidatesDefined(p, LevelsUpTo(p, level - 1).1);
      NoSamplesNoHistogram(p, LevelsUpTo(p, level - 1).1, level, InitialState(p), Candidates(p));
    }
  }

  /** `findSpline` fails when there are no samples or no levels. */
  lemma SearchFails(p: Problem, levels: int)
    requires WellFormed(p)
    ensures p.samples == [] || levels < 1 ==> Search(p, levels).Failure?
  {
    if p.samples == [] {
      NoSamplesFailsAt(p, if levels < 0 then 0 else levels);
    }
  }

  /** The best error of candidate `variant` of level `level`, tried around
      the `bestPoints` the levels before it left behind. */
  function LevelError(p: Problem, level: nat, variant: nat): real
    requires p.steps != 1 && level >= 1 && variant < Candidates(p)
  {
    var best := LevelsUpTo(p, level - 1).1;
    CandidatesDefined(p, best);
    CandidateError(p, best, level, variant)
  }

  /** After `levels` levels the smallest error is at most the best error of
      every candidate of every level, and it is either Double.MAX_VALUE or
      one of those errors. */
  lemma SearchIsMinimum(p: Problem, levels: nat)
    requires p.steps != 1
    ensures var e := LevelsUpTo(p, levels).0.smallestError;
            (forall l, v :: 1 <= l <= levels && 0 <= v < Candidates(p) ==> e <= LevelError(p, l, v)) &&
            (e == DoubleMax || exists l, v :: 1 <= l <= levels && 0 <= v < Candidates(p) && e == LevelError(p, l, v))
  {
    forall l, v | 1 <= l <= levels && 0 <= v < Candidates(p)
      ensures LevelsUpTo(p, levels).0.smallestError <= LevelError(p, l, v)
    {
      SearchBelow(p, levels, l, v);
    }
    SearchAttains(p, levels);
  }

  /** Candidate `variant` of level `level`: the final smallest error is at
      most that level's, which is at most the candidate's. */
  lemma SearchBelow(p: Problem, levels: nat, level: nat, variant: nat)
    requires p.steps != 1 && 1 <= level <= levels && variant < Candidates(p)
    ensures LevelsUpTo(p, levels).0.smallestError <= LevelError(p, level, variant)
  {
    LevelIsMinimum(p, level);
    LevelsNeverWorsen(p, level, levels);
  }

  lemma {:induction false} SearchAttains(p: Problem, levels: nat)
    requires p.steps != 1
    ensures var e := LevelsUpTo(p, levels).0.smallestError;
            e == DoubleMax || exists l, v :: 1 <= l <= levels && 0 <= v < Candidates(p) && e == LevelError(p, l, v)
  {
    if levels > 0 {
      SearchAttains(p, levels - 1);
      LevelIsMinimum(p, levels);
    }
  }

  /** One level: the smallest error does not grow, ends at most every
      candidate's error of the level, and is either where it was or one of
      them. */
  lemma LevelIsMinimum(p: Problem, level: nat)
    requires p.steps != 1 && level >= 1
    ensures var e := LevelsUpTo(p, level).0.smallestError;
            var e0 := LevelsUpTo(p, level - 1).0.smallestError;
            e <= e0 && (forall v :: 0 <= v < Candidates(p) ==> e <= LevelError(p, level, v)) &&
            (e == e0 || exists v :: 0 <= v < Candidates(p) && e == LevelError(p, level, v))
  {
    var prev := LevelsUpTo(p, level - 1);
    CandidatesDefined(p, prev.1);
    ScanIsMinimum(p, prev.1, level, prev.0, Candidates(p));
    var st := ScanLevel(p, prev.1, level, prev.0, Candidates(p));
    assert LevelsUpTo(p, level).0 == st;
    if st != prev.0 {
      var v :| 0 <= v < Candidates(p) && st.smallestError == CandidateError(p, prev.1, level, v);
      assert st.smallestError == LevelError(p, level, v);
    }
  }

  /** What the search state says about its adopted histogram: none yet and
      the error still Double.MAX_VALUE, or a histogram whose least sample
      error is the smallest error, first attained at `selected`. */
  ghost predicate Selected(p: Problem, st: SearchState)
  {
    match st.bestHistogram
    case None => st.smallestError == DoubleMax
    case Some(h) =>
      var es := Errors(p, h);
      st.smallestError < DoubleMax && 0 <= st.selected < |es| &&
      es[st.selected] == st.smallestError && st.smallestError == MinError(es) &&
      forall k :: 0 <= k < st.selected ==> es[k] > st.smallestError
  }

  lemma StepSelected(p: Problem, best: seq<real>, level: nat, st: SearchState, variant: nat)
    requires level >= 1 && (p.steps >= 2 || best == [])
    requires Selected(p, st)
    ensures Selected(p, Step(p, best, level, st, variant))
  {
    var points := Candidate(p, best, level, variant);
    var hist := p.test(KeyPoints(p.minValue, p.maxValue, p.adjustPoints), SplineValues(p.minValue, p.maxValue, points));
    var errors := Errors(p, hist);
    ConsiderProperties(st, points, hist, errors);
  }

  lemma {:induction false} ScanSelected(p: Problem, best: seq<real>, level: nat, st: SearchState, count: nat)
    requires level >= 1 && (count == 0 || p.steps >= 2 || best == [])
    requires Selected(p, st)
    ensures Selected(p, ScanLevel(p, best, level, st, count))
  {
    if count > 0 {
      ScanSelected(p, best, level, st, count - 1);
      StepSelected(p, best, level, ScanLevel(p, best, level, st, count - 1), count - 1);
    }
  }

  lemma {:induction false} LevelsSelected(p: Problem, levels: nat)
    requires p.steps != 1
    ensures Selected(p, LevelsUpTo(p, levels).0)
  {
    if levels > 0 {
      LevelsSelected(p, levels - 1);
      var prev := LevelsUpTo(p, levels - 1);
      CandidatesDefined(p, prev.1);
      ScanSelected(p, prev.1, levels, prev.0, Candidates(p));
    }
  }

  /** On success the spline keeps the end values fixed and runs through the
      laid out knots; the smallest error is the best error of some candidate
      of some level and at most that of every candidate of every level; and
      the selected sample is the first whose error against the adopted
      histogram is that smallest error. */
  lemma SearchOutcome(p: Problem, levels: int)
    requires WellFormed(p) && Search(p, levels).Success?
    ensures var o := Search(p, levels).value;
            Splines.StrictlyIncreasing(o.knots) && |o.values| == |o.knots| == p.adjustPoints + 2 &&
            o.values[0] == p.minValue && o.values[|o.values| - 1] == p.maxValue &&
            o.improvement == Improvement(InitialError(p), o.smallestError)
    ensures var o := Search(p, levels).value;
            (forall l, v :: 1 <= l <= levels && 0 <= v < Candidates(p) ==> o.smallestError <= LevelError(p, l, v)) &&
            (exists l, v :: 1 <= l <= levels && 0 <= v < Candidates(p) && o.smallestError == LevelError(p, l, v))
    ensures var o := Search(p, levels).value;
            var es := Errors(p, o.bestHistogram);
            0 <= o.selected < |p.samples| && es[o.selected] == o.smallestError && o.smallestError == MinError(es) &&
            forall k :: 0 <= k < o.selected ==> es[k] > o.smallestError
  {
    KeyPointsIncreasing(p.minValue, p.maxValue, p.adjustPoints);
    var last := if levels < 0 then 0 else levels;
    SearchIsMinimum(p, last);
    LevelsSelected(p, last);
  }

  // ---- the class ----

  class SplineAdjuster {
    const samples: seq<seq<real>>
    const minValue: real
    const maxValue: real
    var adjustPoints: nat
    var steps: nat
    var levels: int
    var correctnessImprovement: Option<real>
    var bestMedian: real

    constructor (samples0: seq<seq<real>>, minValue0: real, maxValue0: real)
      ensures samples == samples0 && minValue == minValue0 && maxValue == maxValue0
      ensures adjustPoints == 4 && steps == 4 && levels == 3
      ensures correctnessImprovement == Some(0.0) && bestMedian == 0.0
    {
      samples, minValue, maxValue := samples0, minValue0, maxValue0;
      adjustPoints, steps, levels := 4, 4, 3;
      correctnessImprovement, bestMedian := Some(0.0), 0.0;
    }

    function ProblemOf(error: (seq<real>, seq<real>) -> real, test: (seq<real>, seq<real>) -> seq<real>): Problem
      reads this
    {
      Problem(samples, minValue, maxValue, adjustPoints, steps, test, error)
    }

    /** `findSpline(errorFunction, testFunction)`. */
    method FindSpline(error: (seq<real>, seq<real>) -> real, test: (seq<real>, seq<real>) -> seq<real>)
      returns (r: Result<Splines.CubicSpline>)
      requires WellFormed(ProblemOf(error, test))
      modifies this
      ensures adjustPoints == old(adjustPoints) && steps == old(steps) && levels == old(levels)
      ensures var s := Search(ProblemOf(error, test), levels);
              match s
              case Failure(e) =>
                r == Failure(e) && bestMedian == old(bestMedian) && correctnessImprovement == old(correctnessImprovement)
              case Success(o) =>
                r.Success? && fresh(r.value) && r.value.Valid() &&
                r.value.x == o.knots && r.value.y == o.values &&
                bestMedian == o.bestMedian && correctnessImprovement == o.improvement
    {
      var p := ProblemOf(error, test);
      var initialError := FindInitialError(p);
      var lastLevel := if levels < 0 then 0 else levels;
      var smallestError, selectedSampleIndex, bestHistogram, bestPoints := RunLevels(p, lastLevel);
      if bestHistogram == None {
        return Failure(NullDereference);
      }
      var hist := bestHistogram.value;
      LevelsHistograms(p, lastLevel);
      bestMedian := MedianValue(HistogramData(0.0, 1.0, hist), 0.5);
      correctnessImprovement := Improvement(initialError, smallestError);
      var keyPoints := KeyPoints(minValue, maxValue, adjustPoints);
      KeyPointsIncreasing(minValue, maxValue, adjustPoints);
      var spline := new Splines.CubicSpline(keyPoints, SplineValues(minValue, maxValue, bestPoints));
      r := Success(spline);
    }
  }

  /** The level loop of `findSpline`: levels 1 .. lastLevel over the arrays
      `bestPoints` and `nextBestPoints`, both starting at the interior knots. */
  method RunLevels(p: Problem, lastLevel: nat)
    returns (smallestError: real, selectedSampleIndex: int, bestHistogram: Option<seq<real>>, best: seq<real>)
    requires p.steps != 1
    ensures var s := LevelsUpTo(p, lastLevel);
            s.0.smallestError == smallestError && s.0.selected == selectedSampleIndex &&
            s.0.bestHistogram == bestHistogram && s.1 == best
  {
    selectedSampleIndex := 0;
    bestHistogram := None;
    var keyPoints := KeyPoints(p.minValue, p.maxValue, p.adjustPoints);
    var n := p.adjustPoints;
    var bestPoints := new real[n](i requires 0 <= i < n => keyPoints[i + 1]);
    var nextBestPoints := new real[n](i requires 0 <= i < n => keyPoints[i + 1]);
    smallestError := DoubleMax;
    assert bestPoints[..] == InteriorKnots(p.minValue, p.maxValue, p.adjustPoints);
    assert nextBestPoints[..] == InteriorKnots(p.minValue, p.maxValue, p.adjustPoints);
    for level := 1 to lastLevel + 1
      modifies bestPoints, nextBestPoints
      invariant var s := LevelsUpTo(p, level - 1);
                s.0 == SearchState(smallestError, selectedSampleIndex, bestHistogram, nextBestPoints[..]) &&
                s.1 == bestPoints[..]
    {
      smallestError, selectedSampleIndex, bestHistogram :=
        SearchLevel(p, bestPoints, nextBestPoints, level, smallestError, selectedSampleIndex, bestHistogram);
      CopyInto(nextBestPoints[..], bestPoints);
    }
    assert lastLevel + 1 - 1 == lastLevel;
    best := bestPoints[..];
  }

  /** The candidate loop of one level of `findSpline`: every variant around
      `bestPoints`, with `nextBestPoints` taking each improvement. */
  method SearchLevel(p: Problem, bestPoints: array<real>, nextBestPoints: array<real>, level: nat,
                     smallestError0: real, selected0: int, bestHistogram0: Option<seq<real>>)
    returns (smallestError: real, selected: int, bestHistogram: Option<seq<real>>)
    requires level >= 1 && p.steps != 1 && bestPoints != nextBestPoints
    requires bestPoints.Length == nextBestPoints.Length == p.adjustPoints
    modifies nextBestPoints
    ensures ScanLevel(p, bestPoints[..], level,
                      SearchState(smallestError0, selected0, bestHistogram0, old(nextBestPoints[..])), Candidates(p))
            == SearchState(smallestError, selected, bestHistogram, nextBestPoints[..])
  {
    ghost var best := bestPoints[..];
    ghost var st0 := SearchState(smallestError0, selected0, bestHistogram0, nextBestPoints[..]);
    CandidatesDefined(p, best);
    smallestError, selected, bestHistogram := smallestError0, selected0, bestHistogram0;
    var count := Pow(p.steps, p.adjustPoints);
    for variant := 0 to count
      modifies nextBestPoints
      invariant ScanLevel(p, best, level, st0, variant)
                == SearchState(smallestError, selected, bestHistogram, nextBestPoints[..])
    {
      ScanLevelStep(p, best, level, st0, variant);
      smallestError, selected, bestHistogram :=
        TryVariant(p, bestPoints, nextBestPoints, level, variant, smallestError, selected, bestHistogram);
    }
  }

  lemma ScanLevelStep(p: Problem, best: seq<real>, level: nat, st: SearchState, count: nat)
    requires level >= 1 && (p.steps >= 2 || best == [])
    ensures ScanLevel(p, best, level, st, count + 1) == Step(p, best, level, ScanLevel(p, best, level, st, count), count)
  {
  }

  /** The body of the candidate loop: candidate `variant` tried. */
  method TryVariant(p: Problem, bestPoints: array<real>, nextBestPoints: array<real>, level: nat, variant: nat,
                    smallestError0: real, selected0: int, bestHistogram0: Option<seq<real>>)
    returns (smallestError: real, selected: int, bestHistogram: Option<seq<real>>)
    requires level >= 1 && (p.steps >= 2 || bestPoints.Length == 0) && bestPoints != nextBestPoints
    requires bestPoints.Length == nextBestPoints.Length == p.adjustPoints
    modifies nextBestPoints
    ensures Step(p, bestPoints[..], level, SearchState(smallestError0, selected0, bestHistogram0, old(nextBestPoints[..])), variant)
            == SearchState(smallestError, selected, bestHistogram, nextBestPoints[..])
  {
    var range := Range(p.minValue, p.maxValue, p.adjustPoints);
    var keyPoints := KeyPoints(p.minValue, p.maxValue, p.adjustPoints);
    smallestError, selected, bestHistogram := smallestError0, selected0, bestHistogram0;
    var points := GetVariant(bestPoints[..], HalfWidth(range, level), p.steps, variant);
    var splinePoints := SplineValues(p.minValue, p.maxValue, points);
    var testHistogram := p.test(keyPoints, splinePoints);
    var errors := Errors(p, testHistogram);
    var minError := MinError(errors);
    if minError < smallestError {
      CopyInto(points, nextBestPoints);
      smallestError := minError;
      selected := if errors == [] then -1 else IndexOf(errors, minError);
      bestHistogram := Some(testHistogram);
    }
  }

  /** `src.indices.forEach { dst[it] = src[it] }`. */
  method CopyInto(src: seq<real>, dst: array<real>)
    requires |src| == dst.Length
    modifies dst
    ensures dst[..] == src
  {
    for i := 0 to |src|
      invariant dst[..i] == src[..i]
    {
      dst[i] := src[i];
    }
  }

  /** `findInitialError`. */
  method FindInitialError(p: Problem) returns (e: real)
    ensures e == InitialError(p)
  {
    var hist := p.test([p.minValue, p.maxValue], [p.minValue, p.maxValue]);
    var errors := Errors(p, hist);
    e := if errors == [] then 0.0 else Min(errors);
  }
}
