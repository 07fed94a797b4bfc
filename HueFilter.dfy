/** The hue stage of HueFilter.kt: the hue histogram of the image is
    rotated by every shift of less than a tenth of a turn either way, the
    first rotation closest to one of the hue samples wins, and every pixel's
    hue is turned by that many degrees. */
module Hue {
  import opened Wrappers
  import opened Rasters
  import opened RealSeqs
  import Histograms
  import Grouping
  import Adjuster

  /** `hsl` of a pixel: hue in degrees, saturation and lightness. */
  datatype HSL = HSL(h: real, s: real, l: real)

  /** Every sample has the width of the first; `deserializeSamples(..., 180)`
      reads them all 180 wide. */
  predicate SameWidth(samples: seq<seq<real>>)
  {
    forall k :: 0 <= k < |samples| ==> |samples[k]| == |samples[0]|
  }

  // ---- the shifted histogram ----

  /** `if (i < 0) i + size else if (i >= size) i - size else i`. */
  function WrapIndex(i: int, size: nat): int
  {
    if i < 0 then i + size else if i >= size then i - size else i
  }

  /** `shiftedHueHistogram`: entry `k` is bucket `k + shift`, wrapped once. */
  function Shifted(hist: seq<real>, shift: int): (s: seq<real>)
    requires -|hist| < shift < |hist|
    ensures |s| == |hist|
  {
    seq(|hist|, k requires 0 <= k < |hist| => hist[WrapIndex(k + shift, |hist|)])
  }

  /** A single wrap is the remainder modulo `size` for values in [-size, 2 size). */
  lemma WrapIsModulo(i: int, size: nat)
    requires size > 0 && 0 <= i + size && i < 2 * size
    ensures WrapIndex(i, size) == i % size
  {
    if i < 0 {
      assert i == (-1) * size + (i + size);
    } else if i >= size {
      assert i == 1 * size + (i - size);
    }
  }

  /** For |shift| below the size the shifted histogram is the cyclic
      rotation of the histogram by `shift`, so its total is preserved. */
  lemma ShiftedIsRotation(hist: seq<real>, shift: int)
    requires -|hist| < shift < |hist|
    ensures forall k :: 0 <= k < |hist| ==> Shifted(hist, shift)[k] == hist[(k + shift) % |hist|]
    ensures |hist| > 0 ==> Shifted(hist, shift) == hist[shift % |hist|..] + hist[..shift % |hist|]
    ensures Sum(Shifted(hist, shift)) == Sum(hist)
  {
    var n := |hist|;
    if n > 0 {
      ShiftedEntries(hist, shift);
      WrapIsModulo(shift, n);
      var m := if shift >= 0 then shift else shift + n;
      ShiftedSlices(hist, shift, m);
      RotationSum(hist, m);
    }
  }

  lemma ShiftedEntries(hist: seq<real>, shift: int)
    requires -|hist| < shift < |hist|
    ensures forall k :: 0 <= k < |hist| ==> Shifted(hist, shift)[k] == hist[(k + shift) % |hist|]
  {
    forall k | 0 <= k < |hist|
      ensures Shifted(hist, shift)[k] == hist[(k + shift) % |hist|]
    {
      WrapIsModulo(k + shift, |hist|);
    }
  }

  /** The shifted histogram starts at bucket `m`, the shift taken modulo the
      size, and wraps round to bucket 0. */
  lemma ShiftedSlices(hist: seq<real>, shift: int, m: nat)
    requires -|hist| < shift < |hist|
    requires m == if shift >= 0 then shift else shift + |hist|
    ensures m <= |hist| && Shifted(hist, shift) == hist[m..] + hist[..m]
  {
    var n := |hist|;
    var s := Shifted(hist, shift);
    var rot := hist[m..] + hist[..m];
    forall k | 0 <= k < n
      ensures s[k] == rot[k]
    {
      assert s[k] == hist[WrapIndex(k + shift, n)];
      if k < n - m {
        assert rot[k] == hist[m + k];
      } else {
        assert rot[k] == hist[k - (n - m)];
      }
    }
  }

  /** Rotating a list keeps its sum. */
  lemma RotationSum(hist: seq<real>, m: nat)
    requires m <= |hist|
    ensures Sum(hist[m..] + hist[..m]) == Sum(hist)
  {
    SumAppend(hist[m..], hist[..m]);
    SumAppend(hist[..m], hist[m..]);
    assert hist[..m] + hist[m..] == hist;
  }

  // ---- the shift search ----

  /** `-size / 36`: Kotlin's division truncates, and size is not negative. */
  function LowShift(size: nat): int
  {
    -(size / 36)
  }

  /** `(-size / 36 until size / 36)` holds this many shifts. */
  function ShiftCount(size: nat): nat
  {
    2 * (size / 36)
  }

  /** The shifts lo, ..., lo + count - 1 all lie strictly between -size and
      size. */
  predicate ShiftsInRange(size: nat, lo: int, count: nat)
  {
    count == 0 || (0 < lo + size && lo + count <= size)
  }

  lemma SearchedShiftsInRange(size: nat)
    ensures ShiftsInRange(size, LowShift(size), ShiftCount(size))
  {
  }

  /** What the search may take for granted about the samples. */
  predicate Comparable(hist: seq<real>, samples: seq<seq<real>>)
  {
    samples != [] && forall k :: 0 <= k < |samples| ==> |hist| <= |samples[k]|
  }

  /** `samples.map { evalArraysDiff(shiftedHueHistogram, it) }`. */
  function SampleDiffs(shifted: seq<real>, samples: seq<seq<real>>): (d: seq<real>)
    requires forall k :: 0 <= k < |samples| ==> |shifted| <= |samples[k]|
    ensures |d| == |samples|
    ensures forall k :: 0 <= k < |samples| ==> d[k] == Grouping.ArraysDiff(shifted, samples[k])
  {
    seq(|samples|, k requires 0 <= k < |samples| => Grouping.ArraysDiff(shifted, samples[k]))
  }

  /** `diff`: the distance from the shifted histogram to the closest sample
      (`min()!!`, which the samples being non-empty makes safe). */
  function ShiftDiff(hist: seq<real>, samples: seq<seq<real>>, shift: int): (d: real)
    requires Comparable(hist, samples) && -|hist| < shift < |hist|
  {
    Min(SampleDiffs(Shifted(hist, shift), samples))
  }

  /** The diff of a shift is the distance to some sample, and to no sample
      is the distance smaller. */
  lemma ShiftDiffIsClosest(hist: seq<real>, samples: seq<seq<real>>, shift: int)
    requires Comparable(hist, samples) && -|hist| < shift < |hist|
    ensures ShiftDiff(hist, samples, shift) >= 0.0
    ensures exists k :: 0 <= k < |samples| &&
                        ShiftDiff(hist, samples, shift) == Grouping.ArraysDiff(Shifted(hist, shift), samples[k])
    ensures forall k :: 0 <= k < |samples| ==>
                        ShiftDiff(hist, samples, shift) <= Grouping.ArraysDiff(Shifted(hist, shift), samples[k])
  {
    var ds := SampleDiffs(Shifted(hist, shift), samples);
    var k := IndexOf(ds, Min(ds));
    assert ds[k] == Min(ds);
  }

  /** The diffs of the shifts lo, ..., lo + count - 1, in the order tried. */
  function Diffs(hist: seq<real>, samples: seq<seq<real>>, lo: int, count: nat): (ds: seq<real>)
    requires Comparable(hist, samples) && ShiftsInRange(|hist|, lo, count)
    ensures |ds| == count
    ensures forall j :: 0 <= j < count ==> ds[j] == ShiftDiff(hist, samples, lo + j)
  {
    seq(count, j requires 0 <= j < count => ShiftDiff(hist, samples, lo + j))
  }

  /** `minDiff` and `bestShift`. */
  datatype Best = Best(minDiff: real, bestShift: real)

  /** `shift.toDouble() * 360.0 / size`. */
  function Degrees(shift: int, size: nat): real
    requires size > 0
  {
    shift as real * 360.0 / size as real
  }

  /** The angles of the shifts lo, ..., lo + count - 1, in the order tried. */
  function Angles(lo: int, count: nat, size: nat): (a: seq<real>)
    requires count == 0 || size > 0
    ensures |a| == count
    ensures forall s :: lo <= s < lo + count ==> a[s - lo] == Degrees(s, size)
  {
    seq(count, j requires 0 <= j < count => Degrees(lo + j, size))
  }

  /** The state after trying shifts whose diffs are `ds` and whose angles
      are `angles`: a shift replaces the best only when its diff is
      strictly smaller. */
  function ScanDiffs(ds: seq<real>, angles: seq<real>): Best
    requires |ds| <= |angles|
  {
    if ds == [] then Best(Adjuster.DoubleMax, 0.0)
    else
      var b := ScanDiffs(ds[..|ds| - 1], angles);
      var d := ds[|ds| - 1];
      if b.minDiff > d then Best(d, angles[|ds| - 1]) else b
  }

  /** The reference answer: the smallest diff, reached first at the shift
      that is returned; nothing below Double.MAX_VALUE keeps the starting
      state. */
  function FirstMinimum(ds: seq<real>, angles: seq<real>): Best
    requires |ds| <= |angles|
  {
    if ds == [] then Best(Adjuster.DoubleMax, 0.0)
    else
      var m := Min(ds);
      if m >= Adjuster.DoubleMax then Best(Adjuster.DoubleMax, 0.0)
      else Best(m, angles[IndexOf(ds, m)])
  }

  /** The search's strict comparison keeps the first of equally good
      shifts: it computes the reference answer. */
  lemma {:induction false} ScanIsFirstMinimum(ds: seq<real>, angles: seq<real>)
    requires |ds| <= |angles|
    ensures ScanDiffs(ds, angles) == FirstMinimum(ds, angles)
  {
    if ds != [] {
      var prev := ds[..|ds| - 1];
      var d := ds[|ds| - 1];
      assert ds == prev + [d];
      if prev == [] {
        assert ds == [d];
      } else {
        ScanIsFirstMinimum(prev, angles);
        var m := Min(prev);
        MinAppend(prev, d);
        if d < m {
          assert d !in prev;
          IndexOfAppend(prev, d, d);
        } else {
          assert m in prev;
          IndexOfAppend(prev, d, m);
        }
      }
    }
  }

  /** The search over lo, ..., lo + count - 1. */
  function Scan(hist: seq<real>, samples: seq<seq<real>>, lo: int, count: nat): Best
    requires Comparable(hist, samples) && ShiftsInRange(|hist|, lo, count)
  {
    ScanDiffs(Diffs(hist, samples, lo, count), Angles(lo, count, |hist|))
  }

  /** What the search returns, stated over the diffs: none is smaller
      than the result; below Double.MAX_VALUE the result is the diff at the
      returned shift and every earlier diff is strictly larger; otherwise
      the shift stays 0. */
  lemma ScanDiffsChoosesFirstMinimum(ds: seq<real>, angles: seq<real>)
    requires |ds| <= |angles|
    ensures var b := ScanDiffs(ds, angles);
            (forall j :: 0 <= j < |ds| ==> b.minDiff <= ds[j]) &&
            (b.minDiff < Adjuster.DoubleMax ==>
               exists j :: 0 <= j < |ds| && b.minDiff == ds[j] && b.bestShift == angles[j] &&
                           forall i :: 0 <= i < j ==> ds[i] > b.minDiff) &&
            (b.minDiff >= Adjuster.DoubleMax ==> b.minDiff == Adjuster.DoubleMax && b.bestShift == 0.0)
  {
    ScanIsFirstMinimum(ds, angles);
    if ds != [] {
      var m := Min(ds);
      if m < Adjuster.DoubleMax {
        var j := IndexOf(ds, m);
        assert ds[j] == m;
      }
    }
  }

  /** The same, stated over the shifts of the search. */
  lemma ScanChoosesFirstMinimum(hist: seq<real>, samples: seq<seq<real>>, lo: int, count: nat)
    requires Comparable(hist, samples) && ShiftsInRange(|hist|, lo, count)
    ensures var b := Scan(hist, samples, lo, count);
            (forall s :: lo <= s < lo + count ==> b.minDiff <= ShiftDiff(hist, samples, s)) &&
            (b.minDiff < Adjuster.DoubleMax ==>
               exists s :: lo <= s < lo + count && b.minDiff == ShiftDiff(hist, samples, s) &&
                           b.bestShift == Degrees(s, |hist|) &&
                           forall t :: lo <= t < s ==> ShiftDiff(hist, samples, t) > b.minDiff) &&
            (b.minDiff >= Adjuster.DoubleMax ==> b.minDiff == Adjuster.DoubleMax && b.bestShift == 0.0)
  {
    var ds := Diffs(hist, samples, lo, count);
    var angles := Angles(lo, count, |hist|);
    var b := ScanDiffs(ds, angles);
    ScanDiffsChoosesFirstMinimum(ds, angles);
    forall s | lo <= s < lo + count
      ensures b.minDiff <= ShiftDiff(hist, samples, s)
    {
      assert ds[s - lo] == ShiftDiff(hist, samples, s);
    }
    if b.minDiff < Adjuster.DoubleMax {
      var j :| 0 <= j < |ds| && b.minDiff == ds[j] && b.bestShift == angles[j] &&
               forall i :: 0 <= i < j ==> ds[i] > b.minDiff;
      forall t | lo <= t < lo + j
        ensures ShiftDiff(hist, samples, t) > b.minDiff
      {
        assert ds[t - lo] == ShiftDiff(hist, samples, t);
      }
      assert ds[j] == ShiftDiff(hist, samples, lo + j);
      assert angles[j] == Degrees(lo + j, |hist|);
    }
  }

  /** The loop over the shifts, `minDiff` and `bestShift` updated in place. */
  method BestShift(hist: seq<real>, samples: seq<seq<real>>) returns (minDiff: real, bestShift: real)
    requires Comparable(hist, samples)
    ensures Best(minDiff, bestShift) == Scan(hist, samples, LowShift(|hist|), ShiftCount(|hist|))
  {
    var size := |hist|;
    var lo := LowShift(size);
    ghost var ds := DiffsList(hist, samples, lo, ShiftCount(size));
    ghost var angles := AnglesList(lo, ShiftCount(size), size);
    minDiff := Adjuster.DoubleMax;
    bestShift := 0.0;
    var shift := lo;
    while shift < size / 36
      invariant lo <= shift <= size / 36
      invariant Best(minDiff, bestShift) == ScanDiffs(ds[..shift - lo], angles)
    {
      var diff := ShiftDiff(hist, samples, shift);
      ScanDiffsStep(ds, angles, shift - lo);
      if minDiff > diff {
        minDiff := diff;
        bestShift := Degrees(shift, size);
      }
      shift := shift + 1;
    }
    assert ds[..shift - lo] == ds;
  }

  /** The diffs of the search, known shift by shift. */
  lemma DiffsList(hist: seq<real>, samples: seq<seq<real>>, lo: int, count: nat) returns (ds: seq<real>)
    requires Comparable(hist, samples) && lo == LowShift(|hist|) && count == ShiftCount(|hist|)
    ensures |ds| == count && ShiftsInRange(|hist|, lo, count)
    ensures forall s :: lo <= s < lo + count ==> ds[s - lo] == ShiftDiff(hist, samples, s)
    ensures Scan(hist, samples, lo, count) == ScanDiffs(ds, Angles(lo, count, |hist|))
  {
    SearchedShiftsInRange(|hist|);
    ds := Diffs(hist, samples, lo, count);
    forall s | lo <= s < lo + count
      ensures ds[s - lo] == ShiftDiff(hist, samples, s)
    {
    }
  }

  /** The angles of the search, known shift by shift. */
  lemma AnglesList(lo: int, count: nat, size: nat) returns (angles: seq<real>)
    requires count == 0 || size > 0
    ensures angles == Angles(lo, count, size) && |angles| == count
    ensures forall s :: lo <= s < lo + count ==> angles[s - lo] == Degrees(s, size)
  {
    angles := Angles(lo, count, size);
  }

  /** One more diff scanned: it becomes the best exactly when it is
      strictly smaller than the best so far. */
  lemma ScanDiffsStep(ds: seq<real>, angles: seq<real>, k: nat)
    requires k < |ds| <= |angles|
    ensures var b := ScanDiffs(ds[..k], angles);
            ScanDiffs(ds[..k + 1], angles) == if b.minDiff > ds[k] then Best(ds[k], angles[k]) else b
  {
    assert ds[..k + 1][..k] == ds[..k];
  }

  /** A returned shift turns hues by at most 10 degrees either way. */
  lemma BestShiftBound(hist: seq<real>, samples: seq<seq<real>>)
    requires Comparable(hist, samples)
    ensures -10.0 <= Scan(hist, samples, LowShift(|hist|), ShiftCount(|hist|)).bestShift <= 10.0
  {
    var n := |hist|;
    var b := Scan(hist, samples, LowShift(n), ShiftCount(n));
    ScanChoosesFirstMinimum(hist, samples, LowShift(n), ShiftCount(n));
    if b.minDiff < Adjuster.DoubleMax {
      var s :| LowShift(n) <= s < LowShift(n) + ShiftCount(n) && b.bestShift == Degrees(s, n);
      DegreesBound(s, n);
    }
  }

  lemma DegreesBound(shift: int, size: nat)
    requires size > 0 && -(size / 36) <= shift <= size / 36
    ensures -10.0 <= Degrees(shift, size) <= 10.0
  {
    var q := size / 36;
    assert 36 * q <= size;
    assert -10 * size <= shift * 360 <= 10 * size;
    QuotientBound(shift as real * 360.0, size as real, 10.0);
  }

  lemma QuotientBound(x: real, y: real, c: real)
    requires y > 0.0 && -(c * y) <= x <= c * y
    ensures -c <= x / y <= c
  {
    assert x / y * y == x;
  }

  // ---- the corrected raster ----

  /** The wrap of the target hue: one turn added below 0, one taken off
      above 360. */
  function WrapHue(t: real): (w: real)
    ensures -360.0 <= t <= 720.0 ==> 0.0 <= w <= 360.0
    ensures 0.0 <= t <= 360.0 ==> w == t
    ensures w == t || w == t + 360.0 || w == t - 360.0
  {
    if t < 0.0 then t + 360.0 else if t > 360.0 then t - 360.0 else t
  }

  /** The hue of every pixel, in raster order. */
  function Hues(source: HDRRaster, hsl: RGB -> HSL): (hs: seq<real>)
    ensures |hs| == |source.data|
    ensures forall i :: 0 <= i < |source.data| ==> hs[i] == hsl(source.data[i]).h
  {
    seq(|source.data|, i requires 0 <= i < |source.data| => hsl(source.data[i]).h)
  }

  /** `hueHistogramData.histogram`: `size` buckets over [0, 360]. */
  function HueHistogram(source: HDRRaster, hsl: RGB -> HSL, size: nat): (h: seq<real>)
    ensures |h| == size
    ensures forall j :: 0 <= j < size ==> h[j] >= 0.0
    ensures Sum(h) <= 1.0
  {
    var h := Histograms.HistogramOf(0.0, 360.0, size, Hues(source, hsl)).histogram;
    Histograms.BucketsNonNegative(0.0, 360.0, size, Hues(source, hsl));
    Histograms.HistogramMass(0.0, 360.0, size, Hues(source, hsl));
    h
  }

  /** The shift chosen for `source`: the histogram is as wide as the
      first sample. */
  function ChosenShift(source: HDRRaster, samples: seq<seq<real>>, hsl: RGB -> HSL): (shift: real)
    requires samples != [] && SameWidth(samples)
    ensures -10.0 <= shift <= 10.0
  {
    var n := |samples[0]|;
    var hist := HueHistogram(source, hsl, n);
    BestShiftBound(hist, samples);
    Scan(hist, samples, LowShift(n), ShiftCount(n)).bestShift
  }

  /** Pixel `i` of the output before clamping: its hue turned by `shift`
      and wrapped, saturation and lightness kept. */
  function TurnedPixel(p: RGB, shift: real, hsl: RGB -> HSL, toRgb: HSL -> RGB): RGB
  {
    var c := hsl(p);
    toRgb(HSL(WrapHue(c.h + shift), c.s, c.l))
  }

  /** The output raster for a given shift. */
  function Turned(source: HDRRaster, shift: real, hsl: RGB -> HSL, toRgb: HSL -> RGB): (r: HDRRaster)
    requires source.Valid()
    ensures r.Valid() && r.width == source.width && r.height == source.height
    ensures forall i :: 0 <= i < |source.data| ==> r.data[i] == ClampPixel(TurnedPixel(source.data[i], shift, hsl, toRgb))
  {
    MakeRaster(source.width, source.height,
               (i: nat) requires i < |source.data| => TurnedPixel(source.data[i], shift, hsl, toRgb))
  }

  /** `hueFilter`, with the samples file read into `samples` and the colour
      conversions given as `hsl` and `toRgb`. */
  function HueFilterOf(source: HDRRaster, samples: seq<seq<real>>, hsl: RGB -> HSL, toRgb: HSL -> RGB): (r: Result<HDRRaster>)
    requires source.Valid() && SameWidth(samples)
    ensures r.Failure? <==> samples == []
    ensures r.Failure? ==> r.error == IndexOutOfBounds
    ensures r.Success? ==> r.value.Valid() && r.value.width == source.width && r.value.height == source.height
  {
    if samples == [] then Failure(IndexOutOfBounds)
    else Success(Turned(source, ChosenShift(source, samples, hsl), hsl, toRgb))
  }

  /** The filter as the source runs it: histogram, shift loop, raster. */
  method HueFilter(source: HDRRaster, samples: seq<seq<real>>, hsl: RGB -> HSL, toRgb: HSL -> RGB)
    returns (r: Result<HDRRaster>)
    requires source.Valid() && SameWidth(samples)
    ensures r == HueFilterOf(source, samples, hsl, toRgb)
  {
    if samples == [] {
      return Failure(IndexOutOfBounds);
    }
    var size := |samples[0]|;
    var hueHistogramData := Histograms.BuildHistogram(0.0, 360.0, size, Hues(source, hsl));
    var minDiff, bestShift := BestShift(hueHistogramData.histogram, samples);
    r := Success(Turned(source, bestShift, hsl, toRgb));
  }

  /** Every output pixel is the input pixel with its hue turned by the
      chosen shift, at most 10 degrees either way; a hue in [0, 360] stays
      in [0, 360] after the wrap. */
  lemma HuePixels(source: HDRRaster, samples: seq<seq<real>>, hsl: RGB -> HSL, toRgb: HSL -> RGB, i: nat)
    requires source.Valid() && SameWidth(samples) && samples != [] && i < |source.data|
    ensures var shift := ChosenShift(source, samples, hsl);
            var c := hsl(source.data[i]);
            HueFilterOf(source, samples, hsl, toRgb).value.data[i]
              == ClampPixel(toRgb(HSL(WrapHue(c.h + shift), c.s, c.l))) &&
            -10.0 <= shift <= 10.0 &&
            (0.0 <= c.h <= 360.0 ==> 0.0 <= WrapHue(c.h + shift) <= 360.0)
  {
  }

  /** No samples: `samples[0]` fails. */
  lemma HueNoSamples(source: HDRRaster, hsl: RGB -> HSL, toRgb: HSL -> RGB)
    requires source.Valid()
    ensures HueFilterOf(source, [], hsl, toRgb) == Failure(IndexOutOfBounds)
  {
  }
}
