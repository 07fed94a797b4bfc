/** The luminance stage of LuminanceFilter.kt: a spline over [0, 255] is
    searched on the reduced image so that the luminance histogram of the
    corrected pixels fits the luminance samples, then every pixel is scaled
    by spline(l) / (l + 0.1). */
module LuminanceFilter {
  import opened Wrappers
  import opened Rasters
  import opened Variants
  import Adjuster
  import Grouping
  import Splines
  import ReduceSize
  import Histograms
  import RealSeqs

  /** The search runs on the image reduced to fit in 384 x 384. */
  const ReducedSize: nat := 384

  /** `luminance.samples` holds histograms of 256 buckets. */
  const Buckets: nat := 256

  /** `spline.interpolate(l) / (l + offset)` for the luminance `l` of `p`. */
  function Gain(p: RGB, spline: SplineCurve, sqrt: real -> real, offset: real): real
    requires IsSqrt(sqrt) && offset > 0.0
  {
    var l := p.Luminance(sqrt);
    Splines.SplineAt(spline.knots, spline.values, l) / (l + offset)
  }

  /** The luminances the search's test function puts in its histogram: each
      reduced pixel scaled by spline(l) / (l + 1.0), without a clamp. */
  function TestLuminances(reduced: HDRRaster, spline: SplineCurve, sqrt: real -> real): (s: seq<real>)
    requires IsSqrt(sqrt)
    ensures |s| == |reduced.data|
    ensures forall i :: 0 <= i < |s| ==> s[i] >= 0.0
  {
    seq(|reduced.data|, i requires 0 <= i < |reduced.data| =>
      reduced.data[i].Multiply(Gain(reduced.data[i], spline, sqrt, 1.0)).Luminance(sqrt))
  }

  /** The test function: the histogram over [0, 255] in 256 buckets of the
      corrected luminances. It is a distribution: non-negative entries of
      total mass at most 1. */
  function TestHistogram(reduced: HDRRaster, spline: SplineCurve, sqrt: real -> real): (h: seq<real>)
    requires IsSqrt(sqrt)
    ensures |h| == Buckets
    ensures forall j :: 0 <= j < |h| ==> h[j] >= 0.0
    ensures RealSeqs.Sum(h) <= 1.0
  {
    var values := TestLuminances(reduced, spline, sqrt);
    Histograms.BucketsNonNegative(0.0, 255.0, Buckets, values);
    Histograms.HistogramMass(0.0, 255.0, Buckets, values);
    Histograms.HistogramOf(0.0, 255.0, Buckets, values).histogram
  }

  /** `evalArraysDiff` as the search's error function. Every sample has
      256 buckets, as every test histogram does, so the guard never fails. */
  function Diff(test: seq<real>, sample: seq<real>): real
  {
    if |test| <= |sample| then Grouping.ArraysDiff(test, sample) else 0.0
  }

  /** `SplineAdjuster(samples, 0.0, 255.0)` with its default 4 adjust points
      and 4 steps, and the test and error functions. */
  function SearchProblem(samples: seq<seq<real>>, reduced: HDRRaster, sqrt: real -> real): (p: Adjuster.Problem)
    requires IsSqrt(sqrt)
    ensures p.samples == samples && p.minValue == 0.0 && p.maxValue == 255.0 && p.adjustPoints == 4 && p.steps == 4
    ensures forall knots, values :: p.test(knots, values) == TestHistogram(reduced, SplineCurve(knots, values), sqrt)
    ensures forall test, sample :: |test| <= |sample| ==> p.error(test, sample) == Grouping.ArraysDiff(test, sample)
    ensures Adjuster.WellFormed(p)
  {
    Adjuster.Problem(samples, 0.0, 255.0, 4, 4,
      (knots, values) => TestHistogram(reduced, SplineCurve(knots, values), sqrt),
      Diff)
  }

  /** The branch without a predefined spline: the samples of the diapason,
      the reduced image, then `findSpline` with the default 3 levels. No
      samples leave `bestHistogram` null (NullDereference). */
  function SearchSpline(luminanceSamples: seq<seq<real>>, diapason: Diapason, source: HDRRaster,
                        sqrt: real -> real): (r: Result<Fit>)
    requires source.Valid() && IsSqrt(sqrt)
  {
    var samples := DiapasonSamples(luminanceSamples, diapason);
    var reduced := ReduceSize.ReduceSizeOf(source, ReducedSize);
    FitOf(SearchProblem(samples, reduced, sqrt))
  }

  /** The output: each source pixel scaled by spline(l) / (l + 0.1). */
  function CorrectedRaster(source: HDRRaster, spline: SplineCurve, sqrt: real -> real): (r: HDRRaster)
    requires source.Valid() && IsSqrt(sqrt)
    ensures r.Valid() && r.width == source.width && r.height == source.height
  {
    MakeRaster(source.width, source.height, (i: nat) requires i < |source.data| =>
      source.data[i].Multiply(Gain(source.data[i], spline, sqrt, 0.1)))
  }

  /** `luminanceFilter(source, diapason, predefinedSpline)`, with the samples
      read at start-up passed in. */
  function LuminanceFilterOf(source: HDRRaster, diapason: Diapason, predefined: Option<SplineCurve>,
                             luminanceSamples: seq<seq<real>>, sqrt: real -> real): Result<FilterResult>
    requires source.Valid() && IsSqrt(sqrt)
  {
    var fit := match predefined
      case Some(s) => Success(Fit(s, None, None))
      case None => SearchSpline(luminanceSamples, diapason, source, sqrt);
    if fit.Failure? then Failure(fit.error)
    else
      var f := fit.value;
      Success(FilterResult(CorrectedRaster(source, f.spline, sqrt), f.spline, f.error, f.median))
  }

  /** `luminanceFilter` step by step: `error` and `median` start null and
      are set only by the search. */
  method LuminanceFilter(source: HDRRaster, diapason: Diapason, predefined: Option<SplineCurve>,
                         luminanceSamples: seq<seq<real>>, sqrt: real -> real) returns (r: Result<FilterResult>)
    requires source.Valid() && IsSqrt(sqrt)
    ensures r == LuminanceFilterOf(source, diapason, predefined, luminanceSamples, sqrt)
  {
    var error: Option<real> := None;
    var median: Option<real> := None;
    var spline: SplineCurve;
    if predefined.None? {
      var fit := SearchSpline(luminanceSamples, diapason, source, sqrt);
      if fit.Failure? {
        return Failure(fit.error);
      }
      error, median := fit.value.error, fit.value.median;
      spline := fit.value.spline;
    } else {
      spline := predefined.value;
    }
    r := Success(FilterResult(CorrectedRaster(source, spline, sqrt), spline, error, median));
  }

  // ---- properties ----

  /** With a predefined spline nothing is searched: the result always
      exists, keeps that spline and carries no error and no median. */
  lemma LuminancePredefined(source: HDRRaster, diapason: Diapason, spline: SplineCurve,
                            luminanceSamples: seq<seq<real>>, sqrt: real -> real)
    requires source.Valid() && IsSqrt(sqrt)
    ensures LuminanceFilterOf(source, diapason, Some(spline), luminanceSamples, sqrt)
            == Success(FilterResult(CorrectedRaster(source, spline, sqrt), spline, None, None))
  {
  }

  /** Every result has the source's size, and its pixel `i` is source pixel
      `i` scaled by spline(l) / (l + 0.1), clamped into [0, 255]. */
  lemma LuminancePixels(source: HDRRaster, diapason: Diapason, predefined: Option<SplineCurve>,
                        luminanceSamples: seq<seq<real>>, sqrt: real -> real, i: nat)
    requires source.Valid() && IsSqrt(sqrt) && i < |source.data|
    requires LuminanceFilterOf(source, diapason, predefined, luminanceSamples, sqrt).Success?
    ensures var r := LuminanceFilterOf(source, diapason, predefined, luminanceSamples, sqrt).value;
            r.raster.Valid() && r.raster.width == source.width && r.raster.height == source.height &&
            r.raster.data[i] == ClampPixel(source.data[i].Multiply(Gain(source.data[i], r.spline, sqrt, 0.1)))
  {
  }

  /** The search sees exactly the samples from the diapason's start index
      up to its end index, in their order; ALL hands it every sample. */
  lemma LuminanceSearchSamples(source: HDRRaster, diapason: Diapason, luminanceSamples: seq<seq<real>>,
                               sqrt: real -> real)
    requires source.Valid() && IsSqrt(sqrt)
    ensures var n := |luminanceSamples|;
            var reduced := ReduceSize.ReduceSizeOf(source, ReducedSize);
            0 <= StartIndex(diapason, n) <= EndIndex(diapason, n) <= n &&
            SearchSpline(luminanceSamples, diapason, source, sqrt)
              == FitOf(SearchProblem(luminanceSamples[StartIndex(diapason, n)..EndIndex(diapason, n)], reduced, sqrt)) &&
            SearchSpline(luminanceSamples, All, source, sqrt) == FitOf(SearchProblem(luminanceSamples, reduced, sqrt))
  {
    DiapasonSamplesSlice(luminanceSamples, diapason);
  }

  /** Without a predefined spline, a diapason holding no sample makes the
      search fail. */
  lemma LuminanceNoSamples(source: HDRRaster, diapason: Diapason, luminanceSamples: seq<seq<real>>,
                           sqrt: real -> real)
    requires source.Valid() && IsSqrt(sqrt)
    requires DiapasonSamples(luminanceSamples, diapason) == []
    ensures LuminanceFilterOf(source, diapason, None, luminanceSamples, sqrt) == Failure(NullDereference)
  {
    var reduced := ReduceSize.ReduceSizeOf(source, ReducedSize);
    var p := SearchProblem([], reduced, sqrt);
    Adjuster.SearchFails(p, 3);
    NoSamplesError(p);
  }

  /** A search without samples fails on `bestHistogram!!`. */
  lemma NoSamplesError(p: Adjuster.Problem)
    requires Adjuster.WellFormed(p) && p.samples == []
    ensures FitOf(p) == Failure(NullDereference)
  {
    Adjuster.SearchFails(p, 3);
  }

  /** A searched spline runs through 6 increasing knots, keeps its ends at 0
      and 255, and comes with the search's error and median. */
  lemma LuminanceSearchOutcome(source: HDRRaster, diapason: Diapason, luminanceSamples: seq<seq<real>>,
                               sqrt: real -> real)
    requires source.Valid() && IsSqrt(sqrt)
    requires LuminanceFilterOf(source, diapason, None, luminanceSamples, sqrt).Success?
    ensures var r := LuminanceFilterOf(source, diapason, None, luminanceSamples, sqrt).value;
            Splines.StrictlyIncreasing(r.spline.knots) && |r.spline.knots| == |r.spline.values| == 6 &&
            r.spline.values[0] == 0.0 && r.spline.values[5] == 255.0 &&
            r.error.Some? && r.median.Some?
  {
  }

  /** Every channel of `q` is at most that of `p`. */
  predicate ChannelsAtMost(q: RGB, p: RGB)
  {
    q.r <= p.r && q.g <= p.g && q.b <= p.b
  }

  /** With the identity spline the gain of a pixel of luminance `l` is
      l / (l + 0.1): every channel shrinks a little and none leaves
      [0, 255], so the raster's clamp changes nothing. */
  lemma IdentityDarkens(source: HDRRaster, knots: seq<real>, sqrt: real -> real, i: nat)
    requires source.Valid() && IsSqrt(sqrt) && i < |source.data|
    requires Splines.StrictlyIncreasing(knots) && |knots| >= 2
    ensures 0.0 <= Gain(source.data[i], SplineCurve(knots, knots), sqrt, 0.1) < 1.0
    ensures CorrectedRaster(source, SplineCurve(knots, knots), sqrt).data[i]
            == source.data[i].Multiply(Gain(source.data[i], SplineCurve(knots, knots), sqrt, 0.1))
    ensures ChannelsAtMost(CorrectedRaster(source, SplineCurve(knots, knots), sqrt).data[i], source.data[i])
  {
    var p := source.data[i];
    var g := Gain(p, SplineCurve(knots, knots), sqrt, 0.1);
    IdentityGain(p, knots, sqrt);
    CorrectedPixel(source, SplineCurve(knots, knots), sqrt, i);
    ScaledPixel(p, g);
  }

  /** A pixel in [0, 255] scaled by a factor in [0, 1) stays in [0, 255]
      and darkens. */
  lemma ScaledPixel(p: RGB, factor: real)
    requires p.InByteRange() && 0.0 <= factor < 1.0
    ensures p.Multiply(factor).InByteRange() && ChannelsAtMost(p.Multiply(factor), p)
  {
    var q := p.Multiply(factor);
    ScaledDown(p.r, factor, q.r);
    ScaledDown(p.g, factor, q.g);
    ScaledDown(p.b, factor, q.b);
  }

  lemma CorrectedPixel(source: HDRRaster, spline: SplineCurve, sqrt: real -> real, i: nat)
    requires source.Valid() && IsSqrt(sqrt) && i < |source.data|
    ensures CorrectedRaster(source, spline, sqrt).data[i]
            == ClampPixel(source.data[i].Multiply(Gain(source.data[i], spline, sqrt, 0.1)))
  {
  }

  /** The identity spline's gain l / (l + 0.1) lies in [0, 1). */
  lemma IdentityGain(p: RGB, knots: seq<real>, sqrt: real -> real)
    requires IsSqrt(sqrt) && Splines.StrictlyIncreasing(knots) && |knots| >= 2
    ensures 0.0 <= Gain(p, SplineCurve(knots, knots), sqrt, 0.1) < 1.0
  {
    var l := p.Luminance(sqrt);
    Splines.SplineAtIdentity(knots, l);
    RatioBelowOne(l, 0.1);
  }

  lemma RatioBelowOne(l: real, offset: real)
    requires l >= 0.0 && offset > 0.0
    ensures 0.0 <= l / (l + offset) < 1.0
  {
  }

  lemma ScaledDown(c: real, factor: real, s: real)
    requires 0.0 <= c && 0.0 <= factor < 1.0 && s == factor * c
    ensures 0.0 <= s <= c
  {
    ProductBelow(c, factor);
  }

  lemma ProductBelow(c: real, factor: real)
    requires 0.0 <= c && 0.0 <= factor < 1.0
    ensures 0.0 <= factor * c <= c
  {
  }
}
