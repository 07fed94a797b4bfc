/** ZonalFilter.kt, `zonalFilter`: every pixel is scaled so that its zonal
    luminance (the Gaussian blend of the zone luminances around it) moves
    towards the average zone luminance by an amount a spline gives. The
    spline is either given, or searched for on a reduced copy of the image,
    scoring each candidate by how the spread of its zone luminances about
    their average compares with the collected zone samples. */
module ZonalFilter {
  import opened Wrappers
  import opened Rasters
  import opened RealSeqs
  import opened Variants
  import opened Zones
  import Adjuster
  import Grouping
  import Splines
  import ReduceSize

  /** `buildZones` in this file divides the larger side by 16. */
  const Divisor: nat := 16

  /** The search runs on the image reduced to fit in 384 x 384. */
  const ReducedSize: nat := 384

  /** `zonesLums.average()`. The zones of an empty raster are empty, and
      then no pixel ever asks for the average, so the value for `[]` is
      never observed. */
  function Average(lums: seq<real>): real
  {
    if lums == [] then 0.0 else Mean(lums)
  }

  /** The factor of a pixel whose zonal luminance is `zonal`: the distance
      from the average is replaced by the spline's value at its size, with
      its sign kept. */
  function Correction(zonal: real, average: real, spline: SplineCurve): real
    requires zonal >= 0.0
  {
    var diff := zonal - average;
    var corrected := Splines.SplineAt(spline.knots, spline.values, Abs(diff)) * (if diff < 0.0 then -1.0 else 1.0);
    (average + corrected + 1.0) / (zonal + 1.0)
  }

  /** An identity spline leaves every pixel's factor at 1. */
  lemma CorrectionOfIdentity(zonal: real, average: real, knots: seq<real>)
    requires zonal >= 0.0 && Splines.StrictlyIncreasing(knots) && |knots| >= 2
    ensures Correction(zonal, average, SplineCurve(knots, knots)) == 1.0
  {
    var diff := zonal - average;
    Splines.SplineAtIdentity(knots, Abs(diff));
    UnitFactor(zonal, average, Splines.SplineAt(knots, knots, Abs(diff)));
  }

  lemma UnitFactor(zonal: real, average: real, v: real)
    requires zonal >= 0.0 && v == Abs(zonal - average)
    ensures (average + v * (if zonal - average < 0.0 then -1.0 else 1.0) + 1.0) / (zonal + 1.0) == 1.0
  {
    assert average + v * (if zonal - average < 0.0 then -1.0 else 1.0) + 1.0 == zonal + 1.0;
  }

  /** What the pixel generator needs of its zones. */
  predicate ZonesFor(z: ZonesData, width: nat, height: nat)
  {
    GridOf(z, width, height) && forall k :: 0 <= k < |z.zonesLums| ==> z.zonesLums[k] >= 0.0
  }

  /** The generator's pixel `it` of a `width`-wide raster: `pixels[it]`
      multiplied by the factor of the zonal luminance at (it % width, it / width). */
  function ZonalPixel(pixels: seq<RGB>, width: nat, height: nat, z: ZonesData, average: real, spline: SplineCurve,
                      exp: real -> real, it: nat): RGB
    requires ZonesFor(z, width, height) && IsExp(exp) && it < width * height && it < |pixels|
  {
    IndexToPixel(width, height, it);
    PixelInGrid(z, width, height, it % width, it / width);
    ZoneValueNonNegative(z, it % width, it / width, exp);
    pixels[it].Multiply(Correction(ZoneValue(z, it % width, it / width, exp), average, spline))
  }

  /** `HDRRaster(width, height) { ... pixels[it].multiply(factor) }`. */
  function CorrectedRaster(pixels: seq<RGB>, width: nat, height: nat, z: ZonesData, average: real, spline: SplineCurve,
                           exp: real -> real): (r: HDRRaster)
    requires ZonesFor(z, width, height) && IsExp(exp) && width * height <= |pixels|
    ensures r.Valid() && r.width == width && r.height == height
  {
    MakeRaster(width, height, (it: nat) requires it < width * height => ZonalPixel(pixels, width, height, z, average, spline, exp, it))
  }

  /** With an identity spline the generator gives back the pixels it reads. */
  lemma CorrectedRasterOfIdentity(pixels: seq<RGB>, width: nat, height: nat, z: ZonesData, average: real,
                                  knots: seq<real>, exp: real -> real)
    requires ZonesFor(z, width, height) && IsExp(exp) && width * height <= |pixels|
    requires Splines.StrictlyIncreasing(knots) && |knots| >= 2
    requires forall i :: 0 <= i < width * height ==> pixels[i].InByteRange()
    ensures var r := CorrectedRaster(pixels, width, height, z, average, SplineCurve(knots, knots), exp);
            forall i :: 0 <= i < width * height ==> r.data[i] == pixels[i]
  {
    forall it: nat | it < width * height
      ensures ZonalPixel(pixels, width, height, z, average, SplineCurve(knots, knots), exp, it) == pixels[it]
    {
      IndexToPixel(width, height, it);
      PixelInGrid(z, width, height, it % width, it / width);
      ZoneValueNonNegative(z, it % width, it / width, exp);
      CorrectionOfIdentity(ZoneValue(z, it % width, it / width, exp), average, knots);
      MultiplyByOne(pixels[it]);
    }
  }

  // ---- the search's test function ----

  /** The test image of a candidate spline: the reduced image corrected with
      the reduced image's zones. */
  function TestRaster(reduced: HDRRaster, z: ZonesData, average: real, spline: SplineCurve, exp: real -> real): (r: HDRRaster)
    requires reduced.Valid() && ZonesFor(z, reduced.width, reduced.height) && IsExp(exp)
    ensures r.Valid() && r.width == reduced.width && r.height == reduced.height
  {
    CorrectedRaster(reduced.data, reduced.width, reduced.height, z, average, spline, exp)
  }

  /** The test image as ZonalFilter.kt:33 writes it: the pixels are read from
      the full-size source at the reduced image's indices. */
  function AsWrittenTestRaster(source: HDRRaster, reduced: HDRRaster, z: ZonesData, average: real, spline: SplineCurve,
                               exp: real -> real): (r: HDRRaster)
    requires reduced.width * reduced.height <= |source.data|
    requires ZonesFor(z, reduced.width, reduced.height) && IsExp(exp)
    ensures r.Valid() && r.width == reduced.width && r.height == reduced.height
  {
    CorrectedRaster(source.data, reduced.width, reduced.height, z, average, spline, exp)
  }

  /** With the identity spline the test image is the reduced image itself. */
  lemma TestRasterOfIdentity(reduced: HDRRaster, z: ZonesData, average: real, knots: seq<real>, exp: real -> real)
    requires reduced.Valid() && ZonesFor(z, reduced.width, reduced.height) && IsExp(exp)
    requires Splines.StrictlyIncreasing(knots) && |knots| >= 2
    ensures TestRaster(reduced, z, average, SplineCurve(knots, knots), exp) == reduced
  {
    CorrectedRasterOfIdentity(reduced.data, reduced.width, reduced.height, z, average, knots, exp);
    var r := TestRaster(reduced, z, average, SplineCurve(knots, knots), exp);
    assert r.data == reduced.data;
  }

  /** The histogram the test function returns: the spread of the test
      image's zone luminances about their average. The test image has the
      reduced image's size, so its zones exist whenever the reduced image's do. */
  function TestHistogram(reduced: HDRRaster, z: ZonesData, average: real, spline: SplineCurve,
                         sqrt: real -> real, exp: real -> real): (h: seq<real>)
    requires reduced.Valid() && ZonesFor(z, reduced.width, reduced.height) && IsSqrt(sqrt) && IsExp(exp)
    requires reduced.width >= Divisor || reduced.height >= Divisor
    ensures |h| == 128 && forall j :: 0 <= j < 128 ==> h[j] >= 0.0
  {
    var result := TestRaster(reduced, z, average, spline, exp);
    BuildZonesShape(result, Divisor, sqrt, 0, 0);
    SpreadHistogram(BuildZonesWith(result, Divisor, sqrt).value.zonesLums)
  }

  /** `evalArraysDiffM` as the search's error function. Every histogram the
      search compares has 128 entries, so the guard never fails. */
  function DiffM(test: seq<real>, sample: seq<real>): real
  {
    if |test| != 1 && |sample| != 1 then Grouping.ArraysDiffM(test, sample) else 0.0
  }

  /** The `SplineAdjuster(samples, 0.0, 128.0)` with 3 adjust points and 3
      steps, and its test and error functions. */
  function SearchProblem(samples: seq<seq<real>>, reduced: HDRRaster, z: ZonesData, average: real,
                         sqrt: real -> real, exp: real -> real): (p: Adjuster.Problem)
    requires reduced.Valid() && ZonesFor(z, reduced.width, reduced.height) && IsSqrt(sqrt) && IsExp(exp)
    requires reduced.width >= Divisor || reduced.height >= Divisor
    ensures p.samples == samples && p.minValue == 0.0 && p.maxValue == 128.0 && p.adjustPoints == 3 && p.steps == 3
    ensures forall knots, values :: p.test(knots, values) == TestHistogram(reduced, z, average, SplineCurve(knots, values), sqrt, exp)
    ensures Adjuster.WellFormed(p)
  {
    Adjuster.Problem(samples, 0.0, 128.0, 3, 3,
      (knots, values) => TestHistogram(reduced, z, average, SplineCurve(knots, values), sqrt, exp),
      DiffM)
  }

  /** The histogram of the test function as ZonalFilter.kt:33 writes it: that
      of the test image read from the full-size source. */
  function AsWrittenTestHistogram(source: HDRRaster, reduced: HDRRaster, z: ZonesData, average: real, spline: SplineCurve,
                                  sqrt: real -> real, exp: real -> real): (h: seq<real>)
    requires reduced.width * reduced.height <= |source.data|
    requires ZonesFor(z, reduced.width, reduced.height) && IsSqrt(sqrt) && IsExp(exp)
    requires reduced.width >= Divisor || reduced.height >= Divisor
    ensures |h| == 128 && forall j :: 0 <= j < 128 ==> h[j] >= 0.0
  {
    var result := AsWrittenTestRaster(source, reduced, z, average, spline, exp);
    BuildZonesShape(result, Divisor, sqrt, 0, 0);
    SpreadHistogram(BuildZonesWith(result, Divisor, sqrt).value.zonesLums)
  }

  /** The search of ZonalFilter.kt:19-38 as written, testing each spline on
      the test image read from `source`. */
  function AsWrittenSearchProblem(samples: seq<seq<real>>, source: HDRRaster, reduced: HDRRaster, z: ZonesData, average: real,
                                  sqrt: real -> real, exp: real -> real): (p: Adjuster.Problem)
    requires reduced.width * reduced.height <= |source.data|
    requires ZonesFor(z, reduced.width, reduced.height) && IsSqrt(sqrt) && IsExp(exp)
    requires reduced.width >= Divisor || reduced.height >= Divisor
    ensures p.samples == samples && p.minValue == 0.0 && p.maxValue == 128.0 && p.adjustPoints == 3 && p.steps == 3
    ensures forall knots, values :: p.test(knots, values) == AsWrittenTestHistogram(source, reduced, z, average, SplineCurve(knots, values), sqrt, exp)
    ensures Adjuster.WellFormed(p)
  {
    Adjuster.Problem(samples, 0.0, 128.0, 3, 3,
      (knots, values) => AsWrittenTestHistogram(source, reduced, z, average, SplineCurve(knots, values), sqrt, exp),
      DiffM)
  }

  /** A source that already fits in 384 x 384 is its own reduced image, and
      then the search as written and the corrected search test every spline
      alike: the two differ only on larger sources. */
  lemma AsWrittenSearchAgreesWhenFits(samples: seq<seq<real>>, source: HDRRaster, z: ZonesData, average: real,
                                      sqrt: real -> real, exp: real -> real)
    requires source.Valid() && source.width <= ReducedSize && source.height <= ReducedSize
    requires ZonesFor(z, source.width, source.height) && IsSqrt(sqrt) && IsExp(exp)
    requires source.width >= Divisor || source.height >= Divisor
    ensures ReduceSize.ReduceSizeOf(source, ReducedSize) == source
    ensures var p := SearchProblem(samples, source, z, average, sqrt, exp);
            var q := AsWrittenSearchProblem(samples, source, source, z, average, sqrt, exp);
            p.samples == q.samples && p.minValue == q.minValue && p.maxValue == q.maxValue &&
            p.adjustPoints == q.adjustPoints && p.steps == q.steps && p.error == q.error &&
            forall knots, values :: p.test(knots, values) == q.test(knots, values)
  {
    ReduceSize.ReduceSizeDimensions(source, ReducedSize);
  }

  /** The branch without a predefined spline: the samples of the diapason,
      the reduced image and its zones, then `findSpline` with 3 levels.
      Too small an image has no zones (DivisionByZero); no samples leave
      `bestHistogram` null (NullDereference). Each candidate is tested on
      the corrected test image. */
  function SearchSpline(zonesSamples: seq<seq<real>>, diapason: Diapason, source: HDRRaster,
                        sqrt: real -> real, exp: real -> real): Result<Fit>
    requires source.Valid() && IsSqrt(sqrt) && IsExp(exp)
  {
    var samples := DiapasonSamples(zonesSamples, diapason);
    ReduceSize.ReduceSizeDimensions(source, ReducedSize);
    var reduced := ReduceSize.ReduceSizeOf(source, ReducedSize);
    var reducedZones := BuildZonesWith(reduced, Divisor, sqrt);
    if reducedZones.Failure? then Failure(reducedZones.error)
    else
      BuildZonesShape(reduced, Divisor, sqrt, 0, 0);
      BuildZonesLums(reduced, Divisor, sqrt, 0.0);
      var z := reducedZones.value;
      FitOf(SearchProblem(samples, reduced, z, Average(z.zonesLums), sqrt, exp))
  }

  /** `zonalFilter(source, diapason, predefinedSpline)`, with the zone
      samples read at start-up passed in, searching with the corrected test
      image `TestRaster` where ZonalFilter.kt:33 reads the full-size source
      (`AsWrittenSearchProblem`); the two agree on sources that fit in
      384 x 384. */
  function ZonalFilterOf(source: HDRRaster, diapason: Diapason, predefined: Option<SplineCurve>,
                         zonesSamples: seq<seq<real>>, sqrt: real -> real, exp: real -> real): Result<FilterResult>
    requires source.Valid() && IsSqrt(sqrt) && IsExp(exp)
  {
    var fit := match predefined
      case Some(s) => Success(Fit(s, None, None))
      case None => SearchSpline(zonesSamples, diapason, source, sqrt, exp);
    if fit.Failure? then Failure(fit.error)
    else
      var zones := BuildZonesWith(source, Divisor, sqrt);
      if zones.Failure? then Failure(zones.error)
      else
        BuildZonesShape(source, Divisor, sqrt, 0, 0);
        BuildZonesLums(source, Divisor, sqrt, 0.0);
        var z := zones.value;
        var f := fit.value;
        Success(FilterResult(CorrectedRaster(source.data, source.width, source.height, z, Average(z.zonesLums), f.spline, exp),
                             f.spline, f.error, f.median))
  }

  /** `zonalFilter` step by step: `error` and `median` start null and are
      set only by the search. */
  method ZonalFilter(source: HDRRaster, diapason: Diapason, predefined: Option<SplineCurve>,
                     zonesSamples: seq<seq<real>>, sqrt: real -> real, exp: real -> real) returns (r: Result<FilterResult>)
    requires source.Valid() && IsSqrt(sqrt) && IsExp(exp)
    ensures r == ZonalFilterOf(source, diapason, predefined, zonesSamples, sqrt, exp)
  {
    var error: Option<real> := None;
    var median: Option<real> := None;
    var spline: SplineCurve;
    if predefined.None? {
      var fit := SearchSpline(zonesSamples, diapason, source, sqrt, exp);
      if fit.Failure? {
        return Failure(fit.error);
      }
      error, median := fit.value.error, fit.value.median;
      spline := fit.value.spline;
    } else {
      spline := predefined.value;
    }
    var zones := BuildZonesWith(source, Divisor, sqrt);
    if zones.Failure? {
      return Failure(zones.error);
    }
    BuildZonesShape(source, Divisor, sqrt, 0, 0);
    BuildZonesLums(source, Divisor, sqrt, 0.0);
    var averageLum := Average(zones.value.zonesLums);
    var raster := CorrectedRaster(source.data, source.width, source.height, zones.value, averageLum, spline, exp);
    r := Success(FilterResult(raster, spline, error, median));
  }

  // ---- properties ----

  /** An image below 16 pixels on both sides has no zones, and the filter
      fails with DivisionByZero; a result has the source's size. */
  lemma ZonalFilterShape(source: HDRRaster, diapason: Diapason, predefined: Option<SplineCurve>,
                         zonesSamples: seq<seq<real>>, sqrt: real -> real, exp: real -> real)
    requires source.Valid() && IsSqrt(sqrt) && IsExp(exp)
    ensures var r := ZonalFilterOf(source, diapason, predefined, zonesSamples, sqrt, exp);
            (source.width < Divisor && source.height < Divisor ==> r == Failure(DivisionByZero)) &&
            (r.Success? ==> r.value.raster.Valid() && r.value.raster.width == source.width && r.value.raster.height == source.height)
  {
    BuildZonesShape(source, Divisor, sqrt, 0, 0);
    if source.width < Divisor && source.height < Divisor {
      ReduceSize.ReducedLargerSide(source, ReducedSize, Divisor);
      ReduceSize.ReduceSizeDimensions(source, ReducedSize);
      BuildZonesShape(ReduceSize.ReduceSizeOf(source, ReducedSize), Divisor, sqrt, 0, 0);
    }
  }

  /** A predefined spline is applied when the image has zones, and returned
      with no error and no median. */
  lemma ZonalPredefined(source: HDRRaster, diapason: Diapason, spline: SplineCurve,
                        zonesSamples: seq<seq<real>>, sqrt: real -> real, exp: real -> real)
    requires source.Valid() && IsSqrt(sqrt) && IsExp(exp)
    ensures var r := ZonalFilterOf(source, diapason, Some(spline), zonesSamples, sqrt, exp);
            (r.Success? <==> source.width >= Divisor || source.height >= Divisor) &&
            (r.Success? ==> r.value.spline == spline && r.value.error == None && r.value.median == None)
  {
    BuildZonesShape(source, Divisor, sqrt, 0, 0);
  }

  /** Without a predefined spline, a diapason holding no sample makes the
      search fail. */
  lemma ZonalNoSamples(source: HDRRaster, diapason: Diapason, zonesSamples: seq<seq<real>>,
                       sqrt: real -> real, exp: real -> real)
    requires source.Valid() && IsSqrt(sqrt) && IsExp(exp)
    requires DiapasonSamples(zonesSamples, diapason) == []
    ensures ZonalFilterOf(source, diapason, None, zonesSamples, sqrt, exp).Failure?
  {
    ReduceSize.ReduceSizeDimensions(source, ReducedSize);
    BuildZonesShape(ReduceSize.ReduceSizeOf(source, ReducedSize), Divisor, sqrt, 0, 0);
  }

  /** A searched spline runs through 5 increasing knots, keeps its ends at 0
      and 128, and comes with the search's error and median. */
  lemma ZonalSearchOutcome(source: HDRRaster, diapason: Diapason, zonesSamples: seq<seq<real>>,
                           sqrt: real -> real, exp: real -> real)
    requires source.Valid() && IsSqrt(sqrt) && IsExp(exp)
    requires ZonalFilterOf(source, diapason, None, zonesSamples, sqrt, exp).Success?
    ensures var r := ZonalFilterOf(source, diapason, None, zonesSamples, sqrt, exp).value;
            Splines.StrictlyIncreasing(r.spline.knots) && |r.spline.knots| == |r.spline.values| == 5 &&
            r.spline.values[0] == 0.0 && r.spline.values[4] == 128.0 &&
            r.error.Some? && r.median.Some?
  {
    SearchSplineOutcome(source, diapason, zonesSamples, sqrt, exp);
  }

  lemma SearchSplineOutcome(source: HDRRaster, diapason: Diapason, zonesSamples: seq<seq<real>>,
                            sqrt: real -> real, exp: real -> real)
    requires source.Valid() && IsSqrt(sqrt) && IsExp(exp)
    ensures var f := SearchSpline(zonesSamples, diapason, source, sqrt, exp);
            f.Success? ==>
              Splines.StrictlyIncreasing(f.value.spline.knots) && |f.value.spline.knots| == |f.value.spline.values| == 5 &&
              f.value.spline.values[0] == 0.0 && f.value.spline.values[4] == 128.0 &&
              f.value.error.Some? && f.value.median.Some?
  {
    ReduceSize.ReduceSizeDimensions(source, ReducedSize);
    var reduced := ReduceSize.ReduceSizeOf(source, ReducedSize);
    BuildZonesShape(reduced, Divisor, sqrt, 0, 0);
  }

  /** A predefined identity spline returns the source unchanged. */
  lemma ZonalIdentity(source: HDRRaster, diapason: Diapason, knots: seq<real>, zonesSamples: seq<seq<real>>,
                      sqrt: real -> real, exp: real -> real)
    requires source.Valid() && IsSqrt(sqrt) && IsExp(exp)
    requires Splines.StrictlyIncreasing(knots) && |knots| >= 2
    requires source.width >= Divisor || source.height >= Divisor
    ensures ZonalFilterOf(source, diapason, Some(SplineCurve(knots, knots)), zonesSamples, sqrt, exp)
         == Success(FilterResult(source, SplineCurve(knots, knots), None, None))
  {
    BuildZonesShape(source, Divisor, sqrt, 0, 0);
    BuildZonesLums(source, Divisor, sqrt, 0.0);
    var z := BuildZonesWith(source, Divisor, sqrt).value;
    CorrectedRasterOfIdentity(source.data, source.width, source.height, z, Average(z.zonesLums), knots, exp);
    var r := CorrectedRaster(source.data, source.width, source.height, z, Average(z.zonesLums), SplineCurve(knots, knots), exp);
    assert r.data == source.data;
  }

  // ---- the test image reads the wrong raster ----

  const White: RGB := RGB(255.0, 255.0, 255.0)
  const Black: RGB := RGB(0.0, 0.0, 0.0)

  /** A 768 x 16 image whose top row is white and the rest black. */
  function TopRowImage(): (r: HDRRaster)
    ensures r.Valid() && r.width == 768 && r.height == 16
    ensures forall i :: 0 <= i < 768 ==> r.data[i] == White
    ensures forall i :: 768 <= i < |r.data| ==> r.data[i] == Black
  {
    MakeRaster(768, 16, (i: nat) => if i < 768 then White else Black)
  }

  /** Reduced to 384 x 8, pixel 384 (column 0 of row 1) averages source
      rows 2 to 4, which are black. */
  lemma ReducedTopRowImage()
    ensures var r := ReduceSize.ReduceSizeOf(TopRowImage(), ReducedSize);
            r.Valid() && r.width == 384 && r.height == 8 && r.data[384] == Black
  {
    var source := TopRowImage();
    ReduceSize.ReduceSizeDimensions(source, ReducedSize);
    HalvedSides(source);
    TopRowPixel(source);
  }

  lemma HalvedSides(source: HDRRaster)
    requires source.width == 768 && source.height == 16
    ensures ReduceSize.Scale(source, ReducedSize) == 0.5
    ensures ReduceSize.ReducedWidth(source, ReducedSize) == 384 && ReduceSize.ReducedHeight(source, ReducedSize) == 8
  {
    assert ReduceSize.Larger(source) == 768;
  }

  lemma TopRowPixel(source: HDRRaster)
    requires source == TopRowImage()
    ensures ReduceSize.ReducedWidth(source, ReducedSize) == 384 && ReduceSize.ReducedHeight(source, ReducedSize) == 8
    ensures ReduceSize.ReducedPixel(source, ReducedSize, 384) == Black
  {
    HalvedSides(source);
    HalvedPixel(source);
    TopRowBlackBelow(source);
    ReduceSize.AverageOfColourFrom(source, 2.0, 0.0, 2.0, Black);
  }

  lemma HalvedPixel(source: HDRRaster)
    requires source.Valid() && source.width == 768 && source.height == 16
    ensures ReduceSize.ReducedWidth(source, ReducedSize) == 384 && ReduceSize.ReducedHeight(source, ReducedSize) == 8
    ensures ReduceSize.AverageDefined(source, 2.0, 0.0, 2.0)
    ensures ReduceSize.ReducedPixel(source, ReducedSize, 384) == ReduceSize.SourceAverage(source, 2.0, 0.0, 2.0)
  {
    HalvedSides(source);
  }

  lemma TopRowBlackBelow(source: HDRRaster)
    requires source == TopRowImage()
    ensures ReduceSize.Floor(2.0) == 2 && ReduceSize.ColourFrom(source, 2, Black)
  {
  }

  /** On the 768 x 16 image the identity spline's test image should be the
      reduced image (and the corrected one is), but as written its pixel 384
      is source pixel (384, 0), which is white, where the reduced image is black. */
  lemma AsWrittenTestMisreads(source: HDRRaster, reduced: HDRRaster, z: ZonesData, average: real,
                              knots: seq<real>, exp: real -> real)
    requires source == TopRowImage() && reduced == ReduceSize.ReduceSizeOf(source, ReducedSize)
    requires ZonesFor(z, 384, 8) && IsExp(exp) && Splines.StrictlyIncreasing(knots) && |knots| >= 2
    ensures reduced.Valid() && reduced.width == 384 && reduced.height == 8 && reduced.data[384] == Black
    ensures TestRaster(reduced, z, average, SplineCurve(knots, knots), exp) == reduced
    ensures AsWrittenTestRaster(source, reduced, z, average, SplineCurve(knots, knots), exp).data[384] == White
  {
    ReducedTopRowImage();
    TestRasterOfIdentity(reduced, z, average, knots, exp);
    CorrectedRasterOfIdentity(source.data, 384, 8, z, average, knots, exp);
  }
}
