# assur in Dafny

A model of the core of **assur**, an automatic tone-correction tool for photographs. Assur runs a photo through a chain of filters. Each filter first fits a curve to the photo and then applies it: cutoff, details, zonal, saturation, luminance and hue. For each stage the variant search tries the LOW, MID and HIGH parts of the collected reference corpus, and keeps at most 16 of the most promising variants. The model covers the pieces that this search is made of:

- **Rasters and histograms:** the clamping `HDRRaster` with its `RGB` helpers, and histogram building with the low / high / median threshold queries.
- **Curves:**
  - the natural cubic spline (its tridiagonal sweep and its binary-search evaluation);
  - the spline grid search, which decodes a candidate number into per-knot offsets and keeps the best curve found so far.
- **Corpora:** the sample and reference corpora, and the token stream they are serialised to. The Java object streams are seen only as the sequence of ints and doubles they carry.
- **Grouping:** the distances between sample histograms and the grouping of samples into references.
- **Zones and windows:**
  - the zone grid and the Gaussian zone blend of the zonal stage, with the zone averages of the sample collector;
  - the two blur windows, including the in-place scatter-add of `OptimizedWindow.apply`.
- **The filters themselves:** the cutoff, reduce-size, luminance, zonal and hue filters.
- **Variant bookkeeping:** diapasons, variant closeness, `filterVariants`, and the three-way expansion with its per-diapason caches.

The model is stated over these conventions:

- Kotlin `Double` and `Float` values are Dafny `real`s, so arithmetic is exact.
- `Math.sqrt` and `Math.exp` are function parameters (`sqrt`, `exp`), and the model assumes only what it needs about them: a non-negative root, a positive exponential. The RGB/HSL conversions used by the hue stage are parameters in the same way.
- A Kotlin `null` is `Option.None`.
- A quotient that would be not-a-number (0 / 0) is `None` where the source lets it flow on.
- An exception the source lets escape is a `Result.Failure` that names it. Examples are an index out of bounds, `!!` on null, a division by zero, the end of a stream, and a negative array size.
- Where the source works by loops over arrays or mutable variables, the model has a `method` with the same loop. That method is proved equal to a specification function, and the properties are proved about that function.

Each Kotlin file has its own module:

- `Assur.kt` is `Variants`.
- `SplineAdjuster.kt` is `Adjuster`.
- `Histogram.kt` is `Histograms`.
- `CubicSpline.kt` is `Splines`.
- `HDRRaster.kt` is `Rasters`.
- `Window.kt` is `Kernels`, `OptimizedWindows` and `StraightWindows`.
- `References.kt` and `Samples.kt` are `ReferenceCorpus` and `SampleCorpus`.
- `Grouping.kt` is `Grouping`, and `ZonesSamples.kt` is `ZonesSamples`.
- The filters are `Cutoff`, `ReduceSize`, `LuminanceFilter`, `ZonalFilter` and `Hue`. The zone grid they share is `Zones`.
- `Wrappers`, `RealSeqs` and `ObjectStreams` are helpers.

## Model

| member | source | states |
|---|---|---|
| Rasters.LuminanceOf | src/main/kotlin/me/shutkin/assur/HDRRaster.kt:68 | the luminance `sqrt(0.299 r² + 0.587 g² + 0.114 b²)` is never negative |
| Rasters.RGB.Min | src/main/kotlin/me/shutkin/assur/HDRRaster.kt:47 | `min` as written always returns one of the three channels |
| Rasters.RGB.Max | src/main/kotlin/me/shutkin/assur/HDRRaster.kt:48 | `max` as written always returns one of the three channels |
| Rasters.RGB.LeastChannel | src/main/kotlin/me/shutkin/assur/HDRRaster.kt:47 | the corrected `min`: a channel that is at most every channel |
| Rasters.RGB.GreatestChannel | src/main/kotlin/me/shutkin/assur/HDRRaster.kt:48 | the corrected `max`: a channel that is at least every channel |
| Rasters.MinIsLeastUnlessRedGreenTie | src/main/kotlin/me/shutkin/assur/HDRRaster.kt:47 | `min` is the least channel if and only if r and g do not tie below b |
| Rasters.MaxIsGreatestUnlessRedGreenTie | src/main/kotlin/me/shutkin/assur/HDRRaster.kt:48 | `max` is the greatest channel if and only if r and g do not tie above b |
| Rasters.MinTieCounterexample | src/main/kotlin/me/shutkin/assur/HDRRaster.kt:47 | for the pixel (1, 1, 2) `min` answers 2 while the least channel is 1 |
| Rasters.MaxTieCounterexample | src/main/kotlin/me/shutkin/assur/HDRRaster.kt:48 | for the pixel (2, 2, 1) `max` answers 1 while the greatest channel is 2 |
| Rasters.RGB.Luminance | src/main/kotlin/me/shutkin/assur/HDRRaster.kt:49 | a pixel's luminance is never negative |
| Rasters.RGB.Multiply | src/main/kotlin/me/shutkin/assur/HDRRaster.kt:51 | `multiply(f)` scales each channel by `f` |
| Rasters.MultiplyByOne | src/main/kotlin/me/shutkin/assur/HDRRaster.kt:51 | `multiply(1.0)` is the identity |
| Rasters.RGB.Saturation | src/main/kotlin/me/shutkin/assur/HDRRaster.kt:53-58 | `saturation` lies in [0, 1] |
| Rasters.RGB.AdjustSaturation | src/main/kotlin/me/shutkin/assur/HDRRaster.kt:60-65 | `adjustSaturation` keeps the channel average, and factor 1 is the identity |
| Rasters.ClampChannel | src/main/kotlin/me/shutkin/assur/HDRRaster.kt:12-14 | a clamped channel lies in [0, 255]; in-range channels are unchanged, below 0 gives 0, above 255 gives 255 |
| Rasters.ClampPixel | src/main/kotlin/me/shutkin/assur/HDRRaster.kt:11-15 | a clamped pixel is in byte range, and a pixel already in range is unchanged |
| Rasters.MakeRaster | src/main/kotlin/me/shutkin/assur/HDRRaster.kt:8-16 | the constructor yields width·height pixels, pixel i is `func(i)` clamped, in-range pixels are kept as they are |
| Rasters.PixelIndex | src/main/kotlin/me/shutkin/assur/HDRRaster.kt:9 | pixel (x, y) of the row-major array lies at `y·width + x`, inside the array |
| Rasters.IndexToPixel | src/main/kotlin/me/shutkin/assur/HDRRaster.kt:9 | index i is column `i % width` of row `i / width`, both in range |
| Rasters.LongToInt | src/main/kotlin/me/shutkin/assur/HDRRaster.kt:71 | `toInt()` of a Long lies in the 32-bit range and keeps values already in range |
| Rasters.RgbChannelToInt | src/main/kotlin/me/shutkin/assur/HDRRaster.kt:70-77 | `rgbChannelToInt` lies in [0, 255] and equals the rounded scaled channel when that is in [0, 255] |
| Rasters.SaveFactor | src/main/kotlin/me/shutkin/assur/HDRRaster.kt:32 | the save factor is positive; it maps the channel range onto 255, or is 255 when the range is at most 1 |
| Histograms.Trunc | src/main/kotlin/me/shutkin/assur/Histogram.kt:11 | `toInt()` truncates toward zero: floor for non-negative values, minus the floor of the negation otherwise |
| Histograms.Count | src/main/kotlin/me/shutkin/assur/Histogram.kt:10-14 | the number of samples in one bucket is at most the number of samples |
| Histograms.Kept | src/main/kotlin/me/shutkin/assur/Histogram.kt:12 | the number of samples that land in some bucket is at most the number of samples |
| Histograms.FracStep | src/main/kotlin/me/shutkin/assur/Histogram.kt:9-13 | one more sample in a bucket adds exactly `1 / dataSize` to it |
| Histograms.BuildHistogram | src/main/kotlin/me/shutkin/assur/Histogram.kt:7-16 | the loop yields the histogram whose bucket j is (samples with index j) / dataSize, with the given min and max and `precision` buckets |
| Histograms.CountAllInBucket | src/main/kotlin/me/shutkin/assur/Histogram.kt:10-14 | when every sample's index is j, bucket j counts all of them |
| Histograms.CountStep | src/main/kotlin/me/shutkin/assur/Histogram.kt:11-13 | one more sample raises the count of its own bucket by one and of no other bucket |
| Histograms.BucketsNonNegative | src/main/kotlin/me/shutkin/assur/Histogram.kt:8-14 | every bucket is at least 0 |
| Histograms.HistogramMass | src/main/kotlin/me/shutkin/assur/Histogram.kt:8-14 | the buckets sum to kept / dataSize, which is at most 1 |
| Histograms.MassOfPrefix | src/main/kotlin/me/shutkin/assur/Histogram.kt:10-14 | the bucket weights of a prefix of samples sum to its kept fraction |
| Histograms.FracAtMostOne | src/main/kotlin/me/shutkin/assur/Histogram.kt:9 | a share of kept samples lies in [0, 1], and is 1 when all are kept |
| Histograms.InRangeIsKept | src/main/kotlin/me/shutkin/assur/Histogram.kt:11-12 | a sample in [min, max] with min < max gets an index in [0, precision) |
| Histograms.AllInRangeAllKept | src/main/kotlin/me/shutkin/assur/Histogram.kt:10-14 | when every sample lies in [min, max], every sample is kept |
| Histograms.HistogramMassIsOne | src/main/kotlin/me/shutkin/assur/Histogram.kt:7-16 | with all samples in [min, max] and min < max, the buckets sum to exactly 1 |
| Histograms.IndexOfFirstAbove | src/main/kotlin/me/shutkin/assur/Histogram.kt:19 | `indexOfFirst`: the first bucket above the threshold, or -1 exactly when there is none |
| Histograms.IndexOfLastAbove | src/main/kotlin/me/shutkin/assur/Histogram.kt:22 | `indexOfLast`: the last bucket above the threshold, or -1 exactly when there is none |
| Histograms.ConvertEndpoints | src/main/kotlin/me/shutkin/assur/Histogram.kt:34-35 | `convertIndexToValue` maps bucket 0 to minValue and the last bucket to maxValue |
| Histograms.ConvertMonotone | src/main/kotlin/me/shutkin/assur/Histogram.kt:34-35 | `convertIndexToValue` is monotone in the index, with values in [minValue, maxValue] |
| Histograms.ScaledFractionBounds | src/main/kotlin/me/shutkin/assur/Histogram.kt:35 | the linear interpolation between the bounds is monotone and stays within the span |
| Histograms.LowValue | src/main/kotlin/me/shutkin/assur/Histogram.kt:18-19 | `getHistogramLowValue` is 0.0 when no bucket exceeds the threshold, else it is the value of the first bucket that does, within [min, max] |
| Histograms.HighValue | src/main/kotlin/me/shutkin/assur/Histogram.kt:21-22 | `getHistogramHighValue` is 0.0 when no bucket exceeds the threshold, else it is the value of the last bucket that does, within [min, max] |
| Histograms.LowNotAboveHigh | src/main/kotlin/me/shutkin/assur/Histogram.kt:18-22 | when some bucket exceeds the threshold, low ≤ high |
| Histograms.FirstPrefixAbove | src/main/kotlin/me/shutkin/assur/Histogram.kt:26-30 | the first index whose running sum exceeds the threshold, or -1 when there is none |
| Histograms.MedianValue | src/main/kotlin/me/shutkin/assur/Histogram.kt:24-32 | the running-sum loop with early return gives the value of the first index whose prefix sum exceeds the threshold, or (min + max) / 2 |
| Histograms.MedianMonotone | src/main/kotlin/me/shutkin/assur/Histogram.kt:25-30 | for thresholds t1 ≤ t2 whose medians are both found, median(t1) ≤ median(t2) |
| Histograms.PrefixSumsGrow | src/main/kotlin/me/shutkin/assur/Histogram.kt:26-28 | with non-negative buckets the running sum never decreases |
| Histograms.MedianFoundIffMassAbove | src/main/kotlin/me/shutkin/assur/Histogram.kt:26-31 | with non-negative buckets the median search finds an index if and only if the total exceeds the threshold |
| Splines.H | src/main/kotlin/me/shutkin/assur/CubicSpline.kt:24-25 | for increasing knots every segment width `hi` is positive |
| Splines.Pivot | src/main/kotlin/me/shutkin/assur/CubicSpline.kt:28 | the pivot `z = hi·alpha[i-1] + c` exceeds `2·hi1`, so it is never 0 |
| Splines.AlphaStep | src/main/kotlin/me/shutkin/assur/CubicSpline.kt:29 | `alpha[i] = -hi1 / z` stays in (-1/2, 0] |
| Splines.AlphaBound | src/main/kotlin/me/shutkin/assur/CubicSpline.kt:29 | with z > 2·hi1 > 0 the quotient `-hi1 / z` lies in (-1/2, 0] |
| Splines.Alpha | src/main/kotlin/me/shutkin/assur/CubicSpline.kt:21-31 | every `alpha[i]` of the forward sweep lies in (-1/2, 0] |
| Splines.NaturalSpline | src/main/kotlin/me/shutkin/assur/CubicSpline.kt:13-40 | the constructor leaves one tuple per knot |
| Splines.Segment | src/main/kotlin/me/shutkin/assur/CubicSpline.kt:47-55 | the segment the search settles on is the first knot at or after `v`, at least 1 |
| Splines.SegmentBracket | src/main/kotlin/me/shutkin/assur/CubicSpline.kt:49-55 | inside the knots the search picks segment j exactly when x[j-1] < v ≤ x[j] (or j = 1 and v ≤ x[1]) |
| Splines.IncreasingIsStrict | src/main/kotlin/me/shutkin/assur/CubicSpline.kt:24-25 | each knot above its predecessor is the same as all knots strictly increasing |
| Splines.AdjacentChain | src/main/kotlin/me/shutkin/assur/CubicSpline.kt:24-25 | knots increasing step by step are increasing between any two positions |
| Splines.SplineAt | src/main/kotlin/me/shutkin/assur/CubicSpline.kt:43-45 | `interpolate(v)` returns `v` outside [x[0], x[last]]; outside the modelled constructor's domain the model returns `v`, a case the source does not have |
| Splines.SplineAtKnot | src/main/kotlin/me/shutkin/assur/CubicSpline.kt:36-40 | the spline through (x, y) takes value y[k] at every knot x[k] |
| Splines.SplineAtIdentity | src/main/kotlin/me/shutkin/assur/CubicSpline.kt:23-40 | the spline through knots with y = x is the identity everywhere |
| Splines.CubicSpline.constructor | src/main/kotlin/me/shutkin/assur/CubicSpline.kt:12-41 | the constructor fills the tuple array with the natural spline of (x, y) |
| Splines.CubicSpline.Interpolate | src/main/kotlin/me/shutkin/assur/CubicSpline.kt:43-59 | the binary search and the segment's cubic give the spline's value at `v`, and `v` itself outside the knots |
| Splines.ForwardSweep | src/main/kotlin/me/shutkin/assur/CubicSpline.kt:19-31 | the forward loop fills `alpha` and `beta` with the sweep's coefficients |
| Splines.SweepStep | src/main/kotlin/me/shutkin/assur/CubicSpline.kt:24-30 | one row of the forward loop computes `alpha[i]` and `beta[i]` from the row before |
| Splines.SolveMoments | src/main/kotlin/me/shutkin/assur/CubicSpline.kt:16-34 | the first backward loop sets every `c` to the second derivative of the natural spline, 0 at both ends |
| Splines.SetSlopes | src/main/kotlin/me/shutkin/assur/CubicSpline.kt:36-40 | the last backward loop sets `d` and `b` of every segment |
| Splines.SweepRow | src/main/kotlin/me/shutkin/assur/CubicSpline.kt:26-34 | one row: if c[i-1] and c[i] come from the backward substitution, the tridiagonal row equation holds |
| Splines.MomentEquations | src/main/kotlin/me/shutkin/assur/CubicSpline.kt:16-34 | the moments are 0 at both ends and solve every row `hi·c[i-1] + 2(hi + hi1)·c[i] + hi1·c[i+1] = f` |
| Splines.SegmentEnds | src/main/kotlin/me/shutkin/assur/CubicSpline.kt:36-58 | a segment's cubic built from `b` and `d` passes through both end values |
| Splines.SegmentsJoinSmoothly | src/main/kotlin/me/shutkin/assur/CubicSpline.kt:27-58 | where the row equation holds, neighbouring segments agree in slope and in curvature at their common knot |
| Splines.KnotsOnSegment | src/main/kotlin/me/shutkin/assur/CubicSpline.kt:36-58 | segment j passes through knots j-1 and j |
| Splines.SmoothAtKnots | src/main/kotlin/me/shutkin/assur/CubicSpline.kt:23-58 | at an interior knot the curve is continuous, with no kink and no jump in curvature |
| Splines.KnotInterpolation | src/main/kotlin/me/shutkin/assur/CubicSpline.kt:43-58 | `interpolate(x[k]) == y[k]` at every knot, including the first, which is evaluated from segment 1 |
| Splines.IdentityPreserved | src/main/kotlin/me/shutkin/assur/CubicSpline.kt:23-58 | knots with y = x give `interpolate(v) == v` for every v |
| Splines.MomentsVanish | src/main/kotlin/me/shutkin/assur/CubicSpline.kt:27-34 | with y = x every moment c[i] is 0 |
| Splines.BetasVanish | src/main/kotlin/me/shutkin/assur/CubicSpline.kt:27-30 | with y = x every `beta[i]` is 0 |
| Splines.LineRhs | src/main/kotlin/me/shutkin/assur/CubicSpline.kt:27 | on a line of slope 1 the right-hand side `f` is 0 |
| Splines.LineBeta | src/main/kotlin/me/shutkin/assur/CubicSpline.kt:30 | a zero right-hand side and a zero previous beta give a zero beta |
| Splines.LineSlope | src/main/kotlin/me/shutkin/assur/CubicSpline.kt:38-39 | zero moments on a line of slope 1 give b = 1 and d = 0 |
| Adjuster.KeyPoints | src/main/kotlin/me/shutkin/assur/SplineAdjuster.kt:17 | `keyPoints` has adjustPoints + 2 entries |
| Adjuster.InteriorKnots | src/main/kotlin/me/shutkin/assur/SplineAdjuster.kt:18-19 | `bestPoints` and `nextBestPoints` start as the adjustPoints interior knots |
| Adjuster.KeyPointSpacing | src/main/kotlin/me/shutkin/assur/SplineAdjuster.kt:16-17 | the end gaps between knots are `range`, the inner gaps `2·range`, so knot i is minValue + range·(2i − 1) and the last is maxValue |
| Adjuster.KeyPointsIncreasing | src/main/kotlin/me/shutkin/assur/SplineAdjuster.kt:16-17 | with maxValue > minValue the knots strictly increase |
| Adjuster.AdjacentToAll | src/main/kotlin/me/shutkin/assur/SplineAdjuster.kt:17 | knots increasing step by step increase between any two positions |
| Adjuster.InitialCentreIsIdentity | src/main/kotlin/me/shutkin/assur/SplineAdjuster.kt:17-19 | the first search centre puts each knot value on its knot, so the first spline around which the search starts is the identity |
| Adjuster.Digits | src/main/kotlin/me/shutkin/assur/SplineAdjuster.kt:60-63 | the decoded digits number n, each below `count` |
| Adjuster.Variant | src/main/kotlin/me/shutkin/assur/SplineAdjuster.kt:59-66 | `getVariant` returns one value per point |
| Adjuster.GetVariant | src/main/kotlin/me/shutkin/assur/SplineAdjuster.kt:59-66 | the loop dividing `t` by `count` yields knot i offset by digit i of `variant` in base `count` |
| Adjuster.PowPositive | src/main/kotlin/me/shutkin/assur/SplineAdjuster.kt:23 | `steps^adjustPoints` is at least 1 for steps ≥ 1 |
| Adjuster.DivModUnique | src/main/kotlin/me/shutkin/assur/SplineAdjuster.kt:62-63 | `t % count` and `t / count` are the unique remainder and quotient |
| Adjuster.DivBelow | src/main/kotlin/me/shutkin/assur/SplineAdjuster.kt:63 | below `count·p`, the quotient by `count` is below `p` |
| Adjuster.EncodeDigits | src/main/kotlin/me/shutkin/assur/SplineAdjuster.kt:59-66 | every variant below count^n is recovered from its decoded digits |
| Adjuster.DigitsEncode | src/main/kotlin/me/shutkin/assur/SplineAdjuster.kt:59-66 | every digit string below `count` is the decoding of exactly one variant below count^n, so decoding is a bijection |
| Adjuster.LeadingDigit | src/main/kotlin/me/shutkin/assur/SplineAdjuster.kt:62-63 | the first digit of `d + count·rest` is `d`, and the rest decodes `rest` |
| Adjuster.OffsetBounds | src/main/kotlin/me/shutkin/assur/SplineAdjuster.kt:64 | digit 0 gives point − range, digit count − 1 gives point + range, and every digit stays between them |
| Adjuster.VariantWithinRange | src/main/kotlin/me/shutkin/assur/SplineAdjuster.kt:24 | each candidate moves every knot by at most the half-width |
| Adjuster.HalfWidthShrinks | src/main/kotlin/me/shutkin/assur/SplineAdjuster.kt:24 | the half-width `0.45·range / level` is positive and strictly shrinks from level to level |
| Adjuster.Errors | src/main/kotlin/me/shutkin/assur/SplineAdjuster.kt:28 | one error per sample |
| Adjuster.ConsiderProperties | src/main/kotlin/me/shutkin/assur/SplineAdjuster.kt:29-35 | a candidate is adopted only when strictly better; then it records its histogram, its knots and the first sample attaining the error |
| Adjuster.CandidatesDefined | src/main/kotlin/me/shutkin/assur/SplineAdjuster.kt:23 | with steps ≠ 1 every level either has no candidate or a valid `count` for `getVariant` |
| Adjuster.PowZero | src/main/kotlin/me/shutkin/assur/SplineAdjuster.kt:23 | zero steps with a knot to move give no candidate at all |
| Adjuster.LevelsUpTo | src/main/kotlin/me/shutkin/assur/SplineAdjuster.kt:21-39 | after every level `bestPoints` and `nextBestPoints` still hold adjustPoints values |
| Adjuster.ScanLength | src/main/kotlin/me/shutkin/assur/SplineAdjuster.kt:31 | the candidate loop keeps the length of `nextBestPoints` |
| Adjuster.InitialError | src/main/kotlin/me/shutkin/assur/SplineAdjuster.kt:52-56 | `findInitialError` is 0.0 with no samples, else the least error of the identity spline over the samples |
| Adjuster.ScanHistograms | src/main/kotlin/me/shutkin/assur/SplineAdjuster.kt:27-34 | every histogram adopted in a level is a test histogram |
| Adjuster.LevelsHistograms | src/main/kotlin/me/shutkin/assur/SplineAdjuster.kt:21-39 | the histogram adopted after all levels is a test histogram |
| Adjuster.ScanIsMinimum | src/main/kotlin/me/shutkin/assur/SplineAdjuster.kt:23-36 | within a level `smallestError` never increases, ends at or below every candidate's error, and is either its start value or some candidate's error |
| Adjuster.StepError | src/main/kotlin/me/shutkin/assur/SplineAdjuster.kt:24-35 | one candidate lowers `smallestError` to at most its own least error, or leaves the state unchanged |
| Adjuster.LevelsNeverWorsen | src/main/kotlin/me/shutkin/assur/SplineAdjuster.kt:20-39 | across levels `smallestError` never increases |
| Adjuster.ScanKeepsHistogram | src/main/kotlin/me/shutkin/assur/SplineAdjuster.kt:30-34 | once a histogram is adopted it is never dropped |
| Adjuster.NoSamplesNoHistogram | src/main/kotlin/me/shutkin/assur/SplineAdjuster.kt:28-30 | with no samples every candidate's error is Double.MAX_VALUE and nothing is adopted |
| Adjuster.NoSamplesFailsAt | src/main/kotlin/me/shutkin/assur/SplineAdjuster.kt:20-39 | with no samples the search state never leaves its start |
| Adjuster.SearchFails | src/main/kotlin/me/shutkin/assur/SplineAdjuster.kt:40 | with no samples or no levels `bestHistogram!!` throws |
| Adjuster.SearchOutcome | src/main/kotlin/me/shutkin/assur/SplineAdjuster.kt:17-47 | on success the knots increase and the end values stay fixed; the smallest error is some candidate's best error and at most every candidate's of every level; the selected sample is the first whose error attains it, the least over the samples |
| Adjuster.SearchIsMinimum | src/main/kotlin/me/shutkin/assur/SplineAdjuster.kt:20-39 | after all levels `smallestError` is at most every candidate's best error of every level, and is Double.MAX_VALUE or one of those errors |
| Adjuster.SearchBelow | src/main/kotlin/me/shutkin/assur/SplineAdjuster.kt:21-35 | the final `smallestError` is at most the best error of any one candidate of any level |
| Adjuster.SearchAttains | src/main/kotlin/me/shutkin/assur/SplineAdjuster.kt:20-35 | the final `smallestError` is Double.MAX_VALUE or the best error of some candidate of some level |
| Adjuster.LevelIsMinimum | src/main/kotlin/me/shutkin/assur/SplineAdjuster.kt:23-36 | one level never raises `smallestError`, ends at most every candidate's error of the level, and keeps it or takes one of those errors |
| Adjuster.StepSelected | src/main/kotlin/me/shutkin/assur/SplineAdjuster.kt:28-35 | one candidate keeps the adopted histogram, its least sample error and the first sample attaining it in agreement |
| Adjuster.ScanSelected | src/main/kotlin/me/shutkin/assur/SplineAdjuster.kt:23-36 | the candidate loop keeps `selectedSampleIndex` the first sample attaining `smallestError` against `bestHistogram` |
| Adjuster.LevelsSelected | src/main/kotlin/me/shutkin/assur/SplineAdjuster.kt:14-39 | after every level either nothing is adopted and the error is Double.MAX_VALUE, or `selectedSampleIndex` is the first sample attaining the least error of `bestHistogram` |
| Adjuster.SplineAdjuster.constructor | src/main/kotlin/me/shutkin/assur/SplineAdjuster.kt:3-9 | the defaults are 4 adjust points, 4 steps, 3 levels, improvement 0 and median 0 |
| Adjuster.SplineAdjuster.FindSpline | src/main/kotlin/me/shutkin/assur/SplineAdjuster.kt:11-50 | `findSpline` fails exactly when the search adopts no histogram; otherwise it returns the spline of the best knots and sets `bestMedian` and `correctnessImprovement` |
| Adjuster.RunLevels | src/main/kotlin/me/shutkin/assur/SplineAdjuster.kt:14-39 | the level loop leaves the state the search specification gives after the last level |
| Adjuster.SearchLevel | src/main/kotlin/me/shutkin/assur/SplineAdjuster.kt:23-36 | the candidate loop tries all steps^adjustPoints variants in order |
| Adjuster.ScanLevelStep | src/main/kotlin/me/shutkin/assur/SplineAdjuster.kt:23 | one more candidate is one more step of the scan |
| Adjuster.TryVariant | src/main/kotlin/me/shutkin/assur/SplineAdjuster.kt:24-35 | the body of the candidate loop is one step of the scan |
| Adjuster.CopyInto | src/main/kotlin/me/shutkin/assur/SplineAdjuster.kt:38 | `bestPoints` becomes a copy of `nextBestPoints` |
| Adjuster.FindInitialError | src/main/kotlin/me/shutkin/assur/SplineAdjuster.kt:52-56 | the method computes `findInitialError` |
| Variants.DiapasonBounds | src/main/kotlin/me/shutkin/assur/Assur.kt:208-209 | every diapason is a range 0 ≤ start ≤ end ≤ size, and ALL spans [0, size) |
| Variants.DiapasonsPartition | src/main/kotlin/me/shutkin/assur/Assur.kt:208-209 | LOW ends where MID starts and MID ends where HIGH starts, so every index lies in exactly one of LOW, MID and HIGH |
| Variants.KeepRangeIsSlice | src/main/kotlin/me/shutkin/assur/filters/ZonalFilter.kt:17-18 | `filterIndexed { index in lo..hi-1 }` keeps exactly the slice [lo, hi) of what is there |
| Variants.KeepRangeStep | src/main/kotlin/me/shutkin/assur/filters/ZonalFilter.kt:17-18 | one more entry extends the kept slice when its index is in range |
| Variants.KeepRangeSnoc | src/main/kotlin/me/shutkin/assur/filters/ZonalFilter.kt:17-18 | the filter keeps the last entry exactly when its index is in [lo, hi) |
| Variants.DiapasonSamplesSlice | src/main/kotlin/me/shutkin/assur/filters/ZonalFilter.kt:17-18 | the samples of a diapason are its slice [start, end) in order, and ALL keeps all of them |
| Variants.GetDiapason | src/main/kotlin/me/shutkin/assur/Assur.kt:203 | `getDiapason` gives LOW for 0, MID for 1, HIGH for every other index, never ALL |
| Variants.FitOf | src/main/kotlin/me/shutkin/assur/filters/ZonalFilter.kt:19-41 | a searching stage fails exactly when `findSpline` does (always with no samples); otherwise its spline keeps the end values and carries the adjuster's smallest error and best median |
| Variants.ErrorNonNegative | src/main/kotlin/me/shutkin/assur/Assur.kt:83 | the sum of the stage errors, a missing one counting 0, is never negative when no reported error is |
| Variants.IsCloseToProperties | src/main/kotlin/me/shutkin/assur/Assur.kt:84-94 | `isCloseTo` holds exactly when no stage has both medians known and further apart than its tolerance; it is symmetric, reflexive, and missing medians never reject |
| Variants.Insert | src/main/kotlin/me/shutkin/assur/Assur.kt:192 | inserting into the sorted list adds exactly the one element |
| Variants.InsertSorted | src/main/kotlin/me/shutkin/assur/Assur.kt:192 | inserting into a list sorted by error keeps it sorted |
| Variants.SortedCons | src/main/kotlin/me/shutkin/assur/Assur.kt:192 | an element no larger than the head of a sorted list can go in front |
| Variants.SortByError | src/main/kotlin/me/shutkin/assur/Assur.kt:192 | `sortedBy { it.error }` is a permutation sorted by non-decreasing error |
| Variants.Distinct | src/main/kotlin/me/shutkin/assur/Assur.kt:197 | `distinct()` keeps exactly the elements of its input, each once |
| Variants.CloseTo | src/main/kotlin/me/shutkin/assur/Assur.kt:192 | the cluster of v0 holds exactly the variants close to v0 |
| Variants.RepresentativeIsBestOfCluster | src/main/kotlin/me/shutkin/assur/Assur.kt:191-196 | `closeVariants[0]` exists, is an input variant close to v0 and has the least error of v0's cluster, so it is no worse than v0 |
| Variants.FilterVariantsProperties | src/main/kotlin/me/shutkin/assur/Assur.kt:190-201 | `filterVariants` returns at most 16 distinct input variants sorted by error, each the representative of some input |
| Variants.TakeKeeps | src/main/kotlin/me/shutkin/assur/Assur.kt:198 | `subList(0, 16)` of a sorted, duplicate-free list is still sorted and duplicate-free |
| Variants.SortedDistinctRepresentatives | src/main/kotlin/me/shutkin/assur/Assur.kt:191-197 | before the cap the list is sorted, duplicate-free, and made of representatives |
| Variants.NoDuplicatesKept | src/main/kotlin/me/shutkin/assur/Assur.kt:197 | a permutation of a duplicate-free list is duplicate-free |
| Variants.CountInDuplicateFree | src/main/kotlin/me/shutkin/assur/Assur.kt:197 | in a duplicate-free list every element occurs at most once |
| Variants.ChildFields | src/main/kotlin/me/shutkin/assur/Assur.kt:144-145 | a child carries the new raster and the parent's diapasons plus d, copies earlier stages, takes this stage's error and median, and leaves later stages empty |
| Variants.InheritsCachedValues | src/main/kotlin/me/shutkin/assur/Assur.kt:137-145 | the child's error and median are the filter's when reported, else the cached value; only reported values overwrite the caches, and the spline cache takes the new spline |
| Variants.ChildrenShape | src/main/kotlin/me/shutkin/assur/Assur.kt:136-146 | the first k children of a parent follow LOW, MID, HIGH and extend the parent |
| Variants.ExpandShape | src/main/kotlin/me/shutkin/assur/Assur.kt:134-147 | every parent gets exactly three children, LOW, MID and HIGH in that order, each extending the parent's diapasons and keeping its earlier stages |
| Variants.SplinesCachedAfterFirstParent | src/main/kotlin/me/shutkin/assur/Assur.kt:138-143 | after a parent the spline cache holds LOW, MID and HIGH, each the spline that parent's call for that diapason returned, so every call from the second parent on receives the spline the previous call for its diapason produced |
| Variants.GenerateStageVariants | src/main/kotlin/me/shutkin/assur/Assur.kt:130-148 | the loop with its three HashMaps yields `filterVariants` of the expansion |
| ObjectStreams.DoubleTokens | src/main/kotlin/me/shutkin/assur/samples/Samples.kt:38 | one double token per value written, in order |
| ObjectStreams.LeadingDoubles | src/main/kotlin/me/shutkin/assur/samples/References.kt:74-76 | a reader takes at most as many doubles as there are tokens |
| ObjectStreams.LeadingDoublesOfWritten | src/main/kotlin/me/shutkin/assur/samples/References.kt:60-76 | the doubles written come back first, in order, before whatever follows them |
| ObjectStreams.TokenWriter.constructor | src/main/kotlin/me/shutkin/assur/samples/References.kt:57 | a fresh stream holds no tokens |
| ObjectStreams.TokenWriter.WriteInt | src/main/kotlin/me/shutkin/assur/samples/References.kt:58 | appends exactly one int token and nothing else |
| ObjectStreams.TokenWriter.WriteDouble | src/main/kotlin/me/shutkin/assur/samples/References.kt:60-61 | appends exactly one double token and nothing else |
| ObjectStreams.TokenReader.constructor | src/main/kotlin/me/shutkin/assur/samples/References.kt:68 | a fresh reader has every token still to read |
| ObjectStreams.TokenReader.ReadInt | src/main/kotlin/me/shutkin/assur/samples/References.kt:69 | an int token at the front is returned and consumed; anything else fails with end of stream and consumes nothing |
| ObjectStreams.TokenReader.ReadDouble | src/main/kotlin/me/shutkin/assur/samples/References.kt:74-76 | a double token at the front is returned and consumed, and the remaining leading doubles shift by one; anything else fails and consumes nothing |
| ReferenceCorpus.ReferenceEquality | src/main/kotlin/me/shutkin/assur/samples/References.kt:8-21 | equality by id is reflexive, symmetric and transitive, ignores the average error, and equal references have equal hash codes |
| ReferenceCorpus.MedianQuantumSpansRange | src/main/kotlin/me/shutkin/assur/samples/References.kt:25 | eighteen quanta make up exactly the median range, and the quantum is non-negative on an ordered range |
| ReferenceCorpus.GetReferences | src/main/kotlin/me/shutkin/assur/samples/References.kt:87-91 | a non-negative index selects that one reference (out of range fails); a negative index yields exactly the diapason's slice, element by element |
| ReferenceCorpus.GetAllReferences | src/main/kotlin/me/shutkin/assur/samples/References.kt:87-91 | with the ALL diapason and no chosen index every reference is returned |
| ReferenceCorpus.BodySnoc | src/main/kotlin/me/shutkin/assur/samples/References.kt:59-62 | the written body of one more reference is the old body followed by its average error and its values |
| ReferenceCorpus.SerializeReferences | src/main/kotlin/me/shutkin/assur/samples/References.kt:56-65 | the stream gains the count followed by every average error and data value, in order, and nothing else |
| ReferenceCorpus.ReadReferences | src/main/kotlin/me/shutkin/assur/samples/References.kt:72-81 | the reading loop yields at most `size` average errors and exactly `size` data rows |
| ReferenceCorpus.Medians | src/main/kotlin/me/shutkin/assur/samples/References.kt:83 | one median per data row |
| ReferenceCorpus.ReadShape | src/main/kotlin/me/shutkin/assur/samples/References.kt:70-76 | every data row read holds exactly `sampleSize` values |
| ReferenceCorpus.ReadEmpty | src/main/kotlin/me/shutkin/assur/samples/References.kt:70-81 | with nothing to read no average error is read and every row stays zero |
| ReferenceCorpus.ReadShort | src/main/kotlin/me/shutkin/assur/samples/References.kt:73-81 | a read that fails inside a row keeps that row's values read so far, zero padded, and leaves later rows zero |
| ReferenceCorpus.ReadFull | src/main/kotlin/me/shutkin/assur/samples/References.kt:72-76 | a complete reference read consumes its average error and `sampleSize` values and the loop goes on with the rest |
| ReferenceCorpus.ReadReference | src/main/kotlin/me/shutkin/assur/samples/References.kt:73-80 | one pass of the loop consumes one average error and one row, or reports the failed read with what it read so far |
| ReferenceCorpus.ReadAll | src/main/kotlin/me/shutkin/assur/samples/References.kt:72-81 | the loop's average errors and rows are exactly those of the reading specification |
| ReferenceCorpus.NextStep | src/main/kotlin/me/shutkin/assur/samples/References.kt:72-76 | after a complete reference the remaining loop continues the reading specification |
| ReferenceCorpus.LastStep | src/main/kotlin/me/shutkin/assur/samples/References.kt:77-80 | after a failed read the break leaves zero rows behind and matches the reading specification |
| ReferenceCorpus.DeserializeReferences | src/main/kotlin/me/shutkin/assur/samples/References.kt:67-85 | returns exactly what the deserialisation specification says: a missing header or a negative size fails, otherwise every reference read until the first failed read |
| ReferenceCorpus.AverageErrors | src/main/kotlin/me/shutkin/assur/samples/References.kt:60 | one average error per reference |
| ReferenceCorpus.DataRows | src/main/kotlin/me/shutkin/assur/samples/References.kt:61 | one data row per reference |
| ReferenceCorpus.ReadWritten | src/main/kotlin/me/shutkin/assur/samples/References.kt:56-81 | reading the written body gives back every average error and every data row |
| ReferenceCorpus.ReferencesRoundTrip | src/main/kotlin/me/shutkin/assur/samples/References.kt:56-85 | serialising then deserialising returns every reference's average error and data in order, with its position as id |
| ReferenceCorpus.ShortReadIff | src/main/kotlin/me/shutkin/assur/samples/References.kt:72-81 | fewer average errors than references are read exactly when the body ends before the last reference's average error |
| ReferenceCorpus.TruncatedReferences | src/main/kotlin/me/shutkin/assur/samples/References.kt:84 | building the result throws on `averageErrors[it]` if and only if the body stops before the last average error, and it fails in no other way |
| ReferenceCorpus.MedianRange | src/main/kotlin/me/shutkin/assur/samples/References.kt:83-84 | medianMin is at most medianMax, both bound every reference's median, and an empty corpus gives the defaults 0 and 1 |
| SampleCorpus.Zeros | src/main/kotlin/me/shutkin/assur/samples/Samples.kt:46 | `n` zeros, as a fresh DoubleArray holds |
| SampleCorpus.ZeroRows | src/main/kotlin/me/shutkin/assur/samples/Samples.kt:46 | `n` rows of zeros |
| SampleCorpus.FlattenSnoc | src/main/kotlin/me/shutkin/assur/samples/Samples.kt:38 | the flattened values of one more row are the old values followed by that row |
| SampleCorpus.FlattenZeroRows | src/main/kotlin/me/shutkin/assur/samples/Samples.kt:46 | zero rows flatten to zeros |
| SampleCorpus.SerializeSamples | src/main/kotlin/me/shutkin/assur/samples/Samples.kt:35-41 | the stream gains the count followed by every value of every sample, in order, and nothing else |
| SampleCorpus.Fit | src/main/kotlin/me/shutkin/assur/samples/Samples.kt:46-55 | the values cut or zero padded to exactly the row width |
| SampleCorpus.Rows | src/main/kotlin/me/shutkin/assur/samples/Samples.kt:46-57 | `size` rows of exactly `sampleSize` values each |
| SampleCorpus.DeserializeSamples | src/main/kotlin/me/shutkin/assur/samples/Samples.kt:43-58 | returns exactly what the deserialisation specification says: a missing header or a negative size fails, otherwise the rows filled in order until the first failed read, the rest zero |
| SampleCorpus.ReadSample | src/main/kotlin/me/shutkin/assur/samples/Samples.kt:47-55 | one row is the next row of the specification; after a failed read every later row is zero |
| SampleCorpus.RowsShort | src/main/kotlin/me/shutkin/assur/samples/Samples.kt:49-55 | a body shorter than a row gives that row zero padded and zero rows after it |
| SampleCorpus.RowsFull | src/main/kotlin/me/shutkin/assur/samples/Samples.kt:47-50 | a body holding a full row gives that row and continues with the rest |
| SampleCorpus.ReadRow | src/main/kotlin/me/shutkin/assur/samples/Samples.kt:48-55 | the inner loop copies the leading doubles into the row in order and reports whether the row was filled |
| SampleCorpus.ShortRow | src/main/kotlin/me/shutkin/assur/samples/Samples.kt:49-54 | a row whose first values came from the stream and whose rest is zero is the zero-padded read |
| SampleCorpus.RowsFlatten | src/main/kotlin/me/shutkin/assur/samples/Samples.kt:46-57 | the rows hold the body's values in order, cut or zero padded to `size × sampleSize` |
| SampleCorpus.ShortRowsFlatten | src/main/kotlin/me/shutkin/assur/samples/Samples.kt:46-57 | a body shorter than the first row gives that row zero padded, then rows of zeros |
| SampleCorpus.FullRowFlatten | src/main/kotlin/me/shutkin/assur/samples/Samples.kt:46-57 | a full first row is followed by the rows read from the rest of the body |
| SampleCorpus.DeserializeShape | src/main/kotlin/me/shutkin/assur/samples/Samples.kt:45-46 | once the header is read and the sizes are not negative the result has `size` rows of `sampleSize` values |
| SampleCorpus.RowsOfFlatten | src/main/kotlin/me/shutkin/assur/samples/Samples.kt:38-50 | rows read from flattened rows of the right width are those rows |
| SampleCorpus.SamplesRoundTrip | src/main/kotlin/me/shutkin/assur/samples/Samples.kt:35-58 | serialising then deserialising samples of the requested size gives them back unchanged |
| SampleCorpus.TruncatedInput | src/main/kotlin/me/shutkin/assur/samples/Samples.kt:47-55 | a body cut short still gives `size` rows: the values that were there in order, then zeros |
| Grouping.SqNonNegative | src/main/kotlin/me/shutkin/assur/samples/Grouping.kt:48 | a square is never negative |
| Grouping.DiffTerms | src/main/kotlin/me/shutkin/assur/samples/Grouping.kt:43-49 | one term of `evalArraysDiff` per index of the test histogram |
| Grouping.ArraysDiff | src/main/kotlin/me/shutkin/assur/samples/Grouping.kt:42-49 | the distance between two histograms is never negative |
| Grouping.ArraysDiffSelf | src/main/kotlin/me/shutkin/assur/samples/Grouping.kt:42-49 | a histogram is at distance 0 from itself |
| Grouping.ArraysDiffSymmetric | src/main/kotlin/me/shutkin/assur/samples/Grouping.kt:42-49 | on histograms of one length the distance does not depend on the order of its arguments |
| Grouping.MedianTerm | src/main/kotlin/me/shutkin/assur/samples/Grouping.kt:55-57 | each median term is a square, never negative |
| Grouping.MedianTerms | src/main/kotlin/me/shutkin/assur/samples/Grouping.kt:54-57 | the seven terms are those of the thresholds 1/8 .. 7/8, in order |
| Grouping.ArraysDiffMProperties | src/main/kotlin/me/shutkin/assur/samples/Grouping.kt:51-59 | the median distance is non-negative, symmetric and 0 from a histogram to itself |
| Grouping.FindAverageDiff | src/main/kotlin/me/shutkin/assur/samples/Grouping.kt:33-40 | the loop's result is the sum of the distances over every pair i < j divided by the number of pairs (NaN, as None, when there is no pair) |
| Grouping.PairCountFormula | src/main/kotlin/me/shutkin/assur/samples/Grouping.kt:35-37 | after the first `m` outer iterations the counter is m(2n-m-1)/2 |
| Grouping.PairDiffsNonNegative | src/main/kotlin/me/shutkin/assur/samples/Grouping.kt:36-37 | the sum of distances is never negative |
| Grouping.RowDiffsNonNegative | src/main/kotlin/me/shutkin/assur/samples/Grouping.kt:37 | the sum of one row's distances is never negative |
| Grouping.PairCountOfAll | src/main/kotlin/me/shutkin/assur/samples/Grouping.kt:35-37 | for `n` samples the counter reaches n(n-1)/2, which is 0 exactly when there are fewer than two samples |
| Grouping.AverageDiffProperties | src/main/kotlin/me/shutkin/assur/samples/Grouping.kt:33-40 | the average is NaN exactly when there are fewer than two samples, and otherwise non-negative |
| Grouping.SameWidthGrows | src/main/kotlin/me/shutkin/assur/samples/Grouping.kt:43-44 | samples of one length can be compared in either order |
| Grouping.MaxDiffs | src/main/kotlin/me/shutkin/assur/samples/Grouping.kt:12 | one maximal distance per group |
| Grouping.Target | src/main/kotlin/me/shutkin/assur/samples/Grouping.kt:12-20 | the chosen group is an existing one, or -1 for a new group |
| Grouping.TargetOfFirst | src/main/kotlin/me/shutkin/assur/samples/Grouping.kt:10-15 | with a positive limit the first sample joins the single initial (empty) group |
| Grouping.Place | src/main/kotlin/me/shutkin/assur/samples/Grouping.kt:14-20 | placing a sample leaves at least one group |
| Grouping.Assign | src/main/kotlin/me/shutkin/assur/samples/Grouping.kt:10-21 | the groups of a pass are never an empty list |
| Grouping.PlaceValid | src/main/kotlin/me/shutkin/assur/samples/Grouping.kt:14-20 | placing sample `index` keeps every member below `index + 1` |
| Grouping.AssignValid | src/main/kotlin/me/shutkin/assur/samples/Grouping.kt:11-21 | after `m` samples every member is one of the indices 0 .. m-1 |
| Grouping.AssignGroups | src/main/kotlin/me/shutkin/assur/samples/Grouping.kt:11-21 | the `forEachIndexed` pass yields exactly the groups of the specification |
| Grouping.AssignStep | src/main/kotlin/me/shutkin/assur/samples/Grouping.kt:11-21 | one more iteration places one more sample into the groups so far |
| Grouping.PlaceSample | src/main/kotlin/me/shutkin/assur/samples/Grouping.kt:12-20 | the body of one iteration places the sample as the specification says |
| Grouping.ConcatAppend | src/main/kotlin/me/shutkin/assur/samples/Grouping.kt:19 | a new group adds its members after the others |
| Grouping.ConcatUpdate | src/main/kotlin/me/shutkin/assur/samples/Grouping.kt:15 | adding an index to one group adds exactly that index to the members |
| Grouping.PlaceAddsIndex | src/main/kotlin/me/shutkin/assur/samples/Grouping.kt:14-20 | placing a sample adds exactly its index, once, to the members of all groups |
| Grouping.Range | src/main/kotlin/me/shutkin/assur/samples/Grouping.kt:11 | the indices 0 .. m-1 in order |
| Grouping.RangeSnoc | src/main/kotlin/me/shutkin/assur/samples/Grouping.kt:11 | the next index comes last |
| Grouping.RangeCounts | src/main/kotlin/me/shutkin/assur/samples/Grouping.kt:11 | each index below `m` occurs once and no other index occurs |
| Grouping.AssignPartitions | src/main/kotlin/me/shutkin/assur/samples/Grouping.kt:10-21 | the groups hold every sample index exactly once: the members form a permutation of 0 .. m-1 |
| Grouping.AssignCounts | src/main/kotlin/me/shutkin/assur/samples/Grouping.kt:10-21 | every index below `m` is in exactly one group, once, and no other index is in any group |
| Grouping.AssignNonEmpty | src/main/kotlin/me/shutkin/assur/samples/Grouping.kt:10-21 | with a positive limit no group is ever empty |
| Grouping.AssignFirst | src/main/kotlin/me/shutkin/assur/samples/Grouping.kt:10-15 | after the first sample the groups are exactly { 0 } |
| Grouping.PlaceNonEmpty | src/main/kotlin/me/shutkin/assur/samples/Grouping.kt:14-20 | placing a sample never leaves an empty group |
| Grouping.Filtered | src/main/kotlin/me/shutkin/assur/samples/Grouping.kt:23 | the kept groups are exactly those with at least `samples.size / 80` members |
| Grouping.GroupMean | src/main/kotlin/me/shutkin/assur/samples/Grouping.kt:26 | one mean per histogram position |
| Grouping.GroupMeanOfEqualSamples | src/main/kotlin/me/shutkin/assur/samples/Grouping.kt:26 | a group of equal histograms has that histogram as its mean |
| Grouping.Means | src/main/kotlin/me/shutkin/assur/samples/Grouping.kt:25-26 | one mean row of the sample length per kept group |
| Grouping.InsertBy | src/main/kotlin/me/shutkin/assur/samples/Grouping.kt:27 | insertion adds exactly the one element |
| Grouping.InsertByBounded | src/main/kotlin/me/shutkin/assur/samples/Grouping.kt:27 | insertion keeps a lower bound on the keys |
| Grouping.InsertBySorted | src/main/kotlin/me/shutkin/assur/samples/Grouping.kt:27 | insertion into a sorted list keeps it sorted |
| Grouping.SortBy | src/main/kotlin/me/shutkin/assur/samples/Grouping.kt:27 | `sortedBy` returns a permutation of its input sorted by the median key |
| Grouping.DiffFactorPositive | src/main/kotlin/me/shutkin/assur/samples/Grouping.kt:8-28 | `diffFactor` decreases each pass and is positive for exactly the first 25 passes |
| Grouping.Limit | src/main/kotlin/me/shutkin/assur/samples/Grouping.kt:14 | the limit of a pass `averageDiff * diffFactor` is positive |
| Grouping.PassGroups | src/main/kotlin/me/shutkin/assur/samples/Grouping.kt:10-23 | the kept groups of a pass hold only sample indices |
| Grouping.PassGroupsNonEmpty | src/main/kotlin/me/shutkin/assur/samples/Grouping.kt:10-23 | with a positive limit no kept group is empty |
| Grouping.PassOutcomes | src/main/kotlin/me/shutkin/assur/samples/Grouping.kt:9-29 | one outcome for each of the 25 passes |
| Grouping.FirstSomeStep | src/main/kotlin/me/shutkin/assur/samples/Grouping.kt:24-28 | a pass that keeps enough groups answers; otherwise the loop goes on |
| Grouping.FirstSomeOutcome | src/main/kotlin/me/shutkin/assur/samples/Grouping.kt:9-30 | the first successful outcome answers, and the result fails with NotEnoughGroups exactly when every outcome fails |
| Grouping.RunPass | src/main/kotlin/me/shutkin/assur/samples/Grouping.kt:10-27 | the loop body returns exactly the pass outcome of the specification |
| Grouping.RunPasses | src/main/kotlin/me/shutkin/assur/samples/Grouping.kt:9-30 | the `while` loop returns the first successful pass, or fails |
| Grouping.Group | src/main/kotlin/me/shutkin/assur/samples/Grouping.kt:6-31 | `grouping` returns exactly what its specification says |
| Grouping.TryPassResult | src/main/kotlin/me/shutkin/assur/samples/Grouping.kt:22-27 | a successful pass yields at least `groupsNumber` rows of the sample length, sorted by median, each the mean of a kept non-empty group |
| Grouping.ElementOfPermutation | src/main/kotlin/me/shutkin/assur/samples/Grouping.kt:27 | every sorted row is one of the rows before sorting |
| Grouping.GroupingOutcome | src/main/kotlin/me/shutkin/assur/samples/Grouping.kt:6-31 | `grouping` answers with the first of the 25 passes that keeps enough groups, and it throws exactly when none does |
| Grouping.LimitsDecrease | src/main/kotlin/me/shutkin/assur/samples/Grouping.kt:14-28 | each pass looks for groups under a strictly smaller limit than the pass before |
| Zones.ZoneSize | src/main/kotlin/me/shutkin/assur/filters/ZonalFilter.kt:64 | the zone side is 0 exactly when both sides of the raster are below the divisor |
| Zones.ZoneCountIsCeiling | src/main/kotlin/me/shutkin/assur/filters/ZonalFilter.kt:65-66 | the zone count is the ceiling of side / zoneSize: the zones just cover the side |
| Zones.ZoneExtentBounds | src/main/kotlin/me/shutkin/assur/filters/ZonalFilter.kt:98-99 | every zone of the grid is between 1 and zoneSize pixels across and ends inside the raster |
| Zones.WindowIndex | src/main/kotlin/me/shutkin/assur/filters/ZonalFilter.kt:101-103 | every pixel of a zone reads inside the raster data |
| Zones.WindowLums | src/main/kotlin/me/shutkin/assur/filters/ZonalFilter.kt:100-103 | a zone has width × height luminances, none negative |
| Zones.WindowAt | src/main/kotlin/me/shutkin/assur/filters/ZonalFilter.kt:100-103 | entry dy · width + dx of a zone is the luminance of raster pixel (x0 + dx, y0 + dy) |
| Zones.WindowEntries | src/main/kotlin/me/shutkin/assur/filters/ZonalFilter.kt:100-103 | every entry of a zone is the luminance of its pixel |
| Zones.ZoneInside | src/main/kotlin/me/shutkin/assur/filters/ZonalFilter.kt:97-99 | a zone of the grid is a non-empty window inside the raster |
| Zones.ZonePixels | src/main/kotlin/me/shutkin/assur/filters/ZonalFilter.kt:97-104 | a zone has zoneWidth × zoneHeight luminances, none negative |
| Zones.ZoneLumOfWindow | src/main/kotlin/me/shutkin/assur/filters/ZonalFilter.kt:97-104 | `calculateZoneLum` is the mean of the zone's window |
| Zones.ZoneLumProperties | src/main/kotlin/me/shutkin/assur/filters/ZonalFilter.kt:97-104 | a zone luminance is never negative, and `c` when every pixel has luminance `c` |
| Zones.ZoneLums | src/main/kotlin/me/shutkin/assur/filters/ZonalFilter.kt:67-71 | one luminance per zone of the grid |
| Zones.BuildZonesShape | src/main/kotlin/me/shutkin/assur/filters/ZonalFilter.kt:63-72 | `buildZones` throws on a zero zone side exactly when both sides are below the divisor; otherwise the grid covers the raster and zone (zx, zy) sits at zy · horizZones + zx with that zone's luminance |
| Zones.ZoneOfIndex | src/main/kotlin/me/shutkin/assur/filters/ZonalFilter.kt:67-71 | entry `it` is the luminance of zone (it % horizZones, it / horizZones) |
| Zones.DivModOfPixel | src/main/kotlin/me/shutkin/assur/filters/ZonalFilter.kt:68-69 | the row-by-row index of a cell gives back its column and row |
| Zones.BuildZonesLums | src/main/kotlin/me/shutkin/assur/filters/ZonalFilter.kt:63-72 | every zone luminance is non-negative, and `c` for a raster of luminance `c` |
| Zones.Gaussian | src/main/kotlin/me/shutkin/assur/filters/ZonalFilter.kt:88-89 | every neighbour weight is positive |
| Zones.AddBounded | src/main/kotlin/me/shutkin/assur/filters/ZonalFilter.kt:90-91 | adding one zone with positive weight keeps the weighted sum between lo and hi times the weight and increases the weight |
| Zones.RowBlendBounded | src/main/kotlin/me/shutkin/assur/filters/ZonalFilter.kt:83-92 | a row of neighbours adds only non-negative weight, strictly more once the pixel's own zone column is passed, and keeps the bounds |
| Zones.AddNeighborBounded | src/main/kotlin/me/shutkin/assur/filters/ZonalFilter.kt:84-91 | a neighbour keeps the bounds and never lowers the weight; one inside the grid adds positive weight |
| Zones.LumOfBetween | src/main/kotlin/me/shutkin/assur/filters/ZonalFilter.kt:90 | an in-grid neighbour's luminance lies within the bounds of all zone luminances |
| Zones.GridBlendBounded | src/main/kotlin/me/shutkin/assur/filters/ZonalFilter.kt:79-93 | the outer loop keeps the bounds and has positive weight once it passes the pixel's own zone row |
| Zones.BlendBetween | src/main/kotlin/me/shutkin/assur/filters/ZonalFilter.kt:79-93 | the full 11 × 11 blend has positive weight and keeps the bounds |
| Zones.Min0 | src/main/kotlin/me/shutkin/assur/filters/ZonalFilter.kt:90 | a lower bound of every zone luminance |
| Zones.Max0 | src/main/kotlin/me/shutkin/assur/filters/ZonalFilter.kt:90 | an upper bound of every zone luminance |
| Zones.ZoneValueBetween | src/main/kotlin/me/shutkin/assur/filters/ZonalFilter.kt:74-95 | the zonal luminance is a weighted mean: it lies between any bounds of the zone luminances |
| Zones.QuotientBetween | src/main/kotlin/me/shutkin/assur/filters/ZonalFilter.kt:94 | `sum / sumWeight` lies within the bounds the sums keep |
| Zones.ZoneValueUniform | src/main/kotlin/me/shutkin/assur/filters/ZonalFilter.kt:74-95 | zones all of luminance `c` blend to exactly `c` |
| Zones.PixelInGrid | src/main/kotlin/me/shutkin/assur/filters/ZonalFilter.kt:75-76 | every pixel of a raster lies in a zone of its grid |
| Zones.ZoneValueNonNegative | src/main/kotlin/me/shutkin/assur/filters/ZonalFilter.kt:74-95 | zones of non-negative luminance blend to a non-negative value |
| Zones.Zone | src/main/kotlin/me/shutkin/assur/filters/ZonalFilter.kt:74-95 | the two nested loops compute exactly the specified blend |
| Zones.BlendRow | src/main/kotlin/me/shutkin/assur/filters/ZonalFilter.kt:83-92 | the inner loop adds exactly the row's neighbours, as specified |
| Zones.RowBlendStep | src/main/kotlin/me/shutkin/assur/filters/ZonalFilter.kt:83-92 | one more column adds one neighbour |
| Zones.NeighborLum | src/main/kotlin/me/shutkin/assur/filters/ZonalFilter.kt:90 | an in-grid neighbour's luminance is read inside the zone array |
| Zones.NeighborWeightOf | src/main/kotlin/me/shutkin/assur/filters/ZonalFilter.kt:82-89 | the loop's own `dx` and `dy` give the specified weight |
| Zones.Spread | src/main/kotlin/me/shutkin/assur/samples/ZonesSamples.kt:11 | one non-negative distance from the average per zone |
| Zones.SpreadHistogram | src/main/kotlin/me/shutkin/assur/samples/ZonesSamples.kt:11 | a non-negative histogram of 128 buckets |
| Zones.UniformSpread | src/main/kotlin/me/shutkin/assur/samples/ZonesSamples.kt:10-11 | zones of one luminance have no spread: the whole mass of the histogram is in the first bucket |
| ZonesSamples.CalculateZoneLum | src/main/kotlin/me/shutkin/assur/samples/ZonesSamples.kt:27-37 | the two loops' sum divided by the zone area is the mean luminance of the zone's pixels |
| ZonesSamples.SumWindow | src/main/kotlin/me/shutkin/assur/samples/ZonesSamples.kt:30-35 | the nested loops add exactly the luminances of the zone's pixels |
| ZonesSamples.SumWindowRow | src/main/kotlin/me/shutkin/assur/samples/ZonesSamples.kt:32-34 | the inner loop adds exactly one row of the zone's luminances |
| ZonesSamples.RowFits | src/main/kotlin/me/shutkin/assur/samples/ZonesSamples.kt:31 | every row of a zone ends inside the zone |
| ZonesSamples.BuildZones | src/main/kotlin/me/shutkin/assur/samples/ZonesSamples.kt:16-25 | `buildZones` with side max(width, height) / 15 builds exactly the specified zone grid, and throws on a zero zone side |
| ZonesSamples.ReferenceHistogram | src/main/kotlin/me/shutkin/assur/samples/ZonesSamples.kt:9-11 | the reference histogram fails exactly for a raster below 15 pixels on both sides, and otherwise has 128 non-negative buckets |
| ZonalFilter.CorrectionOfIdentity | src/main/kotlin/me/shutkin/assur/filters/ZonalFilter.kt:54-56 | with an identity spline the factor of every pixel is exactly 1 |
| ZonalFilter.UnitFactor | src/main/kotlin/me/shutkin/assur/filters/ZonalFilter.kt:56 | a corrected difference equal to the distance gives factor 1 |
| ZonalFilter.CorrectedRaster | src/main/kotlin/me/shutkin/assur/filters/ZonalFilter.kt:50-57 | the corrected raster is well formed and has the source's width and height |
| ZonalFilter.CorrectedRasterOfIdentity | src/main/kotlin/me/shutkin/assur/filters/ZonalFilter.kt:50-57 | with an identity spline the generator gives back exactly the pixels it reads |
| ZonalFilter.TestRaster | src/main/kotlin/me/shutkin/assur/filters/ZonalFilter.kt:26-34 | the corrected test image is well formed and has the reduced image's size |
| ZonalFilter.AsWrittenTestRaster | src/main/kotlin/me/shutkin/assur/filters/ZonalFilter.kt:26-34 | the test image as written, reading `source.data`, is well formed and has the reduced image's size |
| ZonalFilter.TestRasterOfIdentity | src/main/kotlin/me/shutkin/assur/filters/ZonalFilter.kt:26-34 | with the identity spline the corrected test image is the reduced image itself |
| ZonalFilter.TestHistogram | src/main/kotlin/me/shutkin/assur/filters/ZonalFilter.kt:35-37 | the corrected test function, on the image read from `reduced.data`, returns 128 non-negative buckets |
| ZonalFilter.SearchProblem | src/main/kotlin/me/shutkin/assur/filters/ZonalFilter.kt:19-38 | the corrected search runs over the given samples on [0, 128] with 3 adjust points and 3 steps, tests each spline with the histogram of the corrected test image, and is well formed |
| ZonalFilter.AsWrittenTestHistogram | src/main/kotlin/me/shutkin/assur/filters/ZonalFilter.kt:25-37 | the test function as written, on the image read from `source.data`, returns 128 non-negative buckets |
| ZonalFilter.AsWrittenSearchProblem | src/main/kotlin/me/shutkin/assur/filters/ZonalFilter.kt:19-38 | the search as written runs over the given samples on [0, 128] with 3 adjust points and 3 steps, tests each spline on the image read from `source.data`, and is well formed |
| ZonalFilter.AsWrittenSearchAgreesWhenFits | src/main/kotlin/me/shutkin/assur/filters/ZonalFilter.kt:22-38 | a source that fits in 384 × 384 is its own reduced image, and then the search as written and the corrected search test every spline alike |
| ZonalFilter.ZonalFilter | src/main/kotlin/me/shutkin/assur/filters/ZonalFilter.kt:11-59 | the filter step by step returns exactly the specified result: the spline of the corrected search or the predefined one, then the zone correction of every pixel |
| ZonalFilter.ZonalFilterShape | src/main/kotlin/me/shutkin/assur/filters/ZonalFilter.kt:45-58 | an image below 16 pixels on both sides has no zones and the filter throws; a result has the source's width and height |
| ZonalFilter.ZonalPredefined | src/main/kotlin/me/shutkin/assur/filters/ZonalFilter.kt:43-58 | a predefined spline is applied exactly when the image has zones, and comes back with no error and no median |
| ZonalFilter.ZonalNoSamples | src/main/kotlin/me/shutkin/assur/filters/ZonalFilter.kt:17-41 | without a predefined spline, a diapason holding no sample makes the filter fail |
| ZonalFilter.ZonalSearchOutcome | src/main/kotlin/me/shutkin/assur/filters/ZonalFilter.kt:16-42 | a searched spline runs through 5 increasing knots from 0 to 128 and comes with the search's error and median |
| ZonalFilter.SearchSplineOutcome | src/main/kotlin/me/shutkin/assur/filters/ZonalFilter.kt:16-42 | a successful search gives a spline through 5 increasing knots from 0 to 128 with its error and median |
| ZonalFilter.ZonalIdentity | src/main/kotlin/me/shutkin/assur/filters/ZonalFilter.kt:43-58 | a predefined identity spline returns the source unchanged, with no error and no median |
| ZonalFilter.ReducedTopRowImage | src/main/kotlin/me/shutkin/assur/filters/ZonalFilter.kt:22 | reduced to 384 × 8, pixel 384 of that image is black |
| ZonalFilter.AsWrittenTestMisreads | src/main/kotlin/me/shutkin/assur/filters/ZonalFilter.kt:33 | on that image the identity spline's corrected test image is the reduced image, but as written its pixel 384 is white where the reduced image is black |
| Cutoff.AllChannels | src/main/kotlin/me/shutkin/assur/filters/CutoffFilter.kt:7-14 | three values per pixel, and entry 3k + c is channel c of pixel k |
| Cutoff.AllChannelsAppend | src/main/kotlin/me/shutkin/assur/filters/CutoffFilter.kt:7-14 | one more pixel appends its r, g and b, in that order |
| Cutoff.ChannelsInByteRange | src/main/kotlin/me/shutkin/assur/filters/CutoffFilter.kt:7-14 | every channel value lies in [0, 255] |
| Cutoff.ChannelHistogram | src/main/kotlin/me/shutkin/assur/filters/CutoffFilter.kt:15 | 256 buckets between the least and the greatest channel value |
| Cutoff.SomeBucketAbove | src/main/kotlin/me/shutkin/assur/filters/CutoffFilter.kt:15-16 | some bucket always holds more than the 1/8192 threshold, so the low and high searches find a bucket |
| Cutoff.Limits | src/main/kotlin/me/shutkin/assur/filters/CutoffFilter.kt:15-18 | the limits fail exactly for an empty image (`min()!!` on no values); otherwise least channel ≤ min ≤ max ≤ greatest channel |
| Cutoff.ClipProperties | src/main/kotlin/me/shutkin/assur/filters/CutoffFilter.kt:23-25 | a clipped channel lies in [min, max], one already inside is unchanged, clipping is monotone and idempotent |
| Cutoff.CutoffFilterOf | src/main/kotlin/me/shutkin/assur/filters/CutoffFilter.kt:5-28 | the filter throws exactly on an empty image; otherwise the result is well formed and has the source's size |
| Cutoff.LimitsInByteRange | src/main/kotlin/me/shutkin/assur/filters/CutoffFilter.kt:17-18 | both limits lie in [0, 255] |
| Cutoff.CutoffPixels | src/main/kotlin/me/shutkin/assur/filters/CutoffFilter.kt:20-27 | every result pixel is the source pixel with each channel clipped to [min, max] |
| Cutoff.UniformChannels | src/main/kotlin/me/shutkin/assur/filters/CutoffFilter.kt:7-14 | the channels of an image of one grey are all that grey |
| Cutoff.UniformHistogram | src/main/kotlin/me/shutkin/assur/filters/CutoffFilter.kt:15 | a single value puts the whole mass into bucket 0 |
| Cutoff.UniformLimits | src/main/kotlin/me/shutkin/assur/filters/CutoffFilter.kt:15-18 | an image of one grey has both limits at that grey |
| Cutoff.CutoffUniform | src/main/kotlin/me/shutkin/assur/filters/CutoffFilter.kt:5-28 | an image of one grey passes unchanged |
| Cutoff.NoneInOtherBucket | src/main/kotlin/me/shutkin/assur/filters/CutoffFilter.kt:15 | no copy of the single value lands in a bucket other than 0 |
| ReduceSize.Floor | src/main/kotlin/me/shutkin/assur/filters/ReduceSizeFilter.kt:26 | `Math.floor`: the greatest integer not above the value |
| ReduceSize.Ceil | src/main/kotlin/me/shutkin/assur/filters/ReduceSizeFilter.kt:27 | `Math.ceil`: the least integer not below the value |
| ReduceSize.AxisFactorBounds | src/main/kotlin/me/shutkin/assur/filters/ReduceSizeFilter.kt:28-43 | each axis factor of a footprint pixel lies in (0, 1] |
| ReduceSize.ProductInUnit | src/main/kotlin/me/shutkin/assur/filters/ReduceSizeFilter.kt:35-43 | the product of two factors in (0, 1] lies in (0, 1] |
| ReduceSize.WeightBounds | src/main/kotlin/me/shutkin/assur/filters/ReduceSizeFilter.kt:35-43 | every source pixel's weight `f` lies in (0, 1] |
| ReduceSize.AddWeighted | src/main/kotlin/me/shutkin/assur/filters/ReduceSizeFilter.kt:45-48 | adding a pixel adds exactly `f` to the total weight |
| ReduceSize.RowWeightGrows | src/main/kotlin/me/shutkin/assur/filters/ReduceSizeFilter.kt:33-50 | the total weight never decreases along a row |
| ReduceSize.GridWeightGrows | src/main/kotlin/me/shutkin/assur/filters/ReduceSizeFilter.kt:32-51 | the total weight never decreases over the rows |
| ReduceSize.TotalWeightPositive | src/main/kotlin/me/shutkin/assur/filters/ReduceSizeFilter.kt:32-51 | the footprint's first pixel is in bounds, so the total weight is positive and the division is defined |
| ReduceSize.Distribute | src/main/kotlin/me/shutkin/assur/filters/ReduceSizeFilter.kt:45-48 | adding a weighted grey keeps the sums proportional to the weight |
| ReduceSize.RowStartBelow | src/main/kotlin/me/shutkin/assur/filters/ReduceSizeFilter.kt:44 | a pixel of a row at or below `y0` lies at or after the start of row `y0` in the data |
| ReduceSize.VisitProportional | src/main/kotlin/me/shutkin/assur/filters/ReduceSizeFilter.kt:34-49 | visiting a pixel of colour `c` keeps every channel sum equal to `c` times the weight |
| ReduceSize.RowProportional | src/main/kotlin/me/shutkin/assur/filters/ReduceSizeFilter.kt:33-50 | a row over pixels of colour `c` keeps the sums proportional |
| ReduceSize.GridProportional | src/main/kotlin/me/shutkin/assur/filters/ReduceSizeFilter.kt:32-51 | the whole footprint over pixels of colour `c` keeps the sums proportional |
| ReduceSize.AverageOfColourFrom | src/main/kotlin/me/shutkin/assur/filters/ReduceSizeFilter.kt:25-53 | when every pixel from the footprint's first row down has colour `c`, the average is `c` |
| ReduceSize.UniformAverage | src/main/kotlin/me/shutkin/assur/filters/ReduceSizeFilter.kt:25-53 | over a source of one colour the average is that colour |
| ReduceSize.GetSourceAverage | src/main/kotlin/me/shutkin/assur/filters/ReduceSizeFilter.kt:25-53 | the nested loops compute exactly the specified weighted average |
| ReduceSize.SumRow | src/main/kotlin/me/shutkin/assur/filters/ReduceSizeFilter.kt:33-50 | the inner loop adds exactly the row's weighted pixels |
| ReduceSize.VisitPixel | src/main/kotlin/me/shutkin/assur/filters/ReduceSizeFilter.kt:34-49 | the loop body adds an in-bounds pixel with weight `f` and skips a pixel outside the raster |
| ReduceSize.PixelWeight | src/main/kotlin/me/shutkin/assur/filters/ReduceSizeFilter.kt:35-43 | the loop body's `f` is exactly the specified weight |
| ReduceSize.ScaleProperties | src/main/kotlin/me/shutkin/assur/filters/ReduceSizeFilter.kt:11-19 | for a raster that is too large the scale lies in (0, 1) and the reduced sides lie in [0, maxSize] |
| ReduceSize.ReducedWidthFits | src/main/kotlin/me/shutkin/assur/filters/ReduceSizeFilter.kt:18 | the reduced width is at most the scaled source width |
| ReduceSize.ReducedHeightFits | src/main/kotlin/me/shutkin/assur/filters/ReduceSizeFilter.kt:19 | the reduced height is at most the scaled source height |
| ReduceSize.ScaledSideBounds | src/main/kotlin/me/shutkin/assur/filters/ReduceSizeFilter.kt:11-19 | `side · maxSize / larger` truncates to a value in [0, maxSize] and not above the scaled side |
| ReduceSize.ScaleBelowOne | src/main/kotlin/me/shutkin/assur/filters/ReduceSizeFilter.kt:11 | the scale of a raster that is too large lies in (0, 1) |
| ReduceSize.ScaledBelowMax | src/main/kotlin/me/shutkin/assur/filters/ReduceSizeFilter.kt:18-19 | a scaled side lies in [0, maxSize] |
| ReduceSize.TruncBetween | src/main/kotlin/me/shutkin/assur/filters/ReduceSizeFilter.kt:18-19 | `toInt` of a value in [0, m] lies in [0, m] and is not above the value |
| ReduceSize.MulMonotone | src/main/kotlin/me/shutkin/assur/filters/ReduceSizeFilter.kt:18-19 | scaling by a smaller factor never gives a larger side |
| ReduceSize.CoordinateInside | src/main/kotlin/me/shutkin/assur/filters/ReduceSizeFilter.kt:22 | the source coordinate of an output column or row lies inside the source |
| ReduceSize.ReductionFits | src/main/kotlin/me/shutkin/assur/filters/ReduceSizeFilter.kt:11-22 | the scale and the reduced sides of a raster that is too large fit the source |
| ReduceSize.OutputPixelInside | src/main/kotlin/me/shutkin/assur/filters/ReduceSizeFilter.kt:22 | the footprint of every output pixel starts inside the source |
| ReduceSize.ReduceSizeDimensions | src/main/kotlin/me/shutkin/assur/filters/ReduceSizeFilter.kt:7-23 | a raster that fits is returned as it is; otherwise the result is well formed and fits `maxSize` on both sides |
| ReduceSize.ReducedNotLarger | src/main/kotlin/me/shutkin/assur/filters/ReduceSizeFilter.kt:7-23 | the reduced raster is never larger than the source on either side |
| ReduceSize.ScaledSideNotLarger | src/main/kotlin/me/shutkin/assur/filters/ReduceSizeFilter.kt:18-19 | a scaled side is never larger than the side |
| ReduceSize.ReducedLargerSide | src/main/kotlin/me/shutkin/assur/filters/ReduceSizeFilter.kt:7-23 | a raster that does not fit keeps its larger side exactly `maxSize`, so it has a side of at least `m ≤ maxSize` exactly when the source has |
| ReduceSize.ReduceUniform | src/main/kotlin/me/shutkin/assur/filters/ReduceSizeFilter.kt:7-53 | a source of one colour stays that colour |
| ReduceSize.UniformReducedPixel | src/main/kotlin/me/shutkin/assur/filters/ReduceSizeFilter.kt:22 | over a source of one colour every reduced pixel, before the clamp, is that colour |
| ReduceSize.ReduceSizeFilter | src/main/kotlin/me/shutkin/assur/filters/ReduceSizeFilter.kt:7-23 | the filter returns exactly the specified reduced raster |
| ReduceSize.SameReduction | src/main/kotlin/me/shutkin/assur/filters/ReduceSizeFilter.kt:22 | a raster built from the pixels the loop computed is the specified reduction |
| ReduceSize.ReducedPixels | src/main/kotlin/me/shutkin/assur/filters/ReduceSizeFilter.kt:22 | one `getSourceAverage` per output pixel, each the specified reduced pixel |
| LuminanceFilter.TestLuminances | src/main/kotlin/me/shutkin/assur/filters/LuminanceFilter.kt:20-24 | one non-negative luminance per reduced pixel, each that of the pixel scaled by spline(l) / (l + 1.0) |
| LuminanceFilter.TestHistogram | src/main/kotlin/me/shutkin/assur/filters/LuminanceFilter.kt:19-24 | the test function returns 256 non-negative buckets of total mass at most 1 |
| LuminanceFilter.SearchProblem | src/main/kotlin/me/shutkin/assur/filters/LuminanceFilter.kt:18-25 | the search runs over the given samples on [0, 255] with the default 4 adjust points and 4 steps, tests each spline with the test histogram, compares with `evalArraysDiff`, and is well formed |
| LuminanceFilter.CorrectedRaster | src/main/kotlin/me/shutkin/assur/filters/LuminanceFilter.kt:31-34 | the output is well formed and has the source's width and height |
| LuminanceFilter.LuminanceFilter | src/main/kotlin/me/shutkin/assur/filters/LuminanceFilter.kt:10-35 | the filter step by step returns exactly the specified result |
| LuminanceFilter.LuminancePredefined | src/main/kotlin/me/shutkin/assur/filters/LuminanceFilter.kt:14-34 | with a predefined spline nothing is searched: the result always exists, keeps that spline and has no error and no median |
| LuminanceFilter.LuminancePixels | src/main/kotlin/me/shutkin/assur/filters/LuminanceFilter.kt:31-34 | result pixel `i` is source pixel `i` scaled by spline(l) / (l + 0.1), clamped into [0, 255] |
| LuminanceFilter.LuminanceSearchSamples | src/main/kotlin/me/shutkin/assur/filters/LuminanceFilter.kt:15-16 | the search sees exactly the samples from the diapason's start index to its end index, and ALL sees every sample |
| LuminanceFilter.LuminanceNoSamples | src/main/kotlin/me/shutkin/assur/filters/LuminanceFilter.kt:14-28 | without a predefined spline, a diapason holding no sample makes the filter throw on the missing best histogram |
| LuminanceFilter.NoSamplesError | src/main/kotlin/me/shutkin/assur/filters/LuminanceFilter.kt:19-25 | a search without samples fails |
| LuminanceFilter.LuminanceSearchOutcome | src/main/kotlin/me/shutkin/assur/filters/LuminanceFilter.kt:14-28 | a searched spline runs through 6 increasing knots from 0 to 255 and comes with the search's error and median |
| LuminanceFilter.IdentityDarkens | src/main/kotlin/me/shutkin/assur/filters/LuminanceFilter.kt:31-34 | with the identity spline every pixel's gain l / (l + 0.1) lies in [0, 1), so no channel grows and the clamp changes nothing |
| LuminanceFilter.ScaledPixel | src/main/kotlin/me/shutkin/assur/filters/LuminanceFilter.kt:33 | a pixel in [0, 255] scaled by a factor in [0, 1) stays in [0, 255] and darkens |
| LuminanceFilter.CorrectedPixel | src/main/kotlin/me/shutkin/assur/filters/LuminanceFilter.kt:31-34 | output pixel `i` is source pixel `i` scaled by its gain and clamped |
| LuminanceFilter.IdentityGain | src/main/kotlin/me/shutkin/assur/filters/LuminanceFilter.kt:33 | the identity spline's gain l / (l + 0.1) lies in [0, 1) |
| LuminanceFilter.RatioBelowOne | src/main/kotlin/me/shutkin/assur/filters/LuminanceFilter.kt:33 | l / (l + offset) lies in [0, 1) for a positive offset |
| Hue.Shifted | src/main/kotlin/me/shutkin/assur/filters/HueFilter.kt:20-23 | the shifted histogram has the histogram's size |
| Hue.WrapIsModulo | src/main/kotlin/me/shutkin/assur/filters/HueFilter.kt:22 | the single wrap of the index is the remainder modulo the size for indices in [-size, 2 size) |
| Hue.ShiftedIsRotation | src/main/kotlin/me/shutkin/assur/filters/HueFilter.kt:20-23 | for a shift below the size the shifted histogram is the cyclic rotation of the histogram by the shift, and keeps its sum |
| Hue.ShiftedEntries | src/main/kotlin/me/shutkin/assur/filters/HueFilter.kt:20-23 | entry `k` of the shifted histogram is bucket (k + shift) mod size |
| Hue.ShiftedSlices | src/main/kotlin/me/shutkin/assur/filters/HueFilter.kt:20-23 | the shifted histogram is the histogram from bucket `m` on followed by the buckets before `m` |
| Hue.RotationSum | src/main/kotlin/me/shutkin/assur/filters/HueFilter.kt:20-23 | rotating a histogram keeps its sum |
| Hue.SearchedShiftsInRange | src/main/kotlin/me/shutkin/assur/filters/HueFilter.kt:19 | every shift of `-size / 36 until size / 36` lies strictly between -size and size, so one wrap suffices |
| Hue.SampleDiffs | src/main/kotlin/me/shutkin/assur/filters/HueFilter.kt:24 | one `evalArraysDiff` per sample, in order |
| Hue.ShiftDiffIsClosest | src/main/kotlin/me/shutkin/assur/filters/HueFilter.kt:24 | the diff of a shift is the non-negative distance to some sample, and no sample is closer |
| Hue.Diffs | src/main/kotlin/me/shutkin/assur/filters/HueFilter.kt:19-24 | the diffs of the shifts tried, in order |
| Hue.Angles | src/main/kotlin/me/shutkin/assur/filters/HueFilter.kt:27 | the angle of each shift tried is shift · 360 / size |
| Hue.ScanIsFirstMinimum | src/main/kotlin/me/shutkin/assur/filters/HueFilter.kt:16-29 | the loop's strict comparison from Double.MAX_VALUE computes the first smallest diff and its angle |
| Hue.ScanDiffsChoosesFirstMinimum | src/main/kotlin/me/shutkin/assur/filters/HueFilter.kt:16-29 | no diff is below the result; below Double.MAX_VALUE the result is the diff at the returned shift and every earlier diff is strictly larger; otherwise the shift stays 0 |
| Hue.ScanChoosesFirstMinimum | src/main/kotlin/me/shutkin/assur/filters/HueFilter.kt:16-29 | the same, over the shifts of the search: the returned angle is that of the first shift with the smallest diff |
| Hue.BestShift | src/main/kotlin/me/shutkin/assur/filters/HueFilter.kt:16-29 | the loop computes exactly the specified `minDiff` and `bestShift` |
| Hue.DiffsList | src/main/kotlin/me/shutkin/assur/filters/HueFilter.kt:19-24 | the diffs are known shift by shift and the search is the scan over them |
| Hue.AnglesList | src/main/kotlin/me/shutkin/assur/filters/HueFilter.kt:27 | the angles are known shift by shift |
| Hue.ScanDiffsStep | src/main/kotlin/me/shutkin/assur/filters/HueFilter.kt:25-28 | one more shift becomes the best exactly when its diff is strictly smaller than the best so far |
| Hue.BestShiftBound | src/main/kotlin/me/shutkin/assur/filters/HueFilter.kt:19-28 | the chosen shift turns hues by at most 10 degrees either way |
| Hue.DegreesBound | src/main/kotlin/me/shutkin/assur/filters/HueFilter.kt:19-27 | every angle tried lies in [-10, 10] |
| Hue.WrapHue | src/main/kotlin/me/shutkin/assur/filters/HueFilter.kt:34-35 | the target hue is turned back by one turn at most, and a hue in [-360, 720] lands in [0, 360] |
| Hue.Hues | src/main/kotlin/me/shutkin/assur/filters/HueFilter.kt:18 | the hue of every pixel, in raster order |
| Hue.HueHistogram | src/main/kotlin/me/shutkin/assur/filters/HueFilter.kt:18 | `size` non-negative buckets over [0, 360] of total mass at most 1 |
| Hue.ChosenShift | src/main/kotlin/me/shutkin/assur/filters/HueFilter.kt:15-29 | the shift chosen for an image lies in [-10, 10] degrees |
| Hue.Turned | src/main/kotlin/me/shutkin/assur/filters/HueFilter.kt:32-37 | the output is well formed, has the source's size, and pixel `i` is source pixel `i` with its hue turned and wrapped |
| Hue.HueFilterOf | src/main/kotlin/me/shutkin/assur/filters/HueFilter.kt:12-38 | the filter fails exactly when there is no sample (`samples[0]`); otherwise the output has the source's size |
| Hue.HueFilter | src/main/kotlin/me/shutkin/assur/filters/HueFilter.kt:12-38 | the filter step by step returns exactly the specified result |
| Hue.HuePixels | src/main/kotlin/me/shutkin/assur/filters/HueFilter.kt:32-37 | every output pixel has its hue turned by the chosen shift, at most 10 degrees either way, and a hue in [0, 360] stays in [0, 360] |
| Hue.HueNoSamples | src/main/kotlin/me/shutkin/assur/filters/HueFilter.kt:14-15 | without samples the filter throws on `samples[0]` |
| Kernels.SquaresPositive | src/main/kotlin/me/shutkin/assur/Window.kt:29 | off the centre, x² + y² is positive, so the weight is defined |
| Kernels.RawWeight | src/main/kotlin/me/shutkin/assur/Window.kt:29 | every weight lies in [0, 1] and is 0 exactly at the centre |
| Kernels.RawWeightSymmetric | src/main/kotlin/me/shutkin/assur/Window.kt:29 | the weight does not change when a coordinate changes sign or the two are swapped |
| Kernels.KernelIndexOfOffset | src/main/kotlin/me/shutkin/assur/Window.kt:26-29 | every offset within the radius has an index of the square whose offset it is |
| Kernels.OffsetOfKernelIndex | src/main/kotlin/me/shutkin/assur/Window.kt:26-29 | the offset of every index lies within the radius and leads back to that index |
| Kernels.QuotientBelow | src/main/kotlin/me/shutkin/assur/Window.kt:27-28 | an index of an n × n square lies in one of its n rows |
| Kernels.RawWindow | src/main/kotlin/me/shutkin/assur/Window.kt:26-30 | the window has (2 radius + 1)² entries, entry `it` the weight of its offset |
| Kernels.RawWindowAt | src/main/kotlin/me/shutkin/assur/Window.kt:26-30 | the window holds the weight of every offset within the radius at that offset's index |
| Kernels.RawWindowSymmetric | src/main/kotlin/me/shutkin/assur/Window.kt:26-30 | the window is symmetric under reflection in either axis and in the diagonal |
| Kernels.KernelSum | src/main/kotlin/me/shutkin/assur/Window.kt:31 | the total is non-negative and positive exactly when the radius is at least 1 |
| StraightWindows.NormalisedWindow | src/main/kotlin/me/shutkin/assur/Window.kt:87 | one normalised weight per entry of the kernel square |
| StraightWindows.MakeStraightWindow | src/main/kotlin/me/shutkin/assur/Window.kt:76-88 | the constructor leaves a well-formed window of the given radius |
| StraightWindows.ValidWeights | src/main/kotlin/me/shutkin/assur/Window.kt:80-88 | a constructed window has one weight per offset within the radius, none negative, and only the centre weighs 0 |
| StraightWindows.NormalisedSumsToOne | src/main/kotlin/me/shutkin/assur/Window.kt:86-87 | the normalised window sums to 1 |
| StraightWindows.WeightIsNormalised | src/main/kotlin/me/shutkin/assur/Window.kt:87 | the weight of an offset is its kernel weight over the kernel's total |
| StraightWindows.WeightSymmetric | src/main/kotlin/me/shutkin/assur/Window.kt:81-87 | the normalised weights keep the kernel's symmetries |
| StraightWindows.ReadsAt | src/main/kotlin/me/shutkin/assur/Window.kt:99-105 | the loop's two reads are inside the raster and the window, and are the pixel at (x, y) and the weight of its offset |
| StraightWindows.VisitInside | src/main/kotlin/me/shutkin/assur/Window.kt:101-110 | a column inside the raster adds its pixel with its weight |
| StraightWindows.Apply | src/main/kotlin/me/shutkin/assur/Window.kt:90-114 | one output per pixel, each the specified blur |
| StraightWindows.ApplyAt | src/main/kotlin/me/shutkin/assur/Window.kt:91-113 | the generator's nested loops compute exactly the specified blur of pixel `it` |
| StraightWindows.SumRow | src/main/kotlin/me/shutkin/assur/Window.kt:101-110 | the inner loop adds exactly the row's in-bounds weighted pixels |
| StraightWindows.SinglePixelSides | src/main/kotlin/me/shutkin/assur/Window.kt:91-93 | a raster with one pixel is 1 × 1 |
| StraightWindows.SinglePixelRow | src/main/kotlin/me/shutkin/assur/Window.kt:101-110 | on a 1 × 1 raster a row adds nothing but the centre, which weighs 0 |
| StraightWindows.SinglePixelGrid | src/main/kotlin/me/shutkin/assur/Window.kt:96-111 | on a 1 × 1 raster all sums stay 0 |
| StraightWindows.RowWeightGrows | src/main/kotlin/me/shutkin/assur/Window.kt:101-110 | the weight never decreases along a row |
| StraightWindows.RowReaches | src/main/kotlin/me/shutkin/assur/Window.kt:101-110 | an in-bounds column of the row adds its weight |
| StraightWindows.GridWeightGrows | src/main/kotlin/me/shutkin/assur/Window.kt:96-111 | the weight never decreases over the rows |
| StraightWindows.GridWeightNonNegative | src/main/kotlin/me/shutkin/assur/Window.kt:96-111 | the total weight is never negative |
| StraightWindows.NeighbourWeighs | src/main/kotlin/me/shutkin/assur/Window.kt:96-111 | every neighbour inside the raster and the radius contributes its weight |
| StraightWindows.SomeNeighbourWeighs | src/main/kotlin/me/shutkin/assur/Window.kt:96-111 | on a raster of two pixels or more every pixel has a neighbour with positive weight |
| StraightWindows.NoWeightOnlyOnSinglePixel | src/main/kotlin/me/shutkin/assur/Window.kt:112 | the output is not a number (0/0) exactly on a 1 × 1 raster |
| StraightWindows.NoWeightIff | src/main/kotlin/me/shutkin/assur/Window.kt:96-111 | the total weight is 0 exactly on a 1 × 1 raster |
| StraightWindows.VisitProportional | src/main/kotlin/me/shutkin/assur/Window.kt:104-109 | visiting a pixel of colour `c` keeps every channel sum equal to `c` times the weight |
| StraightWindows.RowProportional | src/main/kotlin/me/shutkin/assur/Window.kt:101-110 | a row over a flat raster keeps the sums proportional |
| StraightWindows.GridProportional | src/main/kotlin/me/shutkin/assur/Window.kt:96-111 | the whole square over a flat raster keeps the sums proportional |
| StraightWindows.FlatBlur | src/main/kotlin/me/shutkin/assur/Window.kt:90-114 | blurring a flat raster of two pixels or more gives that colour's luminance at every pixel |
| StraightWindows.FlatSums | src/main/kotlin/me/shutkin/assur/Window.kt:96-111 | over a flat raster the sums are the colour times a positive weight |
| StraightWindows.RowLocal | src/main/kotlin/me/shutkin/assur/Window.kt:101-110 | a row reads no pixel outside the radius |
| StraightWindows.GridLocal | src/main/kotlin/me/shutkin/assur/Window.kt:96-111 | the square reads no pixel outside the radius |
| StraightWindows.BlurredIsLocal | src/main/kotlin/me/shutkin/assur/Window.kt:91-113 | output `it` depends only on the in-bounds pixels within the radius of pixel `it` |
| OptimizedWindows.FixedValues | src/main/kotlin/me/shutkin/assur/Window.kt:34-35 | one quantised value per entry of the kernel square |
| OptimizedWindows.FixedValuesAt | src/main/kotlin/me/shutkin/assur/Window.kt:35 | entry `it` is `(precision · v / sum).toLong()` of kernel entry `it` |
| OptimizedWindows.OffsetOfInjective | src/main/kotlin/me/shutkin/assur/Window.kt:39 | distinct kernel indices are recorded with distinct offsets |
| OptimizedWindows.PositiveNeedsPrecision | src/main/kotlin/me/shutkin/assur/Window.kt:35-36 | a positive quantised value needs a positive precision |
| OptimizedWindows.KeysAre | src/main/kotlin/me/shutkin/assur/Window.kt:36-38 | a key of `weightsMap` is a positive value some index was quantised to, and every such value is a key |
| OptimizedWindows.KeysDistinct | src/main/kotlin/me/shutkin/assur/Window.kt:37-38 | no key is inserted twice |
| OptimizedWindows.KeysPositive | src/main/kotlin/me/shutkin/assur/Window.kt:36 | every key is positive |
| OptimizedWindows.MembersAre | src/main/kotlin/me/shutkin/assur/Window.kt:36-39 | an offset is in the list of `f` exactly when its index was quantised to `f` |
| OptimizedWindows.NoMembers | src/main/kotlin/me/shutkin/assur/Window.kt:37-38 | a value no index was quantised to has no list yet |
| OptimizedWindows.MapStep | src/main/kotlin/me/shutkin/assur/Window.kt:34-41 | recording index `n` adds its value as a new key when positive and new, and appends its offset to that key's list only |
| OptimizedWindows.RecordStep | src/main/kotlin/me/shutkin/assur/Window.kt:36-40 | one loop body turns the map of the first `n` indices into the map of the first `n + 1` |
| OptimizedWindows.CollectWeights | src/main/kotlin/me/shutkin/assur/Window.kt:33-41 | the loop leaves `weightsMap` mapping each key to exactly the offsets quantised to it; there are keys only with a positive precision |
| OptimizedWindows.Record | src/main/kotlin/me/shutkin/assur/Window.kt:35-40 | one loop body records index `index` as specified |
| OptimizedWindows.Interleave | src/main/kotlin/me/shutkin/assur/Window.kt:47-48 | the offsets array has two entries per offset |
| OptimizedWindows.Pairs | src/main/kotlin/me/shutkin/assur/Window.kt:62-63 | one pair per two entries, read as `apply` reads them |
| OptimizedWindows.PairsOfInterleave | src/main/kotlin/me/shutkin/assur/Window.kt:47-48 | reading the pairs of an interleaved array gives back the offsets that were interleaved |
| OptimizedWindows.OptimizedOf | src/main/kotlin/me/shutkin/assur/Window.kt:21-50 | the constructed window keeps its radius |
| OptimizedWindows.KeysNeedPrecision | src/main/kotlin/me/shutkin/assur/Window.kt:33-41 | the map has keys only with a positive precision |
| OptimizedWindows.MakeOptimizedWindow | src/main/kotlin/me/shutkin/assur/Window.kt:21-50 | the constructor builds exactly the specified window |
| OptimizedWindows.GroupsAgree | src/main/kotlin/me/shutkin/assur/Window.kt:43-49 | the groups built from the map are those of the specification |
| OptimizedWindows.GroupOfKey | src/main/kotlin/me/shutkin/assur/Window.kt:43-49 | group `g` weighs key `g` over `precision` and holds exactly that key's offsets |
| OptimizedWindows.GroupMembership | src/main/kotlin/me/shutkin/assur/Window.kt:33-49 | the offset of kernel index `k` is in group `g` exactly when `k` was quantised to that group's key |
| OptimizedWindows.OneGroupPerOffset | src/main/kotlin/me/shutkin/assur/Window.kt:33-49 | every kernel offset quantised to a positive value is in exactly one group, and the others in none |
| OptimizedWindows.GroupWeights | src/main/kotlin/me/shutkin/assur/Window.kt:43-49 | every group weighs more than 0 and no two groups weigh the same |
| OptimizedWindows.MemberWeightBounds | src/main/kotlin/me/shutkin/assur/Window.kt:35-47 | a group's weight is each member's normalised weight rounded down to a multiple of 1 / precision |
| OptimizedWindows.MemberWeight | src/main/kotlin/me/shutkin/assur/Window.kt:35-47 | a group's weight is each member's quantised weight over `precision` |
| OptimizedWindows.QuantisedShare | src/main/kotlin/me/shutkin/assur/Window.kt:35-47 | `fixedValue / precision` is within 1 / precision below `v / sum` |
| OptimizedWindows.GroupOffsetsWithin | src/main/kotlin/me/shutkin/assur/Window.kt:39-48 | every stored offset lies within the radius and is not the centre |
| OptimizedWindows.CentreQuantisedToZero | src/main/kotlin/me/shutkin/assur/Window.kt:29-36 | the centre weighs 0 and is never stored |
| OptimizedWindows.PairContribs | src/main/kotlin/me/shutkin/assur/Window.kt:62-69 | the pair loop adds only to in-bounds targets and always with the group's weight |
| OptimizedWindows.GroupContribs | src/main/kotlin/me/shutkin/assur/Window.kt:59-70 | every contribution of a pixel targets a pixel of the raster |
| OptimizedWindows.Contribs | src/main/kotlin/me/shutkin/assur/Window.kt:55-71 | every contribution of the pixel loop targets a pixel of the raster |
| OptimizedWindows.AtAppend | src/main/kotlin/me/shutkin/assur/Window.kt:66-67 | adding one contribution changes the totals at its target only |
| OptimizedWindows.Apply | src/main/kotlin/me/shutkin/assur/Window.kt:52-73 | one result per pixel, each `sums[it] / weights[it]` of all contributions as specified (0 / 0 as no value) |
| OptimizedWindows.ContribsStep | src/main/kotlin/me/shutkin/assur/Window.kt:55-71 | one more pixel adds its groups' contributions after those before it |
| OptimizedWindows.GroupStep | src/main/kotlin/me/shutkin/assur/Window.kt:59-70 | one more group adds its pairs' contributions |
| OptimizedWindows.PairStep | src/main/kotlin/me/shutkin/assur/Window.kt:62-69 | one more pair adds a contribution exactly when its target is inside the raster |
| OptimizedWindows.ScaledBetween | src/main/kotlin/me/shutkin/assur/Window.kt:60-61 | a luminance in [lo, hi] times a non-negative weight is a contribution in [lo, hi] per unit of weight |
| OptimizedWindows.PairContribsBetween | src/main/kotlin/me/shutkin/assur/Window.kt:62-69 | the pair loop's contributions keep their values between lo and hi times their weight |
| OptimizedWindows.GroupContribsBetween | src/main/kotlin/me/shutkin/assur/Window.kt:59-70 | a pixel's contributions keep their values between lo and hi times their weight |
| OptimizedWindows.ContribsBetween | src/main/kotlin/me/shutkin/assur/Window.kt:55-71 | every contribution keeps its value between lo and hi times its weight |
| OptimizedWindows.AddBetween | src/main/kotlin/me/shutkin/assur/Window.kt:66-67 | adding such a contribution keeps the totals between lo and hi times the weight |
| OptimizedWindows.TotalsBetweenAt | src/main/kotlin/me/shutkin/assur/Window.kt:53-71 | the totals at every index stay between lo and hi times the weight |
| OptimizedWindows.AveragedWithinLuminance | src/main/kotlin/me/shutkin/assur/Window.kt:52-73 | with positive weights every result lies between the least and the greatest luminance of the raster |
| OptimizedWindows.FlatStaysFlat | src/main/kotlin/me/shutkin/assur/Window.kt:52-73 | a raster of one luminance comes out as that luminance wherever there is weight |
| OptimizedWindows.OptimizedHasNoCentre | src/main/kotlin/me/shutkin/assur/Window.kt:33-49 | no group of the constructed window holds the centre offset |
| OptimizedWindows.OnePixel | src/main/kotlin/me/shutkin/assur/Window.kt:56-57 | a raster of one pixel is 1 × 1 |
| OptimizedWindows.PairContribsOnePixel | src/main/kotlin/me/shutkin/assur/Window.kt:62-69 | on a 1 × 1 raster no offset but the centre lands inside |
| OptimizedWindows.GroupContribsOnePixel | src/main/kotlin/me/shutkin/assur/Window.kt:59-70 | on a 1 × 1 raster a window without the centre contributes nothing |
| OptimizedWindows.OnePixelHasNoWeight | src/main/kotlin/me/shutkin/assur/Window.kt:72 | on a 1 × 1 raster a window without the centre gives 0 / 0, no value |
| OptimizedWindows.OptimizedWeightsPositive | src/main/kotlin/me/shutkin/assur/Window.kt:35-47 | the constructed window has only positive weights |
| OptimizedWindows.GroupContribsPositive | src/main/kotlin/me/shutkin/assur/Window.kt:59-70 | with positive weights every contribution of a pixel has positive weight |
| OptimizedWindows.ContribsPositive | src/main/kotlin/me/shutkin/assur/Window.kt:55-71 | with positive weights every contribution has positive weight |
| OptimizedWindows.NoWeightIffUntouched | src/main/kotlin/me/shutkin/assur/Window.kt:67 | with positive weights the total weight at an index is 0 exactly when no contribution targets it |
| OptimizedWindows.NoneIffUnreached | src/main/kotlin/me/shutkin/assur/Window.kt:72 | with positive weights result `it` is 0 / 0 exactly when no pixel's window reaches `it` |
| OptimizedWindows.Scatter | src/main/kotlin/me/shutkin/assur/Window.kt:53-71 | the pixel loop leaves in `sums` and `weights` at every index exactly the totals of the specified contributions landing there |
| OptimizedWindows.ScatterPixel | src/main/kotlin/me/shutkin/assur/Window.kt:59-70 | the group loop of one pixel adds exactly that pixel's contributions to the totals |
| OptimizedWindows.ScatterGroup | src/main/kotlin/me/shutkin/assur/Window.kt:62-69 | the pair loop of one group adds exactly its in-bounds contributions to the totals |
| OptimizedWindows.Accumulate | src/main/kotlin/me/shutkin/assur/Window.kt:66-67 | one in-place addition keeps the arrays equal to the totals of the contributions so far |

## Left out

- The image codecs are not modelled, because they are I/O. This covers `readHDRRaster` and `saveHDRRaster` (ImageIO and BufferedImage), `saveHistogram`, and the file handling of `Assur.variants`, `process` and `main`.
- The directory walks of `collectReferences`, `collectSamples`, `saveReferences` and `saveSamples` are not modelled. Their corpora enter the model as parameters.
- The FFT.kt and FFTFilter.kt files are not part of this model. They compute trigonometric complex floating-point arithmetic, and FFTFilter calls code that is not shown.
- ParallelArray.kt is not part of this model. Its point is coroutine concurrency; every array it would generate in parallel is a sequence comprehension here.
- DetailsFilter.kt and SaturationFilter.kt are not part of this model. They call APIs absent from the modelled code. In the variant search their stages are ordinary `StageFilter` parameters.
- DetailsSamples.kt, HistogramSamples.kt, SaturationSamples.kt, FFTSamples.kt, HueSamples.kt and SpectrumSamples.kt are not part of this model. They are offline command-line tools around the corpus collection, which is itself I/O.
- AssurLogger.kt and every `context.log` call are left out because they only log.
- Floating-point rounding is not modelled: every `Double` or `Float` is an exact `real`. No result that depends on IEEE rounding, on `toFloat()` conversions, on overflow to infinity or on NaN propagation beyond 0 / 0 is claimed.
- Integer width is not modelled: Kotlin `Int` is 32 bits, every model integer is unbounded. So the pair count of `findAverageDiff` (Grouping.kt lines 35-37), which overflows from 65 537 samples on, and the pixel indices `y * width + x` never wrap in the model.
- `Math.sqrt`, `Math.exp` and `Math.pow`, and the HSL conversions of the hue stage, are parameters constrained only by sign. No result depends on their exact values.
- Variants.DiapasonBounds: `(size * 0.33).toInt()` and `(size * 0.66).toInt()` are taken as `size * 33 / 100` and `size * 66 / 100`. The double products can round differently.
- Grouping.DiffFactorPositive: the model and the source both run at most 25 passes. The 25th subtraction of 0.2 in doubles leaves a factor just below 0, so the loop stops where the exact decimals stop. Only the intermediate factors differ (4.6000000000000005 and so on in doubles), which the floating-point line above covers.
- Variants.GenerateStageVariants: a stage filter is a total function to a `FilterResult`. An exception thrown inside a filter is modelled by that filter's own `Result` and does not flow through the search.
- OptimizedWindows.GroupsAgree: the order in which a `HashMap` yields its keys is not modelled. Groups are listed in the order in which their keys were first inserted, and no stated property depends on the order.
- Adjuster.SplineAdjuster.FindSpline: the test function receives the knots and values from which the `CubicSpline` is built, not the spline object. The adjuster's `WellFormed` requires `minValue < maxValue`, because equal bounds make the knots collapse. It also requires `steps != 1`, because `getVariant` then divides by 0, and no test histogram of one bucket, whose median divides 0 by 0.
- ZonalFilter.SearchProblem: the modelled search tests each candidate on the corrected test image, read from `reduced.data`, not on the image ZonalFilter.kt:33 reads from `source.data` (see Findings). `ZonalFilter.ZonalFilterOf` and the method `ZonalFilter.ZonalFilter` use it, so on sources larger than 384 pixels on a side their searched spline, error and median are those of the intended program. The search as written is `ZonalFilter.AsWrittenSearchProblem`, and `ZonalFilter.AsWrittenSearchAgreesWhenFits` shows the two agree on sources that fit in 384 × 384.
- ReferenceCorpus.DeserializeReferences: a `sampleSize` of 1 is excluded, because the median of a one-bucket histogram is 0 / 0.
- Grouping.Group: the samples must share one length of other than 1 and have a positive average distance. With an average distance of 0 (all samples equal) or NaN (fewer than two samples) the test `minGroupDiff < averageDiff * diffFactor` never holds, so every sample opens a group of its own. Below 80 samples `minSamplesInGroup` is 0, so the empty initial group is kept as well, and its mean row is 0 / 0, a row of NaN. The model has no NaN rows, so these inputs are left out.
- Histograms: `convertIndexToValue` and the median query require a histogram of other than one bucket, because a single bucket divides 0 by 0.
- Splines.CubicSpline.constructor: it requires strictly increasing knots, at least two of them. One knot makes the source read `beta[0]` of an empty array, and repeated knots divide by zero.
- ReduceSize.ReduceSizeFilter: it requires `maxSize >= 1`, as every caller passes. A maximum of 0 makes the scale 0 and `pixelSize` the infinity of 1.0 / 0.0.
- StraightWindows.NormalisedWindow: it requires `radius >= 1`. A radius of 0 leaves only the centre, whose weight is 0, so normalising divides 0 by 0.
- References.kt line 45 calls `grouping` with three arguments, while Grouping.kt line 6 takes two. The model uses the two-argument `grouping` of Grouping.kt.
- LuminanceFilter.kt line 17 and ZonalFilter.kt line 22 call `reduceSizeFilter` with three arguments, while ReduceSizeFilter.kt line 7 takes `(context, source, maxSize, verbose)`. The model's `ReduceSize.ReduceSizeOf(source, maxSize)` drops the `context` and `verbose` parameters, which serve only logging.
- ZonalFilter.kt line 25 and LuminanceFilter.kt line 19 each call a `findSpline` signature and read an `adjuster.smallestError` which the shown SplineAdjuster.kt does not have. The model connects both calls to `Variants.FitOf`. It runs the three-level search of SplineAdjuster.kt, and its result carries the search's smallest error and best median.

## Findings

| source | as written | input that shows it | evidently intended | confidence | as-written member | corrected member |
|---|---|---|---|---|---|---|
| src/main/kotlin/me/shutkin/assur/HDRRaster.kt:47 | `min` returns `b` unless some channel is strictly below both others, so a tie between the two smallest channels answers `b` | the pixel (1, 1, 2): `min` is 2, the least channel is 1 | the least of the three channels | not executed | Rasters.MinTieCounterexample | Rasters.RGB.LeastChannel |
| src/main/kotlin/me/shutkin/assur/HDRRaster.kt:48 | `max` returns `b` unless some channel is strictly above both others, so a tie between the two largest channels answers `b` | the pixel (2, 2, 1): `max` is 1, the greatest channel is 2 | the greatest of the three channels | not executed | Rasters.MaxTieCounterexample | Rasters.RGB.GreatestChannel |
| src/main/kotlin/me/shutkin/assur/filters/ZonalFilter.kt:33 | the test image of each candidate spline corrects pixel `it` of the full-size `source` while its size, zones and luminances are those of the `reduced` image | a 768 × 16 image whose top row is white and the rest black: its reduced 384 × 8 image has pixel 384 black, but the test image takes source pixel 384, which is white | correct pixel `it` of `reduced` | not executed | ZonalFilter.AsWrittenTestMisreads | ZonalFilter.TestRaster |
