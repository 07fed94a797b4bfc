/** ReduceSizeFilter.kt: a raster larger than `maxSize` on either side is
    scaled down so that its larger side fits; each output pixel is a
    weighted average of the source pixels in columns floor(x) .. ceil(x +
    pixelSize) and rows floor(y) .. ceil(y + pixelSize). On each axis the
    first column counts with the fraction of it that is covered, the column
    ceil(x + pixelSize) counts with the covered fraction of the column
    before it, and every other column counts 1. So x = 0.5 and pixelSize = 2
    weigh columns 0 .. 3 by 0.5, 1, 1, 0.5, and when x + pixelSize is whole
    the column ceil(x + pixelSize), which is not covered at all, counts 1. */
module ReduceSize {
  import opened Rasters
  import Histograms

  /** `Math.floor(v).toInt()`. */
  function Floor(v: real): (f: int)
    ensures f as real <= v < f as real + 1.0
  {
    v.Floor
  }

  /** `Math.ceil(v).toInt()`. */
  function Ceil(v: real): (c: int)
    ensures c as real - 1.0 < v <= c as real
  {
    -((-v).Floor)
  }

  /** The source pixels read for one output pixel: columns startX .. endX
      and rows startY .. endY. `startXf` is the covered fraction of column
      startX; `endXf` is the covered fraction of column endX - 1 (1 when
      x + pixelSize is whole), and it is applied to column endX. Rows
      likewise. */
  datatype Footprint = Footprint(startX: int, startY: int, endX: int, endY: int,
                                 startXf: real, startYf: real, endXf: real, endYf: real)

  /** The footprint of the output pixel whose top-left corner is (x, y) in
      source coordinates, `pixelSize` source pixels wide. */
  function FootprintAt(pixelSize: real, x: real, y: real): Footprint
  {
    var startX, startY := Floor(x), Floor(y);
    var endX, endY := Ceil(x + pixelSize), Ceil(y + pixelSize);
    Footprint(startX, startY, endX, endY,
              1.0 - (x - startX as real), 1.0 - (y - startY as real),
              1.0 - (endX as real - x - pixelSize), 1.0 - (endY as real - y - pixelSize))
  }

  /** The factor one axis puts into `f`: `startF` on the first column,
      `endF` on column `end`, 1 on every column in between. */
  function AxisFactor(s: int, start: int, end: int, startF: real, endF: real): real
  {
    if s == start then startF else if s == end then endF else 1.0
  }

  /** `f` for source pixel (sX, sY). */
  function Weight(fp: Footprint, sX: int, sY: int): real
  {
    AxisFactor(sX, fp.startX, fp.endX, fp.startXf, fp.endXf) * AxisFactor(sY, fp.startY, fp.endY, fp.startYf, fp.endYf)
  }

  /** Both axis factors of a footprint lie in (0, 1]. */
  lemma AxisFactorBounds(v: real, pixelSize: real, s: int)
    requires pixelSize > 0.0
    ensures var start, end := Floor(v), Ceil(v + pixelSize);
            0.0 < AxisFactor(s, start, end, 1.0 - (v - start as real), 1.0 - (end as real - v - pixelSize)) <= 1.0
  {
  }

  lemma ProductInUnit(a: real, b: real)
    requires 0.0 < a <= 1.0 && 0.0 < b <= 1.0
    ensures 0.0 < a * b <= 1.0
  {
    assert a * b <= a * 1.0;
  }

  /** Every weight lies in (0, 1]. */
  lemma WeightBounds(pixelSize: real, x: real, y: real, sX: int, sY: int)
    requires pixelSize > 0.0
    ensures 0.0 < Weight(FootprintAt(pixelSize, x, y), sX, sY) <= 1.0
  {
    AxisFactorBounds(x, pixelSize, sX);
    AxisFactorBounds(y, pixelSize, sY);
    var fp := FootprintAt(pixelSize, x, y);
    ProductInUnit(AxisFactor(sX, fp.startX, fp.endX, fp.startXf, fp.endXf),
                  AxisFactor(sY, fp.startY, fp.endY, fp.startYf, fp.endYf));
  }

  /** The running `sumR`, `sumG`, `sumB` and `sum`. */
  datatype Acc = Acc(r: real, g: real, b: real, w: real)

  /** The sums after adding `pixel` with weight `f`. */
  function AddWeighted(a: Acc, f: real, pixel: RGB): (a': Acc)
    ensures a'.w == a.w + f
  {
    Acc(a.r + f * pixel.r, a.g + f * pixel.g, a.b + f * pixel.b, a.w + f)
  }

  predicate InBounds(source: HDRRaster, sX: int, sY: int)
  {
    0 <= sX < source.width && 0 <= sY < source.height
  }

  /** One step of the inner loop: an in-bounds pixel adds its weighted channels. */
  function Visit(source: HDRRaster, fp: Footprint, a: Acc, sX: int, sY: int): Acc
    requires source.Valid()
  {
    if InBounds(source, sX, sY) then
      PixelIndex(source.width, source.height, sX, sY);
      var f := Weight(fp, sX, sY);
      var pixel := source.data[sY * source.width + sX];
      AddWeighted(a, f, pixel)
    else a
  }

  function Columns(fp: Footprint): nat
  {
    if fp.endX >= fp.startX then fp.endX - fp.startX + 1 else 0
  }

  function Rows(fp: Footprint): nat
  {
    if fp.endY >= fp.startY then fp.endY - fp.startY + 1 else 0
  }

  /** After the first `n` columns of row `sY`. */
  function RowAcc(source: HDRRaster, fp: Footprint, a: Acc, sY: int, n: nat): Acc
    requires source.Valid()
  {
    if n == 0 then a else Visit(source, fp, RowAcc(source, fp, a, sY, n - 1), fp.startX + n - 1, sY)
  }

  /** After the first `m` rows. */
  function GridAcc(source: HDRRaster, fp: Footprint, m: nat): Acc
    requires source.Valid()
  {
    if m == 0 then Acc(0.0, 0.0, 0.0, 0.0) else RowAcc(source, fp, GridAcc(source, fp, m - 1), fp.startY + m - 1, Columns(fp))
  }

  /** What `getSourceAverage` needs: the footprint's first pixel is inside
      the raster, which holds for every output pixel. */
  predicate AverageDefined(source: HDRRaster, pixelSize: real, x: real, y: real)
  {
    source.Valid() && pixelSize > 0.0 && 0.0 <= x && 0.0 <= y &&
    Floor(x) < source.width && Floor(y) < source.height
  }

  /** The weighted average of the footprint. */
  function SourceAverage(source: HDRRaster, pixelSize: real, x: real, y: real): RGB
    requires AverageDefined(source, pixelSize, x, y)
  {
    var fp := FootprintAt(pixelSize, x, y);
    var a := GridAcc(source, fp, Rows(fp));
    TotalWeightPositive(source, pixelSize, x, y);
    RGB(a.r / a.w, a.g / a.w, a.b / a.w)
  }

  // ---- the total weight ----

  /** Weights never decrease along a row. */
  lemma {:induction false} RowWeightGrows(source: HDRRaster, pixelSize: real, x: real, y: real, a: Acc, sY: int, n: nat, k: nat)
    requires source.Valid() && pixelSize > 0.0 && k <= n
    ensures RowAcc(source, FootprintAt(pixelSize, x, y), a, sY, n).w >= RowAcc(source, FootprintAt(pixelSize, x, y), a, sY, k).w
  {
    if k < n {
      var fp := FootprintAt(pixelSize, x, y);
      RowWeightGrows(source, pixelSize, x, y, a, sY, n - 1, k);
      WeightBounds(pixelSize, x, y, fp.startX + n - 1, sY);
    }
  }

  lemma {:induction false} GridWeightGrows(source: HDRRaster, pixelSize: real, x: real, y: real, m: nat, k: nat)
    requires source.Valid() && pixelSize > 0.0 && k <= m
    ensures GridAcc(source, FootprintAt(pixelSize, x, y), m).w >= GridAcc(source, FootprintAt(pixelSize, x, y), k).w
  {
    if k < m {
      var fp := FootprintAt(pixelSize, x, y);
      GridWeightGrows(source, pixelSize, x, y, m - 1, k);
      RowWeightGrows(source, pixelSize, x, y, GridAcc(source, fp, m - 1), fp.startY + m - 1, Columns(fp), 0);
    }
  }

  /** The first pixel of the footprint is in bounds with a positive weight,
      so the total weight `sum` is positive. */
  lemma TotalWeightPositive(source: HDRRaster, pixelSize: real, x: real, y: real)
    requires AverageDefined(source, pixelSize, x, y)
    ensures GridAcc(source, FootprintAt(pixelSize, x, y), Rows(FootprintAt(pixelSize, x, y))).w > 0.0
  {
    var fp := FootprintAt(pixelSize, x, y);
    assert Rows(fp) >= 1 && Columns(fp) >= 1;
    WeightBounds(pixelSize, x, y, fp.startX, fp.startY);
    RowWeightGrows(source, pixelSize, x, y, GridAcc(source, fp, 0), fp.startY, Columns(fp), 1);
    GridWeightGrows(source, pixelSize, x, y, Rows(fp), 1);
  }

  // ---- a uniform source ----

  /** The sums of a uniform source are its colour times the total weight. */
  predicate Proportional(a: Acc, c: RGB)
  {
    a.r == a.w * c.r && a.g == a.w * c.g && a.b == a.w * c.b
  }

  lemma Distribute(w: real, f: real, v: real)
    ensures (w + f) * v == w * v + f * v
  {
  }

  /** Every pixel from row `y0` down has colour `c`. */
  predicate ColourFrom(source: HDRRaster, y0: int, c: RGB)
  {
    forall i :: 0 <= i < |source.data| && y0 * source.width <= i ==> source.data[i] == c
  }

  lemma RowStartBelow(width: nat, y0: int, sY: nat, sX: nat)
    requires y0 <= sY
    ensures y0 * width <= sY * width + sX
  {
    assert (sY - y0) * width >= 0;
  }

  /** Visiting a pixel of colour `c` keeps the sums proportional. */
  lemma VisitProportional(source: HDRRaster, fp: Footprint, a: Acc, sX: int, sY: int, c: RGB, y0: int)
    requires source.Valid() && Proportional(a, c) && ColourFrom(source, y0, c) && y0 <= sY
    ensures Proportional(Visit(source, fp, a, sX, sY), c)
  {
    if InBounds(source, sX, sY) {
      PixelIndex(source.width, source.height, sX, sY);
      RowStartBelow(source.width, y0, sY, sX);
      var f := Weight(fp, sX, sY);
      assert source.data[sY * source.width + sX] == c;
      Distribute(a.w, f, c.r);
      Distribute(a.w, f, c.g);
      Distribute(a.w, f, c.b);
    }
  }

  lemma {:induction false} RowProportional(source: HDRRaster, fp: Footprint, a: Acc, sY: int, n: nat, c: RGB, y0: int)
    requires source.Valid() && Proportional(a, c) && ColourFrom(source, y0, c) && y0 <= sY
    ensures Proportional(RowAcc(source, fp, a, sY, n), c)
  {
    if n > 0 {
      RowProportional(source, fp, a, sY, n - 1, c, y0);
      VisitProportional(source, fp, RowAcc(source, fp, a, sY, n - 1), fp.startX + n - 1, sY, c, y0);
    }
  }

  lemma {:induction false} GridProportional(source: HDRRaster, fp: Footprint, m: nat, c: RGB, y0: int)
    requires source.Valid() && ColourFrom(source, y0, c) && y0 <= fp.startY
    ensures Proportional(GridAcc(source, fp, m), c)
  {
    if m > 0 {
      GridProportional(source, fp, m - 1, c, y0);
      RowProportional(source, fp, GridAcc(source, fp, m - 1), fp.startY + m - 1, Columns(fp), c, y0);
    }
  }

  /** When every pixel from the footprint's first row down has colour `c`,
      the average is `c`. */
  lemma AverageOfColourFrom(source: HDRRaster, pixelSize: real, x: real, y: real, c: RGB)
    requires AverageDefined(source, pixelSize, x, y) && ColourFrom(source, Floor(y), c)
    ensures SourceAverage(source, pixelSize, x, y) == c
  {
    var fp := FootprintAt(pixelSize, x, y);
    GridProportional(source, fp, Rows(fp), c, Floor(y));
    TotalWeightPositive(source, pixelSize, x, y);
    var a := GridAcc(source, fp, Rows(fp));
    assert SourceAverage(source, pixelSize, x, y) == RGB(a.r / a.w, a.g / a.w, a.b / a.w);
    ProportionalAverage(a, c);
  }

  lemma ProportionalAverage(a: Acc, c: RGB)
    requires Proportional(a, c) && a.w > 0.0
    ensures RGB(a.r / a.w, a.g / a.w, a.b / a.w) == c
  {
  }

  /** Over a source of one colour the average is that colour. */
  lemma UniformAverage(source: HDRRaster, pixelSize: real, x: real, y: real, c: RGB)
    requires AverageDefined(source, pixelSize, x, y)
    requires forall i :: 0 <= i < |source.data| ==> source.data[i] == c
    ensures SourceAverage(source, pixelSize, x, y) == c
  {
    AverageOfColourFrom(source, pixelSize, x, y, c);
  }

  // ---- getSourceAverage ----

  /** `getSourceAverage(source, pixelSize, x, y)`. */
  method GetSourceAverage(source: HDRRaster, pixelSize: real, x: real, y: real) returns (p: RGB)
    requires AverageDefined(source, pixelSize, x, y)
    ensures p == SourceAverage(source, pixelSize, x, y)
  {
    var startX, startY := Floor(x), Floor(y);
    var endX, endY := Ceil(x + pixelSize), Ceil(y + pixelSize);
    var startXf, startYf := 1.0 - (x - startX as real), 1.0 - (y - startY as real);
    var endXf, endYf := 1.0 - (endX as real - x - pixelSize), 1.0 - (endY as real - y - pixelSize);
    var fp := Footprint(startX, startY, endX, endY, startXf, startYf, endXf, endYf);
    assert fp == FootprintAt(pixelSize, x, y);
    var sumR, sumG, sumB, sum := 0.0, 0.0, 0.0, 0.0;
    for sY := startY to endY + 1
      invariant Acc(sumR, sumG, sumB, sum) == GridAcc(source, fp, sY - startY)
    {
      sumR, sumG, sumB, sum := SumRow(source, fp, sY, sumR, sumG, sumB, sum);
    }
    TotalWeightPositive(source, pixelSize, x, y);
    p := RGB(sumR / sum, sumG / sum, sumB / sum);
  }

  /** The inner loop over `sX in startX..endX` of one row. */
  method SumRow(source: HDRRaster, fp: Footprint, sY: int, sumR0: real, sumG0: real, sumB0: real, sum0: real)
    returns (sumR: real, sumG: real, sumB: real, sum: real)
    requires source.Valid() && fp.startX <= fp.endX
    ensures Acc(sumR, sumG, sumB, sum) == RowAcc(source, fp, Acc(sumR0, sumG0, sumB0, sum0), sY, Columns(fp))
  {
    sumR, sumG, sumB, sum := sumR0, sumG0, sumB0, sum0;
    for sX := fp.startX to fp.endX + 1
      invariant Acc(sumR, sumG, sumB, sum) == RowAcc(source, fp, Acc(sumR0, sumG0, sumB0, sum0), sY, sX - fp.startX)
    {
      RowAccStep(source, fp, Acc(sumR0, sumG0, sumB0, sum0), sY, sX - fp.startX);
      sumR, sumG, sumB, sum := VisitPixel(source, fp, sX, sY, sumR, sumG, sumB, sum);
    }
  }

  /** The body of the inner loop at (sX, sY). */
  method VisitPixel(source: HDRRaster, fp: Footprint, sX: int, sY: int, sumR0: real, sumG0: real, sumB0: real, sum0: real)
    returns (sumR: real, sumG: real, sumB: real, sum: real)
    requires source.Valid()
    ensures Acc(sumR, sumG, sumB, sum) == Visit(source, fp, Acc(sumR0, sumG0, sumB0, sum0), sX, sY)
  {
    sumR, sumG, sumB, sum := sumR0, sumG0, sumB0, sum0;
    if sX >= 0 && sX < source.width && sY >= 0 && sY < source.height {
      var f := PixelWeight(fp, sX, sY);
      PixelIndex(source.width, source.height, sX, sY);
      var pixel := source.data[sY * source.width + sX];
      sumR := sumR + f * pixel.r;
      sumG := sumG + f * pixel.g;
      sumB := sumB + f * pixel.b;
      sum := sum + f;
      assert Acc(sumR, sumG, sumB, sum) == AddWeighted(Acc(sumR0, sumG0, sumB0, sum0), f, pixel);
    }
  }

  lemma RowAccStep(source: HDRRaster, fp: Footprint, a: Acc, sY: int, n: nat)
    requires source.Valid()
    ensures RowAcc(source, fp, a, sY, n + 1) == Visit(source, fp, RowAcc(source, fp, a, sY, n), fp.startX + n, sY)
  {
  }

  /** The `f` of the inner loop body. */
  method PixelWeight(fp: Footprint, sX: int, sY: int) returns (f: real)
    ensures f == Weight(fp, sX, sY)
  {
    f := 1.0;
    if sX == fp.startX {
      f := f * fp.startXf;
    } else if sX == fp.endX {
      f := f * fp.endXf;
    }
    assert f == AxisFactor(sX, fp.startX, fp.endX, fp.startXf, fp.endXf);
    if sY == fp.startY {
      f := f * fp.startYf;
    } else if sY == fp.endY {
      f := f * fp.endYf;
    }
  }

  // ---- reduceSizeFilter ----

  /** The larger side of the source. */
  function Larger(source: HDRRaster): nat
  {
    if source.width > source.height then source.width else source.height
  }

  /** `maxSize / max(width, height)`, for a raster that is too large. */
  function Scale(source: HDRRaster, maxSize: nat): real
    requires source.width > maxSize || source.height > maxSize
  {
    maxSize as real / Larger(source) as real
  }

  /** `(scale * side).toInt()`. */
  function ScaledSide(maxSize: nat, larger: nat, side: nat): int
    requires larger > 0
  {
    Histograms.Trunc(maxSize as real / larger as real * side as real)
  }

  /** The reduced dimensions `(scale * width).toInt()` and `(scale * height).toInt()`. */
  function ReducedWidth(source: HDRRaster, maxSize: nat): int
    requires source.width > maxSize || source.height > maxSize
  {
    ScaledSide(maxSize, Larger(source), source.width)
  }

  function ReducedHeight(source: HDRRaster, maxSize: nat): int
    requires source.width > maxSize || source.height > maxSize
  {
    ScaledSide(maxSize, Larger(source), source.height)
  }

  /** The scale lies in (0, 1), and the reduced sides are between 0 and
      `maxSize`, each at most the scaled source side. */
  lemma ScaleProperties(source: HDRRaster, maxSize: nat)
    requires maxSize >= 1 && (source.width > maxSize || source.height > maxSize)
    ensures 0.0 < Scale(source, maxSize) < 1.0
    ensures 0 <= ReducedWidth(source, maxSize) <= maxSize && 0 <= ReducedHeight(source, maxSize) <= maxSize
  {
    ScaledSideBounds(maxSize, Larger(source), source.width);
    ScaledSideBounds(maxSize, Larger(source), source.height);
  }

  /** Each reduced side is at most the scaled source side. */
  lemma ReducedWidthFits(source: HDRRaster, maxSize: nat)
    requires maxSize >= 1 && (source.width > maxSize || source.height > maxSize)
    ensures ReducedWidth(source, maxSize) as real <= Scale(source, maxSize) * source.width as real
  {
    ScaledSideBounds(maxSize, Larger(source), source.width);
  }

  lemma ReducedHeightFits(source: HDRRaster, maxSize: nat)
    requires maxSize >= 1 && (source.width > maxSize || source.height > maxSize)
    ensures ReducedHeight(source, maxSize) as real <= Scale(source, maxSize) * source.height as real
  {
    ScaledSideBounds(maxSize, Larger(source), source.height);
  }

  /** `side * maxSize / larger` lies between 0 and `maxSize`. */
  lemma ScaledSideBounds(maxSize: nat, larger: nat, side: nat)
    requires 1 <= maxSize < larger && side <= larger
    ensures 0.0 < maxSize as real / larger as real < 1.0
    ensures 0 <= ScaledSide(maxSize, larger, side) <= maxSize
    ensures ScaledSide(maxSize, larger, side) as real <= maxSize as real / larger as real * side as real
  {
    ScaleBelowOne(maxSize, larger);
    ScaledBelowMax(maxSize, larger, side);
    TruncBetween(maxSize as real / larger as real * side as real, maxSize);
  }

  lemma ScaleBelowOne(maxSize: nat, larger: nat)
    requires 1 <= maxSize < larger
    ensures 0.0 < maxSize as real / larger as real < 1.0
  {
  }

  lemma ScaledBelowMax(maxSize: nat, larger: nat, side: nat)
    requires 1 <= maxSize < larger && side <= larger
    ensures 0.0 <= maxSize as real / larger as real * side as real <= maxSize as real
  {
    var scale := maxSize as real / larger as real;
    assert scale * larger as real == maxSize as real;
    MulMonotone(scale, side as real, larger as real);
  }

  lemma TruncBetween(v: real, m: nat)
    requires 0.0 <= v <= m as real
    ensures 0 <= Histograms.Trunc(v) <= m && Histograms.Trunc(v) as real <= v
  {
  }

  lemma MulMonotone(s: real, a: real, b: real)
    requires s >= 0.0 && 0.0 <= a <= b
    ensures 0.0 <= s * a <= s * b
  {
  }

  /** The source coordinate of output column (or row) `a`, when `a` is below
      a reduced side `n <= scale * side`, lies inside the source side. */
  lemma CoordinateInside(a: nat, n: int, scale: real, side: nat)
    requires a < n && n as real <= scale * side as real && scale > 0.0
    ensures 0.0 <= a as real / scale && Floor(a as real / scale) < side
  {
    var q := a as real / scale;
    assert q * scale == a as real;
    if q >= side as real {
      MulMonotone(scale, side as real, q);
    }
  }

  /** What the reduced raster needs of its scale and sides: a positive
      scale, and sides no larger than the scaled source sides. */
  predicate Fits(source: HDRRaster, scale: real, width: int, height: int)
  {
    scale > 0.0 && 0 <= width && 0 <= height &&
    width as real <= scale * source.width as real && height as real <= scale * source.height as real
  }

  lemma ReductionFits(source: HDRRaster, maxSize: nat)
    requires maxSize >= 1 && (source.width > maxSize || source.height > maxSize)
    ensures Fits(source, Scale(source, maxSize), ReducedWidth(source, maxSize), ReducedHeight(source, maxSize))
  {
    ScaleProperties(source, maxSize);
    ReducedWidthFits(source, maxSize);
    ReducedHeightFits(source, maxSize);
  }

  /** Output pixel `i` of a raster whose sides fit covers source pixels from
      inside the source. */
  lemma OutputPixelInside(source: HDRRaster, scale: real, width: nat, height: nat, i: nat)
    requires source.Valid() && Fits(source, scale, width, height) && i < width * height
    ensures width > 0 && AverageDefined(source, 1.0 / scale, (i % width) as real / scale, (i / width) as real / scale)
  {
    IndexToPixel(width, height, i);
    CoordinateInside(i % width, width, scale, source.width);
    CoordinateInside(i / width, height, scale, source.height);
  }

  /** The output pixel `i` of the reduced raster, before the clamp. */
  function ReducedPixel(source: HDRRaster, maxSize: nat, i: nat): RGB
    requires source.Valid() && maxSize >= 1 && (source.width > maxSize || source.height > maxSize)
    requires i < ReducedWidth(source, maxSize) * ReducedHeight(source, maxSize)
  {
    var scale := Scale(source, maxSize);
    var width := ReducedWidth(source, maxSize);
    ReductionFits(source, maxSize);
    OutputPixelInside(source, scale, width, ReducedHeight(source, maxSize), i);
    SourceAverage(source, 1.0 / scale, (i % width) as real / scale, (i / width) as real / scale)
  }

  /** `reduceSizeFilter(source, maxSize)`. A `maxSize` below 1 gives
      non-positive sizes, which the source does not guard against. */
  function ReduceSizeOf(source: HDRRaster, maxSize: nat): (r: HDRRaster)
    requires source.Valid() && maxSize >= 1
  {
    if source.width <= maxSize && source.height <= maxSize then source
    else
      ScaleProperties(source, maxSize);
      var width: nat, height: nat := ReducedWidth(source, maxSize), ReducedHeight(source, maxSize);
      MakeRaster(width, height, (i: nat) requires i < width * height => ReducedPixel(source, maxSize, i))
  }

  /** A raster that fits is returned as it is; otherwise the result fits in
      `maxSize` on both sides and is valid. */
  lemma ReduceSizeDimensions(source: HDRRaster, maxSize: nat)
    requires source.Valid() && maxSize >= 1
    ensures var r := ReduceSizeOf(source, maxSize);
            r.Valid() && r.width <= maxSize && r.height <= maxSize &&
            (source.width <= maxSize && source.height <= maxSize ==> r == source)
  {
    if source.width > maxSize || source.height > maxSize {
      ScaleProperties(source, maxSize);
    }
  }

  /** The reduced raster is never larger than the source on either side. */
  lemma ReducedNotLarger(source: HDRRaster, maxSize: nat)
    requires source.Valid() && maxSize >= 1
    ensures ReduceSizeOf(source, maxSize).width <= source.width
    ensures ReduceSizeOf(source, maxSize).height <= source.height
  {
    if source.width > maxSize || source.height > maxSize {
      ScaledSideNotLarger(maxSize, Larger(source), source.width);
      ScaledSideNotLarger(maxSize, Larger(source), source.height);
    }
  }

  lemma ScaledSideNotLarger(maxSize: nat, larger: nat, side: nat)
    requires 1 <= maxSize < larger && side <= larger
    ensures ScaledSide(maxSize, larger, side) <= side
  {
    ScaledSideBounds(maxSize, larger, side);
    var scale := maxSize as real / larger as real;
    MulMonotone(side as real, scale, 1.0);
  }

  /** A raster that does not fit comes out with its larger side exactly
      `maxSize`, so a source with a side of at least `m <= maxSize` keeps
      a side of at least `m`. */
  lemma ReducedLargerSide(source: HDRRaster, maxSize: nat, m: nat)
    requires source.Valid() && 1 <= m <= maxSize
    ensures var r := ReduceSizeOf(source, maxSize);
            (r.width >= m || r.height >= m) <==> (source.width >= m || source.height >= m)
  {
    if source.width > maxSize || source.height > maxSize {
      ReducedNotLarger(source, maxSize);
      var larger := Larger(source);
      assert maxSize as real / larger as real * larger as real == maxSize as real;
      assert ScaledSide(maxSize, larger, larger) == maxSize;
    }
  }

  /** A source of one colour stays that colour. */
  lemma ReduceUniform(source: HDRRaster, maxSize: nat, c: RGB)
    requires source.Valid() && maxSize >= 1 && c.InByteRange()
    requires forall i :: 0 <= i < |source.data| ==> source.data[i] == c
    ensures var r := ReduceSizeOf(source, maxSize);
            forall i :: 0 <= i < |r.data| ==> r.data[i] == c
  {
    if source.width > maxSize || source.height > maxSize {
      var width, height := ReducedWidth(source, maxSize), ReducedHeight(source, maxSize);
      var r := ReduceSizeOf(source, maxSize);
      ScaleProperties(source, maxSize);
      forall i | 0 <= i < |r.data|
        ensures r.data[i] == c
      {
        UniformReducedPixel(source, maxSize, c, i);
      }
    }
  }

  /** Over a source of one colour every reduced pixel is that colour. */
  lemma UniformReducedPixel(source: HDRRaster, maxSize: nat, c: RGB, i: nat)
    requires source.Valid() && maxSize >= 1 && (source.width > maxSize || source.height > maxSize)
    requires forall k :: 0 <= k < |source.data| ==> source.data[k] == c
    requires i < ReducedWidth(source, maxSize) * ReducedHeight(source, maxSize)
    ensures ReducedPixel(source, maxSize, i) == c
  {
    var scale, width := Scale(source, maxSize), ReducedWidth(source, maxSize);
    ReductionFits(source, maxSize);
    OutputPixelInside(source, scale, width, ReducedHeight(source, maxSize), i);
    UniformAverage(source, 1.0 / scale, (i % width) as real / scale, (i / width) as real / scale, c);
  }

  /** `reduceSizeFilter`: the raster generator over `getSourceAverage`. */
  method ReduceSizeFilter(source: HDRRaster, maxSize: nat) returns (r: HDRRaster)
    requires source.Valid() && maxSize >= 1
    ensures r == ReduceSizeOf(source, maxSize)
  {
    if source.width <= maxSize && source.height <= maxSize {
      return source;
    }
    var scale := Scale(source, maxSize);
    ScaleProperties(source, maxSize);
    var width: nat, height: nat := ReducedWidth(source, maxSize), ReducedHeight(source, maxSize);
    var data := ReducedPixels(source, maxSize, scale, width, height);
    r := MakeRaster(width, height, (i: nat) requires i < |data| => data[i]);
    SameReduction(source, maxSize, data, r);
  }

  lemma SameReduction(source: HDRRaster, maxSize: nat, data: seq<RGB>, r: HDRRaster)
    requires source.Valid() && maxSize >= 1 && (source.width > maxSize || source.height > maxSize)
    requires 0 <= ReducedWidth(source, maxSize) && 0 <= ReducedHeight(source, maxSize)
    requires |data| == ReducedWidth(source, maxSize) * ReducedHeight(source, maxSize)
    requires forall k :: 0 <= k < |data| ==> data[k] == ReducedPixel(source, maxSize, k)
    requires r == MakeRaster(ReducedWidth(source, maxSize), ReducedHeight(source, maxSize), (i: nat) requires i < |data| => data[i])
    ensures r == ReduceSizeOf(source, maxSize)
  {
    var q := ReduceSizeOf(source, maxSize);
    assert r.data == q.data;
  }

  /** The pixels of the reduced raster, one `getSourceAverage` each. */
  method ReducedPixels(source: HDRRaster, maxSize: nat, scale: real, width: nat, height: nat) returns (data: seq<RGB>)
    requires source.Valid() && maxSize >= 1 && (source.width > maxSize || source.height > maxSize)
    requires scale == Scale(source, maxSize)
    requires width == ReducedWidth(source, maxSize) && height == ReducedHeight(source, maxSize)
    ensures |data| == width * height
    ensures forall k :: 0 <= k < |data| ==> data[k] == ReducedPixel(source, maxSize, k)
  {
    var pixelSize := 1.0 / scale;
    ReductionFits(source, maxSize);
    var pixels := new RGB[width * height];
    for i := 0 to width * height
      invariant forall k :: 0 <= k < i ==> pixels[k] == ReducedPixel(source, maxSize, k)
    {
      OutputPixelInside(source, scale, width, height, i);
      pixels[i] := GetSourceAverage(source, pixelSize, (i % width) as real / scale, (i / width) as real / scale);
    }
    data := pixels[..];
  }
}
