/** `StraightWindow` of Window.kt: the kernel divided by its total, and a
    blur that, for every pixel, averages the in-bounds neighbours within the
    radius with those weights and takes the luminance of the average. A
    not-a-number result (0 / 0, when no neighbour has weight) is `None`. */
module StraightWindows {
  import opened Wrappers
  import opened RealSeqs
  import opened Rasters
  import opened Kernels
  import ReduceSize
  import Adjuster

  /** `StraightWindow(radius)`: the radius and `window`. */
  datatype StraightWindow = StraightWindow(radius: nat, window: seq<real>)

  /** `window`: every weight of the kernel divided by the kernel's total. */
  function NormalisedWindow(radius: nat): (w: seq<real>)
    requires radius >= 1
    ensures |w| == Side(radius) * Side(radius)
  {
    DivideAll(RawWindow(radius), KernelSum(radius))
  }

  /** The constructor. */
  function MakeStraightWindow(radius: nat): (sw: StraightWindow)
    requires radius >= 1
    ensures Valid(sw) && sw.radius == radius
  {
    StraightWindow(radius, NormalisedWindow(radius))
  }

  /** A window as the constructor leaves it. */
  predicate Valid(sw: StraightWindow)
  {
    sw.radius >= 1 && sw.window == NormalisedWindow(sw.radius)
  }

  /** What `apply` relies on: one weight per offset within the radius. */
  predicate Fits(sw: StraightWindow)
  {
    |sw.window| == Side(sw.radius) * Side(sw.radius)
  }

  /** The weights every window of the constructor has: none negative, and
      only the centre's 0. */
  ghost predicate CentreOnlyZero(sw: StraightWindow)
    requires Fits(sw)
  {
    forall dx, dy :: Within(sw.radius, dx, dy) ==>
      Weight(sw, dx, dy) >= 0.0 && (Weight(sw, dx, dy) == 0.0 <==> dx == 0 && dy == 0)
  }

  lemma ValidWeights(sw: StraightWindow)
    requires Valid(sw)
    ensures Fits(sw) && CentreOnlyZero(sw)
  {
    forall dx, dy | Within(sw.radius, dx, dy)
      ensures Weight(sw, dx, dy) >= 0.0 && (Weight(sw, dx, dy) == 0.0 <==> dx == 0 && dy == 0)
    {
      WeightIsNormalised(sw, dx, dy);
    }
  }

  /** The normalised window sums to 1. */
  lemma NormalisedSumsToOne(radius: nat)
    requires radius >= 1
    ensures Sum(NormalisedWindow(radius)) == 1.0
  {
    SumDivideAll(RawWindow(radius), KernelSum(radius));
    DivideSelf(KernelSum(radius));
  }

  lemma DivideSelf(s: real)
    requires s != 0.0
    ensures s / s == 1.0
  {
  }

  /** The weight of offset (dx, dy), read from the window. */
  function Weight(sw: StraightWindow, dx: int, dy: int): real
    requires Fits(sw) && Within(sw.radius, dx, dy)
  {
    KernelIndexOfOffset(sw.radius, dx, dy);
    sw.window[KernelIndex(sw.radius, dx, dy)]
  }

  /** The window holds the kernel's weight over the kernel's total: at
      least 0, and 0 exactly at the centre. */
  lemma WeightIsNormalised(sw: StraightWindow, dx: int, dy: int)
    requires Valid(sw) && Within(sw.radius, dx, dy)
    ensures Weight(sw, dx, dy) == RawWeight(dx, dy) / KernelSum(sw.radius)
    ensures Weight(sw, dx, dy) >= 0.0 && (Weight(sw, dx, dy) == 0.0 <==> dx == 0 && dy == 0)
  {
    RawWindowAt(sw.radius, dx, dy);
  }

  /** The normalised window keeps the kernel's symmetries. */
  lemma WeightSymmetric(sw: StraightWindow, dx: int, dy: int)
    requires Valid(sw) && Within(sw.radius, dx, dy)
    ensures Weight(sw, -dx, dy) == Weight(sw, dx, dy)
    ensures Weight(sw, dx, -dy) == Weight(sw, dx, dy)
    ensures Weight(sw, dy, dx) == Weight(sw, dx, dy)
  {
    RawWeightSymmetric(dx, dy);
    WeightIsNormalised(sw, dx, dy);
    WeightIsNormalised(sw, -dx, dy);
    WeightIsNormalised(sw, dx, -dy);
    WeightIsNormalised(sw, dy, dx);
  }

  // ---- apply ----

  /** `source.data[y * width + x]`. */
  function PixelAt(source: HDRRaster, x: int, y: int): RGB
    requires source.Valid() && 0 <= x < source.width && 0 <= y < source.height
  {
    PixelIndex(source.width, source.height, x, y);
    source.data[y * source.width + x]
  }

  /** One step of the inner loop at neighbour (x, y) of centre (cx, cy):
      a column outside the raster is skipped (`continue`). */
  function Visit(source: HDRRaster, sw: StraightWindow, cx: int, cy: int, a: ReduceSize.Acc, x: int, y: int): ReduceSize.Acc
    requires source.Valid() && Fits(sw) && 0 <= y < source.height && Within(sw.radius, x - cx, y - cy)
  {
    if x < 0 || x >= source.width then a
    else
      var pixel := PixelAt(source, x, y);
      var weight := Weight(sw, x - cx, y - cy);
      ReduceSize.AddWeighted(a, weight, pixel)
  }

  /** The inner loop's two reads are the pixel at (x, y) and the weight of
      its offset from the centre. */
  lemma ReadsAt(source: HDRRaster, sw: StraightWindow, cx: int, cy: int, x: int, y: int,
                rowStartIndexRaster: int, rowStartIndexWindow: int)
    requires source.Valid() && Fits(sw) && 0 <= x < source.width && 0 <= y < source.height
    requires Within(sw.radius, x - cx, y - cy)
    requires rowStartIndexRaster == y * source.width
    requires rowStartIndexWindow == (y - cy + sw.radius) * Side(sw.radius)
    ensures 0 <= rowStartIndexRaster + x < |source.data|
    ensures source.data[rowStartIndexRaster + x] == PixelAt(source, x, y)
    ensures 0 <= rowStartIndexWindow + x - cx + sw.radius < |sw.window|
    ensures sw.window[rowStartIndexWindow + x - cx + sw.radius] == Weight(sw, x - cx, y - cy)
  {
    PixelIndex(source.width, source.height, x, y);
    assert rowStartIndexRaster + x == y * source.width + x;
    KernelIndexOfOffset(sw.radius, x - cx, y - cy);
    assert rowStartIndexWindow + x - cx + sw.radius == KernelIndex(sw.radius, x - cx, y - cy);
  }

  /** A column inside the raster adds its weighted pixel. */
  lemma VisitInside(source: HDRRaster, sw: StraightWindow, cx: int, cy: int, a: ReduceSize.Acc, x: int, y: int)
    requires source.Valid() && Fits(sw) && 0 <= y < source.height && Within(sw.radius, x - cx, y - cy)
    requires 0 <= x < source.width
    ensures Visit(source, sw, cx, cy, a, x, y) == ReduceSize.AddWeighted(a, Weight(sw, x - cx, y - cy), PixelAt(source, x, y))
  {
  }

  /** The sums after the first `n` columns `cx - radius ..` of row `y`. */
  function RowAcc(source: HDRRaster, sw: StraightWindow, cx: int, cy: int, a: ReduceSize.Acc, y: int, n: nat): ReduceSize.Acc
    requires source.Valid() && Fits(sw) && 0 <= y < source.height && -(sw.radius as int) <= y - cy <= sw.radius
    requires n <= Side(sw.radius)
  {
    if n == 0 then a
    else Visit(source, sw, cx, cy, RowAcc(source, sw, cx, cy, a, y, n - 1), cx - sw.radius + n - 1, y)
  }

  /** The sums after the first `m` rows `cy - radius ..`: a row outside the
      raster is skipped (`continue`). */
  function GridAcc(source: HDRRaster, sw: StraightWindow, cx: int, cy: int, m: nat): ReduceSize.Acc
    requires source.Valid() && Fits(sw) && m <= Side(sw.radius)
  {
    if m == 0 then ReduceSize.Acc(0.0, 0.0, 0.0, 0.0)
    else
      var prev := GridAcc(source, sw, cx, cy, m - 1);
      var y := cy - sw.radius + m - 1;
      if y < 0 || y >= source.height then prev
      else RowAcc(source, sw, cx, cy, prev, y, Side(sw.radius))
  }

  /** The sums over the whole square around pixel `it`. */
  function Sums(source: HDRRaster, sw: StraightWindow, it: nat): ReduceSize.Acc
    requires source.Valid() && Fits(sw) && it < |source.data|
  {
    IndexToPixel(source.width, source.height, it);
    GridAcc(source, sw, it % source.width, it / source.width, Side(sw.radius))
  }

  /** Output `it`: `rgbGetLuminance(sumR / weightsSum, ...)`, which is not a
      number (`None`) when `weightsSum` is 0. */
  function Blurred(source: HDRRaster, sw: StraightWindow, sqrt: real -> real, it: nat): Option<real>
    requires source.Valid() && Fits(sw) && IsSqrt(sqrt) && it < |source.data|
  {
    var a := Sums(source, sw, it);
    if a.w == 0.0 then None else Some(LuminanceOf(sqrt, a.r / a.w, a.g / a.w, a.b / a.w))
  }

  /** `StraightWindow.apply`. */
  method Apply(source: HDRRaster, sw: StraightWindow, sqrt: real -> real) returns (out: seq<Option<real>>)
    requires source.Valid() && Fits(sw) && IsSqrt(sqrt)
    ensures |out| == |source.data|
    ensures forall it :: 0 <= it < |out| ==> out[it] == Blurred(source, sw, sqrt, it)
  {
    out := [];
    for it := 0 to |source.data|
      invariant |out| == it
      invariant forall k :: 0 <= k < it ==> out[k] == Blurred(source, sw, sqrt, k)
    {
      var v := ApplyAt(source, sw, sqrt, it);
      out := out + [v];
    }
  }

  /** The generator's body for pixel `it`: the two nested loops. */
  method ApplyAt(source: HDRRaster, sw: StraightWindow, sqrt: real -> real, it: nat) returns (v: Option<real>)
    requires source.Valid() && Fits(sw) && IsSqrt(sqrt) && it < |source.data|
    ensures v == Blurred(source, sw, sqrt, it)
  {
    IndexToPixel(source.width, source.height, it);
    var radius := sw.radius;
    var centerX := it % source.width;
    var centerY := it / source.width;
    var sumR, sumG, sumB := 0.0, 0.0, 0.0;
    var weightsSum := 0.0;
    for y := centerY - radius to centerY + radius + 1
      invariant ReduceSize.Acc(sumR, sumG, sumB, weightsSum) == GridAcc(source, sw, centerX, centerY, y - (centerY - radius))
    {
      if y < 0 || y >= source.height {
        continue;
      }
      sumR, sumG, sumB, weightsSum := SumRow(source, sw, centerX, centerY, y, sumR, sumG, sumB, weightsSum);
    }
    if weightsSum == 0.0 {
      v := None;
    } else {
      v := Some(LuminanceOf(sqrt, sumR / weightsSum, sumG / weightsSum, sumB / weightsSum));
    }
  }

  /** The inner loop over the columns of row `y`. */
  method SumRow(source: HDRRaster, sw: StraightWindow, centerX: int, centerY: int, y: int,
                sumR0: real, sumG0: real, sumB0: real, weightsSum0: real)
    returns (sumR: real, sumG: real, sumB: real, weightsSum: real)
    requires source.Valid() && Fits(sw) && 0 <= y < source.height && -(sw.radius as int) <= y - centerY <= sw.radius
    ensures ReduceSize.Acc(sumR, sumG, sumB, weightsSum)
            == RowAcc(source, sw, centerX, centerY, ReduceSize.Acc(sumR0, sumG0, sumB0, weightsSum0), y, Side(sw.radius))
  {
    var radius := sw.radius;
    sumR, sumG, sumB, weightsSum := sumR0, sumG0, sumB0, weightsSum0;
    var rowStartIndexRaster := y * source.width;
    var rowStartIndexWindow := (y - centerY + radius) * Side(radius);
    for x := centerX - radius to centerX + radius + 1
      invariant ReduceSize.Acc(sumR, sumG, sumB, weightsSum)
                == RowAcc(source, sw, centerX, centerY, ReduceSize.Acc(sumR0, sumG0, sumB0, weightsSum0), y, x - (centerX - radius))
    {
      ghost var n := x - (centerX - radius);
      ghost var before := ReduceSize.Acc(sumR, sumG, sumB, weightsSum);
      assert RowAcc(source, sw, centerX, centerY, ReduceSize.Acc(sumR0, sumG0, sumB0, weightsSum0), y, n + 1)
             == Visit(source, sw, centerX, centerY, before, x, y);
      if x < 0 || x >= source.width {
        assert Visit(source, sw, centerX, centerY, before, x, y) == before;
        continue;
      }
      ReadsAt(source, sw, centerX, centerY, x, y, rowStartIndexRaster, rowStartIndexWindow);
      var pixel := source.data[rowStartIndexRaster + x];
      var weight := sw.window[rowStartIndexWindow + x - centerX + radius];
      sumR := sumR + weight * pixel.r;
      sumG := sumG + weight * pixel.g;
      sumB := sumB + weight * pixel.b;
      weightsSum := weightsSum + weight;
      VisitInside(source, sw, centerX, centerY, before, x, y);
      assert ReduceSize.Acc(sumR, sumG, sumB, weightsSum) == ReduceSize.AddWeighted(before, weight, pixel);
    }
  }

  // ---- no weight exactly on a 1 x 1 raster ----

  lemma SinglePixelSides(width: nat, height: nat)
    requires width * height == 1
    ensures width == 1 && height == 1
  {
    if width == 0 || height == 0 {
    } else if width >= 2 {
      Adjuster.MulMonotone(height, 1, width);
    } else if height >= 2 {
      Adjuster.MulMonotone(width, 1, height);
    }
  }

  /** On a 1 x 1 raster the only neighbour in bounds is the centre itself,
      whose weight is 0: a row leaves the sums as they were. */
  lemma {:induction false} SinglePixelRow(source: HDRRaster, sw: StraightWindow, a: ReduceSize.Acc, n: nat)
    requires source.Valid() && source.width == 1 && source.height == 1
    requires Fits(sw) && CentreOnlyZero(sw) && n <= Side(sw.radius)
    ensures RowAcc(source, sw, 0, 0, a, 0, n) == a
  {
    if n > 0 {
      SinglePixelRow(source, sw, a, n - 1);
      var x := -(sw.radius as int) + n - 1;
      if x == 0 {
        assert Weight(sw, 0, 0) == 0.0;
      }
    }
  }

  lemma {:induction false} SinglePixelGrid(source: HDRRaster, sw: StraightWindow, m: nat)
    requires source.Valid() && source.width == 1 && source.height == 1
    requires Fits(sw) && CentreOnlyZero(sw) && m <= Side(sw.radius)
    ensures GridAcc(source, sw, 0, 0, m) == ReduceSize.Acc(0.0, 0.0, 0.0, 0.0)
  {
    if m > 0 {
      SinglePixelGrid(source, sw, m - 1);
      if -(sw.radius as int) + m - 1 == 0 {
        SinglePixelRow(source, sw, GridAcc(source, sw, 0, 0, m - 1), Side(sw.radius));
      }
    }
  }

  // ---- a neighbour in bounds gives weight ----

  /** The weight never decreases along a row. */
  lemma {:induction false} RowWeightGrows(source: HDRRaster, sw: StraightWindow, cx: int, cy: int, a: ReduceSize.Acc,
                                          y: int, n: nat, k: nat)
    requires source.Valid() && Fits(sw) && CentreOnlyZero(sw) && 0 <= y < source.height
    requires -(sw.radius as int) <= y - cy <= sw.radius && k <= n <= Side(sw.radius)
    ensures RowAcc(source, sw, cx, cy, a, y, n).w >= RowAcc(source, sw, cx, cy, a, y, k).w
  {
    if k < n {
      RowWeightGrows(source, sw, cx, cy, a, y, n - 1, k);
      assert Weight(sw, cx - sw.radius + n - 1 - cx, y - cy) >= 0.0;
    }
  }

  /** Column `k` of the row, when in bounds, adds its weight. */
  lemma RowReaches(source: HDRRaster, sw: StraightWindow, cx: int, cy: int, a: ReduceSize.Acc, y: int, k: nat)
    requires source.Valid() && Fits(sw) && CentreOnlyZero(sw) && 0 <= y < source.height
    requires -(sw.radius as int) <= y - cy <= sw.radius && k < Side(sw.radius)
    requires 0 <= cx - sw.radius + k < source.width
    ensures RowAcc(source, sw, cx, cy, a, y, Side(sw.radius)).w >= a.w + Weight(sw, k - sw.radius, y - cy)
  {
    RowWeightGrows(source, sw, cx, cy, a, y, Side(sw.radius), k + 1);
    RowWeightGrows(source, sw, cx, cy, a, y, k, 0);
  }

  lemma {:induction false} GridWeightGrows(source: HDRRaster, sw: StraightWindow, cx: int, cy: int, m: nat, j: nat)
    requires source.Valid() && Fits(sw) && CentreOnlyZero(sw) && j <= m <= Side(sw.radius)
    ensures GridAcc(source, sw, cx, cy, m).w >= GridAcc(source, sw, cx, cy, j).w
  {
    if j < m {
      GridWeightGrows(source, sw, cx, cy, m - 1, j);
      var y := cy - sw.radius + m - 1;
      if 0 <= y < source.height {
        RowWeightGrows(source, sw, cx, cy, GridAcc(source, sw, cx, cy, m - 1), y, Side(sw.radius), 0);
      }
    }
  }

  lemma {:induction false} GridWeightNonNegative(source: HDRRaster, sw: StraightWindow, cx: int, cy: int, m: nat)
    requires source.Valid() && Fits(sw) && CentreOnlyZero(sw) && m <= Side(sw.radius)
    ensures GridAcc(source, sw, cx, cy, m).w >= 0.0
  {
    GridWeightGrows(source, sw, cx, cy, m, 0);
  }

  /** A neighbour (cx + dx, cy + dy) inside the raster and the radius
      contributes its weight to the total. */
  lemma NeighbourWeighs(source: HDRRaster, sw: StraightWindow, cx: int, cy: int, dx: int, dy: int)
    requires source.Valid() && Fits(sw) && CentreOnlyZero(sw) && Within(sw.radius, dx, dy)
    requires 0 <= cx + dx < source.width && 0 <= cy + dy < source.height
    ensures GridAcc(source, sw, cx, cy, Side(sw.radius)).w >= Weight(sw, dx, dy)
  {
    var j: nat := dy + sw.radius;
    var k: nat := dx + sw.radius;
    var prev := GridAcc(source, sw, cx, cy, j);
    GridWeightNonNegative(source, sw, cx, cy, j);
    RowReaches(source, sw, cx, cy, prev, cy + dy, k);
    GridWeightGrows(source, sw, cx, cy, Side(sw.radius), j + 1);
  }

  /** A raster of two pixels or more gives every pixel a neighbour within
      distance 1, so the total weight is positive. */
  lemma SomeNeighbourWeighs(source: HDRRaster, sw: StraightWindow, it: nat)
    requires source.Valid() && Fits(sw) && CentreOnlyZero(sw) && sw.radius >= 1
    requires it < |source.data| && |source.data| >= 2
    ensures Sums(source, sw, it).w > 0.0
  {
    IndexToPixel(source.width, source.height, it);
    var cx, cy := it % source.width, it / source.width;
    if source.width >= 2 {
      var dx := if cx + 1 < source.width then 1 else -1;
      NeighbourWeighs(source, sw, cx, cy, dx, 0);
    } else {
      assert source.height >= 2;
      var dy := if cy + 1 < source.height then 1 else -1;
      NeighbourWeighs(source, sw, cx, cy, 0, dy);
    }
  }

  /** The output is not a number exactly on a 1 x 1 raster: `weightsSum`
      is 0 there and positive everywhere else. */
  lemma NoWeightOnlyOnSinglePixel(source: HDRRaster, sw: StraightWindow, sqrt: real -> real, it: nat)
    requires source.Valid() && Valid(sw) && IsSqrt(sqrt) && it < |source.data|
    ensures Blurred(source, sw, sqrt, it).None? <==> |source.data| == 1
  {
    ValidWeights(sw);
    NoWeightIff(source, sw, it);
  }

  lemma NoWeightIff(source: HDRRaster, sw: StraightWindow, it: nat)
    requires source.Valid() && Fits(sw) && CentreOnlyZero(sw) && sw.radius >= 1 && it < |source.data|
    ensures Sums(source, sw, it).w == 0.0 <==> |source.data| == 1
  {
    if |source.data| == 1 {
      SinglePixelSides(source.width, source.height);
      SinglePixelGrid(source, sw, Side(sw.radius));
    } else {
      SomeNeighbourWeighs(source, sw, it);
    }
  }

  // ---- a flat raster stays flat ----

  /** Every pixel of `source` is `c`. */
  predicate Flat(source: HDRRaster, c: RGB)
  {
    forall i :: 0 <= i < |source.data| ==> source.data[i] == c
  }

  lemma VisitProportional(source: HDRRaster, sw: StraightWindow, cx: int, cy: int, a: ReduceSize.Acc, x: int, y: int, c: RGB)
    requires source.Valid() && Fits(sw) && 0 <= y < source.height && Within(sw.radius, x - cx, y - cy)
    requires Flat(source, c) && ReduceSize.Proportional(a, c)
    ensures ReduceSize.Proportional(Visit(source, sw, cx, cy, a, x, y), c)
  {
    if 0 <= x < source.width {
      PixelIndex(source.width, source.height, x, y);
      var weight := Weight(sw, x - cx, y - cy);
      assert PixelAt(source, x, y) == c;
      ReduceSize.Distribute(a.w, weight, c.r);
      ReduceSize.Distribute(a.w, weight, c.g);
      ReduceSize.Distribute(a.w, weight, c.b);
    }
  }

  lemma {:induction false} RowProportional(source: HDRRaster, sw: StraightWindow, cx: int, cy: int, a: ReduceSize.Acc,
                                           y: int, n: nat, c: RGB)
    requires source.Valid() && Fits(sw) && 0 <= y < source.height && -(sw.radius as int) <= y - cy <= sw.radius
    requires n <= Side(sw.radius) && Flat(source, c) && ReduceSize.Proportional(a, c)
    ensures ReduceSize.Proportional(RowAcc(source, sw, cx, cy, a, y, n), c)
  {
    if n > 0 {
      RowProportional(source, sw, cx, cy, a, y, n - 1, c);
      VisitProportional(source, sw, cx, cy, RowAcc(source, sw, cx, cy, a, y, n - 1), cx - sw.radius + n - 1, y, c);
    }
  }

  lemma {:induction false} GridProportional(source: HDRRaster, sw: StraightWindow, cx: int, cy: int, m: nat, c: RGB)
    requires source.Valid() && Fits(sw) && m <= Side(sw.radius) && Flat(source, c)
    ensures ReduceSize.Proportional(GridAcc(source, sw, cx, cy, m), c)
  {
    if m > 0 {
      GridProportional(source, sw, cx, cy, m - 1, c);
      var y := cy - sw.radius + m - 1;
      if 0 <= y < source.height {
        RowProportional(source, sw, cx, cy, GridAcc(source, sw, cx, cy, m - 1), y, Side(sw.radius), c);
      }
    }
  }

  lemma ProductOverFactor(w: real, v: real)
    requires w != 0.0
    ensures (w * v) / w == v
  {
  }

  /** Blurring a raster of one colour gives that colour's luminance at
      every pixel (when there are at least two pixels). */
  lemma FlatBlur(source: HDRRaster, sw: StraightWindow, sqrt: real -> real, it: nat, c: RGB)
    requires source.Valid() && Valid(sw) && IsSqrt(sqrt) && it < |source.data| && |source.data| >= 2
    requires Flat(source, c)
    ensures Blurred(source, sw, sqrt, it) == Some(c.Luminance(sqrt))
  {
    ValidWeights(sw);
    FlatSums(source, sw, it, c);
  }

  lemma FlatSums(source: HDRRaster, sw: StraightWindow, it: nat, c: RGB)
    requires source.Valid() && Fits(sw) && CentreOnlyZero(sw) && sw.radius >= 1
    requires it < |source.data| && |source.data| >= 2 && Flat(source, c)
    ensures var a := Sums(source, sw, it);
            a.w > 0.0 && a.r / a.w == c.r && a.g / a.w == c.g && a.b / a.w == c.b
  {
    var a := Sums(source, sw, it);
    IndexToPixel(source.width, source.height, it);
    GridProportional(source, sw, it % source.width, it / source.width, Side(sw.radius), c);
    SomeNeighbourWeighs(source, sw, it);
    ProductOverFactor(a.w, c.r);
    ProductOverFactor(a.w, c.g);
    ProductOverFactor(a.w, c.b);
  }

  // ---- only neighbours within the radius are read ----

  /** `s1` and `s2` have the same shape and agree on every pixel within the
      radius of (cx, cy). */
  ghost predicate SameAround(s1: HDRRaster, s2: HDRRaster, radius: nat, cx: int, cy: int)
    requires s1.Valid() && s2.Valid()
  {
    s1.width == s2.width && s1.height == s2.height &&
    forall x, y :: 0 <= x < s1.width && 0 <= y < s1.height && Within(radius, x - cx, y - cy) ==>
      PixelAt(s1, x, y) == PixelAt(s2, x, y)
  }

  lemma {:induction false} RowLocal(s1: HDRRaster, s2: HDRRaster, sw: StraightWindow, cx: int, cy: int,
                                    a: ReduceSize.Acc, y: int, n: nat)
    requires s1.Valid() && s2.Valid() && Fits(sw) && SameAround(s1, s2, sw.radius, cx, cy)
    requires 0 <= y < s1.height && -(sw.radius as int) <= y - cy <= sw.radius && n <= Side(sw.radius)
    ensures RowAcc(s1, sw, cx, cy, a, y, n) == RowAcc(s2, sw, cx, cy, a, y, n)
  {
    if n > 0 {
      RowLocal(s1, s2, sw, cx, cy, a, y, n - 1);
    }
  }

  lemma {:induction false} GridLocal(s1: HDRRaster, s2: HDRRaster, sw: StraightWindow, cx: int, cy: int, m: nat)
    requires s1.Valid() && s2.Valid() && Fits(sw) && SameAround(s1, s2, sw.radius, cx, cy) && m <= Side(sw.radius)
    ensures GridAcc(s1, sw, cx, cy, m) == GridAcc(s2, sw, cx, cy, m)
  {
    if m > 0 {
      GridLocal(s1, s2, sw, cx, cy, m - 1);
      var y := cy - sw.radius + m - 1;
      if 0 <= y < s1.height {
        RowLocal(s1, s2, sw, cx, cy, GridAcc(s1, sw, cx, cy, m - 1), y, Side(sw.radius));
      }
    }
  }

  /** Output `it` reads nothing but the in-bounds pixels within the radius
      of pixel `it`: two rasters that agree there give the same output. */
  lemma BlurredIsLocal(s1: HDRRaster, s2: HDRRaster, sw: StraightWindow, sqrt: real -> real, it: nat)
    requires s1.Valid() && s2.Valid() && Fits(sw) && IsSqrt(sqrt) && it < |s1.data|
    requires s1.width > 0 && SameAround(s1, s2, sw.radius, it % s1.width, it / s1.width)
    ensures it < |s2.data| && Blurred(s1, sw, sqrt, it) == Blurred(s2, sw, sqrt, it)
  {
    GridLocal(s1, s2, sw, it % s1.width, it / s1.width, Side(sw.radius));
  }
}
