/** The zone grid of ZonalFilter.kt: the raster is cut into square zones of
    side max(width, height) / divisor (the last row and column of zones
    clipped to the raster), each zone keeps its mean luminance, and the
    zonal luminance of a pixel is a Gaussian blend of the zones within five
    zones of its own. */
module Zones {
  import opened Wrappers
  import opened Rasters
  import opened RealSeqs
  import opened Histograms
  import Adjuster

  /** `ZonesData`: the zone side, the zone counts and the zone luminances,
      row by row. */
  datatype ZonesData = ZonesData(zoneSize: nat, horizZones: nat, vertZones: nat, zonesLums: seq<real>)

  // ---- geometry ----

  /** `Math.max(width, height) / divisor`. */
  function ZoneSize(width: nat, height: nat, divisor: nat): (zs: nat)
    requires divisor > 0
    ensures zs == 0 <==> width < divisor && height < divisor
  {
    (if width > height then width else height) / divisor
  }

  /** `(side + zoneSize - 1) / zoneSize`. */
  function ZoneCount(side: nat, zoneSize: nat): nat
    requires zoneSize > 0
  {
    (side + zoneSize - 1) / zoneSize
  }

  /** The zone count is the ceiling of side / zoneSize. */
  lemma ZoneCountIsCeiling(side: nat, zoneSize: nat)
    requires zoneSize > 0
    ensures var c := ZoneCount(side, zoneSize);
            (c - 1) * zoneSize < side <= c * zoneSize
  {
    var c := ZoneCount(side, zoneSize);
    var t := side + zoneSize - 1;
    assert c * zoneSize <= t < c * zoneSize + zoneSize;
  }

  /** The width of zone column `zoneX` (or the height of zone row `zoneX`):
      the full zone side, or what is left of the raster for the last one. */
  function ZoneExtent(side: nat, zoneSize: nat, zoneX: nat): int
  {
    if (zoneX + 1) * zoneSize < side then zoneSize else side - zoneX * zoneSize
  }

  /** A zone of the grid has between 1 and zoneSize pixels across, all
      inside the raster. */
  lemma ZoneExtentBounds(side: nat, zoneSize: nat, zoneX: nat)
    requires zoneSize > 0 && zoneX < ZoneCount(side, zoneSize)
    ensures 1 <= ZoneExtent(side, zoneSize, zoneX) <= zoneSize
    ensures zoneX * zoneSize + ZoneExtent(side, zoneSize, zoneX) <= side
  {
    ZoneCountIsCeiling(side, zoneSize);
    var c := ZoneCount(side, zoneSize);
    assert zoneX * zoneSize <= (c - 1) * zoneSize;
  }

  /** Which zones a raster of this size has, for a positive zone side. */
  predicate GridOf(z: ZonesData, width: nat, height: nat)
  {
    z.zoneSize > 0 && z.horizZones == ZoneCount(width, z.zoneSize) && z.vertZones == ZoneCount(height, z.zoneSize) &&
    |z.zonesLums| == z.horizZones * z.vertZones
  }

  // ---- zone luminances ----

  /** A `width` x `height` window with top-left corner (x0, y0), inside the raster. */
  predicate WindowInside(raster: HDRRaster, x0: nat, y0: nat, width: nat, height: nat)
  {
    raster.Valid() && x0 + width <= raster.width && y0 + height <= raster.height
  }

  /** Where pixel `it` of a window lies in the raster data: counted row by
      row inside the window, and always inside the raster. */
  function WindowIndex(raster: HDRRaster, x0: nat, y0: nat, width: nat, height: nat, it: nat): (i: nat)
    requires WindowInside(raster, x0, y0, width, height) && it < width * height
    ensures i < |raster.data|
  {
    IndexToPixel(width, height, it);
    var x := x0 + it % width;
    var y := y0 + it / width;
    PixelIndex(raster.width, raster.height, x, y);
    y * raster.width + x
  }

  /** The luminances of a window's pixels, row by row. */
  function WindowLums(raster: HDRRaster, x0: nat, y0: nat, width: nat, height: nat, sqrt: real -> real): (s: seq<real>)
    requires WindowInside(raster, x0, y0, width, height) && IsSqrt(sqrt)
    ensures |s| == width * height
    ensures forall k :: 0 <= k < |s| ==> s[k] >= 0.0
  {
    seq(width * height, it requires 0 <= it < width * height =>
      raster.data[WindowIndex(raster, x0, y0, width, height, it)].Luminance(sqrt))
  }

  /** Entry dy * width + dx of `lums` is the luminance of raster pixel
      (x0 + dx, y0 + dy). */
  ghost predicate WindowEntry(lums: seq<real>, raster: HDRRaster, x0: nat, y0: nat, width: nat, sqrt: real -> real, dx: nat, dy: nat)
    requires IsSqrt(sqrt)
  {
    var k := dy * width + dx;
    var i := (y0 + dy) * raster.width + (x0 + dx);
    k < |lums| && i < |raster.data| && lums[k] == raster.data[i].Luminance(sqrt)
  }

  /** Entry dy * width + dx of a window is its pixel (x0 + dx, y0 + dy). */
  lemma WindowAt(raster: HDRRaster, x0: nat, y0: nat, width: nat, height: nat, sqrt: real -> real, dx: nat, dy: nat)
    requires WindowInside(raster, x0, y0, width, height) && IsSqrt(sqrt) && dx < width && dy < height
    ensures WindowEntry(WindowLums(raster, x0, y0, width, height, sqrt), raster, x0, y0, width, sqrt, dx, dy)
  {
    var k := dy * width + dx;
    PixelIndex(width, height, dx, dy);
    PixelIndex(raster.width, raster.height, x0 + dx, y0 + dy);
    DivModOfPixel(width, dx, dy);
    assert WindowIndex(raster, x0, y0, width, height, k) == (y0 + dy) * raster.width + (x0 + dx);
  }

  /** Every entry of a window is its pixel. */
  lemma WindowEntries(raster: HDRRaster, x0: nat, y0: nat, width: nat, height: nat, sqrt: real -> real)
    requires WindowInside(raster, x0, y0, width, height) && IsSqrt(sqrt)
    ensures forall dx, dy :: 0 <= dx < width && 0 <= dy < height ==>
              WindowEntry(WindowLums(raster, x0, y0, width, height, sqrt), raster, x0, y0, width, sqrt, dx, dy)
  {
    forall dx, dy | 0 <= dx < width && 0 <= dy < height
      ensures WindowEntry(WindowLums(raster, x0, y0, width, height, sqrt), raster, x0, y0, width, sqrt, dx, dy)
    {
      WindowAt(raster, x0, y0, width, height, sqrt, dx, dy);
    }
  }

  /** A zone of the grid, as a window. */
  lemma ZoneInside(raster: HDRRaster, zoneSize: nat, zoneX: nat, zoneY: nat)
    requires raster.Valid() && zoneSize > 0
    requires zoneX < ZoneCount(raster.width, zoneSize) && zoneY < ZoneCount(raster.height, zoneSize)
    ensures ZoneExtent(raster.width, zoneSize, zoneX) >= 1 && ZoneExtent(raster.height, zoneSize, zoneY) >= 1
    ensures WindowInside(raster, zoneX * zoneSize, zoneY * zoneSize,
              ZoneExtent(raster.width, zoneSize, zoneX), ZoneExtent(raster.height, zoneSize, zoneY))
  {
    ZoneExtentBounds(raster.width, zoneSize, zoneX);
    ZoneExtentBounds(raster.height, zoneSize, zoneY);
  }

  /** The luminances of the pixels of zone (zoneX, zoneY), row by row. */
  function ZonePixels(raster: HDRRaster, zoneSize: nat, zoneX: nat, zoneY: nat, sqrt: real -> real): (s: seq<real>)
    requires raster.Valid() && IsSqrt(sqrt) && zoneSize > 0
    requires zoneX < ZoneCount(raster.width, zoneSize) && zoneY < ZoneCount(raster.height, zoneSize)
    ensures |s| == ZoneExtent(raster.width, zoneSize, zoneX) * ZoneExtent(raster.height, zoneSize, zoneY)
    ensures forall k :: 0 <= k < |s| ==> s[k] >= 0.0
  {
    ZoneInside(raster, zoneSize, zoneX, zoneY);
    WindowLums(raster, zoneX * zoneSize, zoneY * zoneSize,
      ZoneExtent(raster.width, zoneSize, zoneX), ZoneExtent(raster.height, zoneSize, zoneY), sqrt)
  }

  /** `calculateZoneLum`: the mean luminance of the zone's pixels. */
  function ZoneLum(raster: HDRRaster, zoneSize: nat, zoneX: nat, zoneY: nat, sqrt: real -> real): real
    requires raster.Valid() && IsSqrt(sqrt) && zoneSize > 0
    requires zoneX < ZoneCount(raster.width, zoneSize) && zoneY < ZoneCount(raster.height, zoneSize)
  {
    ZoneExtentBounds(raster.width, zoneSize, zoneX);
    ZoneExtentBounds(raster.height, zoneSize, zoneY);
    Mean(ZonePixels(raster, zoneSize, zoneX, zoneY, sqrt))
  }

  /** A zone luminance is the sum of the zone's window over its area. */
  lemma ZoneLumOfWindow(raster: HDRRaster, zoneSize: nat, zoneX: nat, zoneY: nat, sqrt: real -> real)
    requires raster.Valid() && IsSqrt(sqrt) && zoneSize > 0
    requires zoneX < ZoneCount(raster.width, zoneSize) && zoneY < ZoneCount(raster.height, zoneSize)
    ensures ZoneExtent(raster.width, zoneSize, zoneX) >= 1 && ZoneExtent(raster.height, zoneSize, zoneY) >= 1
    ensures WindowInside(raster, zoneX * zoneSize, zoneY * zoneSize,
              ZoneExtent(raster.width, zoneSize, zoneX), ZoneExtent(raster.height, zoneSize, zoneY))
    ensures ZoneLum(raster, zoneSize, zoneX, zoneY, sqrt) ==
              Sum(WindowLums(raster, zoneX * zoneSize, zoneY * zoneSize,
                    ZoneExtent(raster.width, zoneSize, zoneX), ZoneExtent(raster.height, zoneSize, zoneY), sqrt))
              / (ZoneExtent(raster.width, zoneSize, zoneX) * ZoneExtent(raster.height, zoneSize, zoneY)) as real
  {
    ZoneInside(raster, zoneSize, zoneX, zoneY);
  }

  /** A zone luminance is never negative, and a zone whose pixels all have
      luminance `c` has luminance `c`. */
  lemma ZoneLumProperties(raster: HDRRaster, zoneSize: nat, zoneX: nat, zoneY: nat, sqrt: real -> real, c: real)
    requires raster.Valid() && IsSqrt(sqrt) && zoneSize > 0
    requires zoneX < ZoneCount(raster.width, zoneSize) && zoneY < ZoneCount(raster.height, zoneSize)
    ensures ZoneLum(raster, zoneSize, zoneX, zoneY, sqrt) >= 0.0
    ensures (forall i :: 0 <= i < |raster.data| ==> raster.data[i].Luminance(sqrt) == c) ==>
              ZoneLum(raster, zoneSize, zoneX, zoneY, sqrt) == c
  {
    ZoneExtentBounds(raster.width, zoneSize, zoneX);
    ZoneExtentBounds(raster.height, zoneSize, zoneY);
    var s := ZonePixels(raster, zoneSize, zoneX, zoneY, sqrt);
    SumNonNegative(s);
    if forall i :: 0 <= i < |raster.data| ==> raster.data[i].Luminance(sqrt) == c {
      MeanConstant(s, c);
    }
  }

  /** `buildZones` with zones of side max(width, height) / divisor; a raster
      smaller than `divisor` on both sides has zone side 0, and the zone
      count divides by it. */
  function BuildZonesWith(raster: HDRRaster, divisor: nat, sqrt: real -> real): Result<ZonesData>
    requires raster.Valid() && IsSqrt(sqrt) && divisor > 0
  {
    var zoneSize := ZoneSize(raster.width, raster.height, divisor);
    if zoneSize == 0 then Failure(DivisionByZero)
    else
      var horizZones := ZoneCount(raster.width, zoneSize);
      var vertZones := ZoneCount(raster.height, zoneSize);
      Success(ZonesData(zoneSize, horizZones, vertZones, ZoneLums(raster, zoneSize, sqrt)))
  }

  /** The zone luminances, row by row. */
  function ZoneLums(raster: HDRRaster, zoneSize: nat, sqrt: real -> real): (s: seq<real>)
    requires raster.Valid() && IsSqrt(sqrt) && zoneSize > 0
    ensures |s| == ZoneCount(raster.width, zoneSize) * ZoneCount(raster.height, zoneSize)
  {
    var n := ZoneCount(raster.width, zoneSize) * ZoneCount(raster.height, zoneSize);
    seq(n, it requires 0 <= it < n => ZoneLumAt(raster, zoneSize, sqrt, it))
  }

  /** The luminance of zone `it`, counting zones row by row. */
  function ZoneLumAt(raster: HDRRaster, zoneSize: nat, sqrt: real -> real, it: nat): real
    requires raster.Valid() && IsSqrt(sqrt) && zoneSize > 0
    requires it < ZoneCount(raster.width, zoneSize) * ZoneCount(raster.height, zoneSize)
  {
    var horizZones := ZoneCount(raster.width, zoneSize);
    IndexToPixel(horizZones, ZoneCount(raster.height, zoneSize), it);
    ZoneLum(raster, zoneSize, it % horizZones, it / horizZones, sqrt)
  }

  /** The zones fail exactly for a raster below `divisor` on both sides;
      otherwise the grid covers the raster and zone (zx, zy) sits at
      zy * horizZones + zx. */
  lemma BuildZonesShape(raster: HDRRaster, divisor: nat, sqrt: real -> real, zx: nat, zy: nat)
    requires raster.Valid() && IsSqrt(sqrt) && divisor > 0
    ensures var r := BuildZonesWith(raster, divisor, sqrt);
            (r.Failure? <==> raster.width < divisor && raster.height < divisor) &&
            (r.Failure? ==> r.error == DivisionByZero) &&
            (r.Success? ==>
              var z := r.value;
              GridOf(z, raster.width, raster.height) &&
              z.zoneSize == (if raster.width > raster.height then raster.width else raster.height) / divisor &&
              (zx < z.horizZones && zy < z.vertZones ==>
                zy * z.horizZones + zx < |z.zonesLums| &&
                z.zonesLums[zy * z.horizZones + zx] == ZoneLum(raster, z.zoneSize, zx, zy, sqrt)))
  {
    var r := BuildZonesWith(raster, divisor, sqrt);
    if r.Success? {
      var z := r.value;
      if zx < z.horizZones && zy < z.vertZones {
        var i := zy * z.horizZones + zx;
        PixelIndex(z.horizZones, z.vertZones, zx, zy);
        DivModOfPixel(z.horizZones, zx, zy);
      }
    }
  }

  /** Entry `it` of a successful `BuildZonesWith` is zone (it % horizZones, it / horizZones). */
  lemma ZoneOfIndex(raster: HDRRaster, divisor: nat, sqrt: real -> real, it: nat)
    requires raster.Valid() && IsSqrt(sqrt) && divisor > 0
    requires BuildZonesWith(raster, divisor, sqrt).Success?
    requires it < BuildZonesWith(raster, divisor, sqrt).value.horizZones * BuildZonesWith(raster, divisor, sqrt).value.vertZones
    ensures var z := BuildZonesWith(raster, divisor, sqrt).value;
            z.horizZones > 0 && it % z.horizZones < z.horizZones && it / z.horizZones < z.vertZones &&
            z.horizZones == ZoneCount(raster.width, z.zoneSize) && z.vertZones == ZoneCount(raster.height, z.zoneSize) &&
            it < |z.zonesLums| && z.zonesLums[it] == ZoneLum(raster, z.zoneSize, it % z.horizZones, it / z.horizZones, sqrt)
  {
    var z := BuildZonesWith(raster, divisor, sqrt).value;
    IndexToPixel(z.horizZones, z.vertZones, it);
  }

  lemma DivModOfPixel(width: nat, x: nat, y: nat)
    requires x < width
    ensures (y * width + x) % width == x && (y * width + x) / width == y
  {
    Adjuster.DivModUnique(y * width + x, width, y, x);
  }

  /** Every zone luminance is at least 0, and a raster of one luminance `c`
      gives every zone the luminance `c`. */
  lemma BuildZonesLums(raster: HDRRaster, divisor: nat, sqrt: real -> real, c: real)
    requires raster.Valid() && IsSqrt(sqrt) && divisor > 0
    requires BuildZonesWith(raster, divisor, sqrt).Success?
    ensures var z := BuildZonesWith(raster, divisor, sqrt).value;
            (forall k :: 0 <= k < |z.zonesLums| ==> z.zonesLums[k] >= 0.0) &&
            ((forall i :: 0 <= i < |raster.data| ==> raster.data[i].Luminance(sqrt) == c) ==>
               forall k :: 0 <= k < |z.zonesLums| ==> z.zonesLums[k] == c)
  {
    var z := BuildZonesWith(raster, divisor, sqrt).value;
    forall k | 0 <= k < |z.zonesLums|
      ensures z.zonesLums[k] >= 0.0
      ensures (forall i :: 0 <= i < |raster.data| ==> raster.data[i].Luminance(sqrt) == c) ==> z.zonesLums[k] == c
    {
      IndexToPixel(z.horizZones, z.vertZones, k);
      ZoneLumProperties(raster, z.zoneSize, k % z.horizZones, k / z.horizZones, sqrt, c);
    }
  }

  // ---- the zonal luminance of a pixel ----

  /** What the model relies on about `Math.exp`. */
  ghost predicate IsExp(exp: real -> real)
  {
    forall v :: exp(v) > 0.0
  }

  /** How many zones away a neighbour may be. */
  const Reach: nat := 5

  /** `0.84089642 * 5.0 / 3.0`. */
  const Sigma: real := 0.84089642 * 5.0 / 3.0

  /** `dx` (or `dy`): the distance from zone `n`'s first pixel to coordinate
      `p`, in zone sides, taken as one pixel when it is zero. */
  function Delta(p: int, n: int, zoneSize: nat): real
    requires zoneSize > 0
  {
    (if p == n * zoneSize then 1.0 else (p - n * zoneSize) as real) / zoneSize as real
  }

  /** `Math.exp(-d / (2.0 * sigma * sigma))`. */
  function Gaussian(exp: real -> real, d: real): (g: real)
    requires IsExp(exp)
    ensures g > 0.0
  {
    exp(-d / (2.0 * Sigma * Sigma))
  }

  /** The zones a pixel's blend may use, and a pixel inside their grid. */
  predicate BlendDefined(z: ZonesData, x: int, y: int)
  {
    z.zoneSize > 0 && |z.zonesLums| == z.horizZones * z.vertZones &&
    0 <= x && 0 <= y && x / z.zoneSize < z.horizZones && y / z.zoneSize < z.vertZones
  }

  /** The running sums of `zone`: weighted luminances and weights. */
  datatype Blend = Blend(sum: real, weight: real)

  /** Zone column `n` of the neighbourhood (n in 0 .. 10). */
  function NeighborColumn(z: ZonesData, x: int, n: nat): int
    requires z.zoneSize > 0
  {
    x / z.zoneSize - Reach + n
  }

  function NeighborRow(z: ZonesData, y: int, m: nat): int
    requires z.zoneSize > 0
  {
    y / z.zoneSize - Reach + m
  }

  /** The inner loop over the first `n` neighbour columns in zone row `ny`,
      from the sums `b`. */
  function RowBlend(z: ZonesData, x: int, y: int, ny: int, exp: real -> real, b: Blend, n: nat): Blend
    requires BlendDefined(z, x, y) && 0 <= ny < z.vertZones && IsExp(exp)
  {
    if n == 0 then b
    else
      AddNeighbor(z, x, y, NeighborColumn(z, x, n - 1), ny, exp, RowBlend(z, x, y, ny, exp, b, n - 1))
  }

  /** One step of the inner loop: zone (nx, ny) added with its weight, or
      skipped when it is off the grid. */
  function AddNeighbor(z: ZonesData, x: int, y: int, nx: int, ny: int, exp: real -> real, prev: Blend): Blend
    requires BlendDefined(z, x, y) && 0 <= ny < z.vertZones && IsExp(exp)
  {
    if nx < 0 || nx > z.horizZones - 1 then prev
    else
      Accumulate(prev, LumOf(z, nx, ny), NeighborWeight(z, x, y, nx, ny, exp))
  }

  /** `sum += lum * weight; sumWeight += weight`. */
  function Accumulate(b: Blend, lum: real, weight: real): Blend
  {
    Blend(b.sum + lum * weight, b.weight + weight)
  }

  /** The luminance of zone (nx, ny). */
  function LumOf(z: ZonesData, nx: int, ny: int): real
    requires |z.zonesLums| == z.horizZones * z.vertZones && 0 <= nx < z.horizZones && 0 <= ny < z.vertZones
  {
    PixelIndex(z.horizZones, z.vertZones, nx, ny);
    z.zonesLums[ny * z.horizZones + nx]
  }

  /** The weight of zone (nx, ny) for pixel (x, y). */
  function NeighborWeight(z: ZonesData, x: int, y: int, nx: int, ny: int, exp: real -> real): real
    requires z.zoneSize > 0 && IsExp(exp)
  {
    var dx := Delta(x, nx, z.zoneSize);
    var dy := Delta(y, ny, z.zoneSize);
    Gaussian(exp, SquaredDistance(dx, dy))
  }

  /** `dx * dx + dy * dy`. */
  function SquaredDistance(dx: real, dy: real): real
  {
    dx * dx + dy * dy
  }

  /** The outer loop over the first `m` neighbour rows. */
  function GridBlend(z: ZonesData, x: int, y: int, exp: real -> real, m: nat): Blend
    requires BlendDefined(z, x, y) && IsExp(exp)
  {
    if m == 0 then Blend(0.0, 0.0)
    else
      var prev := GridBlend(z, x, y, exp, m - 1);
      var ny := NeighborRow(z, y, m - 1);
      if ny < 0 || ny > z.vertZones - 1 then prev
      else RowBlend(z, x, y, ny, exp, prev, 2 * Reach + 1)
  }

  /** `zone(x, y, zones)`: the blend over all 11 x 11 neighbours. */
  function ZoneValue(z: ZonesData, x: int, y: int, exp: real -> real): real
    requires BlendDefined(z, x, y) && IsExp(exp)
  {
    var b := GridBlend(z, x, y, exp, 2 * Reach + 1);
    BlendBetween(z, x, y, exp, 0.0, 0.0);
    b.sum / b.weight
  }

  /** The sums stay between `lo` and `hi` times the weight when every zone
      luminance does. */
  predicate Bounded(b: Blend, lo: real, hi: real)
  {
    b.weight >= 0.0 && lo * b.weight <= b.sum <= hi * b.weight
  }

  predicate LumsBetween(z: ZonesData, lo: real, hi: real)
  {
    forall k :: 0 <= k < |z.zonesLums| ==> lo <= z.zonesLums[k] <= hi
  }

  /** Adding one zone of luminance `l` in [lo, hi] with weight `w > 0`. */
  lemma AddBounded(b: Blend, l: real, w: real, lo: real, hi: real)
    requires Bounded(b, lo, hi) && lo <= l <= hi && w > 0.0
    ensures Bounded(Accumulate(b, l, w), lo, hi)
    ensures Accumulate(b, l, w).weight > b.weight
  {
    assert lo * w <= l * w <= hi * w;
  }

  /** A row adds only non-negative weight, and strictly more once it has
      passed the pixel's own zone column. */
  lemma {:induction false} RowBlendBounded(z: ZonesData, x: int, y: int, ny: int, exp: real -> real, b: Blend, n: nat,
                                           lo: real, hi: real)
    requires BlendDefined(z, x, y) && 0 <= ny < z.vertZones && IsExp(exp)
    requires LumsBetween(z, lo, hi) && Bounded(b, lo, hi)
    ensures var r := RowBlend(z, x, y, ny, exp, b, n);
            Bounded(r, lo, hi) && r.weight >= b.weight && (n > Reach ==> r.weight > b.weight)
  {
    if n > 0 {
      RowBlendBounded(z, x, y, ny, exp, b, n - 1, lo, hi);
      var nx := NeighborColumn(z, x, n - 1);
      AddNeighborBounded(z, x, y, nx, ny, exp, RowBlend(z, x, y, ny, exp, b, n - 1), lo, hi);
      assert nx == x / z.zoneSize ==> n - 1 == Reach;
    }
  }

  lemma AddNeighborBounded(z: ZonesData, x: int, y: int, nx: int, ny: int, exp: real -> real, prev: Blend,
                           lo: real, hi: real)
    requires BlendDefined(z, x, y) && 0 <= ny < z.vertZones && IsExp(exp)
    requires LumsBetween(z, lo, hi) && Bounded(prev, lo, hi)
    ensures var r := AddNeighbor(z, x, y, nx, ny, exp, prev);
            Bounded(r, lo, hi) && r.weight >= prev.weight &&
            (0 <= nx < z.horizZones ==> r.weight > prev.weight)
  {
    if !(nx < 0 || nx > z.horizZones - 1) {
      LumOfBetween(z, nx, ny, lo, hi);
      var w := NeighborWeight(z, x, y, nx, ny, exp);
      assert w > 0.0;
      AddBounded(prev, LumOf(z, nx, ny), w, lo, hi);
      assert AddNeighbor(z, x, y, nx, ny, exp, prev) == Accumulate(prev, LumOf(z, nx, ny), w);
    }
  }

  lemma LumOfBetween(z: ZonesData, nx: int, ny: int, lo: real, hi: real)
    requires |z.zonesLums| == z.horizZones * z.vertZones && 0 <= nx < z.horizZones && 0 <= ny < z.vertZones
    requires LumsBetween(z, lo, hi)
    ensures lo <= LumOf(z, nx, ny) <= hi
  {
    PixelIndex(z.horizZones, z.vertZones, nx, ny);
  }

  /** The grid blend keeps the bounds, and has positive weight once it has
      passed the pixel's own zone row. */
  lemma {:induction false} GridBlendBounded(z: ZonesData, x: int, y: int, exp: real -> real, m: nat, lo: real, hi: real)
    requires BlendDefined(z, x, y) && IsExp(exp) && LumsBetween(z, lo, hi)
    ensures var r := GridBlend(z, x, y, exp, m);
            Bounded(r, lo, hi) && (m > Reach ==> r.weight > 0.0)
  {
    if m > 0 {
      GridBlendBounded(z, x, y, exp, m - 1, lo, hi);
      var prev := GridBlend(z, x, y, exp, m - 1);
      var ny := NeighborRow(z, y, m - 1);
      if !(ny < 0 || ny > z.vertZones - 1) {
        RowBlendBounded(z, x, y, ny, exp, prev, 2 * Reach + 1, lo, hi);
      } else {
        assert m - 1 != Reach;
      }
    }
  }

  /** The full blend has positive weight (the pixel's own zone is in it),
      and its sums stay within the bounds of the zone luminances. */
  lemma BlendBetween(z: ZonesData, x: int, y: int, exp: real -> real, lo: real, hi: real)
    requires BlendDefined(z, x, y) && IsExp(exp)
    ensures GridBlend(z, x, y, exp, 2 * Reach + 1).weight > 0.0
    ensures LumsBetween(z, lo, hi) ==> Bounded(GridBlend(z, x, y, exp, 2 * Reach + 1), lo, hi)
  {
    var l := Min0(z.zonesLums);
    var h := Max0(z.zonesLums);
    GridBlendBounded(z, x, y, exp, 2 * Reach + 1, l, h);
    if LumsBetween(z, lo, hi) {
      GridBlendBounded(z, x, y, exp, 2 * Reach + 1, lo, hi);
    }
  }

  /** A lower and an upper bound of any sequence (0.0 for the empty one). */
  function Min0(s: seq<real>): (m: real)
    ensures forall k :: 0 <= k < |s| ==> m <= s[k]
  {
    if s == [] then 0.0 else var t := Min0(s[..|s| - 1]); if s[|s| - 1] < t then s[|s| - 1] else t
  }

  function Max0(s: seq<real>): (m: real)
    ensures forall k :: 0 <= k < |s| ==> m >= s[k]
  {
    if s == [] then 0.0 else var t := Max0(s[..|s| - 1]); if s[|s| - 1] > t then s[|s| - 1] else t
  }

  /** The zonal luminance lies between the least and the greatest zone
      luminance: it is at least 0, and `c` for zones all of luminance `c`. */
  lemma ZoneValueBetween(z: ZonesData, x: int, y: int, exp: real -> real, lo: real, hi: real)
    requires BlendDefined(z, x, y) && IsExp(exp) && LumsBetween(z, lo, hi)
    ensures lo <= ZoneValue(z, x, y, exp) <= hi
  {
    BlendBetween(z, x, y, exp, lo, hi);
    var b := GridBlend(z, x, y, exp, 2 * Reach + 1);
    QuotientBetween(b.sum, b.weight, lo, hi);
  }

  lemma QuotientBetween(s: real, w: real, lo: real, hi: real)
    requires w > 0.0 && lo * w <= s <= hi * w
    ensures lo <= s / w <= hi
  {
  }

  lemma ZoneValueUniform(z: ZonesData, x: int, y: int, exp: real -> real, c: real)
    requires BlendDefined(z, x, y) && IsExp(exp)
    requires forall k :: 0 <= k < |z.zonesLums| ==> z.zonesLums[k] == c
    ensures ZoneValue(z, x, y, exp) == c
  {
    ZoneValueBetween(z, x, y, exp, c, c);
  }

  /** Every pixel of a raster lies in a zone of its grid. */
  lemma PixelInGrid(z: ZonesData, width: nat, height: nat, x: nat, y: nat)
    requires GridOf(z, width, height) && x < width && y < height
    ensures BlendDefined(z, x, y)
  {
    ZoneCountIsCeiling(width, z.zoneSize);
    ZoneCountIsCeiling(height, z.zoneSize);
    Adjuster.DivBelow(x, z.zoneSize, z.horizZones);
    Adjuster.DivBelow(y, z.zoneSize, z.vertZones);
  }

  /** Zones of non-negative luminance blend to a non-negative value. */
  lemma ZoneValueNonNegative(z: ZonesData, x: int, y: int, exp: real -> real)
    requires BlendDefined(z, x, y) && IsExp(exp)
    requires forall k :: 0 <= k < |z.zonesLums| ==> z.zonesLums[k] >= 0.0
    ensures ZoneValue(z, x, y, exp) >= 0.0
  {
    ZoneValueBetween(z, x, y, exp, 0.0, Max0(z.zonesLums));
  }

  // ---- `zone` as the source computes it ----

  /** `zone(x, y, zones)`. */
  method Zone(x: int, y: int, zones: ZonesData, exp: real -> real) returns (r: real)
    requires BlendDefined(zones, x, y) && IsExp(exp)
    ensures r == ZoneValue(zones, x, y, exp)
  {
    var zoneY := y / zones.zoneSize;
    var sum, sumWeight := 0.0, 0.0;
    for m := 0 to 2 * Reach + 1
      invariant Blend(sum, sumWeight) == GridBlend(zones, x, y, exp, m)
    {
      var neighborZoneY := zoneY - Reach + m;
      if neighborZoneY < 0 || neighborZoneY > zones.vertZones - 1 {
        continue;
      }
      var dy := Delta(y, neighborZoneY, zones.zoneSize);
      sum, sumWeight := BlendRow(x, y, neighborZoneY, dy, zones, exp, sum, sumWeight);
    }
    BlendBetween(zones, x, y, exp, 0.0, 0.0);
    r := sum / sumWeight;
  }

  /** The inner loop of `zone`, over the neighbour columns of row `ny`. */
  method BlendRow(x: int, y: int, ny: int, dy: real, zones: ZonesData, exp: real -> real, sum0: real, sumWeight0: real)
    returns (sum: real, sumWeight: real)
    requires BlendDefined(zones, x, y) && 0 <= ny < zones.vertZones && IsExp(exp)
    requires dy == Delta(y, ny, zones.zoneSize)
    ensures Blend(sum, sumWeight) == RowBlend(zones, x, y, ny, exp, Blend(sum0, sumWeight0), 2 * Reach + 1)
  {
    var zoneX := x / zones.zoneSize;
    sum, sumWeight := sum0, sumWeight0;
    for n := 0 to 2 * Reach + 1
      invariant Blend(sum, sumWeight) == RowBlend(zones, x, y, ny, exp, Blend(sum0, sumWeight0), n)
    {
      var neighborZoneX := zoneX - Reach + n;
      RowBlendStep(zones, x, y, ny, exp, Blend(sum0, sumWeight0), n);
      if neighborZoneX < 0 || neighborZoneX > zones.horizZones - 1 {
        continue;
      }
      var dx := Delta(x, neighborZoneX, zones.zoneSize);
      var d := SquaredDistance(dx, dy);
      var weight := Gaussian(exp, d);
      NeighborLum(zones, neighborZoneX, ny);
      NeighborWeightOf(zones, x, y, neighborZoneX, ny, dx, dy, exp);
      var lum := zones.zonesLums[ny * zones.horizZones + neighborZoneX];
      assert Blend(sum + lum * weight, sumWeight + weight) == Accumulate(Blend(sum, sumWeight), lum, weight);
      sum := sum + lum * weight;
      sumWeight := sumWeight + weight;
    }
  }

  lemma RowBlendStep(z: ZonesData, x: int, y: int, ny: int, exp: real -> real, b: Blend, n: nat)
    requires BlendDefined(z, x, y) && 0 <= ny < z.vertZones && IsExp(exp)
    ensures RowBlend(z, x, y, ny, exp, b, n + 1) == AddNeighbor(z, x, y, NeighborColumn(z, x, n), ny, exp, RowBlend(z, x, y, ny, exp, b, n))
  {
  }

  /** An in-grid neighbour's luminance, as the loop reads it. */
  lemma NeighborLum(z: ZonesData, nx: int, ny: int)
    requires |z.zonesLums| == z.horizZones * z.vertZones && 0 <= nx < z.horizZones && 0 <= ny < z.vertZones
    ensures 0 <= ny * z.horizZones + nx < |z.zonesLums|
    ensures LumOf(z, nx, ny) == z.zonesLums[ny * z.horizZones + nx]
  {
    PixelIndex(z.horizZones, z.vertZones, nx, ny);
  }

  /** An in-grid neighbour's weight, from the loop's own `dx` and `dy`. */
  lemma NeighborWeightOf(z: ZonesData, x: int, y: int, nx: int, ny: int, dx: real, dy: real, exp: real -> real)
    requires z.zoneSize > 0 && IsExp(exp)
    requires dx == Delta(x, nx, z.zoneSize) && dy == Delta(y, ny, z.zoneSize)
    ensures NeighborWeight(z, x, y, nx, ny, exp) == Gaussian(exp, SquaredDistance(dx, dy))
  {
  }

  // ---- spread histogram ----

  /** How far each zone luminance lies from their average,
      `Math.abs(average - zonesLums[it])`. No zone, no value: the average
      of an empty list is never read. */
  function Spread(lums: seq<real>): (s: seq<real>)
    ensures |s| == |lums|
    ensures forall k :: 0 <= k < |s| ==> s[k] >= 0.0
  {
    if lums == [] then [] else seq(|lums|, it requires 0 <= it < |lums| => Abs(Mean(lums) - lums[it]))
  }

  /** `buildHistogram(0.0, 128.0, 128, zonesLums.size) { ... }.histogram`:
      the histogram both the reference collection and the zonal filter's
      test compare. */
  function SpreadHistogram(lums: seq<real>): (h: seq<real>)
    ensures |h| == 128
    ensures forall j :: 0 <= j < 128 ==> h[j] >= 0.0
  {
    BucketsNonNegative(0.0, 128.0, 128, Spread(lums));
    HistogramOf(0.0, 128.0, 128, Spread(lums)).histogram
  }

  /** Zones of one luminance have no spread: the whole mass sits in the
      first bucket. */
  lemma UniformSpread(lums: seq<real>, c: real)
    requires lums != []
    requires forall k :: 0 <= k < |lums| ==> lums[k] == c
    ensures forall k :: 0 <= k < |lums| ==> Spread(lums)[k] == 0.0
    ensures SpreadHistogram(lums)[0] == 1.0
  {
    MeanConstant(lums, c);
    var s := Spread(lums);
    assert forall k :: 0 <= k < |s| ==> s[k] == 0.0;
    assert forall k :: 0 <= k < |s| ==> BucketIndex(s[k], 0.0, 128.0, 128) == 0;
    CountAllInBucket(s, 0.0, 128.0, 128, 0);
    FracAtMostOne(|s|, |s|);
  }
}
