/** ZonesSamples.kt: the reference side of the zonal stage. Its zones have
    side max(width, height) / 15, and its `calculateZoneLum` sums the zone's
    luminances in two nested loops instead of averaging a list. */
module ZonesSamples {
  import opened Wrappers
  import opened Rasters
  import opened RealSeqs
  import opened Zones

  const Divisor: nat := 15

  /** `calculateZoneLum(raster, zoneX, zoneY, zoneSize)`: the loops visit the
      zone's pixels row by row and divide the sum by their number, which is
      the mean of the zone's pixel luminances. */
  method CalculateZoneLum(raster: HDRRaster, zoneX: nat, zoneY: nat, zoneSize: nat, sqrt: real -> real) returns (lum: real)
    requires raster.Valid() && IsSqrt(sqrt) && zoneSize > 0
    requires zoneX < ZoneCount(raster.width, zoneSize) && zoneY < ZoneCount(raster.height, zoneSize)
    ensures lum == ZoneLum(raster, zoneSize, zoneX, zoneY, sqrt)
  {
    ZoneLumOfWindow(raster, zoneSize, zoneX, zoneY, sqrt);
    var zoneWidth: nat := ZoneExtent(raster.width, zoneSize, zoneX);
    var zoneHeight: nat := ZoneExtent(raster.height, zoneSize, zoneY);
    WindowEntries(raster, zoneX * zoneSize, zoneY * zoneSize, zoneWidth, zoneHeight, sqrt);
    var sum := SumWindow(raster, zoneX * zoneSize, zoneY * zoneSize, zoneWidth, zoneHeight, sqrt,
                         WindowLums(raster, zoneX * zoneSize, zoneY * zoneSize, zoneWidth, zoneHeight, sqrt));
    lum := sum / (zoneWidth * zoneHeight) as real;
  }

  /** The two loops: the sum of the luminances `lums` of a window's pixels. */
  method SumWindow(raster: HDRRaster, x0: nat, y0: nat, width: nat, height: nat, sqrt: real -> real, ghost lums: seq<real>)
    returns (sum: real)
    requires WindowInside(raster, x0, y0, width, height) && IsSqrt(sqrt)
    requires |lums| == width * height
    requires forall dx, dy :: 0 <= dx < width && 0 <= dy < height ==> WindowEntry(lums, raster, x0, y0, width, sqrt, dx, dy)
    ensures sum == Sum(lums)
  {
    sum := 0.0;
    ghost var done := 0;
    for dy := 0 to height
      invariant done == dy * width && done <= |lums|
      invariant sum == Sum(lums[..done])
    {
      RowFits(width, height, dy, done);
      sum := SumWindowRow(raster, x0, y0, width, sqrt, dy, lums, done, sum);
      done := done + width;
    }
    assert lums[..done] == lums;
  }

  /** The inner loop, over row `dy` of the window, which starts at entry `start`. */
  method SumWindowRow(raster: HDRRaster, x0: nat, y0: nat, width: nat, sqrt: real -> real, dy: nat,
                      ghost lums: seq<real>, ghost start: nat, sum0: real)
    returns (sum: real)
    requires raster.Valid() && IsSqrt(sqrt)
    requires start == dy * width && start + width <= |lums|
    requires forall dx :: 0 <= dx < width ==> WindowEntry(lums, raster, x0, y0, width, sqrt, dx, dy)
    requires sum0 == Sum(lums[..start])
    ensures sum == Sum(lums[..start + width])
  {
    var y := y0 + dy;
    sum := sum0;
    for dx := 0 to width
      invariant sum == Sum(lums[..start + dx])
    {
      var x := x0 + dx;
      assert WindowEntry(lums, raster, x0, y0, width, sqrt, dx, dy);
      SumPrefixStep(lums, start + dx);
      sum := sum + raster.data[y * raster.width + x].Luminance(sqrt);
    }
  }

  /** Row `dy` of a window of `height` rows ends inside the window. */
  lemma RowFits(width: nat, height: nat, dy: nat, start: nat)
    requires dy < height && start == dy * width
    ensures start + width == (dy + 1) * width <= width * height
  {
  }

  /** `buildZones` of ZonesSamples.kt. */
  method BuildZones(source: HDRRaster, sqrt: real -> real) returns (r: Result<ZonesData>)
    requires source.Valid() && IsSqrt(sqrt)
    ensures r == BuildZonesWith(source, Divisor, sqrt)
  {
    var zoneSize := ZoneSize(source.width, source.height, Divisor);
    if zoneSize == 0 {
      return Failure(DivisionByZero);
    }
    var horizZones := ZoneCount(source.width, zoneSize);
    var vertZones := ZoneCount(source.height, zoneSize);
    var lums := new real[horizZones * vertZones];
    for it := 0 to horizZones * vertZones
      invariant forall k :: 0 <= k < it ==> lums[k] == ZoneLumAt(source, zoneSize, sqrt, k)
    {
      IndexToPixel(horizZones, vertZones, it);
      lums[it] := CalculateZoneLum(source, it % horizZones, it / horizZones, zoneSize, sqrt);
    }
    r := Success(ZonesData(zoneSize, horizZones, vertZones, lums[..]));
    assert r.value.zonesLums == BuildZonesWith(source, Divisor, sqrt).value.zonesLums;
  }

  /** The reference histogram `main` records for a raster: how far each zone
      luminance lies from their average, in 128 buckets over [0, 128]. */
  function ReferenceHistogram(raster: HDRRaster, sqrt: real -> real): (r: Result<seq<real>>)
    requires raster.Valid() && IsSqrt(sqrt)
    ensures r.Failure? <==> raster.width < Divisor && raster.height < Divisor
    ensures r.Success? ==> |r.value| == 128 && forall j :: 0 <= j < 128 ==> r.value[j] >= 0.0
  {
    BuildZonesShape(raster, Divisor, sqrt, 0, 0);
    var zones := BuildZonesWith(raster, Divisor, sqrt);
    if zones.Failure? then Failure(zones.error) else Success(SpreadHistogram(zones.value.zonesLums))
  }
}
