/** Pixels and rasters (HDRRaster.kt): an RGB triple of channel intensities and
    a width x height raster whose construction clamps every channel into
    [0, 255]. Float channels are modelled as reals; `Math.sqrt` in the
    luminance is a parameter `sqrt` about which only non-negativity is known. */
module Rasters {

  function Abs(v: real): real { if v < 0.0 then -v else v }

  /** What the model relies on about `Math.sqrt`. */
  ghost predicate IsSqrt(sqrt: real -> real)
  {
    forall v :: v >= 0.0 ==> sqrt(v) >= 0.0
  }

  /** `rgbGetLuminance`. */
  function LuminanceOf(sqrt: real -> real, r: real, g: real, b: real): (l: real)
    requires IsSqrt(sqrt)
    ensures l >= 0.0
  {
    sqrt(0.299 * r * r + 0.587 * g * g + 0.114 * b * b)
  }

  datatype RGB = RGB(r: real, g: real, b: real) {

    /** `RGB.min` as written: a channel strictly below both others, else `b`. */
    function Min(): (m: real)
      ensures m == r || m == g || m == b
    {
      if r < g && r < b then r else if g < r && g < b then g else b
    }

    /** `RGB.max` as written: a channel strictly above both others, else `b`. */
    function Max(): (m: real)
      ensures m == r || m == g || m == b
    {
      if r > g && r > b then r else if g > r && g > b then g else b
    }

    /** The smallest channel (what `min` is evidently meant to return). */
    function LeastChannel(): (m: real)
      ensures m == r || m == g || m == b
      ensures m <= r && m <= g && m <= b
    {
      if r <= g && r <= b then r else if g <= b then g else b
    }

    /** The largest channel (what `max` is evidently meant to return). */
    function GreatestChannel(): (m: real)
      ensures m == r || m == g || m == b
      ensures m >= r && m >= g && m >= b
    {
      if r >= g && r >= b then r else if g >= b then g else b
    }

    function Luminance(sqrt: real -> real): (l: real)
      requires IsSqrt(sqrt)
      ensures l >= 0.0
    {
      LuminanceOf(sqrt, r, g, b)
    }

    /** `multiply(factor)`: every channel scaled by the same factor. */
    function Multiply(factor: real): (p: RGB)
      ensures p.r == factor * r && p.g == factor * g && p.b == factor * b
    {
      RGB(factor * r, factor * g, factor * b)
    }

    /** `saturation`: mean absolute deviation from the channel average over
        3 * 128, capped at 1. */
    function Saturation(): (s: real)
      ensures 0.0 <= s <= 1.0
    {
      var average := (r + g + b) / 3.0;
      var s := (Abs(average - r) + Abs(average - g) + Abs(average - b)) / (3.0 * 128.0);
      if s > 1.0 then 1.0 else s
    }

    /** `adjustSaturation(factor)`: channels moved away from (or toward) their
        average by `factor`; the average itself does not move. */
    function AdjustSaturation(factor: real): (p: RGB)
      ensures (p.r + p.g + p.b) / 3.0 == (r + g + b) / 3.0
      ensures factor == 1.0 ==> p == this
    {
      var average := (r + g + b) / 3.0;
      RGB(average + (r - average) * factor,
          average + (g - average) * factor,
          average + (b - average) * factor)
    }

    predicate InByteRange()
    {
      0.0 <= r <= 255.0 && 0.0 <= g <= 255.0 && 0.0 <= b <= 255.0
    }
  }

  /** `min` picks the least channel exactly when the least value is not shared
      by `r` and `g` alone. */
  lemma MinIsLeastUnlessRedGreenTie(p: RGB)
    ensures (p.Min() <= p.r && p.Min() <= p.g && p.Min() <= p.b)
            <==> !(p.r == p.g && p.r < p.b)
  {
  }

  lemma MaxIsGreatestUnlessRedGreenTie(p: RGB)
    ensures (p.Max() >= p.r && p.Max() >= p.g && p.Max() >= p.b)
            <==> !(p.r == p.g && p.r > p.b)
  {
  }

  /** The pixel (1, 1, 2): `min` answers 2, the least channel is 1. */
  lemma MinTieCounterexample()
    ensures RGB(1.0, 1.0, 2.0).Min() == 2.0
    ensures RGB(1.0, 1.0, 2.0).LeastChannel() == 1.0
  {
  }

  /** The pixel (2, 2, 1): `max` answers 1, the greatest channel is 2. */
  lemma MaxTieCounterexample()
    ensures RGB(2.0, 2.0, 1.0).Max() == 1.0
    ensures RGB(2.0, 2.0, 1.0).GreatestChannel() == 2.0
  {
  }

  lemma MultiplyByOne(p: RGB)
    ensures p.Multiply(1.0) == p
  {
  }

  /** The clamp applied to every channel by the HDRRaster constructor. */
  function ClampChannel(v: real): (c: real)
    ensures 0.0 <= c <= 255.0
    ensures 0.0 <= v <= 255.0 ==> c == v
    ensures v < 0.0 ==> c == 0.0
    ensures v > 255.0 ==> c == 255.0
  {
    if v < 0.0 then 0.0 else if v > 255.0 then 255.0 else v
  }

  function ClampPixel(p: RGB): (q: RGB)
    ensures q.InByteRange()
    ensures p.InByteRange() ==> q == p
  {
    RGB(ClampChannel(p.r), ClampChannel(p.g), ClampChannel(p.b))
  }

  /** A raster: `data` holds `width * height` pixels, row by row. */
  datatype HDRRaster = HDRRaster(width: nat, height: nat, data: seq<RGB>) {
    /** What every raster built by the constructor satisfies. */
    predicate Valid()
    {
      |data| == width * height &&
      forall i :: 0 <= i < |data| ==> data[i].InByteRange()
    }
  }

  /** Pixel (x, y) of a width x height raster lies at `y * width + x`. */
  lemma PixelIndex(width: nat, height: nat, x: int, y: int)
    requires 0 <= x < width && 0 <= y < height
    ensures 0 <= y * width + x < width * height
  {
    assert y * width <= (height - 1) * width;
  }

  /** The pixel at index `i` is at column `i % width` of row `i / width`. */
  lemma IndexToPixel(width: nat, height: nat, i: int)
    requires 0 <= i < width * height
    ensures width > 0 && 0 <= i % width < width && 0 <= i / width < height
    ensures (i / width) * width + i % width == i
  {
  }

  /** The constructor `HDRRaster(width, height) { func }`: pixel `i` is
      `func(i)` with each channel clamped into [0, 255]. */
  function MakeRaster(width: nat, height: nat, func: nat --> RGB): (raster: HDRRaster)
    requires forall i: nat :: i < width * height ==> func.requires(i)
    ensures raster.Valid()
    ensures raster.width == width && raster.height == height
    ensures forall i: nat :: i < width * height ==> raster.data[i] == ClampPixel(func(i))
    ensures forall i: nat :: i < width * height && func(i).InByteRange() ==> raster.data[i] == func(i)
  {
    var data := seq(width * height, (i: int) requires 0 <= i < width * height => ClampPixel(func(i)));
    assert forall i :: 0 <= i < |data| ==> data[i] == ClampPixel(func(i)) && data[i].InByteRange();
    HDRRaster(width, height, data)
  }

  /** Java's `Math.round` on a double: the nearest integer, halves upward. */
  function Round(v: real): int
  {
    (v + 0.5).Floor
  }

  /** `Long.toInt()`: keeps the low 32 bits, as a signed value. */
  function LongToInt(v: int): (i: int)
    ensures -0x8000_0000 <= i < 0x8000_0000
    ensures -0x8000_0000 <= v < 0x8000_0000 ==> i == v
  {
    var low := v % 0x1_0000_0000;
    if low >= 0x8000_0000 then low - 0x1_0000_0000 else low
  }

  /** `Math.round` saturates at the bounds of Long. */
  function SaturateLong(v: int): int
  {
    if v < -0x8000_0000_0000_0000 then -0x8000_0000_0000_0000
    else if v > 0x7fff_ffff_ffff_ffff then 0x7fff_ffff_ffff_ffff
    else v
  }

  /** `rgbChannelToInt`: the scaled channel rounded, cut to 32 bits and
      clamped into a byte. */
  function RgbChannelToInt(c: real, min: real, factor: real): (i: int)
    ensures 0 <= i <= 255
    ensures 0 <= Round(factor * (c - min)) <= 255 ==> i == Round(factor * (c - min))
  {
    var result := LongToInt(SaturateLong(Round(factor * (c - min))));
    if result < 0 then 0 else if result > 255 then 255 else result
  }

  /** The normalisation factor of `saveHDRRaster`: 255 over the channel range,
      or 255 when the range is at most 1. */
  function SaveFactor(minValue: real, maxValue: real): (factor: real)
    ensures factor > 0.0
    ensures maxValue > minValue + 1.0 ==> factor * (maxValue - minValue) == 255.0
    ensures maxValue <= minValue + 1.0 ==> factor == 255.0
  {
    255.0 / if maxValue > minValue + 1.0 then maxValue - minValue else 1.0
  }
}
