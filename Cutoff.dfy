/** The cutoff stage of CutoffFilter.kt: a histogram of all channel values
    of the image, and every channel clipped to the range between its
    lowest and its highest bucket holding more than 1/8192 of the values. */
module Cutoff {
  import opened Wrappers
  import opened Rasters
  import opened RealSeqs
  import opened Histograms

  /** The histogram of the channel values has 256 buckets. */
  const Precision: nat := 256

  /** A bucket counts when it holds more than 1/8192 of the values. */
  const Threshold: real := 1.0 / 8192.0

  /** Channel 0, 1 or 2 (`when (i % 3)`: anything else is blue). */
  function Channel(p: RGB, c: int): real
  {
    if c == 0 then p.r else if c == 1 then p.g else p.b
  }

  /** `allChannels`: entry `i` is channel `i % 3` of pixel `i / 3`. */
  function AllChannels(data: seq<RGB>): (s: seq<real>)
    ensures |s| == 3 * |data|
    ensures forall k, c :: 0 <= k < |data| && 0 <= c < 3 ==> s[3 * k + c] == Channel(data[k], c)
  {
    var s := seq(3 * |data|, i requires 0 <= i < 3 * |data| => Channel(data[i / 3], i % 3));
    forall k, c | 0 <= k < |data| && 0 <= c < 3
      ensures s[3 * k + c] == Channel(data[k], c)
    {
      assert (3 * k + c) / 3 == k && (3 * k + c) % 3 == c;
    }
    s
  }

  /** The channels of an image are those of its pixels, r, g, b, one pixel
      after the other. */
  lemma AllChannelsAppend(data: seq<RGB>, p: RGB)
    ensures AllChannels(data + [p]) == AllChannels(data) + [p.r, p.g, p.b]
  {
    var s := AllChannels(data + [p]);
    var t := AllChannels(data) + [p.r, p.g, p.b];
    forall i | 0 <= i < |s|
      ensures s[i] == t[i]
    {
      var k, c := SplitIndex(i, |data| + 1);
      AppendedEntry(data, p, k, c);
    }
  }

  /** Index `i` of three entries per pixel is entry `c` of pixel `k`. */
  lemma SplitIndex(i: int, n: nat) returns (k: int, c: int)
    requires 0 <= i < 3 * n
    ensures 0 <= k < n && 0 <= c < 3 && i == 3 * k + c
  {
    k, c := i / 3, i % 3;
  }

  lemma AppendedEntry(data: seq<RGB>, p: RGB, k: int, c: int)
    requires 0 <= k <= |data| && 0 <= c < 3
    ensures AllChannels(data + [p])[3 * k + c] == (AllChannels(data) + [p.r, p.g, p.b])[3 * k + c]
  {
    assert AllChannels(data + [p])[3 * k + c] == Channel((data + [p])[k], c);
    if k < |data| {
      assert (data + [p])[k] == data[k];
    }
  }

  /** Every channel of a raster lies in [0, 255]. */
  lemma ChannelsInByteRange(source: HDRRaster)
    requires source.Valid()
    ensures forall i :: 0 <= i < |AllChannels(source.data)| ==> 0.0 <= AllChannels(source.data)[i] <= 255.0
  {
    var s := AllChannels(source.data);
    forall i | 0 <= i < |s|
      ensures 0.0 <= s[i] <= 255.0
    {
      var k, c := SplitIndex(i, |source.data|);
      assert s[3 * k + c] == Channel(source.data[k], c);
      ChannelInByteRange(source.data[k], c);
    }
  }

  lemma ChannelInByteRange(p: RGB, c: int)
    requires p.InByteRange()
    ensures 0.0 <= Channel(p, c) <= 255.0
  {
  }

  /** The histogram of the channel values between their least and their
      greatest. */
  function ChannelHistogram(all: seq<real>): (h: HistogramData)
    requires all != []
    ensures |h.histogram| == Precision && h.minValue == Min(all) && h.maxValue == Max(all)
  {
    HistogramOf(Min(all), Max(all), Precision, all)
  }

  /** Some bucket of the channel histogram always holds more than the
      threshold: with distinct values the 256 buckets share the whole mass,
      and with a single value bucket 0 holds it all. */
  lemma SomeBucketAbove(all: seq<real>)
    requires all != []
    ensures exists k :: 0 <= k < Precision && ChannelHistogram(all).histogram[k] > Threshold
  {
    var lo, hi := Min(all), Max(all);
    var h := ChannelHistogram(all).histogram;
    if lo < hi {
      HistogramMassIsOne(lo, hi, Precision, all);
      if forall k :: 0 <= k < |h| ==> h[k] <= Threshold {
        SumAtMost(h, Threshold);
        assert false;
      }
    } else {
      assert forall k :: 0 <= k < |all| ==> BucketIndex(all[k], lo, hi, Precision) == 0;
      CountAllInBucket(all, lo, hi, Precision, 0);
      FracAtMostOne(|all|, |all|);
      assert h[0] == 1.0;
    }
  }

  /** `min` and `max` of the filter: the low and high values of the channel
      histogram; `allChannels.min()!!` fails on an image without pixels.
      Both lie between the least and the greatest channel, in order. */
  function Limits(data: seq<RGB>): (r: Result<(real, real)>)
    ensures r.Failure? <==> data == []
    ensures r.Failure? ==> r.error == NullDereference
    ensures r.Success? ==> Min(AllChannels(data)) <= r.value.0 <= r.value.1 <= Max(AllChannels(data))
  {
    if data == [] then Failure(NullDereference)
    else
      var all := AllChannels(data);
      var h := ChannelHistogram(all);
      SomeBucketAbove(all);
      var k :| 0 <= k < Precision && h.histogram[k] > Threshold;
      LowNotAboveHigh(h, Threshold, k);
      Success((LowValue(h, Threshold), HighValue(h, Threshold)))
  }

  /** One channel: `if (c < min) min else if (c > max) max else c`. */
  function Clip(v: real, low: real, high: real): real
  {
    if v < low then low else if v > high then high else v
  }

  lemma ClipProperties(v: real, w: real, low: real, high: real)
    requires low <= high
    ensures low <= Clip(v, low, high) <= high
    ensures low <= v <= high ==> Clip(v, low, high) == v
    ensures v <= w ==> Clip(v, low, high) <= Clip(w, low, high)
    ensures Clip(Clip(v, low, high), low, high) == Clip(v, low, high)
  {
  }

  function ClipPixel(p: RGB, low: real, high: real): RGB
  {
    RGB(Clip(p.r, low, high), Clip(p.g, low, high), Clip(p.b, low, high))
  }

  /** `cutoffFilter(context, source)` without its log lines. */
  function CutoffFilterOf(source: HDRRaster): (r: Result<HDRRaster>)
    requires source.Valid()
    ensures r.Failure? <==> source.data == []
    ensures r.Failure? ==> r.error == NullDereference
    ensures r.Success? ==> r.value.Valid() && r.value.width == source.width && r.value.height == source.height
  {
    var limits := Limits(source.data);
    if limits.Failure? then Failure(limits.error)
    else
      var (low, high) := limits.value;
      Success(MakeRaster(source.width, source.height,
                         (i: nat) requires i < |source.data| => ClipPixel(source.data[i], low, high)))
  }

  /** Both limits lie in [0, 255], since every channel does. */
  lemma LimitsInByteRange(source: HDRRaster)
    requires source.Valid() && source.data != []
    ensures 0.0 <= Limits(source.data).value.0 && Limits(source.data).value.1 <= 255.0
  {
    var all := AllChannels(source.data);
    ChannelsInByteRange(source);
    var lo, hi := Min(all), Max(all);
    assert lo in all && hi in all;
  }

  /** Every pixel of the result is the source pixel with each channel
      clipped to [low, high]; a channel already inside keeps its value, and
      no clipped channel leaves [0, 255], so the raster's own clamp changes
      nothing. */
  lemma CutoffPixels(source: HDRRaster, i: nat)
    requires source.Valid() && i < |source.data|
    ensures CutoffFilterOf(source).Success?
    ensures var low, high := Limits(source.data).value.0, Limits(source.data).value.1;
            var q := CutoffFilterOf(source).value.data[i];
            q == ClipPixel(source.data[i], low, high) &&
            low <= q.r <= high && low <= q.g <= high && low <= q.b <= high
  {
    var low, high := Limits(source.data).value.0, Limits(source.data).value.1;
    LimitsInByteRange(source);
    var p := source.data[i];
    ClipProperties(p.r, p.r, low, high);
    ClipProperties(p.g, p.g, low, high);
    ClipProperties(p.b, p.b, low, high);
    var q := ClipPixel(p, low, high);
    assert q.InByteRange();
    var f := (j: nat) requires j < |source.data| => ClipPixel(source.data[j], low, high);
    assert CutoffFilterOf(source) == Success(MakeRaster(source.width, source.height, f));
  }

  /** The channels of an image whose pixels are all grey `c`. */
  lemma UniformChannels(data: seq<RGB>, c: real)
    requires forall i :: 0 <= i < |data| ==> data[i] == RGB(c, c, c)
    ensures forall k :: 0 <= k < |AllChannels(data)| ==> AllChannels(data)[k] == c
  {
    var all := AllChannels(data);
    forall k | 0 <= k < |all|
      ensures all[k] == c
    {
      var j, ch := SplitIndex(k, |data|);
      assert all[3 * j + ch] == Channel(data[j], ch);
    }
  }

  /** With a single value, bucket 0 holds everything and the others
      nothing. */
  lemma UniformHistogram(all: seq<real>, c: real)
    requires all != [] && forall k :: 0 <= k < |all| ==> all[k] == c
    ensures ChannelHistogram(all) == HistogramData(c, c, [1.0] + seq(Precision - 1, _ => 0.0))
  {
    assert Min(all) in all && Max(all) in all;
    var h := ChannelHistogram(all);
    assert forall k :: 0 <= k < |all| ==> BucketIndex(all[k], c, c, Precision) == 0;
    CountAllInBucket(all, c, c, Precision, 0);
    FracAtMostOne(|all|, |all|);
    forall j | 1 <= j < Precision
      ensures h.histogram[j] == 0.0
    {
      NoneInOtherBucket(all, c, j);
    }
  }

  /** An image whose channels all share one value has both limits at that
      value. */
  lemma UniformLimits(source: HDRRaster, c: real)
    requires source.Valid() && source.data != []
    requires forall i :: 0 <= i < |source.data| ==> source.data[i] == RGB(c, c, c)
    ensures Limits(source.data) == Success((c, c))
  {
    var all := AllChannels(source.data);
    UniformChannels(source.data, c);
    assert Min(all) in all && Max(all) in all;
    var r := Limits(source.data);
    assert r.value.0 == c && r.value.1 == c;
  }

  /** An image whose channels all share one value passes unchanged. */
  lemma CutoffUniform(source: HDRRaster, c: real)
    requires source.Valid() && source.data != []
    requires forall i :: 0 <= i < |source.data| ==> source.data[i] == RGB(c, c, c)
    ensures CutoffFilterOf(source) == Success(source)
  {
    UniformLimits(source, c);
    var r := CutoffFilterOf(source).value;
    forall i | 0 <= i < |source.data|
      ensures r.data[i] == source.data[i]
    {
      CutoffPixels(source, i);
    }
    assert r.data == source.data;
  }

  /** No value equal to the single value `c` lands in a bucket other than 0. */
  lemma {:induction false} NoneInOtherBucket(all: seq<real>, c: real, j: int)
    requires forall k :: 0 <= k < |all| ==> all[k] == c
    requires j != 0
    ensures Count(all, c, c, Precision, j) == 0
  {
    if all != [] {
      NoneInOtherBucket(all[..|all| - 1], c, j);
    }
  }
}
