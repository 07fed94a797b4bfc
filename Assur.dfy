/** The variant search of Assur.kt: each filter stage expands every variant
    into a LOW, a MID and a HIGH child, clusters the children whose medians
    are close, keeps the best of each cluster and caps the list at 16. */
module Variants {
  import opened Wrappers
  import opened Rasters
  import Adjuster
  import Splines

  // ---- diapasons ----

  datatype Diapason = All | Low | Mid | High

  /** `getStartIndex(size)`; `(size * 0.33).toInt()` is taken as `size * 33 / 100`. */
  function StartIndex(d: Diapason, size: nat): nat
  {
    match d
    case All => 0
    case Low => 0
    case Mid => size * 33 / 100
    case High => size * 66 / 100
  }

  /** `getEndIndex(size)`. */
  function EndIndex(d: Diapason, size: nat): nat
  {
    match d
    case Low => size * 33 / 100
    case Mid => size * 66 / 100
    case All => size
    case High => size
  }

  /** Every diapason is a range inside [0, size); ALL is all of it. */
  lemma DiapasonBounds(d: Diapason, size: nat)
    ensures 0 <= StartIndex(d, size) <= EndIndex(d, size) <= size
    ensures StartIndex(All, size) == 0 && EndIndex(All, size) == size
  {
  }

  /** LOW, MID and HIGH cut [0, size) into three adjacent ranges. */
  lemma DiapasonsPartition(size: nat, i: nat)
    requires i < size
    ensures StartIndex(Low, size) == 0 && EndIndex(High, size) == size
    ensures EndIndex(Low, size) == StartIndex(Mid, size) && EndIndex(Mid, size) == StartIndex(High, size)
    ensures var inLow := StartIndex(Low, size) <= i < EndIndex(Low, size);
            var inMid := StartIndex(Mid, size) <= i < EndIndex(Mid, size);
            var inHigh := StartIndex(High, size) <= i < EndIndex(High, size);
            (inLow || inMid || inHigh) && !(inLow && inMid) && !(inLow && inHigh) && !(inMid && inHigh)
  {
    DiapasonBounds(Mid, size);
    DiapasonBounds(High, size);
  }

  /** `filterIndexed { index, _ -> index in lo..(hi - 1) }`: the entries whose
      index lies in [lo, hi), in their order. */
  function KeepRange<T>(s: seq<T>, lo: nat, hi: nat): seq<T>
  {
    if s == [] then []
    else KeepRange(s[..|s| - 1], lo, hi) + (if lo <= |s| - 1 < hi then [s[|s| - 1]] else [])
  }

  function Clip(a: nat, n: nat): nat
  {
    if a < n then a else n
  }

  /** Filtering by index keeps exactly the slice [lo, hi) of what is there. */
  lemma {:induction false} KeepRangeIsSlice<T>(s: seq<T>, lo: nat, hi: nat)
    requires lo <= hi
    ensures KeepRange(s, lo, hi) == s[Clip(lo, |s|)..Clip(hi, |s|)]
  {
    if s != [] {
      KeepRangeIsSlice(s[..|s| - 1], lo, hi);
      KeepRangeStep(s[..|s| - 1], s[|s| - 1], lo, hi);
      assert s[..|s| - 1] + [s[|s| - 1]] == s;
    }
  }

  /** One more entry extends the slice when its index is in range. */
  lemma KeepRangeStep<T>(init: seq<T>, x: T, lo: nat, hi: nat)
    requires lo <= hi && KeepRange(init, lo, hi) == init[Clip(lo, |init|)..Clip(hi, |init|)]
    ensures KeepRange(init + [x], lo, hi) == (init + [x])[Clip(lo, |init| + 1)..Clip(hi, |init| + 1)]
  {
    var n := |init|;
    KeepRangeSnoc(init, x, lo, hi);
    if lo <= n < hi {
      assert Clip(lo, n) == lo && Clip(hi, n) == n && Clip(lo, n + 1) == lo && Clip(hi, n + 1) == n + 1;
      SliceSnoc(init, x, lo);
    } else if hi <= n {
      assert Clip(lo, n) == lo == Clip(lo, n + 1) && Clip(hi, n) == hi == Clip(hi, n + 1);
      SliceOfPrefix(init, x, lo, hi);
    } else {
      assert Clip(lo, n) == n == Clip(hi, n) && Clip(lo, n + 1) == n + 1 == Clip(hi, n + 1);
    }
  }

  lemma KeepRangeSnoc<T>(init: seq<T>, x: T, lo: nat, hi: nat)
    ensures KeepRange(init + [x], lo, hi) == KeepRange(init, lo, hi) + (if lo <= |init| < hi then [x] else [])
  {
    assert (init + [x])[..|init|] == init;
  }

  lemma SliceOfPrefix<T>(init: seq<T>, x: T, lo: nat, hi: nat)
    requires lo <= hi <= |init|
    ensures init[lo..hi] == (init + [x])[lo..hi]
  {
  }

  lemma SliceSnoc<T>(init: seq<T>, x: T, lo: nat)
    requires lo <= |init|
    ensures init[lo..] + [x] == (init + [x])[lo..]
  {
  }

  /** The samples a filter stage uses for diapason `d`. */
  function DiapasonSamples<T>(samples: seq<T>, d: Diapason): seq<T>
  {
    KeepRange(samples, StartIndex(d, |samples|), EndIndex(d, |samples|))
  }

  /** They are the slice [start, end) of the diapason, in order; ALL keeps
      every sample. */
  lemma DiapasonSamplesSlice<T>(samples: seq<T>, d: Diapason)
    ensures 0 <= StartIndex(d, |samples|) <= EndIndex(d, |samples|) <= |samples|
    ensures DiapasonSamples(samples, d) == samples[StartIndex(d, |samples|)..EndIndex(d, |samples|)]
    ensures DiapasonSamples(samples, All) == samples
  {
    DiapasonBounds(d, |samples|);
    KeepRangeIsSlice(samples, StartIndex(d, |samples|), EndIndex(d, |samples|));
    KeepRangeIsSlice(samples, 0, |samples|);
  }

  /** `getDiapason(index)`: the three children of a variant, in order. */
  function GetDiapason(index: int): (d: Diapason)
    ensures d != All
    ensures index == 0 <==> d == Low
    ensures index == 1 <==> d == Mid
    ensures d == High <==> index != 0 && index != 1
  {
    if index == 0 then Low else if index == 1 then Mid else High
  }

  // ---- the data flowing between stages ----

  /** A spline, as the knots and the values on them. */
  datatype SplineCurve = SplineCurve(knots: seq<real>, values: seq<real>)

  /** `FilterResult`. */
  datatype FilterResult = FilterResult(raster: HDRRaster, spline: SplineCurve, error: Option<real>, median: Option<real>)

  /** The spline a filter stage applies, with the search's error and median
      when it searched (`var error`, `var median` of the zonal and
      luminance filters). */
  datatype Fit = Fit(spline: SplineCurve, error: Option<real>, median: Option<real>)

  /** `findSpline` with the adjuster's 3 levels, as both searching stages
      call it, then `error = adjuster.smallestError` and `median =
      adjuster.bestMedian`. */
  function FitOf(p: Adjuster.Problem): (r: Result<Fit>)
    requires Adjuster.WellFormed(p)
    ensures r.Failure? <==> Adjuster.Search(p, 3).Failure?
    ensures p.samples == [] ==> r.Failure?
    ensures r.Success? ==>
              Splines.StrictlyIncreasing(r.value.spline.knots) &&
              |r.value.spline.knots| == |r.value.spline.values| == p.adjustPoints + 2 &&
              r.value.spline.values[0] == p.minValue && r.value.spline.values[p.adjustPoints + 1] == p.maxValue &&
              r.value.error == Some(Adjuster.Search(p, 3).value.smallestError) &&
              r.value.median == Some(Adjuster.Search(p, 3).value.bestMedian)
  {
    Adjuster.SearchFails(p, 3);
    var o := Adjuster.Search(p, 3);
    if o.Failure? then Failure(o.error)
    else
      Adjuster.SearchOutcome(p, 3);
      Success(Fit(SplineCurve(o.value.knots, o.value.values), Some(o.value.smallestError), Some(o.value.bestMedian)))
  }

  datatype Stage = Details | Zonal | Saturation | Luminance

  function Order(s: Stage): nat
  {
    match s
    case Details => 0
    case Zonal => 1
    case Saturation => 2
    case Luminance => 3
  }

  /** `VariantData`. The raster is compared by value here. */
  datatype VariantData = VariantData(
    raster: HDRRaster,
    detailsError: Option<real>, zonalError: Option<real>, saturationError: Option<real>, lumError: Option<real>,
    detailsMedian: Option<real>, zonalMedian: Option<real>, saturationMedian: Option<real>, lumMedian: Option<real>,
    diapasons: seq<Diapason>)

  function ErrorAt(v: VariantData, s: Stage): Option<real>
  {
    match s
    case Details => v.detailsError
    case Zonal => v.zonalError
    case Saturation => v.saturationError
    case Luminance => v.lumError
  }

  function MedianAt(v: VariantData, s: Stage): Option<real>
  {
    match s
    case Details => v.detailsMedian
    case Zonal => v.zonalMedian
    case Saturation => v.saturationMedian
    case Luminance => v.lumMedian
  }

  /** `error`: the per-stage errors added up, a missing one counting 0. */
  function Error(v: VariantData): real
  {
    v.detailsError.GetOr(0.0) + v.zonalError.GetOr(0.0) + v.saturationError.GetOr(0.0) + v.lumError.GetOr(0.0)
  }

  /** The error is never negative when no stage reported a negative one. */
  lemma ErrorNonNegative(v: VariantData)
    ensures (forall s :: ErrorAt(v, s).Some? ==> ErrorAt(v, s).value >= 0.0) ==> Error(v) >= 0.0
  {
    assert ErrorAt(v, Details) == v.detailsError && ErrorAt(v, Zonal) == v.zonalError;
    assert ErrorAt(v, Saturation) == v.saturationError && ErrorAt(v, Luminance) == v.lumError;
  }

  /** The allowed median distance for a stage. */
  function Tolerance(s: Stage): real
  {
    match s
    case Details => 0.00375
    case Zonal => 0.03
    case Saturation => 0.013
    case Luminance => 0.045
  }

  /** One stage rejects closeness only when both medians are known and
      further apart than its tolerance. */
  predicate Rejects(a: Option<real>, b: Option<real>, tolerance: real)
  {
    a.Some? && b.Some? && Abs(a.value - b.value) > tolerance
  }

  /** `isCloseTo`. */
  predicate IsCloseTo(v0: VariantData, v1: VariantData)
  {
    !Rejects(v0.detailsMedian, v1.detailsMedian, 0.00375) &&
    !Rejects(v0.zonalMedian, v1.zonalMedian, 0.03) &&
    !Rejects(v0.saturationMedian, v1.saturationMedian, 0.013) &&
    !Rejects(v0.lumMedian, v1.lumMedian, 0.045)
  }

  /** Closeness compares every stage's medians against that stage's tolerance:
      it is symmetric, reflexive, and a missing median on either side never
      rejects. */
  lemma IsCloseToProperties(v0: VariantData, v1: VariantData)
    ensures IsCloseTo(v0, v1) <==> forall s :: !Rejects(MedianAt(v0, s), MedianAt(v1, s), Tolerance(s))
    ensures IsCloseTo(v0, v1) == IsCloseTo(v1, v0)
    ensures IsCloseTo(v0, v0)
    ensures (forall s :: MedianAt(v0, s).None? || MedianAt(v1, s).None?) ==> IsCloseTo(v0, v1)
  {
    assert MedianAt(v0, Details) == v0.detailsMedian && MedianAt(v1, Details) == v1.detailsMedian;
    assert MedianAt(v0, Zonal) == v0.zonalMedian && MedianAt(v1, Zonal) == v1.zonalMedian;
    assert MedianAt(v0, Saturation) == v0.saturationMedian && MedianAt(v1, Saturation) == v1.saturationMedian;
    assert MedianAt(v0, Luminance) == v0.lumMedian && MedianAt(v1, Luminance) == v1.lumMedian;
  }

  // ---- filterVariants ----

  ghost predicate SortedByError(s: seq<VariantData>)
  {
    forall i, j :: 0 <= i < j < |s| ==> Error(s[i]) <= Error(s[j])
  }

  /** Inserts `x` after every element whose error is not larger. */
  function Insert(x: VariantData, s: seq<VariantData>): (r: seq<VariantData>)
    ensures multiset(r) == multiset(s) + multiset{x}
    ensures |r| == |s| + 1 && (r[0] == x || (s != [] && r[0] == s[0]))
  {
    if s == [] then [x]
    else if Error(x) < Error(s[0]) then [x] + s
    else
      assert s == [s[0]] + s[1..];
      [s[0]] + Insert(x, s[1..])
  }

  lemma {:induction false} InsertSorted(x: VariantData, s: seq<VariantData>)
    requires SortedByError(s)
    ensures SortedByError(Insert(x, s))
  {
    if s == [] {
    } else if Error(x) < Error(s[0]) {
      SortedCons(x, s);
    } else {
      var rest := Insert(x, s[1..]);
      InsertSorted(x, s[1..]);
      assert s[1..] != [] ==> s[1..][0] == s[1];
      SortedCons(s[0], rest);
    }
  }

  /** A sorted list stays sorted when an element no larger than its head is
      put in front. */
  lemma SortedCons(h: VariantData, t: seq<VariantData>)
    requires SortedByError(t) && (t == [] || Error(h) <= Error(t[0]))
    ensures SortedByError([h] + t)
  {
    var r := [h] + t;
    forall i, j | 0 <= i < j < |r|
      ensures Error(r[i]) <= Error(r[j])
    {
      if i > 0 {
        assert r[i] == t[i - 1] && r[j] == t[j - 1];
      } else {
        assert r[j] == t[j - 1];
        assert j - 1 == 0 || Error(t[0]) <= Error(t[j - 1]);
      }
    }
  }

  /** `sortedBy { it.error }`: a stable insertion sort. */
  function SortByError(s: seq<VariantData>): (r: seq<VariantData>)
    ensures multiset(r) == multiset(s)
    ensures SortedByError(r)
  {
    if s == [] then []
    else
      assert s == s[..|s| - 1] + [s[|s| - 1]];
      InsertSorted(s[|s| - 1], SortByError(s[..|s| - 1]));
      Insert(s[|s| - 1], SortByError(s[..|s| - 1]))
  }

  /** `distinct()`: the first occurrence of every element, in order. */
  function Distinct(s: seq<VariantData>): (r: seq<VariantData>)
    ensures forall x :: x in r <==> x in s
    ensures forall i, j :: 0 <= i < j < |r| ==> r[i] != r[j]
  {
    if s == [] then []
    else
      var d := Distinct(s[..|s| - 1]);
      assert s == s[..|s| - 1] + [s[|s| - 1]];
      if s[|s| - 1] in d then d else d + [s[|s| - 1]]
  }

  /** `variants.filter { v1 -> v0.isCloseTo(v1) }`. */
  function CloseTo(v0: VariantData, vs: seq<VariantData>): (r: seq<VariantData>)
    ensures forall x :: x in r <==> x in vs && IsCloseTo(v0, x)
  {
    if vs == [] then []
    else
      assert vs == [vs[0]] + vs[1..];
      (if IsCloseTo(v0, vs[0]) then [vs[0]] else []) + CloseTo(v0, vs[1..])
  }

  /** `closeVariants[0]`: v0 is in its own cluster, so this never fails. */
  function Representative(v0: VariantData, vs: seq<VariantData>): VariantData
    requires v0 in vs
  {
    IsCloseToProperties(v0, v0);
    var close := SortByError(CloseTo(v0, vs));
    assert v0 in multiset(close);
    close[0]
  }

  /** The representative of v0 is a variant of the list, close to v0, and of
      the smallest error within v0's cluster, hence no worse than v0. */
  lemma RepresentativeIsBestOfCluster(v0: VariantData, vs: seq<VariantData>)
    requires v0 in vs
    ensures var r := Representative(v0, vs);
            r in vs && IsCloseTo(v0, r) && Error(r) <= Error(v0) &&
            forall x :: x in vs && IsCloseTo(v0, x) ==> Error(r) <= Error(x)
  {
    IsCloseToProperties(v0, v0);
    var close := SortByError(CloseTo(v0, vs));
    assert v0 in multiset(close);
    var r := close[0];
    assert r in multiset(CloseTo(v0, vs));
    forall x | x in vs && IsCloseTo(v0, x)
      ensures Error(r) <= Error(x)
    {
      assert x in multiset(close);
      var k :| 0 <= k < |close| && close[k] == x;
      assert k == 0 || Error(close[0]) <= Error(close[k]);
    }
  }

  /** The list before `distinct()`: each variant replaced by its representative. */
  function Representatives(vs: seq<VariantData>, all: seq<VariantData>): (r: seq<VariantData>)
    requires forall x :: x in vs ==> x in all
  {
    seq(|vs|, i requires 0 <= i < |vs| => Representative(vs[i], all))
  }

  /** `subList(0, 16)` when there are more than 16. */
  const ResultLimit: nat := 16

  /** `filterVariants`. */
  function FilterVariants(vs: seq<VariantData>): seq<VariantData>
  {
    var result := SortByError(Distinct(Representatives(vs, vs)));
    if |result| <= ResultLimit then result else result[..ResultLimit]
  }

  /** The filtered list holds at most 16 distinct variants of the input, by
      non-decreasing error, each the representative of some input variant. */
  lemma FilterVariantsProperties(vs: seq<VariantData>)
    ensures var r := FilterVariants(vs);
            |r| <= ResultLimit && SortedByError(r) &&
            (forall i, j :: 0 <= i < j < |r| ==> r[i] != r[j]) &&
            (forall x :: x in r ==> x in vs) &&
            (forall x :: x in r ==> exists i :: 0 <= i < |vs| && x == Representative(vs[i], vs))
  {
    var sorted := SortByError(Distinct(Representatives(vs, vs)));
    SortedDistinctRepresentatives(vs);
    TakeKeeps(sorted, ResultLimit);
  }

  /** Cutting a sorted duplicate-free list to its first `n` keeps both. */
  lemma TakeKeeps(s: seq<VariantData>, n: nat)
    requires SortedByError(s) && forall i, j :: 0 <= i < j < |s| ==> s[i] != s[j]
    ensures var t := if |s| <= n then s else s[..n];
            |t| <= n && SortedByError(t) && (forall i, j :: 0 <= i < j < |t| ==> t[i] != t[j]) &&
            forall x :: x in t ==> x in s
  {
    if |s| > n {
      var t := s[..n];
      forall x | x in t
        ensures x in s
      {
        var k :| 0 <= k < |t| && t[k] == x;
        assert s[k] == x;
      }
    }
  }

  /** Before the cap: duplicate-free, sorted, and made of representatives. */
  lemma SortedDistinctRepresentatives(vs: seq<VariantData>)
    ensures var sorted := SortByError(Distinct(Representatives(vs, vs)));
            SortedByError(sorted) &&
            (forall i, j :: 0 <= i < j < |sorted| ==> sorted[i] != sorted[j]) &&
            (forall x :: x in sorted ==> x in vs && exists i :: 0 <= i < |vs| && x == Representative(vs[i], vs))
  {
    var reps := Representatives(vs, vs);
    var d := Distinct(reps);
    var sorted := SortByError(d);
    forall i, j | 0 <= i < j < |sorted|
      ensures sorted[i] != sorted[j]
    {
      NoDuplicatesKept(d, sorted, i, j);
    }
    forall x | x in sorted
      ensures x in vs && exists i :: 0 <= i < |vs| && x == Representative(vs[i], vs)
    {
      assert x in multiset(sorted);
      assert x in d;
      var i :| 0 <= i < |reps| && reps[i] == x;
      RepresentativeIsBestOfCluster(vs[i], vs);
    }
  }

  /** A permutation of a duplicate-free list is duplicate-free. */
  lemma NoDuplicatesKept(d: seq<VariantData>, s: seq<VariantData>, i: nat, j: nat)
    requires multiset(s) == multiset(d)
    requires forall a, b :: 0 <= a < b < |d| ==> d[a] != d[b]
    requires i < j < |s|
    ensures s[i] != s[j]
  {
    if s[i] == s[j] {
      var x := s[i];
      assert multiset(s)[x] >= 2 by {
        assert s == s[..j] + [s[j]] + s[j + 1..];
        assert s[i] in s[..j];
        assert multiset(s[..j])[x] >= 1;
      }
      CountInDuplicateFree(d, x);
      assert false;
    }
  }

  lemma {:induction false} CountInDuplicateFree(d: seq<VariantData>, x: VariantData)
    requires forall a, b :: 0 <= a < b < |d| ==> d[a] != d[b]
    ensures multiset(d)[x] <= 1
  {
    if d != [] {
      var last := d[|d| - 1];
      var init := d[..|d| - 1];
      assert d == init + [last];
      CountInDuplicateFree(init, x);
      if x == last {
        assert x !in init;
      }
    }
  }

  // ---- one stage of the expansion ----

  /** The per-diapason caches: `splines`, `errors`, `medians`. */
  datatype Cache = Cache(splines: map<Diapason, SplineCurve>, errors: map<Diapason, real>, medians: map<Diapason, real>)

  function Lookup<V>(m: map<Diapason, V>, d: Diapason): Option<V>
  {
    if d in m then Some(m[d]) else None
  }

  /** The child a stage builds: earlier stages' fields copied from the parent,
      this stage's from the caches, later ones empty. */
  function Child(stage: Stage, parent: VariantData, raster: HDRRaster, error: Option<real>, median: Option<real>,
                 d: Diapason): VariantData
  {
    var ds := parent.diapasons + [d];
    match stage
    case Details =>
      VariantData(raster, error, None, None, None, median, None, None, None, ds)
    case Zonal =>
      VariantData(raster, parent.detailsError, error, None, None, parent.detailsMedian, median, None, None, ds)
    case Saturation =>
      VariantData(raster, parent.detailsError, parent.zonalError, error, None,
                  parent.detailsMedian, parent.zonalMedian, median, None, ds)
    case Luminance =>
      VariantData(raster, parent.detailsError, parent.zonalError, parent.saturationError, error,
                  parent.detailsMedian, parent.zonalMedian, parent.saturationMedian, median, ds)
  }

  /** How a child relates to its parent. */
  lemma ChildFields(stage: Stage, parent: VariantData, raster: HDRRaster, error: Option<real>, median: Option<real>,
                    d: Diapason, s: Stage)
    ensures var c := Child(stage, parent, raster, error, median, d);
            c.raster == raster && c.diapasons == parent.diapasons + [d] &&
            (Order(s) < Order(stage) ==> ErrorAt(c, s) == ErrorAt(parent, s) && MedianAt(c, s) == MedianAt(parent, s)) &&
            (s == stage ==> ErrorAt(c, s) == error && MedianAt(c, s) == median) &&
            (Order(s) > Order(stage) ==> ErrorAt(c, s).None? && MedianAt(c, s).None?)
  {
  }

  /** A stage's filter: the raster, the diapason and the spline cached for
      that diapason, if any. */
  type StageFilter = (HDRRaster, Diapason, Option<SplineCurve>) -> FilterResult

  /** The child for diapason index `k`, and the caches after it. */
  function ChildStep(stage: Stage, filter: StageFilter, parent: VariantData, cache: Cache, k: nat): (VariantData, Cache)
  {
    var d := GetDiapason(k);
    var result := filter(parent.raster, d, Lookup(cache.splines, d));
    var errors := if result.error.Some? then cache.errors[d := result.error.value] else cache.errors;
    var medians := if result.median.Some? then cache.medians[d := result.median.value] else cache.medians;
    var splines := cache.splines[d := result.spline];
    (Child(stage, parent, result.raster, Lookup(errors, d), Lookup(medians, d), d), Cache(splines, errors, medians))
  }

  /** An error or median the filter does not report leaves the cache as it
      was, so the child inherits the value stored by an earlier sibling. */
  lemma InheritsCachedValues(stage: Stage, filter: StageFilter, parent: VariantData, cache: Cache, k: nat)
    ensures var d := GetDiapason(k);
            var result := filter(parent.raster, d, Lookup(cache.splines, d));
            var (child, cache') := ChildStep(stage, filter, parent, cache, k);
            ErrorAt(child, stage) == (if result.error.Some? then result.error else Lookup(cache.errors, d)) &&
            MedianAt(child, stage) == (if result.median.Some? then result.median else Lookup(cache.medians, d)) &&
            (result.error.None? ==> cache'.errors == cache.errors) &&
            (result.median.None? ==> cache'.medians == cache.medians) &&
            cache'.splines == cache.splines[d := result.spline] &&
            (forall e :: e != d ==> Lookup(cache'.errors, e) == Lookup(cache.errors, e))
  {
  }

  /** The first `k` children of a parent. */
  function ChildrenOf(stage: Stage, filter: StageFilter, parent: VariantData, cache: Cache, k: nat): (seq<VariantData>, Cache)
    requires k <= 3
  {
    if k == 0 then ([], cache)
    else
      var prev := ChildrenOf(stage, filter, parent, cache, k - 1);
      var step := ChildStep(stage, filter, parent, prev.1, k - 1);
      (prev.0 + [step.0], step.1)
  }

  /** `variants.flatMap { ... }` with its caches. */
  function ExpandSpec(stage: Stage, filter: StageFilter, parents: seq<VariantData>): (seq<VariantData>, Cache)
  {
    if parents == [] then ([], Cache(map[], map[], map[]))
    else
      var prev := ExpandSpec(stage, filter, parents[..|parents| - 1]);
      var children := ChildrenOf(stage, filter, parents[|parents| - 1], prev.1, 3);
      (prev.0 + children.0, children.1)
  }

  /** `child` is the child of `parent` for diapason `k` at `stage`: it extends
      the parent's diapasons by that one and keeps its earlier stages. */
  ghost predicate ExtendsParent(child: VariantData, parent: VariantData, k: nat, stage: Stage)
  {
    child.diapasons == parent.diapasons + [GetDiapason(k)] &&
    forall s :: Order(s) < Order(stage) ==> ErrorAt(child, s) == ErrorAt(parent, s) && MedianAt(child, s) == MedianAt(parent, s)
  }

  /** The first `k` children follow the diapasons in order and keep the
      parent's earlier stages. */
  lemma {:induction false} ChildrenShape(stage: Stage, filter: StageFilter, parent: VariantData, cache: Cache, k: nat)
    requires k <= 3
    ensures var cs := ChildrenOf(stage, filter, parent, cache, k).0;
            |cs| == k && forall j :: 0 <= j < k ==> ExtendsParent(cs[j], parent, j, stage)
  {
    if k > 0 {
      ChildrenShape(stage, filter, parent, cache, k - 1);
      var prev := ChildrenOf(stage, filter, parent, cache, k - 1);
      var d := GetDiapason(k - 1);
      var result := filter(parent.raster, d, Lookup(prev.1.splines, d));
      var step := ChildStep(stage, filter, parent, prev.1, k - 1);
      forall s | Order(s) < Order(stage)
        ensures ErrorAt(step.0, s) == ErrorAt(parent, s) && MedianAt(step.0, s) == MedianAt(parent, s)
      {
        ChildFields(stage, parent, result.raster, ErrorAt(step.0, stage), MedianAt(step.0, stage), d, s);
      }
      assert ExtendsParent(step.0, parent, k - 1, stage);
    }
  }

  /** Every parent gets exactly three children, LOW, MID and HIGH in that order,
      each extending the parent's diapasons and keeping its earlier stages. */
  lemma {:induction false} ExpandShape(stage: Stage, filter: StageFilter, parents: seq<VariantData>)
    ensures var cs := ExpandSpec(stage, filter, parents).0;
            |cs| == 3 * |parents| &&
            forall j :: 0 <= j < |cs| ==> ExtendsParent(cs[j], parents[j / 3], j % 3, stage)
  {
    if parents != [] {
      var n := |parents| - 1;
      var init := parents[..n];
      ExpandShape(stage, filter, init);
      var prev := ExpandSpec(stage, filter, init);
      var own := ChildrenOf(stage, filter, parents[n], prev.1, 3).0;
      ChildrenShape(stage, filter, parents[n], prev.1, 3);
      var cs := ExpandSpec(stage, filter, parents).0;
      assert cs == prev.0 + own;
      assert |prev.0| == 3 * n;
      forall j | 0 <= j < |cs|
        ensures ExtendsParent(cs[j], parents[j / 3], j % 3, stage)
      {
        if j < 3 * n {
          assert j / 3 < n;
          assert parents[j / 3] == init[j / 3];
          assert cs[j] == prev.0[j];
        } else {
          assert j / 3 == n && j % 3 == j - 3 * n;
          assert cs[j] == own[j - 3 * n];
        }
      }
    }
  }

  /** From the second parent on, every filter call receives the spline the
      previous call for its diapason produced: after a parent the cache holds
      LOW, MID and HIGH, each with the spline its own call for that parent
      returned. */
  lemma {:induction false} SplinesCachedAfterFirstParent(stage: Stage, filter: StageFilter, parents: seq<VariantData>)
    requires parents != []
    ensures var cache := ExpandSpec(stage, filter, parents).1;
            Low in cache.splines && Mid in cache.splines && High in cache.splines
    ensures var n := |parents| - 1;
            var before := ExpandSpec(stage, filter, parents[..n]).1;
            var cache := ExpandSpec(stage, filter, parents).1;
            forall k :: 0 <= k < 3 ==>
              Lookup(cache.splines, GetDiapason(k))
                == Some(filter(parents[n].raster, GetDiapason(k), Lookup(before.splines, GetDiapason(k))).spline)
  {
    var n := |parents| - 1;
    var prev := ExpandSpec(stage, filter, parents[..n]);
    var c1 := ChildrenOf(stage, filter, parents[n], prev.1, 1);
    var c2 := ChildrenOf(stage, filter, parents[n], prev.1, 2);
    var c3 := ChildrenOf(stage, filter, parents[n], prev.1, 3);
    var s0 := prev.1.splines;
    var r0 := filter(parents[n].raster, Low, Lookup(s0, Low)).spline;
    var r1 := filter(parents[n].raster, Mid, Lookup(c1.1.splines, Mid)).spline;
    var r2 := filter(parents[n].raster, High, Lookup(c2.1.splines, High)).spline;
    assert ChildrenOf(stage, filter, parents[n], prev.1, 0) == ([], prev.1);
    assert c1.1 == ChildStep(stage, filter, parents[n], prev.1, 0).1;
    assert c2.1 == ChildStep(stage, filter, parents[n], c1.1, 1).1;
    assert c3.1 == ChildStep(stage, filter, parents[n], c2.1, 2).1;
    assert c1.1.splines == s0[Low := r0];
    assert c2.1.splines == s0[Low := r0][Mid := r1];
    assert c3.1.splines == s0[Low := r0][Mid := r1][High := r2];
    assert Lookup(c1.1.splines, Mid) == Lookup(s0, Mid);
    assert Lookup(c2.1.splines, High) == Lookup(s0, High);
  }

  /** `generateDetailsVariants`, `generateZonalVariants`,
      `generateSaturationVariants` and `generateLuminanceVariants`: they
      differ only in the filter and in which fields the children carry. */
  method GenerateStageVariants(stage: Stage, filter: StageFilter, variants: seq<VariantData>)
    returns (r: seq<VariantData>)
    ensures r == FilterVariants(ExpandSpec(stage, filter, variants).0)
  {
    var splines: map<Diapason, SplineCurve> := map[];
    var errors: map<Diapason, real> := map[];
    var medians: map<Diapason, real> := map[];
    var children: seq<VariantData> := [];
    for i := 0 to |variants|
      invariant ExpandSpec(stage, filter, variants[..i]) == (children, Cache(splines, errors, medians))
    {
      var variant := variants[i];
      ghost var before := children;
      ghost var cache0 := Cache(splines, errors, medians);
      var own: seq<VariantData> := [];
      for k := 0 to 3
        invariant ChildrenOf(stage, filter, variant, cache0, k) == (own, Cache(splines, errors, medians))
      {
        var diapason := GetDiapason(k);
        var result := filter(variant.raster, diapason, Lookup(splines, diapason));
        if result.error.Some? {
          errors := errors[diapason := result.error.value];
        }
        if result.median.Some? {
          medians := medians[diapason := result.median.value];
        }
        splines := splines[diapason := result.spline];
        own := own + [Child(stage, variant, result.raster, Lookup(errors, diapason), Lookup(medians, diapason), diapason)];
      }
      children := children + own;
      assert variants[..i + 1][..i] == variants[..i];
    }
    assert variants[..|variants|] == variants;
    r := FilterVariants(children);
  }
}
