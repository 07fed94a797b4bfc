/** `OptimizedWindow` of Window.kt. The constructor quantises every kernel
    weight to `fixedValue = (precision * v / sum).toLong()` and groups the
    offsets by that value in a hash map; each group becomes one
    `WeightData` whose weight is `fixedValue / precision` and whose offsets
    are stored interleaved x, y. `apply` scatters every pixel's weighted
    luminance onto its neighbours and divides the sums by the weights. */
module OptimizedWindows {
  import opened Wrappers
  import opened RealSeqs
  import opened Rasters
  import opened Kernels
  import Histograms
  import Adjuster

  /** `Offset(x, y)`. */
  datatype Offset = Offset(x: int, y: int)

  /** `WeightData(weight, offsets)`. */
  datatype WeightData = WeightData(weight: real, offsets: seq<int>)

  /** The radius and `windowData`. */
  datatype OptimizedWindow = OptimizedWindow(radius: nat, windowData: seq<WeightData>)

  // ---- quantisation ----

  /** `(precision.toDouble() * v / sum).toLong()`. With radius 0 the sum is
      0 and the quotient is 0 / 0, not a number, which `toLong` turns
      into 0. */
  function FixedValue(radius: nat, precision: int, v: real): int
  {
    if KernelSum(radius) == 0.0 then 0
    else Histograms.Trunc(precision as real * v / KernelSum(radius))
  }

  /** The quantised value of every index of the kernel. */
  function FixedValues(radius: nat, precision: int): (f: seq<int>)
    ensures |f| == Side(radius) * Side(radius)
  {
    seq(Side(radius) * Side(radius),
        it requires 0 <= it < Side(radius) * Side(radius) => FixedValue(radius, precision, RawWindow(radius)[it]))
  }

  /** Entry `it` of the quantised values. */
  lemma FixedValuesAt(radius: nat, precision: int, it: nat)
    requires it < Side(radius) * Side(radius)
    ensures FixedValues(radius, precision)[it] == FixedValue(radius, precision, RawWindow(radius)[it])
  {
  }

  /** `Offset(index % windowWidth - radius, index / windowWidth - radius)`. */
  function OffsetOf(radius: nat, it: nat): Offset
  {
    Offset(OffsetX(radius, it), OffsetY(radius, it))
  }

  /** Distinct indices of the square have distinct offsets. */
  lemma OffsetOfInjective(radius: nat, i: nat, j: nat)
    requires i < Side(radius) * Side(radius) && j < Side(radius) * Side(radius)
    ensures OffsetOf(radius, i) == OffsetOf(radius, j) ==> i == j
  {
    OffsetOfKernelIndex(radius, i);
    OffsetOfKernelIndex(radius, j);
  }

  /** A positive quantised value needs a positive precision. */
  lemma PositiveNeedsPrecision(radius: nat, precision: int, v: real)
    requires v >= 0.0 && FixedValue(radius, precision, v) > 0
    ensures precision > 0
  {
    if precision <= 0 {
      var s := KernelSum(radius);
      SignOfProduct(precision as real, v);
      NonPositiveQuotient(precision as real * v, s);
    }
  }

  lemma SignOfProduct(p: real, v: real)
    requires p <= 0.0 && v >= 0.0
    ensures p * v <= 0.0
  {
  }

  lemma NonPositiveQuotient(x: real, y: real)
    requires x <= 0.0 && y > 0.0
    ensures x / y <= 0.0
  {
  }

  // ---- the hash map ----

  /** The keys of `weightsMap` after the first `n` indices, in the order
      they were first inserted. */
  function Keys(fixed: seq<int>, n: nat): seq<int>
    requires n <= |fixed|
  {
    if n == 0 then []
    else
      var ks := Keys(fixed, n - 1);
      var f := fixed[n - 1];
      if f > 0 && f !in ks then ks + [f] else ks
  }

  /** `weightsMap[f]` after the first `n` indices: the offsets of the indices
      quantised to `f`, in index order. */
  function Members(fixed: seq<int>, radius: nat, n: nat, f: int): seq<Offset>
    requires n <= |fixed|
  {
    if n == 0 then []
    else
      var ms := Members(fixed, radius, n - 1, f);
      if fixed[n - 1] == f then ms + [OffsetOf(radius, n - 1)] else ms
  }

  /** A key is a positive value that some earlier index was quantised to. */
  lemma {:induction false} KeysAre(fixed: seq<int>, n: nat, f: int)
    requires n <= |fixed|
    ensures f in Keys(fixed, n) <==> f > 0 && exists k :: 0 <= k < n && fixed[k] == f
  {
    if n > 0 {
      KeysAre(fixed, n - 1, f);
      if f > 0 && fixed[n - 1] == f {
        assert Keys(fixed, n)[|Keys(fixed, n)| - 1] == f || f in Keys(fixed, n - 1);
      }
    }
  }

  /** No key is inserted twice. */
  lemma {:induction false} KeysDistinct(fixed: seq<int>, n: nat)
    requires n <= |fixed|
    ensures forall i, j :: 0 <= i < j < |Keys(fixed, n)| ==> Keys(fixed, n)[i] != Keys(fixed, n)[j]
  {
    if n > 0 {
      KeysDistinct(fixed, n - 1);
    }
  }

  /** Every key is positive. */
  lemma {:induction false} KeysPositive(fixed: seq<int>, n: nat)
    requires n <= |fixed|
    ensures forall i :: 0 <= i < |Keys(fixed, n)| ==> Keys(fixed, n)[i] > 0
  {
    if n > 0 {
      KeysPositive(fixed, n - 1);
    }
  }

  /** An offset is in group `f` exactly when its index was quantised to `f`. */
  lemma {:induction false} MembersAre(fixed: seq<int>, radius: nat, n: nat, f: int, o: Offset)
    requires n <= |fixed|
    ensures o in Members(fixed, radius, n, f) <==> exists k :: 0 <= k < n && fixed[k] == f && OffsetOf(radius, k) == o
  {
    if n > 0 {
      MembersAre(fixed, radius, n - 1, f, o);
    }
  }

  /** A value no index was quantised to has no members yet. */
  lemma {:induction false} NoMembers(fixed: seq<int>, radius: nat, n: nat, f: int)
    requires n <= |fixed| && forall k :: 0 <= k < n ==> fixed[k] != f
    ensures Members(fixed, radius, n, f) == []
  {
    if n > 0 {
      NoMembers(fixed, radius, n - 1, f);
    }
  }

  /** The map's keys and contents after recording index `n`. */
  lemma MapStep(fixed: seq<int>, radius: nat, n: nat)
    requires n < |fixed|
    ensures Keys(fixed, n + 1) == if fixed[n] > 0 && fixed[n] !in Keys(fixed, n) then Keys(fixed, n) + [fixed[n]] else Keys(fixed, n)
    ensures forall f :: Members(fixed, radius, n + 1, f)
                        == if fixed[n] == f then Members(fixed, radius, n, f) + [OffsetOf(radius, n)] else Members(fixed, radius, n, f)
    ensures fixed[n] > 0 && fixed[n] !in Keys(fixed, n) ==> Members(fixed, radius, n, fixed[n]) == []
  {
    if fixed[n] > 0 && fixed[n] !in Keys(fixed, n) {
      KeysAre(fixed, n, fixed[n]);
      NoMembers(fixed, radius, n, fixed[n]);
    }
  }

  /** The map the constructor has built after the first `n` indices. */
  ghost predicate MapAfter(fixed: seq<int>, radius: nat, n: nat, keys: seq<int>, weightsMap: map<int, seq<Offset>>)
    requires n <= |fixed|
  {
    keys == Keys(fixed, n) && weightsMap == MapOf(fixed, radius, n)
  }

  /** `weightsMap` after the first `n` indices: each key to its members. */
  ghost function MapOf(fixed: seq<int>, radius: nat, n: nat): map<int, seq<Offset>>
    requires n <= |fixed|
  {
    map f | f in Keys(fixed, n) :: Members(fixed, radius, n, f)
  }

  /** Recording index `n` in a map built from the indices before it. */
  lemma RecordStep(fixed: seq<int>, radius: nat, n: nat, keys: seq<int>, weightsMap: map<int, seq<Offset>>,
                   keys': seq<int>, weightsMap': map<int, seq<Offset>>)
    requires n < |fixed| && MapAfter(fixed, radius, n, keys, weightsMap)
    requires fixed[n] <= 0 ==> keys' == keys && weightsMap' == weightsMap
    requires fixed[n] > 0 ==>
               keys' == (if fixed[n] in weightsMap then keys else keys + [fixed[n]]) &&
               weightsMap' == weightsMap[fixed[n] := (if fixed[n] in weightsMap then weightsMap[fixed[n]] else []) + [OffsetOf(radius, n)]]
    ensures MapAfter(fixed, radius, n + 1, keys', weightsMap')
  {
    MapStep(fixed, radius, n);
    KeysPositive(fixed, n);
    var m := MapOf(fixed, radius, n + 1);
    assert forall f :: f in weightsMap' <==> f in m;
    forall f | f in weightsMap'
      ensures weightsMap'[f] == m[f]
    {
      if f != fixed[n] {
        assert weightsMap'[f] == weightsMap[f];
      } else if f in weightsMap {
        assert weightsMap'[f] == Members(fixed, radius, n, f) + [OffsetOf(radius, n)];
      } else {
        assert weightsMap'[f] == [] + [OffsetOf(radius, n)];
      }
    }
  }

  /** The `forEachIndexed` loop filling `weightsMap`; `keys` records the
      order of first insertion, which stands for the map's key order. */
  method CollectWeights(radius: nat, precision: int) returns (keys: seq<int>, weightsMap: map<int, seq<Offset>>)
    ensures MapAfter(FixedValues(radius, precision), radius, Side(radius) * Side(radius), keys, weightsMap)
    ensures keys != [] ==> precision > 0
  {
    var windowWidth := Side(radius);
    var notNormalizedWindow := RawWindow(radius);
    ghost var fixed := FixedValues(radius, precision);
    keys, weightsMap := [], map[];
    for index := 0 to windowWidth * windowWidth
      invariant MapAfter(fixed, radius, index, keys, weightsMap)
    {
      var v := notNormalizedWindow[index];
      var fixedValue := FixedValue(radius, precision, v);
      FixedValuesAt(radius, precision, index);
      keys, weightsMap := Record(fixed, radius, windowWidth, index, fixedValue, keys, weightsMap);
    }
    KeysNeedPrecision(radius, precision);
  }

  /** The loop body: a positive `fixedValue` appends `offset` to its list,
      creating the list on first sight. */
  method Record(ghost fixed: seq<int>, radius: nat, windowWidth: nat, index: nat, fixedValue: int,
                keys0: seq<int>, map0: map<int, seq<Offset>>)
    returns (keys: seq<int>, weightsMap: map<int, seq<Offset>>)
    requires windowWidth == Side(radius) && index < |fixed| && fixedValue == fixed[index]
    requires MapAfter(fixed, radius, index, keys0, map0)
    ensures MapAfter(fixed, radius, index + 1, keys, weightsMap)
  {
    var offset := Offset(index % windowWidth - radius, index / windowWidth - radius);
    assert offset == OffsetOf(radius, index);
    keys, weightsMap := keys0, map0;
    if fixedValue > 0 {
      if fixedValue !in weightsMap {
        weightsMap := weightsMap[fixedValue := []];
        keys := keys + [fixedValue];
      }
      weightsMap := weightsMap[fixedValue := weightsMap[fixedValue] + [offset]];
    }
    RecordStep(fixed, radius, index, keys0, map0, keys, weightsMap);
  }

  // ---- interleaved offsets ----

  /** `IntArray(offsetsList.size * 2) { if (it % 2 == 0) x else y }`. */
  function Interleave(offsets: seq<Offset>): (s: seq<int>)
    ensures |s| == 2 * |offsets|
  {
    seq(2 * |offsets|, it requires 0 <= it < 2 * |offsets| => if it % 2 == 0 then offsets[it / 2].x else offsets[it / 2].y)
  }

  /** Pair `i` of an interleaved array: `offsets[i * 2]`, `offsets[i * 2 + 1]`. */
  function PairAt(offsets: seq<int>, i: nat): Offset
    requires 2 * i + 1 < |offsets|
  {
    Offset(offsets[2 * i], offsets[2 * i + 1])
  }

  /** The pairs of an interleaved array, as `apply` reads them. */
  function Pairs(offsets: seq<int>): (ps: seq<Offset>)
    ensures |ps| == |offsets| / 2
    ensures forall i :: 0 <= i < |ps| ==> ps[i] == PairAt(offsets, i)
  {
    seq(|offsets| / 2, i requires 0 <= i < |offsets| / 2 => PairAt(offsets, i))
  }

  /** Reading the pairs back gives the offsets that were interleaved. */
  lemma PairsOfInterleave(offsets: seq<Offset>)
    ensures Pairs(Interleave(offsets)) == offsets
  {
    var s := Interleave(offsets);
    forall i | 0 <= i < |offsets|
      ensures PairAt(s, i) == offsets[i]
    {
      assert (2 * i) % 2 == 0 && (2 * i) / 2 == i;
      assert (2 * i + 1) % 2 == 1 && (2 * i + 1) / 2 == i;
    }
  }

  // ---- the window ----

  /** `WeightData(fixedValue / precision, ...)` of group `f`. */
  function Group(fixed: seq<int>, radius: nat, precision: int, f: int): WeightData
    requires |fixed| == Side(radius) * Side(radius) && precision != 0
  {
    WeightData(f as real / precision as real, Interleave(Members(fixed, radius, |fixed|, f)))
  }

  /** One group per key of the quantised values `fixed`, in key order. */
  function WindowOf(fixed: seq<int>, radius: nat, precision: int): OptimizedWindow
    requires |fixed| == Side(radius) * Side(radius) && (precision != 0 || Keys(fixed, |fixed|) == [])
  {
    var ks := Keys(fixed, |fixed|);
    OptimizedWindow(radius, seq(|ks|, i requires 0 <= i < |ks| => Group(fixed, radius, precision, ks[i])))
  }

  /** The constructor's result. */
  function OptimizedOf(radius: nat, precision: int): (ow: OptimizedWindow)
    ensures ow.radius == radius
  {
    KeysNeedPrecision(radius, precision);
    WindowOf(FixedValues(radius, precision), radius, precision)
  }

  /** There are keys only with a positive precision. */
  lemma KeysNeedPrecision(radius: nat, precision: int)
    ensures var fixed := FixedValues(radius, precision);
            Keys(fixed, |fixed|) != [] ==> precision > 0
  {
    var fixed := FixedValues(radius, precision);
    var ks := Keys(fixed, |fixed|);
    if ks != [] {
      KeysAre(fixed, |fixed|, ks[0]);
      var k :| 0 <= k < |fixed| && fixed[k] == ks[0];
      FixedValuesAt(radius, precision, k);
      PositiveNeedsPrecision(radius, precision, RawWindow(radius)[k]);
    }
  }

  /** `OptimizedWindow(radius, precision)`. */
  method MakeOptimizedWindow(radius: nat, precision: int) returns (ow: OptimizedWindow)
    ensures ow == OptimizedOf(radius, precision)
  {
    var fixedValuesArray, weightsMap := CollectWeights(radius, precision);
    var windowData := seq(|fixedValuesArray|, index requires 0 <= index < |fixedValuesArray| =>
      WeightData(fixedValuesArray[index] as real / precision as real, Interleave(weightsMap[fixedValuesArray[index]])));
    ow := OptimizedWindow(radius, windowData);
    GroupsAgree(radius, precision, fixedValuesArray, weightsMap, windowData);
  }

  /** The groups built from the map are those of the specification. */
  lemma GroupsAgree(radius: nat, precision: int, keys: seq<int>, weightsMap: map<int, seq<Offset>>,
                    windowData: seq<WeightData>)
    requires MapAfter(FixedValues(radius, precision), radius, Side(radius) * Side(radius), keys, weightsMap)
    requires keys != [] ==> precision > 0
    requires |windowData| == |keys|
    requires forall i :: 0 <= i < |keys| ==>
               windowData[i] == WeightData(keys[i] as real / precision as real, Interleave(weightsMap[keys[i]]))
    ensures OptimizedWindow(radius, windowData) == OptimizedOf(radius, precision)
  {
    var fixed := FixedValues(radius, precision);
    var ow := WindowOf(fixed, radius, precision);
    assert ow == OptimizedOf(radius, precision);
    forall i | 0 <= i < |keys|
      ensures windowData[i] == ow.windowData[i]
    {
    }
  }

  // ---- what the groups hold ----

  /** The offsets of group `g`, read back as pairs. */
  function GroupOffsets(ow: OptimizedWindow, g: nat): seq<Offset>
    requires g < |ow.windowData|
  {
    Pairs(ow.windowData[g].offsets)
  }

  /** Key `g` of the constructor's map: the value of `fixedValuesArray[g]`. */
  function GroupKey(radius: nat, precision: int, g: nat): int
    requires g < |OptimizedOf(radius, precision).windowData|
  {
    Keys(FixedValues(radius, precision), Side(radius) * Side(radius))[g]
  }

  /** Group `g` of the constructed window is the group of key `g`: its
      weight is the key over `precision`, and it holds the key's members. */
  lemma GroupOfKey(radius: nat, precision: int, g: nat)
    requires g < |OptimizedOf(radius, precision).windowData|
    ensures var fixed := FixedValues(radius, precision);
            var ow := OptimizedOf(radius, precision);
            |ow.windowData| == |Keys(fixed, |fixed|)| && precision > 0 &&
            ow.windowData[g].weight == GroupKey(radius, precision, g) as real / precision as real &&
            GroupOffsets(ow, g) == Members(fixed, radius, |fixed|, GroupKey(radius, precision, g))
  {
    var fixed := FixedValues(radius, precision);
    var ks := Keys(fixed, |fixed|);
    KeysNeedPrecision(radius, precision);
    PairsOfInterleave(Members(fixed, radius, |fixed|, ks[g]));
  }

  /** The offset of kernel index `k` is in group `g` exactly when `k` was
      quantised to the group's key. */
  lemma GroupMembership(radius: nat, precision: int, g: nat, k: nat)
    requires g < |OptimizedOf(radius, precision).windowData| && k < Side(radius) * Side(radius)
    ensures var ow := OptimizedOf(radius, precision);
            OffsetOf(radius, k) in GroupOffsets(ow, g)
            <==> FixedValue(radius, precision, RawWindow(radius)[k]) == GroupKey(radius, precision, g)
  {
    var fixed := FixedValues(radius, precision);
    var ow := OptimizedOf(radius, precision);
    GroupOfKey(radius, precision, g);
    var f := GroupKey(radius, precision, g);
    FixedValuesAt(radius, precision, k);
    MembersAre(fixed, radius, |fixed|, f, OffsetOf(radius, k));
    forall k' | 0 <= k' < |fixed| && OffsetOf(radius, k') == OffsetOf(radius, k)
      ensures k' == k
    {
      OffsetOfInjective(radius, k, k');
    }
  }

  /** Every kernel index quantised to a positive value has its offset in
      exactly one group; the others are in none. */
  lemma OneGroupPerOffset(radius: nat, precision: int, k: nat)
    requires k < Side(radius) * Side(radius)
    ensures var ow := OptimizedOf(radius, precision);
            var o := OffsetOf(radius, k);
            (FixedValue(radius, precision, RawWindow(radius)[k]) > 0 <==>
               exists g :: 0 <= g < |ow.windowData| && o in GroupOffsets(ow, g)) &&
            (forall g1, g2 ::
               (0 <= g1 < |ow.windowData| && 0 <= g2 < |ow.windowData| &&
                o in GroupOffsets(ow, g1) && o in GroupOffsets(ow, g2)) ==> g1 == g2)
  {
    var fixed := FixedValues(radius, precision);
    var ks := Keys(fixed, |fixed|);
    var ow := OptimizedOf(radius, precision);
    var o := OffsetOf(radius, k);
    FixedValuesAt(radius, precision, k);
    KeysDistinct(fixed, |fixed|);
    KeysNeedPrecision(radius, precision);
    assert |ow.windowData| == |ks|;
    forall g | 0 <= g < |ow.windowData|
      ensures o in GroupOffsets(ow, g) <==> ks[g] == fixed[k]
    {
      GroupMembership(radius, precision, g, k);
    }
    if fixed[k] > 0 {
      KeysAre(fixed, |fixed|, fixed[k]);
      var g :| 0 <= g < |ks| && ks[g] == fixed[k];
      assert o in GroupOffsets(ow, g);
    } else {
      KeysPositive(fixed, |fixed|);
    }
  }

  /** Every group weighs more than 0, and no two groups weigh the same. */
  lemma GroupWeights(radius: nat, precision: int, g1: nat, g2: nat)
    requires g1 < |OptimizedOf(radius, precision).windowData| && g2 < |OptimizedOf(radius, precision).windowData|
    ensures var wd := OptimizedOf(radius, precision).windowData;
            wd[g1].weight > 0.0 && (g1 != g2 ==> wd[g1].weight != wd[g2].weight)
  {
    var fixed := FixedValues(radius, precision);
    GroupOfKey(radius, precision, g1);
    GroupOfKey(radius, precision, g2);
    KeysPositive(fixed, |fixed|);
    KeysDistinct(fixed, |fixed|);
    Quotients(GroupKey(radius, precision, g1), GroupKey(radius, precision, g2), precision);
  }

  lemma Quotients(a: int, b: int, p: int)
    requires a > 0 && p > 0
    ensures a as real / p as real > 0.0
    ensures a != b ==> a as real / p as real != b as real / p as real
  {
    if a != b && a as real / p as real == b as real / p as real {
      QuotientTimes(a, p);
      QuotientTimes(b, p);
    }
  }

  /** A group's weight is the normalised weight of each of its offsets,
      rounded down to a multiple of `1 / precision`. */
  lemma MemberWeightBounds(radius: nat, precision: int, g: nat, o: Offset)
    requires radius >= 1 && g < |OptimizedOf(radius, precision).windowData|
    requires o in GroupOffsets(OptimizedOf(radius, precision), g)
    ensures precision > 0
    ensures OptimizedOf(radius, precision).windowData[g].weight <= RawWeight(o.x, o.y) / KernelSum(radius)
              < OptimizedOf(radius, precision).windowData[g].weight + 1.0 / precision as real
  {
    MemberWeight(radius, precision, g, o);
    QuantisedShare(OptimizedOf(radius, precision).windowData[g].weight, KernelSum(radius), precision, RawWeight(o.x, o.y));
  }

  /** The weight of a group is the quantised weight of each of its members
      over `precision`. */
  lemma MemberWeight(radius: nat, precision: int, g: nat, o: Offset)
    requires radius >= 1 && g < |OptimizedOf(radius, precision).windowData|
    requires o in GroupOffsets(OptimizedOf(radius, precision), g)
    ensures Quantised(OptimizedOf(radius, precision).windowData[g].weight, KernelSum(radius), precision, RawWeight(o.x, o.y))
  {
    var fixed := FixedValues(radius, precision);
    GroupOfKey(radius, precision, g);
    MembersAre(fixed, radius, |fixed|, GroupKey(radius, precision, g), o);
    var k :| 0 <= k < |fixed| && fixed[k] == GroupKey(radius, precision, g) && OffsetOf(radius, k) == o;
    FixedValuesAt(radius, precision, k);
  }

  /** `w` is `fixedValue / precision` for a non-negative weight `v` out of a
      positive total `sum`. */
  predicate Quantised(w: real, sum: real, precision: int, v: real)
  {
    sum > 0.0 && precision > 0 && v >= 0.0 &&
    w == Histograms.Trunc(precision as real * v / sum) as real / precision as real
  }

  /** `fixedValue / precision` is `v / sum` rounded down to a multiple of
      `1 / precision`. */
  lemma QuantisedShare(w: real, sum: real, precision: int, v: real)
    requires Quantised(w, sum, precision, v)
    ensures precision > 0
    ensures w <= v / sum < w + 1.0 / precision as real
  {
    Reassociate(precision as real, v, sum);
    TruncBounds(precision as real * (v / sum));
    DivideBounds(Histograms.Trunc(precision as real * (v / sum)) as real, precision as real, v / sum);
  }

  lemma Reassociate(p: real, v: real, s: real)
    requires s > 0.0
    ensures p * v / s == p * (v / s)
  {
  }

  lemma TruncBounds(x: real)
    requires x >= 0.0
    ensures Histograms.Trunc(x) as real <= x < Histograms.Trunc(x) as real + 1.0
  {
  }

  /** From `f <= p * e < f + 1` to `f / p <= e < f / p + 1 / p`. */
  lemma DivideBounds(f: real, p: real, e: real)
    requires p > 0.0 && f <= p * e < f + 1.0
    ensures f / p <= e < f / p + 1.0 / p
  {
    assert f / p <= e by {
      assert f / p * p == f;
    }
    assert e < f / p + 1.0 / p by {
      assert (f / p + 1.0 / p) * p == f + 1.0;
    }
  }

  lemma QuotientTimes(f: int, p: int)
    requires p > 0
    ensures (f as real / p as real) * p as real == f as real
  {
  }

  /** Every stored offset lies within the radius and is not the centre. */
  lemma GroupOffsetsWithin(radius: nat, precision: int, g: nat, i: nat)
    requires g < |OptimizedOf(radius, precision).windowData|
    requires i < |GroupOffsets(OptimizedOf(radius, precision), g)|
    ensures var o := GroupOffsets(OptimizedOf(radius, precision), g)[i];
            Within(radius, o.x, o.y) && o != Offset(0, 0)
  {
    var fixed := FixedValues(radius, precision);
    var ow := OptimizedOf(radius, precision);
    var o := GroupOffsets(ow, g)[i];
    GroupOfKey(radius, precision, g);
    KeysPositive(fixed, |fixed|);
    MembersAre(fixed, radius, |fixed|, GroupKey(radius, precision, g), o);
    var k :| 0 <= k < |fixed| && fixed[k] == GroupKey(radius, precision, g) && OffsetOf(radius, k) == o;
    OffsetOfKernelIndex(radius, k);
    FixedValuesAt(radius, precision, k);
    if o == Offset(0, 0) {
      CentreQuantisedToZero(radius, precision, k);
    }
  }

  /** The centre weighs 0 and is quantised to 0. */
  lemma CentreQuantisedToZero(radius: nat, precision: int, k: nat)
    requires k < Side(radius) * Side(radius) && OffsetOf(radius, k) == Offset(0, 0)
    ensures FixedValue(radius, precision, RawWindow(radius)[k]) == 0
  {
    assert RawWindow(radius)[k] == 0.0;
  }

  // ---- apply ----

  /** One `sums[wi] += v; weights[wi] += w` of `apply`. */
  datatype Contribution = Contribution(target: int, value: real, weight: real)

  /** The contributions of the first `n` offset pairs of a group to the
      pixels around (x, y), skipping neighbours outside the raster. */
  function PairContribs(source: HDRRaster, x: int, y: int, luminance: real, w: real, offsets: seq<int>, n: nat): (cs: seq<Contribution>)
    requires source.Valid() && n <= |offsets| / 2
    ensures forall c :: c in cs ==> 0 <= c.target < |source.data| && c.weight == w
  {
    if n == 0 then []
    else
      var cs := PairContribs(source, x, y, luminance, w, offsets, n - 1);
      var wx := x + offsets[(n - 1) * 2];
      var wy := y + offsets[(n - 1) * 2 + 1];
      if 0 <= wx < source.width && 0 <= wy < source.height then
        PixelIndex(source.width, source.height, wx, wy);
        cs + [Contribution(wy * source.width + wx, luminance * w, w)]
      else cs
  }

  /** The contributions of the first `m` groups for a pixel at (x, y) with
      luminance `luminance`: each group adds `luminance * weight` and
      `weight`. */
  function GroupContribs(source: HDRRaster, x: int, y: int, luminance: real, wd: seq<WeightData>, m: nat): (cs: seq<Contribution>)
    requires source.Valid() && m <= |wd|
    ensures forall c :: c in cs ==> 0 <= c.target < |source.data|
  {
    if m == 0 then []
    else
      var g := wd[m - 1];
      GroupContribs(source, x, y, luminance, wd, m - 1) + PairContribs(source, x, y, luminance, g.weight, g.offsets, |g.offsets| / 2)
  }

  /** The luminance of pixel `index`. */
  function LuminanceAt(source: HDRRaster, sqrt: real -> real, index: nat): real
    requires IsSqrt(sqrt) && index < |source.data|
  {
    source.data[index].Luminance(sqrt)
  }

  /** The contributions of the first `n` pixels, in the order `apply` makes
      them. */
  function Contribs(source: HDRRaster, ow: OptimizedWindow, sqrt: real -> real, n: nat): (cs: seq<Contribution>)
    requires source.Valid() && IsSqrt(sqrt) && n <= |source.data|
    ensures forall c :: c in cs ==> 0 <= c.target < |source.data|
  {
    if n == 0 then []
    else
      var index := n - 1;
      Contribs(source, ow, sqrt, n - 1) +
      GroupContribs(source, index % source.width, index / source.width, LuminanceAt(source, sqrt, index), ow.windowData, |ow.windowData|)
  }

  /** The total value the contributions add at index `j`. */
  function ValueAt(cs: seq<Contribution>, j: int): real
  {
    if cs == [] then 0.0
    else ValueAt(cs[..|cs| - 1], j) + (if cs[|cs| - 1].target == j then cs[|cs| - 1].value else 0.0)
  }

  /** The total weight the contributions add at index `j`. */
  function WeightAt(cs: seq<Contribution>, j: int): real
  {
    if cs == [] then 0.0
    else WeightAt(cs[..|cs| - 1], j) + (if cs[|cs| - 1].target == j then cs[|cs| - 1].weight else 0.0)
  }

  /** Result `it` of `apply`: `sums[it] / weights[it]`, where no weight at
      all (0 / 0, not a number) is `None`. */
  function Averaged(source: HDRRaster, ow: OptimizedWindow, sqrt: real -> real, it: nat): Option<real>
    requires source.Valid() && IsSqrt(sqrt) && it < |source.data|
  {
    var cs := Contribs(source, ow, sqrt, |source.data|);
    if WeightAt(cs, it) == 0.0 then None else Some(ValueAt(cs, it) / WeightAt(cs, it))
  }

  /** Adding one contribution changes the totals at its target only. */
  lemma AtAppend(cs: seq<Contribution>, c: Contribution, j: int)
    ensures ValueAt(cs + [c], j) == ValueAt(cs, j) + (if c.target == j then c.value else 0.0)
    ensures WeightAt(cs + [c], j) == WeightAt(cs, j) + (if c.target == j then c.weight else 0.0)
  {
    assert (cs + [c])[..|cs|] == cs;
  }

  /** `sums` and `weights` hold the totals of the contributions `cs`. */
  ghost predicate Holds(sums: array<real>, weights: array<real>, cs: seq<Contribution>)
    reads sums, weights
  {
    sums.Length == weights.Length &&
    forall j :: 0 <= j < sums.Length ==> sums[j] == ValueAt(cs, j) && weights[j] == WeightAt(cs, j)
  }

  /** `apply`. */
  method Apply(source: HDRRaster, ow: OptimizedWindow, sqrt: real -> real) returns (out: seq<Option<real>>)
    requires source.Valid() && IsSqrt(sqrt)
    ensures |out| == |source.data|
    ensures forall it :: 0 <= it < |out| ==> out[it] == Averaged(source, ow, sqrt, it)
  {
    var sums, weights := Scatter(source, ow, sqrt);
    out := seq(sums.Length, it requires 0 <= it < sums.Length reads sums, weights =>
      if weights[it] == 0.0 then None else Some(sums[it] / weights[it]));
  }

  /** The `data.forEachIndexed` loop of `apply` filling `sums` and `weights`. */
  method Scatter(source: HDRRaster, ow: OptimizedWindow, sqrt: real -> real) returns (sums: array<real>, weights: array<real>)
    requires source.Valid() && IsSqrt(sqrt)
    ensures fresh(sums) && fresh(weights) && sums.Length == |source.data|
    ensures Holds(sums, weights, Contribs(source, ow, sqrt, |source.data|))
  {
    sums := new real[|source.data|](_ => 0.0);
    weights := new real[|source.data|](_ => 0.0);
    ghost var cs: seq<Contribution> := [];
    for index := 0 to |source.data|
      invariant fresh(sums) && fresh(weights)
      invariant Holds(sums, weights, cs) && sums.Length == |source.data|
      invariant cs == Contribs(source, ow, sqrt, index)
    {
      IndexToPixel(source.width, source.height, index);
      var x := index % source.width;
      var y := index / source.width;
      var luminance := source.data[index].Luminance(sqrt);
      ContribsStep(source, ow, sqrt, index);
      cs := ScatterPixel(source, x, y, luminance, ow.windowData, sums, weights, cs);
    }
  }

  /** The contributions of one more pixel. */
  lemma ContribsStep(source: HDRRaster, ow: OptimizedWindow, sqrt: real -> real, n: nat)
    requires source.Valid() && IsSqrt(sqrt) && n < |source.data|
    ensures Contribs(source, ow, sqrt, n + 1)
            == Contribs(source, ow, sqrt, n)
               + GroupContribs(source, n % source.width, n / source.width, source.data[n].Luminance(sqrt), ow.windowData, |ow.windowData|)
  {
  }

  /** The `windowData.forEach` for one pixel. */
  method ScatterPixel(source: HDRRaster, x: int, y: int, luminance: real, wd: seq<WeightData>,
                      sums: array<real>, weights: array<real>, ghost cs0: seq<Contribution>)
    returns (ghost cs: seq<Contribution>)
    requires source.Valid() && sums != weights && sums.Length == |source.data| && Holds(sums, weights, cs0)
    modifies sums, weights
    ensures cs == cs0 + GroupContribs(source, x, y, luminance, wd, |wd|) && Holds(sums, weights, cs)
  {
    cs := cs0;
    for g := 0 to |wd|
      invariant cs == cs0 + GroupContribs(source, x, y, luminance, wd, g) && Holds(sums, weights, cs)
    {
      GroupStep(source, x, y, luminance, wd, g, cs0, cs);
      cs := ScatterGroup(source, x, y, luminance, wd[g], sums, weights, cs);
    }
  }

  /** The contributions of one more group. */
  lemma GroupStep(source: HDRRaster, x: int, y: int, luminance: real, wd: seq<WeightData>, g: nat,
                  cs0: seq<Contribution>, before: seq<Contribution>)
    requires source.Valid() && g < |wd| && before == cs0 + GroupContribs(source, x, y, luminance, wd, g)
    ensures cs0 + GroupContribs(source, x, y, luminance, wd, g + 1)
            == before + PairContribs(source, x, y, luminance, wd[g].weight, wd[g].offsets, |wd[g].offsets| / 2)
  {
  }

  /** The contributions of one more offset pair. */
  lemma PairStep(source: HDRRaster, x: int, y: int, luminance: real, w: real, offsets: seq<int>, i: nat,
                 cs0: seq<Contribution>, before: seq<Contribution>)
    requires source.Valid() && i < |offsets| / 2 && before == cs0 + PairContribs(source, x, y, luminance, w, offsets, i)
    ensures var wx := x + offsets[i * 2];
            var wy := y + offsets[i * 2 + 1];
            cs0 + PairContribs(source, x, y, luminance, w, offsets, i + 1)
            == if 0 <= wx < source.width && 0 <= wy < source.height
               then before + [Contribution(wy * source.width + wx, luminance * w, w)]
               else before
  {
  }

  /** The loop over the offset pairs of one group. */
  method ScatterGroup(source: HDRRaster, x: int, y: int, luminance: real, group: WeightData,
                      sums: array<real>, weights: array<real>, ghost cs0: seq<Contribution>)
    returns (ghost cs: seq<Contribution>)
    requires source.Valid() && sums != weights && sums.Length == |source.data| && Holds(sums, weights, cs0)
    modifies sums, weights
    ensures cs == cs0 + PairContribs(source, x, y, luminance, group.weight, group.offsets, |group.offsets| / 2)
    ensures Holds(sums, weights, cs)
  {
    var w := group.weight;
    var v := luminance * w;
    var offsets := group.offsets;
    cs := cs0;
    for i := 0 to |offsets| / 2
      invariant cs == cs0 + PairContribs(source, x, y, luminance, w, offsets, i) && Holds(sums, weights, cs)
    {
      var wx := x + offsets[i * 2];
      var wy := y + offsets[i * 2 + 1];
      PairStep(source, x, y, luminance, w, offsets, i, cs0, cs);
      if wx >= 0 && wx < source.width && wy >= 0 && wy < source.height {
        PixelIndex(source.width, source.height, wx, wy);
        cs := Accumulate(sums, weights, cs, Contribution(wy * source.width + wx, v, w));
      }
    }
  }

  /** `sums[wi] += v; weights[wi] += w` for one contribution. */
  method Accumulate(sums: array<real>, weights: array<real>, ghost cs0: seq<Contribution>, c: Contribution)
    returns (ghost cs: seq<Contribution>)
    requires sums != weights && Holds(sums, weights, cs0) && 0 <= c.target < sums.Length
    modifies sums, weights
    ensures cs == cs0 + [c] && Holds(sums, weights, cs)
  {
    sums[c.target] := sums[c.target] + c.value;
    weights[c.target] := weights[c.target] + c.weight;
    forall j | 0 <= j < sums.Length
      ensures sums[j] == ValueAt(cs0 + [c], j) && weights[j] == WeightAt(cs0 + [c], j)
    {
      AtAppend(cs0, c, j);
    }
    cs := cs0 + [c];
  }

  // ---- what apply computes ----

  /** Contribution `c` carries a non-negative weight and a value between
      `lo` and `hi` times that weight. */
  predicate Between(c: Contribution, lo: real, hi: real)
  {
    c.weight >= 0.0 && lo * c.weight <= c.value <= hi * c.weight
  }

  /** A luminance between `lo` and `hi`, times a weight of at least 0. */
  lemma ScaledBetween(luminance: real, w: real, lo: real, hi: real)
    requires lo <= luminance <= hi && w >= 0.0
    ensures Between(Contribution(0, luminance * w, w), lo, hi)
  {
  }

  lemma {:induction false} PairContribsBetween(source: HDRRaster, x: int, y: int, luminance: real, w: real, offsets: seq<int>, n: nat,
                                               lo: real, hi: real)
    requires source.Valid() && n <= |offsets| / 2 && lo <= luminance <= hi && w >= 0.0
    ensures forall c :: c in PairContribs(source, x, y, luminance, w, offsets, n) ==> Between(c, lo, hi)
  {
    if n > 0 {
      PairContribsBetween(source, x, y, luminance, w, offsets, n - 1, lo, hi);
      ScaledBetween(luminance, w, lo, hi);
    }
  }

  lemma {:induction false} GroupContribsBetween(source: HDRRaster, x: int, y: int, luminance: real, ow: OptimizedWindow, m: nat,
                                                lo: real, hi: real)
    requires source.Valid() && m <= |ow.windowData| && lo <= luminance <= hi && PositiveWeights(ow)
    ensures forall c :: c in GroupContribs(source, x, y, luminance, ow.windowData, m) ==> Between(c, lo, hi)
  {
    if m > 0 {
      var g := ow.windowData[m - 1];
      GroupContribsBetween(source, x, y, luminance, ow, m - 1, lo, hi);
      PairContribsBetween(source, x, y, luminance, g.weight, g.offsets, |g.offsets| / 2, lo, hi);
    }
  }

  /** Every pixel's luminance lies in [lo, hi]. */
  ghost predicate LuminanceWithin(source: HDRRaster, sqrt: real -> real, lo: real, hi: real)
    requires IsSqrt(sqrt)
  {
    forall i :: 0 <= i < |source.data| ==> lo <= LuminanceAt(source, sqrt, i) <= hi
  }

  lemma {:induction false} ContribsBetween(source: HDRRaster, ow: OptimizedWindow, sqrt: real -> real, n: nat, lo: real, hi: real)
    requires source.Valid() && IsSqrt(sqrt) && n <= |source.data| && PositiveWeights(ow)
    requires LuminanceWithin(source, sqrt, lo, hi)
    ensures forall c :: c in Contribs(source, ow, sqrt, n) ==> Between(c, lo, hi)
  {
    if n > 0 {
      var index := n - 1;
      ContribsBetween(source, ow, sqrt, n - 1, lo, hi);
      GroupContribsBetween(source, index % source.width, index / source.width, LuminanceAt(source, sqrt, index),
                           ow, |ow.windowData|, lo, hi);
    }
  }

  /** The totals at `j` of contributions between `lo` and `hi`. */
  predicate TotalsBetween(value: real, weight: real, lo: real, hi: real)
  {
    weight >= 0.0 && lo * weight <= value <= hi * weight
  }

  lemma AddBetween(value: real, weight: real, c: Contribution, lo: real, hi: real)
    requires TotalsBetween(value, weight, lo, hi) && Between(c, lo, hi)
    ensures TotalsBetween(value + c.value, weight + c.weight, lo, hi)
  {
    assert lo * (weight + c.weight) == lo * weight + lo * c.weight;
    assert hi * (weight + c.weight) == hi * weight + hi * c.weight;
  }

  lemma {:induction false} TotalsBetweenAt(cs: seq<Contribution>, j: int, lo: real, hi: real)
    requires forall c :: c in cs ==> Between(c, lo, hi)
    ensures TotalsBetween(ValueAt(cs, j), WeightAt(cs, j), lo, hi)
  {
    if cs != [] {
      var c := cs[|cs| - 1];
      assert forall d :: d in cs[..|cs| - 1] ==> d in cs;
      TotalsBetweenAt(cs[..|cs| - 1], j, lo, hi);
      if c.target == j {
        AddBetween(ValueAt(cs[..|cs| - 1], j), WeightAt(cs[..|cs| - 1], j), c, lo, hi);
      }
    }
  }

  lemma QuotientBetween(value: real, weight: real, lo: real, hi: real)
    requires TotalsBetween(value, weight, lo, hi) && weight != 0.0
    ensures lo <= value / weight <= hi
  {
    var q := value / weight;
    assert q * weight == value;
    CancelPositive(lo, q, weight);
    CancelPositive(q, hi, weight);
  }

  lemma CancelPositive(a: real, b: real, w: real)
    requires w > 0.0 && a * w <= b * w
    ensures a <= b
  {
    assert (b - a) * w >= 0.0;
  }

  /** With positive weights, every result of `apply` lies between the
      least and the greatest luminance of the raster. */
  lemma AveragedWithinLuminance(source: HDRRaster, ow: OptimizedWindow, sqrt: real -> real, it: nat, lo: real, hi: real)
    requires source.Valid() && IsSqrt(sqrt) && it < |source.data| && PositiveWeights(ow)
    requires LuminanceWithin(source, sqrt, lo, hi)
    ensures Averaged(source, ow, sqrt, it).Some? ==> lo <= Averaged(source, ow, sqrt, it).value <= hi
  {
    var cs := Contribs(source, ow, sqrt, |source.data|);
    ContribsBetween(source, ow, sqrt, |source.data|, lo, hi);
    TotalsBetweenAt(cs, it, lo, hi);
    if WeightAt(cs, it) != 0.0 {
      QuotientBetween(ValueAt(cs, it), WeightAt(cs, it), lo, hi);
    }
  }

  /** A raster of one luminance comes out as that luminance wherever there
      is weight. */
  lemma FlatStaysFlat(source: HDRRaster, ow: OptimizedWindow, sqrt: real -> real, it: nat, luminance: real)
    requires source.Valid() && IsSqrt(sqrt) && it < |source.data| && PositiveWeights(ow)
    requires LuminanceWithin(source, sqrt, luminance, luminance)
    ensures Averaged(source, ow, sqrt, it).Some? ==> Averaged(source, ow, sqrt, it).value == luminance
  {
    AveragedWithinLuminance(source, ow, sqrt, it, luminance, luminance);
  }

  /** No group of the window holds the centre offset (0, 0). */
  predicate NoCentre(ow: OptimizedWindow)
  {
    forall g, i :: 0 <= g < |ow.windowData| && 0 <= i < |ow.windowData[g].offsets| / 2 ==>
      PairAt(ow.windowData[g].offsets, i) != Offset(0, 0)
  }

  /** The constructed window never holds the centre. */
  lemma OptimizedHasNoCentre(radius: nat, precision: int)
    ensures NoCentre(OptimizedOf(radius, precision))
  {
    var ow := OptimizedOf(radius, precision);
    forall g, i | 0 <= g < |ow.windowData| && 0 <= i < |ow.windowData[g].offsets| / 2
      ensures PairAt(ow.windowData[g].offsets, i) != Offset(0, 0)
    {
      GroupOffsetsWithin(radius, precision, g, i);
    }
  }

  /** A raster of `width * height == 1` pixels is 1 x 1. */
  lemma OnePixel(width: nat, height: nat)
    requires width * height == 1
    ensures width == 1 && height == 1
  {
    if width >= 2 {
      Adjuster.MulMonotone(height, 1, width);
    } else if height >= 2 {
      Adjuster.MulMonotone(width, 1, height);
    }
  }

  lemma {:induction false} PairContribsOnePixel(source: HDRRaster, luminance: real, w: real, offsets: seq<int>, n: nat)
    requires source.Valid() && source.width == 1 && source.height == 1 && n <= |offsets| / 2
    requires forall i :: 0 <= i < n ==> PairAt(offsets, i) != Offset(0, 0)
    ensures PairContribs(source, 0, 0, luminance, w, offsets, n) == []
  {
    if n > 0 {
      PairContribsOnePixel(source, luminance, w, offsets, n - 1);
      assert PairAt(offsets, n - 1) != Offset(0, 0);
    }
  }

  lemma {:induction false} GroupContribsOnePixel(source: HDRRaster, luminance: real, ow: OptimizedWindow, m: nat)
    requires source.Valid() && source.width == 1 && source.height == 1 && m <= |ow.windowData| && NoCentre(ow)
    ensures GroupContribs(source, 0, 0, luminance, ow.windowData, m) == []
  {
    if m > 0 {
      var g := ow.windowData[m - 1];
      GroupContribsOnePixel(source, luminance, ow, m - 1);
      PairContribsOnePixel(source, luminance, g.weight, g.offsets, |g.offsets| / 2);
    }
  }

  /** In a 1 x 1 raster every offset but the centre leaves the raster, so a
      window without the centre gives its pixel no weight: 0 / 0. */
  lemma OnePixelHasNoWeight(source: HDRRaster, ow: OptimizedWindow, sqrt: real -> real)
    requires source.Valid() && IsSqrt(sqrt) && |source.data| == 1 && NoCentre(ow)
    ensures Averaged(source, ow, sqrt, 0) == None
  {
    OnePixel(source.width, source.height);
    GroupContribsOnePixel(source, LuminanceAt(source, sqrt, 0), ow, |ow.windowData|);
    assert Contribs(source, ow, sqrt, 1) == [];
  }

  /** Every group of the window weighs more than 0. */
  predicate PositiveWeights(ow: OptimizedWindow)
  {
    forall g :: 0 <= g < |ow.windowData| ==> ow.windowData[g].weight > 0.0
  }

  /** The constructed window has only positive weights. */
  lemma OptimizedWeightsPositive(radius: nat, precision: int)
    ensures PositiveWeights(OptimizedOf(radius, precision))
  {
    var ow := OptimizedOf(radius, precision);
    forall g | 0 <= g < |ow.windowData|
      ensures ow.windowData[g].weight > 0.0
    {
      GroupWeights(radius, precision, g, g);
    }
  }

  lemma {:induction false} GroupContribsPositive(source: HDRRaster, x: int, y: int, luminance: real, ow: OptimizedWindow, m: nat)
    requires source.Valid() && m <= |ow.windowData| && PositiveWeights(ow)
    ensures forall c :: c in GroupContribs(source, x, y, luminance, ow.windowData, m) ==> c.weight > 0.0
  {
    if m > 0 {
      GroupContribsPositive(source, x, y, luminance, ow, m - 1);
    }
  }

  lemma {:induction false} ContribsPositive(source: HDRRaster, ow: OptimizedWindow, sqrt: real -> real, n: nat)
    requires source.Valid() && IsSqrt(sqrt) && n <= |source.data| && PositiveWeights(ow)
    ensures forall c :: c in Contribs(source, ow, sqrt, n) ==> c.weight > 0.0
  {
    if n > 0 {
      var index := n - 1;
      ContribsPositive(source, ow, sqrt, n - 1);
      GroupContribsPositive(source, index % source.width, index / source.width, LuminanceAt(source, sqrt, index),
                            ow, |ow.windowData|);
    }
  }

  /** With positive weights, the total weight at `j` is 0 exactly when no
      contribution targets `j`. */
  lemma {:induction false} NoWeightIffUntouched(cs: seq<Contribution>, j: int)
    requires forall c :: c in cs ==> c.weight > 0.0
    ensures WeightAt(cs, j) >= 0.0
    ensures WeightAt(cs, j) == 0.0 <==> forall c :: c in cs ==> c.target != j
  {
    if cs != [] {
      assert forall d :: d in cs[..|cs| - 1] ==> d in cs;
      NoWeightIffUntouched(cs[..|cs| - 1], j);
      assert cs == cs[..|cs| - 1] + [cs[|cs| - 1]];
    }
  }

  /** With positive weights, result `it` of `apply` is 0 / 0 exactly when no
      pixel's window reaches `it`. */
  lemma NoneIffUnreached(source: HDRRaster, ow: OptimizedWindow, sqrt: real -> real, it: nat)
    requires source.Valid() && IsSqrt(sqrt) && it < |source.data| && PositiveWeights(ow)
    ensures Averaged(source, ow, sqrt, it).None?
            <==> forall c :: c in Contribs(source, ow, sqrt, |source.data|) ==> c.target != it
  {
    ContribsPositive(source, ow, sqrt, |source.data|);
    NoWeightIffUntouched(Contribs(source, ow, sqrt, |source.data|), it);
  }
}
