/** Grouping.kt: distances between sample histograms, their average over all
    pairs, and the clustering of samples into groups whose element-wise means
    become the grouped references. */
module Grouping {
  import opened Wrappers
  import opened RealSeqs
  import opened Histograms

  function Sq(x: real): real
  {
    x * x
  }

  lemma SqNonNegative(x: real)
    ensures Sq(x) >= 0.0
  {
  }

  // ---- evalArraysDiff ----

  /** The term of `evalArraysDiff` at index `k`: the square of the value
      difference plus the fourth power of the slope difference (0 at k = 0). */
  function DiffTerm(test: seq<real>, sample: seq<real>, k: nat): real
    requires k < |test| <= |sample|
  {
    var d1 := test[k] - sample[k];
    var d2 := if k > 0 then (test[k] - test[k - 1]) - (sample[k] - sample[k - 1]) else 0.0;
    Sq(d1) + Sq(Sq(d2))
  }

  function DiffTerms(test: seq<real>, sample: seq<real>): (t: seq<real>)
    requires |test| <= |sample|
    ensures |t| == |test|
  {
    seq(|test|, k requires 0 <= k < |test| => DiffTerm(test, sample, k))
  }

  /** `evalArraysDiff`: reads `sample` at every index of `test`. */
  function ArraysDiff(test: seq<real>, sample: seq<real>): (d: real)
    requires |test| <= |sample|
    ensures d >= 0.0
  {
    var terms := DiffTerms(test, sample);
    forall k | 0 <= k < |terms|
      ensures terms[k] >= 0.0
    {
      var d1 := test[k] - sample[k];
      var d2 := if k > 0 then (test[k] - test[k - 1]) - (sample[k] - sample[k - 1]) else 0.0;
      SqNonNegative(d1);
      SqNonNegative(Sq(d2));
    }
    SumNonNegative(terms);
    Sum(terms)
  }

  /** A histogram is at distance 0 from itself. */
  lemma ArraysDiffSelf(a: seq<real>)
    ensures ArraysDiff(a, a) == 0.0
  {
    var terms := DiffTerms(a, a);
    forall k | 0 <= k < |terms|
      ensures terms[k] == 0.0
    {
    }
    SumConstant(terms, 0.0);
  }

  /** On histograms of one length the distance is symmetric. */
  lemma ArraysDiffSymmetric(a: seq<real>, b: seq<real>)
    requires |a| == |b|
    ensures ArraysDiff(a, b) == ArraysDiff(b, a)
  {
    forall k | 0 <= k < |a|
      ensures DiffTerm(a, b, k) == DiffTerm(b, a, k)
    {
      var d1, e1 := a[k] - b[k], b[k] - a[k];
      assert Sq(d1) == Sq(e1);
      if k > 0 {
        var d2, e2 := (a[k] - a[k - 1]) - (b[k] - b[k - 1]), (b[k] - b[k - 1]) - (a[k] - a[k - 1]);
        assert Sq(d2) == Sq(e2);
      }
    }
    assert DiffTerms(a, b) == DiffTerms(b, a);
  }

  // ---- evalArraysDiffM ----

  /** The median of a histogram over [0, 1] at a threshold. */
  function MedianOf(h: seq<real>, threshold: real): real
    requires |h| != 1
  {
    MedianValueOf(HistogramData(0.0, 1.0, h), threshold)
  }

  /** The threshold `1.0 * it / 8.0`. */
  function Threshold(it: nat): real
  {
    1.0 * it as real / 8.0
  }

  /** The squared median difference at threshold `it / 8`. */
  function MedianTerm(test: seq<real>, sample: seq<real>, it: nat): (t: real)
    requires |test| != 1 && |sample| != 1
    ensures t >= 0.0
  {
    var d := MedianOf(test, Threshold(it)) - MedianOf(sample, Threshold(it));
    SqNonNegative(d);
    Sq(d)
  }

  function MedianTerms(test: seq<real>, sample: seq<real>): (t: seq<real>)
    requires |test| != 1 && |sample| != 1
    ensures |t| == 7 && forall k :: 0 <= k < 7 ==> t[k] == MedianTerm(test, sample, k + 1)
  {
    seq(7, k requires 0 <= k < 7 => MedianTerm(test, sample, k + 1))
  }

  /** `evalArraysDiffM`: squared differences of the medians at thresholds
      1/8 .. 7/8, summed and divided by 8. */
  function ArraysDiffM(test: seq<real>, sample: seq<real>): real
    requires |test| != 1 && |sample| != 1
  {
    Sum(MedianTerms(test, sample)) / 8.0
  }

  lemma ArraysDiffMProperties(a: seq<real>, b: seq<real>)
    requires |a| != 1 && |b| != 1
    ensures ArraysDiffM(a, b) >= 0.0
    ensures ArraysDiffM(a, b) == ArraysDiffM(b, a)
    ensures ArraysDiffM(a, a) == 0.0
  {
    SumNonNegative(MedianTerms(a, b));
    forall it | 1 <= it <= 7
      ensures MedianTerm(a, b, it) == MedianTerm(b, a, it)
    {
      var x, y := MedianOf(a, Threshold(it)), MedianOf(b, Threshold(it));
      assert Sq(x - y) == Sq(y - x);
    }
    assert forall k :: 0 <= k < 7 ==> MedianTerms(a, b)[k] == MedianTerms(b, a)[k];
    assert MedianTerms(a, b) == MedianTerms(b, a);
    SumConstant(MedianTerms(a, a), 0.0);
  }

  // ---- findAverageDiff ----

  /** Every later sample is at least as long as every earlier one, as
      `evalArraysDiff(sample0, samples[it])` with it > index needs. */
  predicate WidthsGrow(samples: seq<seq<real>>)
  {
    forall i, j :: 0 <= i < j < |samples| ==> |samples[i]| <= |samples[j]|
  }

  /** The distances from sample `i` to samples i+1 .. m-1. */
  function RowDiffs(samples: seq<seq<real>>, i: nat, m: nat): real
    requires WidthsGrow(samples) && i < |samples| && m <= |samples|
    decreases m
  {
    if m <= i + 1 then 0.0 else RowDiffs(samples, i, m - 1) + ArraysDiff(samples[i], samples[m - 1])
  }

  /** The distances over all pairs whose first index is below `m`. */
  function PairDiffs(samples: seq<seq<real>>, m: nat): real
    requires WidthsGrow(samples) && m <= |samples|
  {
    if m == 0 then 0.0 else PairDiffs(samples, m - 1) + RowDiffs(samples, m - 1, |samples|)
  }

  /** The number of pairs whose first index is below `m`. */
  function PairCount(n: nat, m: nat): nat
    requires m <= n
  {
    if m == 0 then 0 else PairCount(n, m - 1) + (n - m)
  }

  /** What `findAverageDiff` returns; `None` stands for the NaN of 0.0 / 0. */
  function AverageDiffOf(samples: seq<seq<real>>): Option<real>
    requires WidthsGrow(samples)
  {
    var count := PairCount(|samples|, |samples|);
    if count == 0 then None else Some(PairDiffs(samples, |samples|) / count as real)
  }

  /** `findAverageDiff`. */
  method FindAverageDiff(samples: seq<seq<real>>) returns (r: Option<real>)
    requires WidthsGrow(samples)
    ensures r == AverageDiffOf(samples)
  {
    var sumDiffs := 0.0;
    var count := 0;
    for index := 0 to |samples|
      invariant sumDiffs == PairDiffs(samples, index) && count == PairCount(|samples|, index)
    {
      for it := index + 1 to |samples|
        invariant sumDiffs == PairDiffs(samples, index) + RowDiffs(samples, index, it)
        invariant count == PairCount(|samples|, index) + (it - index - 1)
      {
        sumDiffs := sumDiffs + ArraysDiff(samples[index], samples[it]);
        count := count + 1;
      }
    }
    r := if count == 0 then None else Some(sumDiffs / count as real);
  }

  lemma {:induction false} PairCountFormula(n: nat, m: nat)
    requires m <= n
    ensures 2 * PairCount(n, m) == m * (2 * n - m - 1)
  {
    if m > 0 {
      PairCountFormula(n, m - 1);
      assert m * (2 * n - m - 1) == (m - 1) * (2 * n - (m - 1) - 1) + 2 * (n - m);
    }
  }

  lemma {:induction false} PairDiffsNonNegative(samples: seq<seq<real>>, m: nat)
    requires WidthsGrow(samples) && m <= |samples|
    ensures PairDiffs(samples, m) >= 0.0
  {
    if m > 0 {
      PairDiffsNonNegative(samples, m - 1);
      RowDiffsNonNegative(samples, m - 1, |samples|);
    }
  }

  lemma {:induction false} RowDiffsNonNegative(samples: seq<seq<real>>, i: nat, m: nat)
    requires WidthsGrow(samples) && i < |samples| && m <= |samples|
    ensures RowDiffs(samples, i, m) >= 0.0
    decreases m
  {
    if m > i + 1 {
      RowDiffsNonNegative(samples, i, m - 1);
    }
  }

  lemma PairCountOfAll(n: nat)
    ensures 2 * PairCount(n, n) == n * (n - 1)
    ensures PairCount(n, n) == 0 <==> n < 2
  {
    PairCountFormula(n, n);
    var k := 2 * n - n - 1;
    assert k == n - 1;
    if n >= 2 {
      MulAtLeastTwo(n);
    } else if n == 1 {
      assert n * (n - 1) == 0;
    }
  }

  lemma MulAtLeastTwo(n: nat)
    requires n >= 2
    ensures n * (n - 1) >= 2
  {
    assert n * (n - 1) == n + n * (n - 2);
  }

  /** The average is over n(n-1)/2 pairs, is NaN for fewer than two samples
      and is never negative. */
  lemma AverageDiffProperties(samples: seq<seq<real>>)
    requires WidthsGrow(samples)
    ensures 2 * PairCount(|samples|, |samples|) == |samples| * (|samples| - 1)
    ensures AverageDiffOf(samples).None? <==> |samples| < 2
    ensures AverageDiffOf(samples).Some? ==> AverageDiffOf(samples).value >= 0.0
  {
    PairCountOfAll(|samples|);
    PairDiffsNonNegative(samples, |samples|);
    if |samples| >= 2 {
      QuotientNonNegative(PairDiffs(samples, |samples|), PairCount(|samples|, |samples|) as real);
    }
  }

  lemma QuotientNonNegative(a: real, b: real)
    requires a >= 0.0 && b > 0.0
    ensures a / b >= 0.0
  {
  }

  // ---- grouping ----

  /** All samples have one length. */
  predicate SameWidth(samples: seq<seq<real>>)
  {
    forall i :: 0 <= i < |samples| ==> |samples[i]| == |samples[0]|
  }

  lemma SameWidthGrows(samples: seq<seq<real>>)
    requires SameWidth(samples)
    ensures WidthsGrow(samples)
  {
  }

  /** Groups hold sample indices below `n`. A `HashSet<Int>` is a list here,
      in insertion order; indices are never added twice. */
  predicate ValidGroups(groups: seq<seq<nat>>, n: nat)
  {
    forall g :: 0 <= g < |groups| ==> Members(groups[g], n)
  }

  /** A group holds sample indices below `n`. */
  predicate Members(group: seq<nat>, n: nat)
  {
    forall k :: 0 <= k < |group| ==> group[k] < n
  }

  /** A distance between two sample histograms. */
  type Distance = (seq<real>, seq<real>) -> real

  /** The distance `grouping` uses, `evalArraysDiff`. Its second argument is
      never shorter than the first when all samples have one length; the
      0.0 for a shorter one is never reached. */
  function GroupDistance(test: seq<real>, sample: seq<real>): real
  {
    if |test| <= |sample| then ArraysDiff(test, sample) else 0.0
  }

  /** `group.map { evalArraysDiff(sample, samples[it]) }.max() ?: 0.0`.
      Group members are always sample indices (AssignValid); the 0.0 for
      any other index is never reached. */
  function GroupMaxDiff(dist: Distance, samples: seq<seq<real>>, sample: seq<real>, group: seq<nat>): real
  {
    if group == [] then 0.0
    else Max(seq(|group|, k requires 0 <= k < |group| =>
                   if group[k] < |samples| then dist(sample, samples[group[k]]) else 0.0))
  }

  /** `maxDiffsByGroup`. */
  function MaxDiffs(dist: Distance, samples: seq<seq<real>>, sample: seq<real>, groups: seq<seq<nat>>): (m: seq<real>)
    ensures |m| == |groups|
  {
    seq(|groups|, g requires 0 <= g < |groups| => GroupMaxDiff(dist, samples, sample, groups[g]))
  }

  /** The group sample `index` joins: the first group with the smallest
      maximal distance when that distance is below `limit`, or -1 when the
      sample starts a group of its own. `limit` is `averageDiff * diffFactor`;
      `None` stands for NaN, which no comparison accepts. */
  function Target(dist: Distance, samples: seq<seq<real>>, limit: Option<real>, groups: seq<seq<nat>>, index: nat): (g: int)
    requires index < |samples| && groups != []
    ensures -1 <= g < |groups|
  {
    var maxDiffsByGroup := MaxDiffs(dist, samples, samples[index], groups);
    var minGroupDiff := Min(maxDiffsByGroup);
    if limit.Some? && minGroupDiff < limit.value then IndexOf(maxDiffsByGroup, minGroupDiff) else -1
  }

  /** The single empty group at the start is where the first sample goes
      when the limit is positive: its maximal distance is 0.0. */
  lemma TargetOfFirst(dist: Distance, samples: seq<seq<real>>, limit: real)
    requires samples != [] && limit > 0.0
    ensures Target(dist, samples, Some(limit), [[]], 0) == 0
  {
    var maxDiffsByGroup := MaxDiffs(dist, samples, samples[0], [[]]);
    assert maxDiffsByGroup[0] == 0.0;
    assert maxDiffsByGroup == [0.0];
  }

  /** Placing sample `index` into its target group, or into a new group. */
  function Place(dist: Distance, samples: seq<seq<real>>, limit: Option<real>, groups: seq<seq<nat>>, index: nat): (r: seq<seq<nat>>)
    requires index < |samples| && groups != []
    ensures r != []
  {
    var g := Target(dist, samples, limit, groups, index);
    if g >= 0 then groups[g := groups[g] + [index]] else groups + [[index]]
  }

  /** The groups after placing samples 0 .. m-1, starting from one empty group. */
  function Assign(dist: Distance, samples: seq<seq<real>>, limit: Option<real>, m: nat): (r: seq<seq<nat>>)
    requires m <= |samples|
    ensures r != []
  {
    if m == 0 then [[]] else Place(dist, samples, limit, Assign(dist, samples, limit, m - 1), m - 1)
  }

  /** Placing sample `index` keeps all members below `index + 1`. */
  lemma PlaceValid(dist: Distance, samples: seq<seq<real>>, limit: Option<real>, groups: seq<seq<nat>>, index: nat)
    requires index < |samples| && groups != [] && ValidGroups(groups, index)
    ensures ValidGroups(Place(dist, samples, limit, groups, index), index + 1)
  {
    var g := Target(dist, samples, limit, groups, index);
    var r := Place(dist, samples, limit, groups, index);
    forall h | 0 <= h < |r|
      ensures Members(r[h], index + 1)
    {
      if g >= 0 && h == g {
        assert r[h] == groups[g] + [index];
        assert Members(groups[g], index);
      } else if h < |groups| {
        assert r[h] == groups[h];
        assert Members(groups[h], index);
      } else {
        assert r[h] == [index];
      }
    }
  }

  /** After `m` samples every group member is one of the indices 0 .. m-1. */
  lemma {:induction false} AssignValid(dist: Distance, samples: seq<seq<real>>, limit: Option<real>, m: nat)
    requires m <= |samples|
    ensures ValidGroups(Assign(dist, samples, limit, m), m)
  {
    if m > 0 {
      var last: nat := m - 1;
      AssignValid(dist, samples, limit, last);
      PlaceValid(dist, samples, limit, Assign(dist, samples, limit, last), last);
      AssignStep(dist, samples, limit, last);
    } else {
      assert Assign(dist, samples, limit, 0) == [[]];
    }
  }

  /** The `forEachIndexed` pass of `grouping`. */
  method AssignGroups(dist: Distance, samples: seq<seq<real>>, limit: Option<real>) returns (groups: seq<seq<nat>>)
    ensures groups == Assign(dist, samples, limit, |samples|)
  {
    groups := [[]];
    for index := 0 to |samples|
      invariant groups == Assign(dist, samples, limit, index)
    {
      AssignStep(dist, samples, limit, index);
      groups := PlaceSample(dist, samples, limit, groups, index);
    }
  }

  /** One more sample placed. */
  lemma AssignStep(dist: Distance, samples: seq<seq<real>>, limit: Option<real>, m: nat)
    requires m < |samples|
    ensures Assign(dist, samples, limit, m + 1) == Place(dist, samples, limit, Assign(dist, samples, limit, m), m)
  {
  }

  /** The body of the `forEachIndexed` loop for sample `index`. */
  method PlaceSample(dist: Distance, samples: seq<seq<real>>, limit: Option<real>, groups: seq<seq<nat>>, index: nat) returns (r: seq<seq<nat>>)
    requires index < |samples| && groups != []
    ensures r == Place(dist, samples, limit, groups, index)
  {
    var maxDiffsByGroup := MaxDiffs(dist, samples, samples[index], groups);
    var minGroupDiff := Min(maxDiffsByGroup);
    if limit.Some? && minGroupDiff < limit.value {
      var g := IndexOf(maxDiffsByGroup, minGroupDiff);
      r := groups[g := groups[g] + [index]];
    } else {
      r := groups + [[index]];
    }
  }

  /** All group members, group after group. */
  function Concat(groups: seq<seq<nat>>): seq<nat>
  {
    if groups == [] then [] else Concat(groups[..|groups| - 1]) + groups[|groups| - 1]
  }

  lemma ConcatAppend(groups: seq<seq<nat>>, group: seq<nat>)
    ensures Concat(groups + [group]) == Concat(groups) + group
  {
    assert (groups + [group])[..|groups|] == groups;
  }

  lemma {:induction false} ConcatUpdate(groups: seq<seq<nat>>, g: nat, i: nat)
    requires g < |groups|
    ensures multiset(Concat(groups[g := groups[g] + [i]])) == multiset(Concat(groups)) + multiset{i}
  {
    var updated := groups[g := groups[g] + [i]];
    var last := |groups| - 1;
    if g == last {
      assert updated[..last] == groups[..last];
    } else {
      assert updated[..last] == groups[..last][g := groups[g] + [i]];
      ConcatUpdate(groups[..last], g, i);
    }
  }

  lemma PlaceAddsIndex(dist: Distance, samples: seq<seq<real>>, limit: Option<real>, groups: seq<seq<nat>>, index: nat)
    requires index < |samples| && groups != []
    ensures multiset(Concat(Place(dist, samples, limit, groups, index))) == multiset(Concat(groups)) + multiset{index}
  {
    var g := Target(dist, samples, limit, groups, index);
    if g >= 0 {
      ConcatUpdate(groups, g, index);
    } else {
      ConcatAppend(groups, [index]);
    }
  }

  /** The indices 0 .. m-1. */
  function Range(m: nat): (r: seq<nat>)
    ensures |r| == m && forall i :: 0 <= i < m ==> r[i] == i
  {
    seq(m, i requires 0 <= i < m => i)
  }

  lemma RangeSnoc(m: nat)
    ensures Range(m + 1) == Range(m) + [m]
  {
    assert Range(m + 1)[..m] == Range(m);
  }

  /** Each index below `m` occurs once in `Range(m)`, and no other index. */
  lemma {:induction false} RangeCounts(m: nat)
    ensures forall i: nat :: multiset(Range(m))[i] == if i < m then 1 else 0
  {
    if m > 0 {
      RangeCounts(m - 1);
      var last: nat := m - 1;
      RangeSnoc(last);
      forall i: nat
        ensures multiset(Range(m))[i] == if i < m then 1 else 0
      {
        assert multiset(Range(m))[i] == multiset(Range(m - 1))[i] + multiset{last}[i];
      }
    }
  }

  /** Each pass puts every sample index into exactly one group, once: the
      members of all groups are a permutation of 0 .. m-1. */
  lemma {:induction false} AssignPartitions(dist: Distance, samples: seq<seq<real>>, limit: Option<real>, m: nat)
    requires m <= |samples|
    ensures multiset(Concat(Assign(dist, samples, limit, m))) == multiset(Range(m))
  {
    if m == 0 {
      assert Concat([[]]) == Concat([]) + [];
    } else {
      var last: nat := m - 1;
      var prev := Assign(dist, samples, limit, last);
      AssignPartitions(dist, samples, limit, last);
      PlaceAddsIndex(dist, samples, limit, prev, last);
      assert Assign(dist, samples, limit, m) == Place(dist, samples, limit, prev, last);
      RangeSnoc(last);
      assert multiset(Range(m)) == multiset(Range(last)) + multiset{last};
    }
  }

  /** So every index below `m` is in exactly one group, once. */
  lemma AssignCounts(dist: Distance, samples: seq<seq<real>>, limit: Option<real>, m: nat)
    requires m <= |samples|
    ensures forall i: nat :: multiset(Concat(Assign(dist, samples, limit, m)))[i] == if i < m then 1 else 0
  {
    AssignPartitions(dist, samples, limit, m);
    RangeCounts(m);
  }

  /** With a positive limit the first sample fills the initial group, so no
      group is empty. */
  lemma {:induction false} AssignNonEmpty(dist: Distance, samples: seq<seq<real>>, limit: real, m: nat)
    requires 1 <= m <= |samples| && limit > 0.0
    ensures forall g :: 0 <= g < |Assign(dist, samples, Some(limit), m)| ==> Assign(dist, samples, Some(limit), m)[g] != []
  {
    if m == 1 {
      AssignFirst(dist, samples, limit);
    } else {
      var prev := Assign(dist, samples, Some(limit), m - 1);
      AssignNonEmpty(dist, samples, limit, m - 1);
      PlaceNonEmpty(dist, samples, Some(limit), prev, m - 1);
      assert Assign(dist, samples, Some(limit), m) == Place(dist, samples, Some(limit), prev, m - 1);
    }
  }

  lemma AssignFirst(dist: Distance, samples: seq<seq<real>>, limit: real)
    requires 1 <= |samples| && limit > 0.0
    ensures Assign(dist, samples, Some(limit), 1) == [[0]]
  {
    assert Assign(dist, samples, Some(limit), 0) == [[]];
    TargetOfFirst(dist, samples, limit);
    var first: seq<nat> := [];
    assert Assign(dist, samples, Some(limit), 1) == Place(dist, samples, Some(limit), [[]], 0) == [first + [0]];
    assert first + [0] == [0];
  }

  /** Placing a sample never empties a group. */
  lemma PlaceNonEmpty(dist: Distance, samples: seq<seq<real>>, limit: Option<real>, groups: seq<seq<nat>>, index: nat)
    requires index < |samples| && groups != []
    requires forall g :: 0 <= g < |groups| ==> groups[g] != []
    ensures var r := Place(dist, samples, limit, groups, index);
            forall g :: 0 <= g < |r| ==> r[g] != []
  {
    var t := Target(dist, samples, limit, groups, index);
    var r := Place(dist, samples, limit, groups, index);
    if t >= 0 {
      assert r == groups[t := groups[t] + [index]];
    } else {
      assert r == groups + [[index]];
    }
  }

  /** `groups.filter { it.size >= minSamplesInGroup }`. */
  function Filtered(groups: seq<seq<nat>>, minSize: nat): (r: seq<seq<nat>>)
    ensures forall k :: 0 <= k < |r| ==> r[k] in groups && |r[k]| >= minSize
    ensures forall k :: 0 <= k < |groups| && |groups[k]| >= minSize ==> groups[k] in r
    ensures |r| <= |groups|
  {
    if groups == [] then []
    else
      var rest := Filtered(groups[1..], minSize);
      assert forall k :: 1 <= k < |groups| ==> groups[k] == groups[1..][k - 1];
      if |groups[0]| >= minSize then [groups[0]] + rest else rest
  }

  /** Value `it` of the mean of a group. */
  function ColumnMean(samples: seq<seq<real>>, group: seq<nat>, it: nat): real
    requires group != [] && forall k :: 0 <= k < |group| ==> group[k] < |samples| && it < |samples[group[k]]|
  {
    Mean(seq(|group|, k requires 0 <= k < |group| => samples[group[k]][it]))
  }

  /** `DoubleArray(samples[0].size) { group.map { samples[..][it] }.sum() / group.size }`. */
  function GroupMean(samples: seq<seq<real>>, group: seq<nat>): (row: seq<real>)
    requires SameWidth(samples) && samples != [] && group != []
    requires forall k :: 0 <= k < |group| ==> group[k] < |samples|
    ensures |row| == |samples[0]|
  {
    seq(|samples[0]|, it requires 0 <= it < |samples[0]| => ColumnMean(samples, group, it))
  }

  /** A group whose samples are all one histogram has that histogram as mean. */
  lemma GroupMeanOfEqualSamples(samples: seq<seq<real>>, group: seq<nat>, h: seq<real>)
    requires SameWidth(samples) && samples != [] && group != []
    requires forall k :: 0 <= k < |group| ==> group[k] < |samples| && samples[group[k]] == h
    ensures GroupMean(samples, group) == h
  {
    assert |h| == |samples[group[0]]| == |samples[0]|;
    forall it | 0 <= it < |samples[0]|
      ensures ColumnMean(samples, group, it) == h[it]
    {
      MeanConstant(seq(|group|, k requires 0 <= k < |group| => samples[group[k]][it]), h[it]);
    }
  }

  function Means(samples: seq<seq<real>>, groups: seq<seq<nat>>): (rows: seq<seq<real>>)
    requires SameWidth(samples) && samples != [] && ValidGroups(groups, |samples|)
    requires forall g :: 0 <= g < |groups| ==> groups[g] != []
    ensures |rows| == |groups| && forall g :: 0 <= g < |groups| ==> |rows[g]| == |samples[0]|
  {
    seq(|groups|, g requires 0 <= g < |groups| => GroupMean(samples, groups[g]))
  }

  // ---- sortedBy { median } ----

  /** The sort key of `grouping`: the median at 0.5 of a histogram over
      [0, 1]. Every row sorted here has the sample length, which is not 1;
      the 0.0 of a one-bucket row is never used. */
  function MedianKey(row: seq<real>): real
  {
    if |row| == 1 then 0.0 else MedianOf(row, 0.5)
  }

  ghost predicate SortedBy<T>(s: seq<T>, key: T -> real)
  {
    forall i, j :: 0 <= i < j < |s| ==> key(s[i]) <= key(s[j])
  }

  /** Inserts `x` after every element whose key is not larger. */
  function InsertBy<T>(x: T, s: seq<T>, key: T -> real): (r: seq<T>)
    ensures multiset(r) == multiset(s) + multiset{x} && |r| == |s| + 1
  {
    if s == [] then [x]
    else if key(x) < key(s[0]) then [x] + s
    else
      assert s == [s[0]] + s[1..];
      [s[0]] + InsertBy(x, s[1..], key)
  }

  /** Inserting keeps a lower bound on the keys. */
  lemma {:induction false} InsertByBounded<T>(x: T, s: seq<T>, key: T -> real, b: real)
    requires key(x) >= b && forall k :: 0 <= k < |s| ==> key(s[k]) >= b
    ensures forall k :: 0 <= k < |InsertBy(x, s, key)| ==> key(InsertBy(x, s, key)[k]) >= b
  {
    if s != [] && key(x) >= key(s[0]) {
      InsertByBounded(x, s[1..], key, b);
      var rest := InsertBy(x, s[1..], key);
      assert InsertBy(x, s, key) == [s[0]] + rest;
    }
  }

  lemma {:induction false} InsertBySorted<T>(x: T, s: seq<T>, key: T -> real)
    requires SortedBy(s, key)
    ensures SortedBy(InsertBy(x, s, key), key)
  {
    if s != [] && key(x) >= key(s[0]) {
      var rest := InsertBy(x, s[1..], key);
      InsertBySorted(x, s[1..], key);
      InsertByBounded(x, s[1..], key, key(s[0]));
      var r := InsertBy(x, s, key);
      assert r == [s[0]] + rest;
      forall i, j | 0 <= i < j < |r|
        ensures key(r[i]) <= key(r[j])
      {
        assert r[j] == rest[j - 1];
        if i > 0 {
          assert r[i] == rest[i - 1];
        }
      }
    }
  }

  /** `sortedBy`: a stable insertion sort. */
  function SortBy<T>(s: seq<T>, key: T -> real): (r: seq<T>)
    ensures multiset(r) == multiset(s) && |r| == |s|
    ensures SortedBy(r, key)
  {
    if s == [] then []
    else
      var init := s[..|s| - 1];
      assert s == init + [s[|s| - 1]];
      InsertBySorted(s[|s| - 1], SortBy(init, key), key);
      InsertBy(s[|s| - 1], SortBy(init, key), key)
  }

  // ---- the passes ----

  /** `diffFactor` in pass `pass`: 5.0, lowered by 0.2 after each pass. */
  function DiffFactor(pass: nat): real
  {
    5.0 - 0.2 * pass as real
  }

  /** The loop runs while `diffFactor > 0`: exactly 25 passes. */
  lemma DiffFactorPositive(pass: nat)
    ensures DiffFactor(pass) > 0.0 <==> pass < 25
    ensures DiffFactor(pass + 1) < DiffFactor(pass)
  {
  }

  /** What a pass needs: samples of one length other than 1 (the median of
      a one-bucket histogram is NaN). */
  predicate PassDefined(samples: seq<seq<real>>)
  {
    SameWidth(samples) && samples != [] && |samples[0]| != 1
  }

  /** The limit of a pass: `averageDiff * diffFactor`. */
  function Limit(averageDiff: real, diffFactor: real): (l: real)
    requires averageDiff > 0.0 && diffFactor > 0.0
    ensures l > 0.0
  {
    PositiveProduct(averageDiff, diffFactor);
    averageDiff * diffFactor
  }

  /** The groups that one pass keeps under `limit`. */
  function PassGroups(samples: seq<seq<real>>, limit: real): (r: seq<seq<nat>>)
    requires PassDefined(samples)
    ensures ValidGroups(r, |samples|)
  {
    var groups := Assign(GroupDistance, samples, Some(limit), |samples|);
    AssignValid(GroupDistance, samples, Some(limit), |samples|);
    Filtered(groups, |samples| / 80)
  }

  lemma PassGroupsNonEmpty(samples: seq<seq<real>>, limit: real)
    requires PassDefined(samples) && limit > 0.0
    ensures forall g :: 0 <= g < |PassGroups(samples, limit)| ==> PassGroups(samples, limit)[g] != []
  {
    AssignNonEmpty(GroupDistance, samples, limit, |samples|);
  }

  lemma PositiveProduct(a: real, b: real)
    requires a > 0.0 && b > 0.0
    ensures a * b > 0.0
  {
  }

  /** One pass: the group means sorted by median, if enough groups are kept. */
  function TryPass(samples: seq<seq<real>>, groupsNumber: int, limit: real): Option<seq<seq<real>>>
    requires PassDefined(samples) && limit > 0.0
  {
    var filtered := PassGroups(samples, limit);
    if |filtered| >= groupsNumber then
      PassGroupsNonEmpty(samples, limit);
      Some(SortBy(Means(samples, filtered), MedianKey))
    else None
  }

  /** The outcomes of the 25 passes, in order: pass `p` uses the limit
      `averageDiff * DiffFactor(p)`. */
  function PassOutcomes(samples: seq<seq<real>>, groupsNumber: int, averageDiff: real): (o: seq<Option<seq<seq<real>>>>)
    requires PassDefined(samples) && averageDiff > 0.0
    ensures |o| == 25
  {
    seq(25, p requires 0 <= p < 25 => TryPass(samples, groupsNumber, Limit(averageDiff, DiffFactor(p))))
  }

  /** The first outcome that is `Some`, or `NotEnoughGroups` when there is none. */
  function FirstSome<T>(outcomes: seq<Option<T>>): Result<T>
  {
    if outcomes == [] then Failure(NotEnoughGroups)
    else if outcomes[0].Some? then Success(outcomes[0].value)
    else FirstSome(outcomes[1..])
  }

  lemma FirstSomeStep<T>(outcomes: seq<Option<T>>, k: nat)
    requires k < |outcomes|
    ensures FirstSome(outcomes[k..]) == if outcomes[k].Some? then Success(outcomes[k].value) else FirstSome(outcomes[k + 1..])
  {
    assert outcomes[k..][1..] == outcomes[k + 1..];
  }

  /** The first `Some` answers; the result is a failure exactly when every
      outcome is `None`. */
  lemma {:induction false} FirstSomeOutcome<T>(outcomes: seq<Option<T>>)
    ensures var r := FirstSome(outcomes);
            (r.Failure? <==> forall k :: 0 <= k < |outcomes| ==> outcomes[k].None?) &&
            (r.Failure? ==> r.error == NotEnoughGroups) &&
            (r.Success? ==> exists k :: 0 <= k < |outcomes| && outcomes[k] == Some(r.value) &&
                              forall j :: 0 <= j < k ==> outcomes[j].None?)
  {
    if outcomes != [] && outcomes[0].None? {
      var rest := outcomes[1..];
      FirstSomeOutcome(rest);
      assert forall k :: 1 <= k < |outcomes| ==> outcomes[k] == rest[k - 1];
      var r := FirstSome(outcomes);
      if r.Success? {
        var k :| 0 <= k < |rest| && rest[k] == Some(r.value) && forall j :: 0 <= j < k ==> rest[j].None?;
        assert outcomes[k + 1] == Some(r.value);
      }
    }
  }

  /** What `grouping` needs in this model: a pass is defined and the average
      distance is positive. */
  predicate GroupingDefined(samples: seq<seq<real>>)
  {
    PassDefined(samples) &&
    (SameWidthGrows(samples);
     AverageDiffOf(samples).Some? && AverageDiffOf(samples).value > 0.0)
  }

  /** What `grouping` returns. */
  function GroupingSpec(samples: seq<seq<real>>, groupsNumber: int): Result<seq<seq<real>>>
    requires GroupingDefined(samples)
  {
    SameWidthGrows(samples);
    FirstSome(PassOutcomes(samples, groupsNumber, AverageDiffOf(samples).value))
  }

  /** The body of one pass of `grouping`: assign, drop the small groups,
      and answer with the sorted means if enough groups are left. */
  method RunPass(samples: seq<seq<real>>, groupsNumber: int, limit: real) returns (rows: Option<seq<seq<real>>>)
    requires PassDefined(samples) && limit > 0.0
    ensures rows == TryPass(samples, groupsNumber, limit)
  {
    var groups := AssignGroups(GroupDistance, samples, Some(limit));
    var minSamplesInGroup := |samples| / 80;
    var filtered := Filtered(groups, minSamplesInGroup);
    assert filtered == PassGroups(samples, limit);
    if |filtered| >= groupsNumber {
      PassGroupsNonEmpty(samples, limit);
      return Some(SortBy(Means(samples, filtered), MedianKey));
    }
    return None;
  }

  /** The `while (diffFactor > 0)` loop of `grouping`. */
  method RunPasses(samples: seq<seq<real>>, groupsNumber: int, averageDiff: real) returns (r: Result<seq<seq<real>>>)
    requires PassDefined(samples) && averageDiff > 0.0
    ensures r == FirstSome(PassOutcomes(samples, groupsNumber, averageDiff))
  {
    ghost var outcomes := PassOutcomes(samples, groupsNumber, averageDiff);
    var diffFactor := 5.0;
    ghost var pass: nat := 0;
    while diffFactor > 0.0
      invariant pass <= 25
      invariant diffFactor == DiffFactor(pass)
      invariant FirstSome(outcomes[pass..]) == FirstSome(outcomes)
      decreases 25 - pass
    {
      DiffFactorPositive(pass);
      var limit := Limit(averageDiff, diffFactor);
      var rows := RunPass(samples, groupsNumber, limit);
      assert rows == outcomes[pass];
      FirstSomeStep(outcomes, pass);
      if rows.Some? {
        return Success(rows.value);
      }
      diffFactor := diffFactor - 0.2;
      pass := pass + 1;
    }
    DiffFactorPositive(pass);
    assert outcomes[pass..] == [];
    return Failure(NotEnoughGroups);
  }

  /** `grouping`. */
  method Group(samples: seq<seq<real>>, groupsNumber: int) returns (r: Result<seq<seq<real>>>)
    requires GroupingDefined(samples)
    ensures r == GroupingSpec(samples, groupsNumber)
  {
    SameWidthGrows(samples);
    var found := FindAverageDiff(samples);
    r := RunPasses(samples, groupsNumber, found.value);
  }

  /** A successful pass returns at least `groupsNumber` rows of the sample
      length, sorted by median, each the mean of a kept group. */
  lemma TryPassResult(samples: seq<seq<real>>, groupsNumber: int, limit: real)
    requires PassDefined(samples) && limit > 0.0
    requires TryPass(samples, groupsNumber, limit).Some?
    ensures var rows := TryPass(samples, groupsNumber, limit).value;
            var filtered := PassGroups(samples, limit);
            |rows| == |filtered| >= groupsNumber &&
            (forall k :: 0 <= k < |rows| ==> |rows[k]| == |samples[0]|) &&
            SortedBy(rows, MedianKey) &&
            forall k :: 0 <= k < |rows| ==>
              exists g :: 0 <= g < |filtered| && filtered[g] != [] && rows[k] == GroupMean(samples, filtered[g])
  {
    var rows := TryPass(samples, groupsNumber, limit).value;
    var filtered := PassGroups(samples, limit);
    PassGroupsNonEmpty(samples, limit);
    var means := Means(samples, filtered);
    assert rows == SortBy(means, MedianKey);
    forall k | 0 <= k < |rows|
      ensures |rows[k]| == |samples[0]|
      ensures exists g :: 0 <= g < |filtered| && filtered[g] != [] && rows[k] == GroupMean(samples, filtered[g])
    {
      ElementOfPermutation(means, rows, k);
      var g :| 0 <= g < |means| && means[g] == rows[k];
      assert filtered[g] != [] && means[g] == GroupMean(samples, filtered[g]);
    }
  }

  /** An element of a permutation of `s` is an element of `s`. */
  lemma ElementOfPermutation<T>(s: seq<T>, r: seq<T>, k: nat)
    requires multiset(r) == multiset(s) && k < |r|
    ensures exists g :: 0 <= g < |s| && s[g] == r[k]
  {
    assert r[k] in multiset(r);
    assert r[k] in s;
  }

  /** `grouping` answers with the first of the 25 passes that keeps enough
      groups, each pass under a smaller limit than the one before, and it
      fails with `NotEnoughGroups` exactly when none does. */
  lemma GroupingOutcome(samples: seq<seq<real>>, groupsNumber: int)
    requires GroupingDefined(samples)
    ensures var r := GroupingSpec(samples, groupsNumber);
            var o := PassOutcomes(samples, groupsNumber, AverageDiffOf(samples).value);
            (r.Failure? <==> forall p :: 0 <= p < 25 ==> o[p].None?) &&
            (r.Failure? ==> r.error == NotEnoughGroups) &&
            (r.Success? ==> exists p :: 0 <= p < 25 && o[p] == Some(r.value) &&
                              forall q :: 0 <= q < p ==> o[q].None?)
  {
    SameWidthGrows(samples);
    FirstSomeOutcome(PassOutcomes(samples, groupsNumber, AverageDiffOf(samples).value));
  }

  /** Pass `p + 1` looks for groups under a strictly smaller limit than pass `p`. */
  lemma LimitsDecrease(averageDiff: real, p: nat)
    requires averageDiff > 0.0 && p + 1 < 25
    ensures Limit(averageDiff, DiffFactor(p + 1)) < Limit(averageDiff, DiffFactor(p))
  {
    DiffFactorPositive(p);
    DiffFactorPositive(p + 1);
    var f0, f1 := DiffFactor(p), DiffFactor(p + 1);
    assert averageDiff * f0 - averageDiff * f1 == averageDiff * (f0 - f1);
    PositiveProduct(averageDiff, f0 - f1);
  }
}
