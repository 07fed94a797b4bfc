/** Sums, minima and searches over sequences of reals: the model's versions of
    Kotlin's `sum()`, `min()`, `max()`, `average()` and `indexOf`. */
module RealSeqs {

  /** `sum()` of a list of doubles, added left to right. */
  function Sum(s: seq<real>): real
  {
    if s == [] then 0.0 else Sum(s[..|s| - 1]) + s[|s| - 1]
  }

  lemma {:induction false} SumNonNegative(s: seq<real>)
    requires forall k :: 0 <= k < |s| ==> s[k] >= 0.0
    ensures Sum(s) >= 0.0
  {
    if s != [] {
      SumNonNegative(s[..|s| - 1]);
    }
  }

  lemma {:induction false} SumAppend(s: seq<real>, t: seq<real>)
    ensures Sum(s + t) == Sum(s) + Sum(t)
  {
    if t == [] {
      assert s + t == s;
    } else {
      assert (s + t)[..|s + t| - 1] == s + t[..|t| - 1];
      SumAppend(s, t[..|t| - 1]);
    }
  }

  /** A running sum over a prefix grows by the next element. */
  lemma SumPrefixStep(s: seq<real>, k: nat)
    requires k < |s|
    ensures Sum(s[..k + 1]) == Sum(s[..k]) + s[k]
  {
    assert s[..k + 1][..k] == s[..k];
  }

  /** Adding `d` to one element adds `d` to the sum. */
  lemma {:induction false} SumUpdate(s: seq<real>, i: nat, d: real)
    requires i < |s|
    ensures Sum(s[i := s[i] + d]) == Sum(s) + d
  {
    var t := s[i := s[i] + d];
    if i == |s| - 1 {
      assert t[..|t| - 1] == s[..|s| - 1];
    } else {
      assert t[..|t| - 1] == s[..|s| - 1][i := s[i] + d];
      SumUpdate(s[..|s| - 1], i, d);
    }
  }

  /** The sum of `|s|` copies of `c`. */
  lemma {:induction false} SumConstant(s: seq<real>, c: real)
    requires forall k :: 0 <= k < |s| ==> s[k] == c
    ensures Sum(s) == |s| as real * c
  {
    if s != [] {
      SumConstant(s[..|s| - 1], c);
    }
  }

  /** A sum of `|s|` terms none above `c` is at most `|s| * c`. */
  lemma {:induction false} SumAtMost(s: seq<real>, c: real)
    requires forall k :: 0 <= k < |s| ==> s[k] <= c
    ensures Sum(s) <= |s| as real * c
  {
    if s != [] {
      SumAtMost(s[..|s| - 1], c);
    }
  }

  /** A sum of non-negative terms is at least each of them. */
  lemma {:induction false} SumAtLeastEntry(s: seq<real>, k: nat)
    requires k < |s| && forall j :: 0 <= j < |s| ==> s[j] >= 0.0
    ensures Sum(s) >= s[k]
  {
    var prefix := s[..|s| - 1];
    SumNonNegative(prefix);
    if k < |s| - 1 {
      SumAtLeastEntry(prefix, k);
    }
  }

  /** Every element divided by `c`. */
  function DivideAll(s: seq<real>, c: real): (t: seq<real>)
    requires c != 0.0
    ensures |t| == |s| && forall k :: 0 <= k < |s| ==> t[k] == s[k] / c
  {
    seq(|s|, k requires 0 <= k < |s| => s[k] / c)
  }

  /** Dividing every term by `c` divides the sum by `c`. */
  lemma {:induction false} SumDivideAll(s: seq<real>, c: real)
    requires c != 0.0
    ensures Sum(DivideAll(s, c)) == Sum(s) / c
  {
    if s != [] {
      var prefix, last := s[..|s| - 1], s[|s| - 1];
      var t := DivideAll(s, c);
      assert t[..|s| - 1] == DivideAll(prefix, c);
      assert Sum(t) == Sum(DivideAll(prefix, c)) + last / c;
      SumDivideAll(prefix, c);
      AddQuotients(Sum(prefix), last, c);
    }
  }

  lemma AddQuotients(a: real, b: real, c: real)
    requires c != 0.0
    ensures a / c + b / c == (a + b) / c
  {
  }

  /** `min()` of a non-empty list: the smallest element. */
  function Min(s: seq<real>): (m: real)
    requires s != []
    ensures m in s
    ensures forall k :: 0 <= k < |s| ==> m <= s[k]
  {
    if |s| == 1 then s[0]
    else
      var rest := Min(s[..|s| - 1]);
      if s[|s| - 1] < rest then s[|s| - 1] else rest
  }

  /** `max()` of a non-empty list: the largest element. */
  function Max(s: seq<real>): (m: real)
    requires s != []
    ensures m in s
    ensures forall k :: 0 <= k < |s| ==> s[k] <= m
  {
    if |s| == 1 then s[0]
    else
      var rest := Max(s[..|s| - 1]);
      if s[|s| - 1] > rest then s[|s| - 1] else rest
  }

  /** `indexOf(v)`: the first position holding `v`, or -1. */
  function IndexOf(s: seq<real>, v: real): (i: int)
    ensures -1 <= i < |s|
    ensures i >= 0 ==> s[i] == v && forall k :: 0 <= k < i ==> s[k] != v
    ensures i == -1 <==> v !in s
  {
    if s == [] then -1
    else if s[0] == v then 0
    else
      var j := IndexOf(s[1..], v);
      if j < 0 then -1 else j + 1
  }

  /** The least of a list extended by one value. */
  lemma MinAppend(s: seq<real>, d: real)
    requires s != []
    ensures Min(s + [d]) == if d < Min(s) then d else Min(s)
  {
    assert (s + [d])[..|s + [d]| - 1] == s;
  }

  /** The first position of `v` in a list extended by one value. */
  lemma IndexOfAppend(s: seq<real>, d: real, v: real)
    ensures IndexOf(s + [d], v) == if v in s then IndexOf(s, v) else if d == v then |s| else -1
  {
    var t := s + [d];
    assert forall k :: 0 <= k < |s| ==> t[k] == s[k];
    assert t[|s|] == d;
  }

  /** `average()` of a non-empty list. */
  function Mean(s: seq<real>): real
    requires s != []
  {
    Sum(s) / |s| as real
  }

  lemma MeanConstant(s: seq<real>, c: real)
    requires s != []
    requires forall k :: 0 <= k < |s| ==> s[k] == c
    ensures Mean(s) == c
  {
    SumConstant(s, c);
  }
}
