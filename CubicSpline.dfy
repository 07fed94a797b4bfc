/** The natural cubic spline of CubicSpline.kt: a forward sweep computes the
    elimination coefficients alpha/beta of the tridiagonal system for the second
    derivatives `c`, a backward sweep solves it, and a last sweep derives the
    slopes `b` and third derivatives `d`. Segment `j` (for 1 <= j < n) covers
    [x[j-1], x[j]] and is written around its right knot x[j]. */
module Splines {

  /** One knot with the coefficients of the segment that ends at it. */
  datatype SplineTuple = SplineTuple(x: real, a: real, b: real, c: real, d: real)

  ghost predicate StrictlyIncreasing(x: seq<real>)
  {
    forall i, j :: 0 <= i < j < |x| ==> x[i] < x[j]
  }

  /** Width of the segment ending at knot `i`. */
  function H(x: seq<real>, i: nat): (h: real)
    requires StrictlyIncreasing(x) && 1 <= i < |x|
    ensures h > 0.0
  {
    x[i] - x[i - 1]
  }

  /** The right-hand side `f` of a row, from three consecutive values and
      the widths of the two segments around the middle knot. */
  function RowRhs(yPrev: real, y: real, yNext: real, hi: real, hi1: real): real
    requires hi > 0.0 && hi1 > 0.0
  {
    6.0 * ((yNext - y) / hi1 - (y - yPrev) / hi)
  }

  /** The right-hand side of row `i` of the system. */
  function F(x: seq<real>, y: seq<real>, i: nat): real
    requires StrictlyIncreasing(x) && |y| >= |x| && 1 <= i < |x| - 1
  {
    RowRhs(y[i - 1], y[i], y[i + 1], H(x, i), H(x, i + 1))
  }

  /** One step of the forward sweep: the pivot `z`, then `alpha[i]` and
      `beta[i]` from `alpha[i - 1]` and `beta[i - 1]`. */
  function Pivot(hi: real, hi1: real, alphaPrev: real): (z: real)
    requires hi > 0.0 && hi1 > 0.0 && -0.5 < alphaPrev <= 0.0
    ensures z > 2.0 * hi1
  {
    assert hi * alphaPrev > hi * -0.5;
    hi * alphaPrev + 2.0 * (hi + hi1)
  }

  function AlphaStep(hi: real, hi1: real, alphaPrev: real): (a: real)
    requires hi > 0.0 && hi1 > 0.0 && -0.5 < alphaPrev <= 0.0
    ensures -0.5 < a <= 0.0
  {
    var z := Pivot(hi, hi1, alphaPrev);
    AlphaBound(hi1, z);
    -hi1 / z
  }

  function BetaStep(hi: real, hi1: real, f: real, alphaPrev: real, betaPrev: real): real
    requires hi > 0.0 && hi1 > 0.0 && -0.5 < alphaPrev <= 0.0
  {
    (f - hi * betaPrev) / Pivot(hi, hi1, alphaPrev)
  }

  lemma AlphaBound(hi1: real, z: real)
    requires hi1 > 0.0 && z > 2.0 * hi1
    ensures -0.5 < -hi1 / z <= 0.0
  {
    DivLess(hi1, 0.5 * z, z);
    assert 0.5 * z / z == 0.5;
    assert 0.0 <= hi1 / z;
    assert (-hi1) / z == -(hi1 / z);
  }

  lemma DivLess(a: real, b: real, z: real)
    requires a < b && z > 0.0
    ensures a / z < b / z
  {
    assert (a / z) * z == a && (b / z) * z == b;
  }

  /** `alpha[i]`, which stays in (-1/2, 0], so every pivot is positive and
      the sweep never divides by zero. */
  function Alpha(x: seq<real>, i: nat): (a: real)
    requires StrictlyIncreasing(x) && i < |x| - 1
    ensures -0.5 < a <= 0.0
  {
    if i == 0 then 0.0 else AlphaStep(H(x, i), H(x, i + 1), Alpha(x, i - 1))
  }

  /** `beta[i]`. */
  function Beta(x: seq<real>, y: seq<real>, i: nat): real
    requires StrictlyIncreasing(x) && |y| >= |x| && i < |x| - 1
  {
    if i == 0 then 0.0
    else BetaStep(H(x, i), H(x, i + 1), F(x, y, i), Alpha(x, i - 1), Beta(x, y, i - 1))
  }

  /** One step of the backward sweep, `c[i] = alpha[i] * c[i + 1] + beta[i]`. */
  function MomentStep(alpha: real, cNext: real, beta: real): real
  {
    alpha * cNext + beta
  }

  /** The second derivative `c` at knot `i`; zero at both ends (the natural
      boundary). */
  function C(x: seq<real>, y: seq<real>, i: nat): real
    requires StrictlyIncreasing(x) && |y| >= |x| && i < |x|
    decreases |x| - i
  {
    if i == 0 || i == |x| - 1 then 0.0
    else MomentStep(Alpha(x, i), C(x, y, i + 1), Beta(x, y, i))
  }

  /** `d` and `b` of a segment of width `hi` from its two moments and values. */
  function ThirdStep(cPrev: real, c: real, hi: real): real
    requires hi > 0.0
  {
    (c - cPrev) / hi
  }

  function SlopeStep(cPrev: real, c: real, yPrev: real, y: real, hi: real): real
    requires hi > 0.0
  {
    hi * (2.0 * c + cPrev) / 6.0 + (y - yPrev) / hi
  }

  /** `b` of the segment ending at knot `i >= 1`. */
  function B(x: seq<real>, y: seq<real>, i: nat): real
    requires StrictlyIncreasing(x) && |y| >= |x| && 1 <= i < |x|
  {
    SlopeStep(C(x, y, i - 1), C(x, y, i), y[i - 1], y[i], H(x, i))
  }

  /** `d` of the segment ending at knot `i >= 1`. */
  function D(x: seq<real>, y: seq<real>, i: nat): real
    requires StrictlyIncreasing(x) && |y| >= |x| && 1 <= i < |x|
  {
    ThirdStep(C(x, y, i - 1), C(x, y, i), H(x, i))
  }

  /** The tuples after the constructor: knot 0 keeps b = d = 0. */
  function NaturalSpline(x: seq<real>, y: seq<real>): (sp: seq<SplineTuple>)
    requires StrictlyIncreasing(x) && |y| >= |x|
    ensures |sp| == |x|
  {
    seq(|x|, k requires 0 <= k < |x| =>
      SplineTuple(x[k], y[k], if k == 0 then 0.0 else B(x, y, k), C(x, y, k), if k == 0 then 0.0 else D(x, y, k)))
  }

  /** The tuples after the backward `c` sweep, before `b` and `d` are set. */
  ghost function Moments(x: seq<real>, y: seq<real>): (sp: seq<SplineTuple>)
    requires StrictlyIncreasing(x) && |y| >= |x|
    ensures |sp| == |x|
  {
    seq(|x|, k requires 0 <= k < |x| => SplineTuple(x[k], y[k], 0.0, C(x, y, k), 0.0))
  }

  /** The cubic of one segment, evaluated as `interpolate` does. */
  function Poly(s: SplineTuple, v: real): real
  {
    var dx := v - s.x;
    s.a + (s.b + (s.c / 2.0 + s.d * dx / 6.0) * dx) * dx
  }

  /** The first and second derivatives of `Poly(s, .)` at `v`. */
  function Slope(s: SplineTuple, v: real): real
  {
    var dx := v - s.x;
    s.b + (s.c + s.d * dx / 2.0) * dx
  }

  function Curvature(s: SplineTuple, v: real): real
  {
    s.c + s.d * (v - s.x)
  }

  /** The segment the binary search settles on: the first knot at or after
      `from` that is not below `v`. */
  function Segment(sp: seq<SplineTuple>, v: real, from: nat): (j: nat)
    requires 1 <= from < |sp| && v <= sp[|sp| - 1].x
    decreases |sp| - from
    ensures from <= j < |sp| && v <= sp[j].x
    ensures forall k :: from <= k < j ==> sp[k].x < v
  {
    if v <= sp[from].x then from else Segment(sp, v, from + 1)
  }

  /** What `interpolate(v)` returns: `v` itself outside the knots, else the
      cubic of the segment found by the search. */
  function Eval(sp: seq<SplineTuple>, v: real): real
    requires |sp| >= 2
  {
    if v < sp[0].x || v > sp[|sp| - 1].x then v
    else Poly(sp[Segment(sp, v, 1)], v)
  }

  /** Each knot above the one before it: the test a caller can evaluate. */
  predicate Increasing(x: seq<real>)
  {
    forall i :: 0 < i < |x| ==> x[i - 1] < x[i]
  }

  /** Adjacent knots increasing is the same as all knots increasing. */
  lemma IncreasingIsStrict(x: seq<real>)
    ensures Increasing(x) <==> StrictlyIncreasing(x)
  {
    if Increasing(x) {
      forall i, j | 0 <= i < j < |x|
        ensures x[i] < x[j]
      {
        AdjacentChain(x, i, j);
      }
    }
  }

  lemma {:induction false} AdjacentChain(x: seq<real>, i: nat, j: nat)
    requires Increasing(x) && i < j < |x|
    decreases j - i
    ensures x[i] < x[j]
  {
    if i + 1 < j {
      AdjacentChain(x, i + 1, j);
    }
  }

  /** `spline.interpolate(v)` for the spline through knots `x` with values
      `y`. Outside the modelled constructor's domain (fewer than two knots,
      too few values, knots not increasing) the model returns `v`; the
      source has no such case and computes from whatever the constructor
      left behind. */
  function SplineAt(x: seq<real>, y: seq<real>, v: real): (r: real)
    ensures !(|x| >= 2 && |y| >= |x| && Increasing(x)) ==> r == v
    ensures |x| >= 2 && (v < x[0] || v > x[|x| - 1]) ==> r == v
  {
    IncreasingIsStrict(x);
    if |x| >= 2 && |y| >= |x| && Increasing(x) then Eval(NaturalSpline(x, y), v) else v
  }

  /** On a valid spline `SplineAt` is `interpolate`, so it passes through
      every knot and keeps the identity curve. */
  lemma SplineAtKnot(x: seq<real>, y: seq<real>, k: nat)
    requires StrictlyIncreasing(x) && |x| >= 2 && |y| >= |x| && k < |x|
    ensures SplineAt(x, y, x[k]) == y[k]
  {
    IncreasingIsStrict(x);
    KnotInterpolation(x, y, k);
  }

  lemma SplineAtIdentity(x: seq<real>, v: real)
    requires StrictlyIncreasing(x) && |x| >= 2
    ensures SplineAt(x, x, v) == v
  {
    IncreasingIsStrict(x);
    IdentityPreserved(x, v);
  }

  class CubicSpline {
    const x: seq<real>
    const y: seq<real>
    const splines: array<SplineTuple>

    ghost predicate Valid()
      reads this, splines
    {
      StrictlyIncreasing(x) && |x| >= 2 && |y| >= |x| && splines[..] == NaturalSpline(x, y)
    }

    /** `CubicSpline(x, y)`. With fewer than two knots the source fails on
        `beta[0]` (or on `splines[-1]`), and a `y` shorter than `x` fails in the
        tuple array; knots that do not increase give infinities. */
    constructor (x0: seq<real>, y0: seq<real>)
      requires StrictlyIncreasing(x0) && |x0| >= 2 && |y0| >= |x0|
      ensures Valid() && x == x0 && y == y0
    {
      x := x0;
      y := y0;
      var n := |x0|;
      splines := new SplineTuple[n](k requires 0 <= k < n => SplineTuple(x0[k], y0[k], 0.0, 0.0, 0.0));
      new;
      splines[n - 1] := splines[n - 1].(c := 0.0);
      splines[0] := splines[0].(c := splines[n - 1].c);

      var alpha, beta := ForwardSweep(x, y);
      SolveMoments(x, y, splines, alpha, beta);
      SetSlopes(x, y, splines);
    }

    /** `interpolate(v)`: a binary search for the segment, then its cubic. */
    method Interpolate(v: real) returns (r: real)
      requires Valid()
      ensures r == Eval(NaturalSpline(x, y), v)
    {
      assert splines[0] == splines[..][0] && splines[splines.Length - 1] == splines[..][splines.Length - 1];
      if v < splines[0].x || v > splines[splines.Length - 1].x {
        return v;
      }
      ghost var seg := Segment(splines[..], v, 1);
      var i := 0;
      var j := splines.Length - 1;
      while i + 1 < j
        invariant 0 <= i < seg <= j < splines.Length
        decreases j - i
      {
        var k := i + (j - i) / 2;
        if v <= splines[k].x {
          j := k;
        } else {
          assert splines[k].x == x[k];
          i := k;
        }
      }
      assert j == seg;
      var s := splines[j];
      assert s == NaturalSpline(x, y)[seg];
      r := Poly(s, v);
    }
  }

  /** The forward loop of the constructor: fills `alpha` and `beta`. */
  method ForwardSweep(x: seq<real>, y: seq<real>) returns (alpha: array<real>, beta: array<real>)
    requires StrictlyIncreasing(x) && |x| >= 2 && |y| >= |x|
    ensures fresh(alpha) && fresh(beta) && alpha.Length == beta.Length == |x| - 1
    ensures forall k :: 0 <= k < |x| - 1 ==> alpha[k] == Alpha(x, k) && beta[k] == Beta(x, y, k)
  {
    var n := |x|;
    alpha := new real[n - 1](_ => 0.0);
    beta := new real[n - 1](_ => 0.0);
    beta[0] := 0.0;
    alpha[0] := beta[0];
    for i := 1 to n - 1
      invariant forall k :: 0 <= k < i ==> alpha[k] == Alpha(x, k) && beta[k] == Beta(x, y, k)
    {
      var a, b := SweepStep(x, y, i, alpha[i - 1], beta[i - 1]);
      alpha[i], beta[i] := a, b;
    }
  }

  /** The body of the forward loop at row `i`. */
  method SweepStep(x: seq<real>, y: seq<real>, i: nat, alphaPrev: real, betaPrev: real) returns (a: real, b: real)
    requires StrictlyIncreasing(x) && |y| >= |x| && 1 <= i < |x| - 1
    requires alphaPrev == Alpha(x, i - 1) && betaPrev == Beta(x, y, i - 1)
    ensures a == Alpha(x, i) && b == Beta(x, y, i)
  {
    var hi := x[i] - x[i - 1];
    var hi1 := x[i + 1] - x[i];
    assert hi == H(x, i) && hi1 == H(x, i + 1);
    var f := RowRhs(y[i - 1], y[i], y[i + 1], hi, hi1);
    a := AlphaStep(hi, hi1, alphaPrev);
    b := BetaStep(hi, hi1, f, alphaPrev, betaPrev);
  }

  /** The first backward loop: `c[i] = alpha[i] * c[i + 1] + beta[i]`. */
  method SolveMoments(x: seq<real>, y: seq<real>, splines: array<SplineTuple>, alpha: array<real>, beta: array<real>)
    requires StrictlyIncreasing(x) && |x| >= 2 && |y| >= |x|
    requires splines.Length == |x| && alpha.Length == beta.Length == |x| - 1
    requires forall k :: 0 <= k < |x| - 1 ==> alpha[k] == Alpha(x, k) && beta[k] == Beta(x, y, k)
    requires forall k :: 0 <= k < |x| ==> splines[k] == SplineTuple(x[k], y[k], 0.0, 0.0, 0.0)
    modifies splines
    ensures splines[..] == Moments(x, y)
  {
    var n := |x|;
    for i := n - 1 downto 1
      invariant forall k :: 0 <= k < n ==>
        splines[k] == SplineTuple(x[k], y[k], 0.0, if k >= i then C(x, y, k) else 0.0, 0.0)
    {
      splines[i] := splines[i].(c := MomentStep(alpha[i], splines[i + 1].c, beta[i]));
    }
  }

  /** The last backward loop: `d` and `b` of every segment. */
  method SetSlopes(x: seq<real>, y: seq<real>, splines: array<SplineTuple>)
    requires StrictlyIncreasing(x) && |x| >= 2 && |y| >= |x|
    requires splines[..] == Moments(x, y)
    modifies splines
    ensures splines[..] == NaturalSpline(x, y)
  {
    var n := |x|;
    for i := n downto 1
      invariant forall k :: 0 <= k < n ==>
        splines[k] == if k >= i then NaturalSpline(x, y)[k] else Moments(x, y)[k]
    {
      var hi := x[i] - x[i - 1];
      assert hi == H(x, i);
      splines[i] := splines[i].(d := ThirdStep(splines[i - 1].c, splines[i].c, hi));
      splines[i] := splines[i].(b := SlopeStep(splines[i - 1].c, splines[i].c, y[i - 1], y[i], hi));
    }
  }

  /** The left-hand side of one row of the tridiagonal system. */
  function TridiagonalRow(hi: real, hi1: real, cPrev: real, c: real, cNext: real): real
  {
    hi * cPrev + 2.0 * (hi + hi1) * c + hi1 * cNext
  }

  /** One row of the sweep, on plain numbers: if `cPrev` comes from the
      previous row's elimination and `c` from this row's, the tridiagonal
      equation of the row holds. */
  lemma SweepRow(hi: real, hi1: real, f: real, alphaPrev: real, betaPrev: real, cPrev: real, c: real, cNext: real)
    requires hi > 0.0 && hi1 > 0.0 && -0.5 < alphaPrev <= 0.0
    requires cPrev == MomentStep(alphaPrev, c, betaPrev)
    requires c == MomentStep(AlphaStep(hi, hi1, alphaPrev), cNext, BetaStep(hi, hi1, f, alphaPrev, betaPrev))
    ensures TridiagonalRow(hi, hi1, cPrev, c, cNext) == f
  {
    var z := Pivot(hi, hi1, alphaPrev);
    assert c == (-hi1) / z * cNext + (f - hi * betaPrev) / z;
    assert c * z == -hi1 * cNext + (f - hi * betaPrev);
    assert hi * cPrev + 2.0 * (hi + hi1) * c == z * c + hi * betaPrev;
  }

  /** The second derivatives solve the natural-spline system: zero at both
      ends, and for every interior knot
      h_i c_(i-1) + 2 (h_i + h_(i+1)) c_i + h_(i+1) c_(i+1) = f_i. */
  lemma MomentEquations(x: seq<real>, y: seq<real>, i: nat)
    requires StrictlyIncreasing(x) && |y| >= |x| && 1 <= i < |x| - 1
    ensures C(x, y, 0) == 0.0 && C(x, y, |x| - 1) == 0.0
    ensures TridiagonalRow(H(x, i), H(x, i + 1), C(x, y, i - 1), C(x, y, i), C(x, y, i + 1)) == F(x, y, i)
  {
    var alphaPrev, betaPrev := Alpha(x, i - 1), Beta(x, y, i - 1);
    assert C(x, y, i - 1) == MomentStep(alphaPrev, C(x, y, i), betaPrev);
    SweepRow(H(x, i), H(x, i + 1), F(x, y, i), alphaPrev, betaPrev, C(x, y, i - 1), C(x, y, i), C(x, y, i + 1));
  }

  /** The cubic of a segment of width `h` built from its end values and
      moments passes through both ends. */
  lemma SegmentEnds(xr: real, h: real, yPrev: real, y: real, cPrev: real, c: real)
    requires h > 0.0
    ensures var s := SplineTuple(xr, y, SlopeStep(cPrev, c, yPrev, y, h), c, ThirdStep(cPrev, c, h));
            Poly(s, xr) == y && Poly(s, xr - h) == yPrev
  {
    var b := SlopeStep(cPrev, c, yPrev, y, h);
    var d := ThirdStep(cPrev, c, h);
    var dx := xr - h - xr;
    assert dx == -h;
    assert d * h == c - cPrev;
    var m := c / 2.0 + d * dx / 6.0;
    assert m == (2.0 * c + cPrev) / 6.0;
    assert (y - yPrev) / h * h == y - yPrev;
    assert b + m * dx == (y - yPrev) / h;
  }

  /** Meeting knot `x[i]` from either side, neighbouring segments agree in
      slope and in second derivative. */
  lemma SegmentsJoinSmoothly(xr: real, h: real, h1: real, yPrev: real, y: real, yNext: real,
                             cPrev: real, c: real, cNext: real)
    requires h > 0.0 && h1 > 0.0
    requires TridiagonalRow(h, h1, cPrev, c, cNext) == RowRhs(yPrev, y, yNext, h, h1)
    ensures var left := SplineTuple(xr, y, SlopeStep(cPrev, c, yPrev, y, h), c, ThirdStep(cPrev, c, h));
            var right := SplineTuple(xr + h1, yNext, SlopeStep(c, cNext, y, yNext, h1), cNext, ThirdStep(c, cNext, h1));
            Slope(left, xr) == Slope(right, xr) && Curvature(left, xr) == Curvature(right, xr)
  {
    var d1 := ThirdStep(c, cNext, h1);
    var dx := xr - (xr + h1);
    assert dx == -h1;
    assert d1 * h1 == cNext - c;
    assert d1 * dx == c - cNext;
    var bRight := SlopeStep(c, cNext, y, yNext, h1);
    assert (cNext + d1 * dx / 2.0) * dx == -h1 * (cNext + c) / 2.0;
    assert bRight + (cNext + d1 * dx / 2.0) * dx == (yNext - y) / h1 - h1 * (cNext + 2.0 * c) / 6.0;
  }

  /** Every segment of the natural spline ends exactly at its two knots. */
  lemma KnotsOnSegment(x: seq<real>, y: seq<real>, j: nat)
    requires StrictlyIncreasing(x) && |y| >= |x| && 1 <= j < |x|
    ensures Poly(NaturalSpline(x, y)[j], x[j]) == y[j]
    ensures Poly(NaturalSpline(x, y)[j], x[j - 1]) == y[j - 1]
  {
    SegmentEnds(x[j], H(x, j), y[j - 1], y[j], C(x, y, j - 1), C(x, y, j));
    assert x[j] - H(x, j) == x[j - 1];
  }

  /** At an interior knot the curve has no kink and no jump in curvature: it
      is twice continuously differentiable. */
  lemma SmoothAtKnots(x: seq<real>, y: seq<real>, i: nat)
    requires StrictlyIncreasing(x) && |y| >= |x| && 1 <= i < |x| - 1
    ensures Poly(NaturalSpline(x, y)[i], x[i]) == Poly(NaturalSpline(x, y)[i + 1], x[i])
    ensures Slope(NaturalSpline(x, y)[i], x[i]) == Slope(NaturalSpline(x, y)[i + 1], x[i])
    ensures Curvature(NaturalSpline(x, y)[i], x[i]) == Curvature(NaturalSpline(x, y)[i + 1], x[i])
  {
    KnotsOnSegment(x, y, i);
    KnotsOnSegment(x, y, i + 1);
    MomentEquations(x, y, i);
    assert x[i] + H(x, i + 1) == x[i + 1];
    SegmentsJoinSmoothly(x[i], H(x, i), H(x, i + 1), y[i - 1], y[i], y[i + 1],
                         C(x, y, i - 1), C(x, y, i), C(x, y, i + 1));
  }

  /** For a value inside the knots, the search picks segment `j` exactly when
      `v` lies in (x[j-1], x[j]] (or in [x[0], x[1]] for the first segment). */
  lemma SegmentBracket(sp: seq<SplineTuple>, v: real, j: nat)
    requires |sp| >= 2 && 1 <= j < |sp| && sp[0].x <= v <= sp[|sp| - 1].x
    requires forall p, q :: 0 <= p < q < |sp| ==> sp[p].x < sp[q].x
    ensures Segment(sp, v, 1) == j <==> sp[j - 1].x < v <= sp[j].x || (j == 1 && v <= sp[1].x)
  {
    var s := Segment(sp, v, 1);
    if s < j {
      assert v <= sp[s].x <= sp[j - 1].x;
    } else if s > j {
      assert sp[j].x < v;
    }
  }

  /** `interpolate(x[k]) == y[k]` at every knot, the first one included. */
  lemma KnotInterpolation(x: seq<real>, y: seq<real>, k: nat)
    requires StrictlyIncreasing(x) && |x| >= 2 && |y| >= |x| && k < |x|
    ensures Eval(NaturalSpline(x, y), x[k]) == y[k]
  {
    var sp := NaturalSpline(x, y);
    var j := if k == 0 then 1 else k;
    SegmentBracket(sp, x[k], j);
    KnotsOnSegment(x, y, j);
  }

  /** Knots on the diagonal (y == x) give the identity curve everywhere. */
  lemma IdentityPreserved(x: seq<real>, v: real)
    requires StrictlyIncreasing(x) && |x| >= 2
    ensures Eval(NaturalSpline(x, x), v) == v
  {
    var sp := NaturalSpline(x, x);
    if sp[0].x <= v <= sp[|sp| - 1].x {
      var j := Segment(sp, v, 1);
      MomentsVanish(x, j);
      MomentsVanish(x, j - 1);
      LineSlope(x[j - 1], x[j], H(x, j));
      assert sp[j] == SplineTuple(x[j], x[j], 1.0, 0.0, 0.0);
    }
  }

  /** With y == x every row's right-hand side is zero, hence so is every
      beta and every second derivative. */
  lemma {:induction false} MomentsVanish(x: seq<real>, i: nat)
    requires StrictlyIncreasing(x) && i < |x|
    decreases |x| - i
    ensures C(x, x, i) == 0.0
  {
    if 0 < i < |x| - 1 {
      MomentsVanish(x, i + 1);
      BetasVanish(x, i);
    }
  }

  lemma {:induction false} BetasVanish(x: seq<real>, i: nat)
    requires StrictlyIncreasing(x) && i < |x| - 1
    ensures Beta(x, x, i) == 0.0
  {
    if i > 0 {
      BetasVanish(x, i - 1);
      LineRhs(x[i - 1], x[i], x[i + 1], H(x, i), H(x, i + 1));
      LineBeta(H(x, i), H(x, i + 1), Alpha(x, i - 1));
    }
  }

  lemma LineRhs(yPrev: real, y: real, yNext: real, hi: real, hi1: real)
    requires hi > 0.0 && hi1 > 0.0 && y - yPrev == hi && yNext - y == hi1
    ensures RowRhs(yPrev, y, yNext, hi, hi1) == 0.0
  {
    assert (yNext - y) / hi1 == hi1 / hi1 == 1.0;
    assert (y - yPrev) / hi == hi / hi == 1.0;
  }

  lemma LineBeta(hi: real, hi1: real, alphaPrev: real)
    requires hi > 0.0 && hi1 > 0.0 && -0.5 < alphaPrev <= 0.0
    ensures BetaStep(hi, hi1, 0.0, alphaPrev, 0.0) == 0.0
  {
  }

  lemma LineSlope(yPrev: real, y: real, h: real)
    requires h > 0.0 && y - yPrev == h
    ensures SlopeStep(0.0, 0.0, yPrev, y, h) == 1.0 && ThirdStep(0.0, 0.0, h) == 0.0
  {
  }
}
