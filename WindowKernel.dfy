/** The kernel both windows of Window.kt start from: a square of side
    2 radius + 1 centred on the pixel, offset (x, y) weighing 1 / (x² + y²)
    and the centre weighing 0. Index `it` of the square is offset
    (it % side - radius, it / side - radius). */
module Kernels {
  import opened RealSeqs
  import Adjuster

  /** `windowWidth = 2 * radius + 1`. */
  function Side(radius: nat): nat
  {
    2 * radius + 1
  }

  lemma SquaresPositive(x: int, y: int)
    requires x != 0 || y != 0
    ensures x * x + y * y > 0
  {
    if x != 0 {
      assert x * x > 0;
    } else {
      assert y * y > 0;
    }
  }

  /** `if (x == 0 && y == 0) 0.0 else 1.0 / (x * x + y * y)`. */
  function RawWeight(x: int, y: int): (w: real)
    ensures 0.0 <= w <= 1.0
    ensures w == 0.0 <==> x == 0 && y == 0
  {
    if x == 0 && y == 0 then 0.0
    else
      SquaresPositive(x, y);
      1.0 / (x * x + y * y) as real
  }

  /** The weight does not change when a coordinate changes sign or the
      two coordinates swap. */
  lemma RawWeightSymmetric(x: int, y: int)
    ensures RawWeight(-x, y) == RawWeight(x, y)
    ensures RawWeight(x, -y) == RawWeight(x, y)
    ensures RawWeight(y, x) == RawWeight(x, y)
  {
    assert (-x) * (-x) == x * x;
    assert (-y) * (-y) == y * y;
  }

  /** The offset of index `it`: `it % windowWidth - radius` across and
      `it / windowWidth - radius` down. */
  function OffsetX(radius: nat, it: nat): int
  {
    it % Side(radius) - radius
  }

  function OffsetY(radius: nat, it: nat): int
  {
    it / Side(radius) - radius
  }

  /** Offset (x, y) lies within the radius on both axes. */
  predicate Within(radius: nat, x: int, y: int)
  {
    -(radius as int) <= x <= radius && -(radius as int) <= y <= radius
  }

  /** Where offset (x, y) sits in the square. */
  function KernelIndex(radius: nat, x: int, y: int): int
  {
    (y + radius) * Side(radius) + (x + radius)
  }

  /** Offsets within the radius and indices of the square correspond one to
      one. */
  lemma KernelIndexOfOffset(radius: nat, x: int, y: int)
    requires Within(radius, x, y)
    ensures var it := KernelIndex(radius, x, y);
            0 <= it < Side(radius) * Side(radius) &&
            OffsetX(radius, it) == x && OffsetY(radius, it) == y
  {
    var n := Side(radius);
    var it := KernelIndex(radius, x, y);
    Adjuster.DivModUnique(it, n, y + radius, x + radius);
    Adjuster.MulMonotone(n, y + radius, n - 1);
    assert it <= (n - 1) * n + (n - 1);
  }

  lemma OffsetOfKernelIndex(radius: nat, it: nat)
    requires it < Side(radius) * Side(radius)
    ensures Within(radius, OffsetX(radius, it), OffsetY(radius, it))
    ensures KernelIndex(radius, OffsetX(radius, it), OffsetY(radius, it)) == it
  {
    QuotientBelow(it, Side(radius));
  }

  /** An index of an n x n square is in one of its n rows. */
  lemma QuotientBelow(it: nat, n: nat)
    requires it < n * n
    ensures n > 0 && it / n < n && (it / n) * n + it % n == it
  {
    var q := it / n;
    if q >= n {
      Adjuster.MulMonotone(n, n, q);
    }
  }

  /** `notNormalizedWindow`. */
  function RawWindow(radius: nat): (k: seq<real>)
    ensures |k| == Side(radius) * Side(radius)
    ensures forall it :: 0 <= it < |k| ==> k[it] == RawWeight(OffsetX(radius, it), OffsetY(radius, it))
  {
    seq(Side(radius) * Side(radius),
        it requires 0 <= it < Side(radius) * Side(radius) => RawWeight(OffsetX(radius, it), OffsetY(radius, it)))
  }

  /** The window holds the weight of every offset within the radius at
      that offset's index. */
  lemma RawWindowAt(radius: nat, x: int, y: int)
    requires Within(radius, x, y)
    ensures 0 <= KernelIndex(radius, x, y) < |RawWindow(radius)|
    ensures RawWindow(radius)[KernelIndex(radius, x, y)] == RawWeight(x, y)
  {
    KernelIndexOfOffset(radius, x, y);
  }

  /** The window is symmetric under reflection in either axis and in the
      diagonal. */
  lemma RawWindowSymmetric(radius: nat, x: int, y: int)
    requires Within(radius, x, y)
    ensures var k := RawWindow(radius);
            var at := KernelIndex(radius, x, y);
            0 <= at < |k| &&
            0 <= KernelIndex(radius, -x, y) < |k| && k[KernelIndex(radius, -x, y)] == k[at] &&
            0 <= KernelIndex(radius, x, -y) < |k| && k[KernelIndex(radius, x, -y)] == k[at] &&
            0 <= KernelIndex(radius, y, x) < |k| && k[KernelIndex(radius, y, x)] == k[at]
  {
    RawWindowAt(radius, x, y);
    RawWindowAt(radius, -x, y);
    RawWindowAt(radius, x, -y);
    RawWindowAt(radius, y, x);
    RawWeightSymmetric(x, y);
  }

  /** `sum`, the total of the window: positive exactly when the radius is
      at least 1 (the offset (1, 0) weighs 1; the centre alone weighs 0). */
  function KernelSum(radius: nat): (s: real)
    ensures s >= 0.0
    ensures radius >= 1 <==> s > 0.0
  {
    var k := RawWindow(radius);
    SumNonNegative(k);
    if radius >= 1 then
      RawWindowAt(radius, 1, 0);
      SumAtLeastEntry(k, KernelIndex(radius, 1, 0));
      Sum(k)
    else
      assert k == [RawWeight(0, 0)];
      assert k[..0] == [];
      Sum(k)
  }
}
