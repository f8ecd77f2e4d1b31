/** Thinning a list of raw points to a maximum, at a uniform stride computed in floating point. */
module Decimation {
  import opened Arithmetic
  import opened Collections

  const EPSILON := 1.0 / 4503599627370496.0

  /** The values that thinning up to 2^24 points rounds. */
  predicate Occurs(x: real) { x == 0.0 || 1.0 / 2.0 <= x <= 33554432.0 }

  /** An arithmetic whose results on those values are within a relative 2^-52 of the exact ones, as IEEE 754 doubles
      are. What happens near zero and at the far end does not matter. */
  ghost predicate Rounds(round: real -> real) {
    forall x :: Occurs(x) ==> -(x * EPSILON) <= round(x) - x <= x * EPSILON
  }

  /** Rounding turns nothing negative. */
  ghost predicate KeepsSign(round: real -> real) {
    forall x :: x >= 0.0 ==> round(x) >= 0.0
  }

  ghost predicate Exact(round: real -> real) {
    forall x :: x >= 0.0 ==> round(x) == x
  }

  /** int(x) for x >= 0. */
  function Truncate(x: real): int { x.Floor }

  function Stride(n: int, max: int): real
    requires max >= 2
  {
    (n - 1) as real / (max - 1) as real
  }

  function Times(i: int, step: real): real { i as real * step }

  function Step(n: int, max: int, round: real -> real): real
    requires max >= 2
  {
    round(Stride(n, max))
  }

  /** The position computed for the i-th point to keep. */
  function Computed(n: int, max: int, round: real -> real, i: int): real
    requires max >= 2
  {
    round(Times(i, Step(n, max, round)))
  }

  /** The index taken at position i; the last is forced, and no index passes the end. */
  function Index(n: int, max: int, round: real -> real, i: int): int
    requires max >= 2 && 0 <= i < max
  {
    if i == max - 1 then n - 1 else
      var idx := Truncate(Computed(n, max, round, i));
      if idx >= n then n - 1 else idx
  }

  lemma ProductIsNatural(i: int, step: real)
    requires i >= 0 && step >= 0.0
    ensures Times(i, step) >= 0.0
  {
  }

  method DecimateUniform<T>(points: seq<T>, maxPoints: int, round: real -> real) returns (out: seq<T>)
    requires KeepsSign(round)
    ensures |points| <= maxPoints || maxPoints < 1 ==> out == points
    ensures maxPoints == 1 && |points| > 1 ==> out == [points[|points| - 1]]
    ensures 2 <= maxPoints < |points| ==>
              && |out| == maxPoints
              && forall i :: 0 <= i < maxPoints ==>
                   0 <= Index(|points|, maxPoints, round, i) && out[i] == points[Index(|points|, maxPoints, round, i)]
    ensures 2 <= maxPoints < |points| && (Exact(round) || (Rounds(round) && |points| <= 16777216)) ==>
              exists pos :: Even(|points|, maxPoints, pos, Slack(Exact(round))) && PicksAt(points, pos, out)
  {
    if |points| <= maxPoints || maxPoints < 1 {
      return points;
    }
    if maxPoints == 1 {
      return points[|points| - 1..];
    }
    var step := round(Stride(|points|, maxPoints));
    assert step == Step(|points|, maxPoints, round);
    out := [];
    for i := 0 to maxPoints
      invariant |out| == i
      invariant forall j :: 0 <= j < i ==>
                  0 <= Index(|points|, maxPoints, round, j) && out[j] == points[Index(|points|, maxPoints, round, j)]
    {
      if i == maxPoints - 1 {
        out := out + [points[|points| - 1]];
        continue;
      }
      ProductIsNatural(i, step);
      var idx := Truncate(round(Times(i, step)));
      if idx >= |points| {
        idx := |points| - 1;
      }
      out := out + [points[idx]];
    }
    if Exact(round) || (Rounds(round) && |points| <= 16777216) {
      ghost var pos := DecimationIsEven(points, maxPoints, round, out);
      assert PicksAt(points, pos, out);
    }
  }

  ghost predicate PicksAt<T>(points: seq<T>, pos: seq<int>, out: seq<T>) {
    |pos| == |out| && forall i :: 0 <= i < |pos| ==> 0 <= pos[i] < |points| && out[i] == points[pos[i]]
  }

  /** The indices are in range, start at the first point, end at the last, and ascend strictly. */
  ghost predicate Thins(n: int, max: int, round: real -> real)
    requires max >= 2
  {
    && Index(n, max, round, 0) == 0
    && Index(n, max, round, max - 1) == n - 1
    && (forall i :: 0 <= i < max ==> 0 <= Index(n, max, round, i) < n)
    && (forall i, j :: 0 <= i < j < max ==> Index(n, max, round, i) < Index(n, max, round, j))
  }

  /** With exact arithmetic for any number of points, and with rounding for up to 2^24. */
  lemma DecimationThins(n: int, max: int, round: real -> real)
    requires 2 <= max < n
    requires Exact(round) || (Rounds(round) && n <= 16777216)
    ensures Thins(n, max, round)
  {
    var slack := if Exact(round) then 0.0 else SLACK;
    forall i | 0 <= i < max - 1 ensures Near(n, max, round, i, slack) {
      StaysNear(n, max, round, i);
    }
    NearThins(n, max, round, slack);
  }

  const SLACK := 1.0 / 67108864.0

  function Ideal(n: int, max: int, i: int): real
    requires max >= 2
  {
    Times(i, Stride(n, max))
  }

  /** The product computed at position i is within `slack` of the exact one, and never negative. */
  ghost predicate Near(n: int, max: int, round: real -> real, i: int, slack: real)
    requires max >= 2
  {
    var p := Computed(n, max, round, i);
    0.0 <= p && Ideal(n, max, i) - slack <= p <= Ideal(n, max, i) + slack
  }

  lemma StaysNear(n: int, max: int, round: real -> real, i: int)
    requires 2 <= max < n && 0 <= i < max - 1
    requires Exact(round) || (Rounds(round) && n <= 16777216)
    ensures Near(n, max, round, i, if Exact(round) then 0.0 else SLACK)
  {
    IdealRange(n, max, i);
    StrideExceedsOne(n, max);
    if Exact(round) {
      assert round(Stride(n, max)) == Stride(n, max);
      assert round(Ideal(n, max, i)) == Ideal(n, max, i);
    } else {
      StrideBelow(n, max);
      RoundedProduct(i, Stride(n, max), round);
    }
  }

  lemma RoundedProduct(i: int, stride: real, round: real -> real)
    requires Rounds(round) && i >= 0 && 1.0 <= stride <= 16777216.0 && 0.0 <= Times(i, stride) <= 16777216.0
    ensures var p := round(Times(i, round(stride)));
            0.0 <= p && Times(i, stride) - SLACK <= p <= Times(i, stride) + SLACK
  {
    var s := round(stride);
    assert Occurs(stride);
    assert stride - stride * EPSILON <= s <= stride + stride * EPSILON;
    ProductError(i, stride, s);
    var x := Times(i, s);
    ProductOccurs(i, s, x, Times(i, stride));
    RoundedTwice(Times(i, stride), x, round(x), round);
  }

  lemma ProductError(i: int, stride: real, s: real)
    requires i >= 0 && stride > 0.0
    requires stride - stride * EPSILON <= s <= stride + stride * EPSILON
    ensures Times(i, stride) - Times(i, stride) * EPSILON <= Times(i, s)
    ensures Times(i, s) <= Times(i, stride) + Times(i, stride) * EPSILON
  {
    var k := i as real;
    MulMono(k, stride - stride * EPSILON, s);
    MulMono(k, s, stride + stride * EPSILON);
    assert k * (stride - stride * EPSILON) == k * stride - k * stride * EPSILON;
    assert k * (stride + stride * EPSILON) == k * stride + k * stride * EPSILON;
  }

  lemma ProductOccurs(i: int, s: real, x: real, ideal: real)
    requires i >= 0 && s >= 1.0 / 2.0 && x == Times(i, s)
    requires 0.0 <= ideal <= 16777216.0 && x <= ideal + ideal * EPSILON
    ensures Occurs(x)
  {
    if i > 0 {
      MulMono(s, 1.0, i as real);
    }
  }

  lemma MulMono(i: real, a: real, b: real)
    requires i >= 0.0 && a <= b
    ensures i * a <= i * b
  {
  }

  lemma RoundedTwice(ideal: real, x: real, p: real, round: real -> real)
    requires 0.0 <= ideal <= 16777216.0
    requires ideal - ideal * EPSILON <= x <= ideal + ideal * EPSILON
    requires Rounds(round) && Occurs(x) && p == round(x)
    ensures 0.0 <= p && ideal - SLACK <= p <= ideal + SLACK
  {
    assert x >= 0.0;
    assert -(x * EPSILON) <= p - x <= x * EPSILON;
  }

  lemma IdealRange(n: int, max: int, i: int)
    requires 2 <= max < n && 0 <= i < max
    ensures 0.0 <= Ideal(n, max, i) <= (n - 1) as real
    ensures Ideal(n, max, 0) == 0.0
  {
    var stride := Stride(n, max);
    assert stride * (max - 1) as real == (n - 1) as real;
    MulMono(stride, i as real, (max - 1) as real);
  }

  /** The exact stride exceeds one by at least one part in max - 1. */
  lemma StrideExceedsOne(n: int, max: int)
    requires 2 <= max < n
    ensures Stride(n, max) >= 1.0 + 1.0 / (max - 1) as real
  {
    var m := (max - 1) as real;
    assert (n - 1) as real >= m + 1.0;
    DivMono(m + 1.0, (n - 1) as real, m);
    assert (m + 1.0) / m == 1.0 + 1.0 / m;
  }

  lemma StrideBelow(n: int, max: int)
    requires 2 <= max < n
    ensures Stride(n, max) <= (n - 1) as real
  {
    var stride, m := Stride(n, max), (max - 1) as real;
    assert stride * m == (n - 1) as real;
    MulMono(stride, 1.0, m);
  }

  lemma DivMono(a: real, b: real, m: real)
    requires m > 0.0 && a <= b
    ensures a / m <= b / m
  {
  }

  /** Products that are near their ideals truncate to ascending indices, for the ideals are more than one apart. */
  lemma NearThins(n: int, max: int, round: real -> real, slack: real)
    requires 2 <= max < n
    requires slack == 0.0 || (slack == SLACK && n <= 16777216)
    requires forall i :: 0 <= i < max - 1 ==> Near(n, max, round, i, slack)
    ensures Thins(n, max, round)
  {
    Margin(n, max, slack);
    IdealRange(n, max, 0);
    assert Near(n, max, round, 0, slack);
    FirstIsZero(n, max, round, slack);
    forall i | 0 <= i < max - 1
      ensures 0 <= Index(n, max, round, i) < n - 1
      ensures Index(n, max, round, i) < Index(n, max, round, i + 1)
    {
      assert Near(n, max, round, i, slack);
      IdealStep(n, max, i);
      if i + 1 < max - 1 {
        assert Near(n, max, round, i + 1, slack);
        IdealRange(n, max, i + 2);
        IdealStep(n, max, i + 1);
      } else {
        IdealLast(n, max);
      }
      BelowLast(n, max, i, slack);
    }
    forall i, j | 0 <= i < j < max ensures Index(n, max, round, i) < Index(n, max, round, j) {
      Ascends(n, max, round, i, j);
    }
  }

  lemma FirstIsZero(n: int, max: int, round: real -> real, slack: real)
    requires 2 <= max < n && Near(n, max, round, 0, slack)
    requires Ideal(n, max, 0) == 0.0 && slack < 1.0 / 2.0
    ensures Index(n, max, round, 0) == 0
  {
    var p := Computed(n, max, round, 0);
    assert 0.0 <= p < 1.0;
    assert p.Floor == 0;
  }

  lemma {:induction false} Ascends(n: int, max: int, round: real -> real, i: int, j: int)
    requires max >= 2 && 0 <= i < j < max
    requires forall k :: 0 <= k < max - 1 ==> Index(n, max, round, k) < Index(n, max, round, k + 1)
    ensures Index(n, max, round, i) < Index(n, max, round, j)
    decreases j
  {
    assert Index(n, max, round, j - 1) < Index(n, max, round, j - 1 + 1);
    if i < j - 1 {
      Ascends(n, max, round, i, j - 1);
    }
  }

  lemma Margin(n: int, max: int, slack: real)
    requires 2 <= max < n && (slack == 0.0 || (slack == SLACK && n <= 16777216))
    ensures Stride(n, max) >= 1.0 + 2.0 * slack
    ensures slack < 1.0 / 2.0
  {
    StrideExceedsOne(n, max);
    if slack == SLACK {
      var m := (max - 1) as real;
      assert m <= 16777216.0;
      Reciprocal(m);
    } else {
      assert 1.0 / (max - 1) as real > 0.0;
    }
  }

  lemma Reciprocal(m: real)
    requires 0.0 < m <= 16777216.0
    ensures 1.0 / m >= 2.0 * SLACK
  {
    var r := 1.0 / m;
    assert r * m == 1.0;
    if r < 2.0 * SLACK {
      MulMono(m, r, 2.0 * SLACK);
    }
  }

  lemma IdealStep(n: int, max: int, i: int)
    requires max >= 2
    ensures Ideal(n, max, i + 1) == Ideal(n, max, i) + Stride(n, max)
  {
    var stride := Stride(n, max);
    assert (i + 1) as real * stride == i as real * stride + stride;
  }

  lemma IdealLast(n: int, max: int)
    requires max >= 2
    ensures Ideal(n, max, max - 1) == (n - 1) as real
  {
  }

  /** Before the last position, ideal plus slack stays below the last index. */
  lemma BelowLast(n: int, max: int, i: int, slack: real)
    requires 2 <= max < n && 0 <= i < max - 1
    requires Stride(n, max) >= 1.0 + 2.0 * slack && 0.0 <= slack
    ensures Ideal(n, max, i) + slack < (n - 1) as real
  {
    IdealStep(n, max, i);
    IdealRange(n, max, i + 1);
  }

  // ------------------------------------------------------------- the positions are evenly spaced

  /** Positions from the first point to the last, ascending, each at most one below its even share of the way, give or
      take `slack`, and not above it. */
  ghost predicate Even(n: int, max: int, pos: seq<int>, slack: real) {
    && |pos| == max >= 2 && pos[0] == 0 && pos[max - 1] == n - 1
    && (forall i, j :: 0 <= i < j < max ==> pos[i] < pos[j])
    && (forall i :: 0 <= i < max ==> EvenAt(n, max, i, pos[i], slack))
  }

  ghost predicate EvenAt(n: int, max: int, i: int, p: int, slack: real)
    requires max >= 2
  {
    var share := (i * (n - 1)) as real / (max - 1) as real;
    share - 1.0 - slack < p as real <= share + slack
  }

  ghost function Slack(exact: bool): real { if exact then 0.0 else SLACK }

  /** What thinning keeps, without its formula: the points at evenly spaced positions. */
  lemma DecimationIsEven<T>(points: seq<T>, max: int, round: real -> real, out: seq<T>) returns (pos: seq<int>)
    requires 2 <= max < |points| && |out| == max
    requires Exact(round) || (Rounds(round) && |points| <= 16777216)
    requires forall i :: 0 <= i < max ==>
               0 <= Index(|points|, max, round, i) && out[i] == points[Index(|points|, max, round, i)]
    ensures Even(|points|, max, pos, Slack(Exact(round)))
    ensures forall i :: 0 <= i < max ==> 0 <= pos[i] < |points| && out[i] == points[pos[i]]
  {
    var n := |points|;
    DecimationThins(n, max, round);
    pos := seq(max, i requires 0 <= i < max => Index(n, max, round, i));
    forall i | 0 <= i < max ensures EvenAt(n, max, i, pos[i], Slack(Exact(round))) {
      IndexIsEven(n, max, round, i);
    }
  }

  lemma IndexIsEven(n: int, max: int, round: real -> real, i: int)
    requires 2 <= max < n && 0 <= i < max && Thins(n, max, round)
    requires Exact(round) || (Rounds(round) && n <= 16777216)
    ensures EvenAt(n, max, i, Index(n, max, round, i), Slack(Exact(round)))
  {
    ShareIsIdeal(n, max, i);
    if i < max - 1 {
      StaysNear(n, max, round, i);
      assert Index(n, max, round, i) < Index(n, max, round, max - 1);
      FloorIsBelow(Computed(n, max, round, i));
    } else {
      IdealLast(n, max);
    }
  }

  lemma FloorIsBelow(x: real)
    ensures x - 1.0 < Truncate(x) as real <= x
  {
  }

  lemma ShareIsIdeal(n: int, max: int, i: int)
    requires max >= 2
    ensures (i * (n - 1)) as real / (max - 1) as real == Ideal(n, max, i)
  {
    var a, b, m := i as real, (n - 1) as real, (max - 1) as real;
    assert (i * (n - 1)) as real == a * b;
    Regroup(a, b, m);
  }

  lemma Regroup(a: real, b: real, m: real)
    requires m > 0.0
    ensures a * b / m == a * (b / m)
  {
    var q := b / m;
    assert q * m == b;
    assert a * b == a * q * m;
    assert a * q * m / m == a * q;
  }

  /** With exact numbers a position is the whole part of its share, and the steps differ by at most one. */
  lemma ExactIsFloor(n: int, max: int, pos: seq<int>)
    requires n >= 1 && Even(n, max, pos, 0.0)
    ensures forall i :: 0 <= i < max ==> pos[i] == i * (n - 1) / (max - 1)
    ensures forall i, j :: 0 <= i < max - 1 && 0 <= j < max - 1 ==>
              (pos[i + 1] - pos[i]) - (pos[j + 1] - pos[j]) <= 1
  {
    forall i | 0 <= i < max ensures pos[i] == i * (n - 1) / (max - 1) {
      assert EvenAt(n, max, i, pos[i], 0.0);
      WholePart(i * (n - 1), max - 1, pos[i]);
    }
    forall i, j | 0 <= i < max - 1 && 0 <= j < max - 1
      ensures (pos[i + 1] - pos[i]) - (pos[j + 1] - pos[j]) <= 1
    {
      StepIsNearStride(n, max, pos, i);
      StepIsNearStride(n, max, pos, j);
    }
  }

  lemma WholePart(a: int, m: int, p: int)
    requires m > 0 && a as real / m as real - 1.0 < p as real <= a as real / m as real
    ensures p == a / m
  {
    var q := Quotient(a, m);
    AtMost(a, m, p, q);
    LessThan(a, m, p + 1, q);
    Between(a, m, p);
  }

  function Multiple(m: int, p: int): int { m * p }

  predicate Divides(a: real, m: real, q: real) { m * q == a }

  lemma Quotient(a: int, m: int) returns (q: real)
    requires m > 0
    ensures q == a as real / m as real && Divides(a as real, m as real, q)
  {
    q := a as real / m as real;
  }

  lemma AtMost(a: int, m: int, p: int, q: real)
    requires m > 0 && p as real <= q && Divides(a as real, m as real, q)
    ensures Multiple(m, p) <= a
  {
    MulMono(m as real, p as real, q);
    AsReal(m, p);
  }

  lemma LessThan(a: int, m: int, p: int, q: real)
    requires m > 0 && q < p as real && Divides(a as real, m as real, q)
    ensures a < Multiple(m, p)
  {
    StrictMul(m as real, q, p as real);
    AsReal(m, p);
  }

  lemma AsReal(m: int, p: int)
    ensures Multiple(m, p) as real == m as real * p as real
  {
  }

  lemma Between(a: int, m: int, p: int)
    requires m > 0 && Multiple(m, p) <= a < Multiple(m, p + 1)
    ensures p == a / m
  {
    assert m * (p + 1) == m * p + m;
    DivisionIs(a, p, a - m * p, m);
  }

  lemma StrictMul(m: real, a: real, b: real)
    requires m > 0.0 && a < b
    ensures m * a < m * b
  {
  }

  lemma StepIsNearStride(n: int, max: int, pos: seq<int>, i: int)
    requires Even(n, max, pos, 0.0) && 0 <= i < max - 1
    ensures Stride(n, max) - 1.0 < (pos[i + 1] - pos[i]) as real < Stride(n, max) + 1.0
  {
    assert EvenAt(n, max, i, pos[i], 0.0) && EvenAt(n, max, i + 1, pos[i + 1], 0.0);
    ShareIsIdeal(n, max, i);
    ShareIsIdeal(n, max, i + 1);
    IdealStep(n, max, i);
  }
}
