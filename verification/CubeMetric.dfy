/** What the three distances between boxes are: least distances between their points, built up
    dimension by dimension by a sum, a sum of squares and a maximum. */
module CubeMetric {
  import opened Cube
  import opened CubeDistance

  predicate InInterval(b: Box, i: nat, x: real)
    requires Valid(b)
  {
    Lo(b, i) <= x <= Hi(b, i)
  }

  /** The gap in one dimension is the least distance between a number in the one interval and
      one in the other. */
  lemma GapIsLeast(a: Box, b: Box, i: nat)
    requires Valid(a) && Valid(b)
    ensures forall x, y :: InInterval(a, i, x) && InInterval(b, i, y) ==> Gap(a, b, i) <= Abs(x - y)
    ensures exists x, y :: InInterval(a, i, x) && InInterval(b, i, y) && Gap(a, b, i) == Abs(x - y)
  {
    LoBelowHi(a, i);
    LoBelowHi(b, i);
    var x := Max(Lo(a, i), Min(Hi(a, i), Lo(b, i)));
    var y := Max(Lo(b, i), Min(Hi(b, i), x));
    hide Lo, Hi;
    assert InInterval(a, i, x) && InInterval(b, i, y) && Gap(a, b, i) == Abs(x - y);
  }

  lemma GapFacts(a: Box, b: Box, i: nat)
    requires Valid(a) && Valid(b)
    ensures Gap(a, b, i) >= 0.0 && Gap(a, a, i) == 0.0
    ensures Gap(a, b, i) == 0.0 <==> Lo(a, i) <= Hi(b, i) && Lo(b, i) <= Hi(a, i)
  {
    LoBelowHi(a, i);
  }

  /** The Chebyshev distance is the greatest gap. */
  lemma {:induction false} ChebyshevIsGreatest(a: Box, b: Box, n: nat)
    requires Valid(a) && Valid(b)
    ensures forall i :: 0 <= i < n ==> Gap(a, b, i) <= Distance(Chebyshev, a, b, n)
    ensures Distance(Chebyshev, a, b, n) == 0.0
            || exists i :: 0 <= i < n && Distance(Chebyshev, a, b, n) == Gap(a, b, i)
  {
    hide Gap;
    if n > 0 {
      ChebyshevIsGreatest(a, b, n - 1);
    }
  }

  /** Where only one dimension has a gap, that is the distance, or its square. */
  lemma {:induction false} OneGap(m: Metric, a: Box, b: Box, j: nat, n: nat)
    requires Valid(a) && Valid(b) && forall i :: 0 <= i < n && i != j ==> Gap(a, b, i) == 0.0
    ensures var d := if j < n then Gap(a, b, j) else 0.0;
            Distance(m, a, b, n) == if m == EuclidSquared then d * d else d
  {
    hide Gap;
    GapFacts(a, b, j);
    if n > 0 {
      OneGap(m, a, b, j, n - 1);
    }
  }

  /** Box c has the intervals of b in the first j dimensions and those of a in the others. */
  predicate Corner(a: Box, b: Box, c: Box, j: nat, n: nat)
    requires Valid(a) && Valid(b) && Valid(c)
  {
    forall i :: 0 <= i < n ==>
      Lo(c, i) == (if i < j then Lo(b, i) else Lo(a, i)) && Hi(c, i) == (if i < j then Hi(b, i) else Hi(a, i))
  }

  /** Going round such a corner takes the sum of the two distances for the taxicab metric and the
      greater of them for Chebyshev's; for squared Euclidean distances it is the theorem of
      Pythagoras. */
  lemma {:induction false} RoundTheCorner(a: Box, b: Box, c: Box, j: nat, n: nat)
    requires Valid(a) && Valid(b) && Valid(c) && Corner(a, b, c, j, n)
    ensures Distance(Taxicab, a, b, n) == Distance(Taxicab, a, c, n) + Distance(Taxicab, c, b, n)
    ensures Distance(EuclidSquared, a, b, n) == Distance(EuclidSquared, a, c, n) + Distance(EuclidSquared, c, b, n)
    ensures Distance(Chebyshev, a, b, n) == Max(Distance(Chebyshev, a, c, n), Distance(Chebyshev, c, b, n))
  {
    if n > 0 {
      RoundTheCorner(a, b, c, j, n - 1);
      GapRoundTheCorner(a, b, c, j, n);
      DistanceNonnegative(Chebyshev, a, c, n - 1);
      DistanceNonnegative(Chebyshev, c, b, n - 1);
      hide Gap, Corner;
    }
  }

  lemma GapRoundTheCorner(a: Box, b: Box, c: Box, j: nat, n: nat)
    requires Valid(a) && Valid(b) && Valid(c) && n > 0 && Corner(a, b, c, j, n)
    ensures Gap(a, c, n - 1) == if n - 1 < j then Gap(a, b, n - 1) else 0.0
    ensures Gap(c, b, n - 1) == if n - 1 < j then 0.0 else Gap(a, b, n - 1)
    ensures Gap(a, b, n - 1) >= 0.0
  {
    LoBelowHi(a, n - 1);
    LoBelowHi(b, n - 1);
  }

  /** A distance is zero exactly if there is no gap. */
  lemma {:induction false} ZeroIfNoGap(m: Metric, a: Box, b: Box, n: nat)
    requires Valid(a) && Valid(b)
    ensures Distance(m, a, b, n) == 0.0 <==> forall i :: 0 <= i < n ==> Gap(a, b, i) == 0.0
  {
    hide Gap, Accumulate, Distance;
    if n == 0 {
      NoDimensions(m, a, b);
    } else {
      ZeroIfNoGap(m, a, b, n - 1);
      DistanceStep(m, a, b, n);
      DistanceNonnegative(m, a, b, n - 1);
      GapFacts(a, b, n - 1);
      AccumulateZero(m, Distance(m, a, b, n - 1), Gap(a, b, n - 1));
    }
  }

  lemma NoDimensions(m: Metric, a: Box, b: Box)
    requires Valid(a) && Valid(b)
    ensures Distance(m, a, b, 0) == 0.0
  {
  }

  lemma AccumulateZero(m: Metric, x: real, d: real)
    requires x >= 0.0 && d >= 0.0
    ensures Accumulate(m, x, d) == 0.0 <==> x == 0.0 && d == 0.0
  {
    var q := d * d;
    SquarePositive(d, q);
    assert Accumulate(m, x, d)
        == match m
           case Taxicab => x + d
           case EuclidSquared => x + q
           case Chebyshev => Max(d, x);
    hide Accumulate;
  }

  lemma SquarePositive(d: real, q: real)
    requires d >= 0.0 && q == d * d
    ensures if d > 0.0 then q > 0.0 else q == 0.0
  {
    ProductSign(d, d, q);
  }

  lemma ProductSign(x: real, y: real, q: real)
    requires x >= 0.0 && y >= 0.0 && q == x * y
    ensures if x > 0.0 && y > 0.0 then q > 0.0 else q == 0.0
  {
  }

  /** The distance of two boxes is zero exactly if they overlap. */
  lemma ZeroExactly(m: Metric, a: Box, b: Box)
    requires Valid(a) && Valid(b)
    ensures Distance(m, a, b, MaxDim(a, b)) == 0.0 <==> Overlap(a, b)
  {
    hide Distance, Gap;
    ZeroIfNoGap(m, a, b, MaxDim(a, b));
    forall i: nat ensures Gap(a, b, i) == 0.0 <==> Lo(a, i) <= Hi(b, i) && Lo(b, i) <= Hi(a, i) {
      GapFacts(a, b, i);
    }
  }

  /** In the order Chebyshev, Euclid, taxicab the distances grow. */
  lemma {:induction false} MetricsInOrder(a: Box, b: Box, n: nat)
    requires Valid(a) && Valid(b)
    ensures var c, e, t := Distance(Chebyshev, a, b, n), Distance(EuclidSquared, a, b, n), Distance(Taxicab, a, b, n);
            0.0 <= c <= t && c * c <= e <= t * t
  {
    hide Gap, Max, Distance, Accumulate;
    if n == 0 {
      NoDimensions(Taxicab, a, b);
      NoDimensions(EuclidSquared, a, b);
      NoDimensions(Chebyshev, a, b);
    } else {
      MetricsInOrder(a, b, n - 1);
      GapFacts(a, b, n - 1);
      DistanceStep(Taxicab, a, b, n);
      DistanceStep(EuclidSquared, a, b, n);
      DistanceStep(Chebyshev, a, b, n);
      SquaresInOrder(Distance(Chebyshev, a, b, n - 1), Distance(EuclidSquared, a, b, n - 1),
                     Distance(Taxicab, a, b, n - 1), Gap(a, b, n - 1));
    }
  }

  lemma SquaresInOrder(c: real, e: real, t: real, d: real)
    requires 0.0 <= c <= t && c * c <= e <= t * t && d >= 0.0
    ensures var c', e', t' := Accumulate(Chebyshev, c, d), Accumulate(EuclidSquared, e, d), Accumulate(Taxicab, t, d);
            0.0 <= c' <= t' && c' * c' <= e' <= t' * t'
  {
    assert (t + d) * (t + d) == t * t + d * d + 2.0 * (t * d);
    assert t * d >= 0.0 && d * d >= 0.0 && c * c >= 0.0;
  }

  /** Between points on a line, taxicab and Chebyshev distance are the difference. */
  lemma PointsOnALine(x: real, y: real)
    ensures var a, b := Box(1, true, [x]), Box(1, true, [y]);
            && Distance(Taxicab, a, b, 1) == Abs(x - y)
            && Distance(Chebyshev, a, b, 1) == Abs(x - y)
            && Distance(EuclidSquared, a, b, 1) == (x - y) * (x - y)
  {
    var a, b := Box(1, true, [x]), Box(1, true, [y]);
    assert Gap(a, b, 0) == Abs(x - y);
    OneGap(Taxicab, a, b, 0, 1);
    OneGap(Chebyshev, a, b, 0, 1);
    OneGap(EuclidSquared, a, b, 0, 1);
  }
}
