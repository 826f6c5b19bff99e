/** The distances that order a nearest-neighbour search over boxes. What makes the search sound
    is that a key is never farther from the query than anything beneath it. */
module CubeDistance {
  import opened Outcomes
  import opened Cube

  /** distance_1D: the gap between two intervals, each given by its ends in any order. */
  function Distance1D(a1: real, a2: real, b1: real, b2: real): real {
    if a1 <= b1 && a2 <= b1 && a1 <= b2 && a2 <= b2 then Min(b1, b2) - Max(a1, a2)
    else if a1 > b1 && a2 > b1 && a1 > b2 && a2 > b2 then Min(a1, a2) - Max(b1, b2)
    else 0.0
  }

  function Abs(x: real): real {
    if x < 0.0 then -x else x
  }

  /** The gap between the zero-padded intervals of two boxes in one dimension. */
  function Gap(a: Box, b: Box, i: nat): real
    requires Valid(a) && Valid(b)
  {
    Max(0.0, Max(Lo(b, i) - Hi(a, i), Lo(a, i) - Hi(b, i)))
  }

  lemma Distance1DIsGap(a: Box, b: Box, i: nat)
    requires Valid(a) && Valid(b) && i < a.dim
    ensures Gap(a, b, i) == Gap(b, a, i) >= 0.0
    ensures i < b.dim ==> Distance1D(LL(a, i), UR(a, i), LL(b, i), UR(b, i)) == Gap(a, b, i)
    ensures i >= b.dim ==> Distance1D(LL(a, i), UR(a, i), 0.0, 0.0) == Gap(a, b, i)
  {
  }

  lemma {:induction false} GapsFlip(a: Box, b: Box, n: nat)
    requires Valid(a) && Valid(b)
    ensures SumGaps(a, b, n) == SumGaps(b, a, n)
    ensures SumSquares(a, b, n) == SumSquares(b, a, n)
    ensures MaxGap(a, b, n) == MaxGap(b, a, n)
  {
    if n > 0 {
      GapsFlip(a, b, n - 1);
      assert Gap(a, b, n - 1) == Gap(b, a, n - 1);
    }
  }

  function SumGaps(a: Box, b: Box, n: nat): real
    requires Valid(a) && Valid(b)
  {
    if n == 0 then 0.0 else SumGaps(a, b, n - 1) + Gap(a, b, n - 1)
  }

  function SumSquares(a: Box, b: Box, n: nat): real
    requires Valid(a) && Valid(b)
  {
    if n == 0 then 0.0 else SumSquares(a, b, n - 1) + Gap(a, b, n - 1) * Gap(a, b, n - 1)
  }

  function MaxGap(a: Box, b: Box, n: nat): real
    requires Valid(a) && Valid(b)
  {
    if n == 0 then 0.0 else Max(MaxGap(a, b, n - 1), Gap(a, b, n - 1))
  }

  datatype Metric = Taxicab | EuclidSquared | Chebyshev

  function Distance(m: Metric, a: Box, b: Box, n: nat): real
    requires Valid(a) && Valid(b)
  {
    match m
    case Taxicab => SumGaps(a, b, n)
    case EuclidSquared => SumSquares(a, b, n)
    case Chebyshev => MaxGap(a, b, n)
  }

  /** distance_taxicab, cube_distance (before the square root) and distance_chebyshev: the
      dimensions of both boxes first, then those that only the larger box has. */
  method DistanceLoop(m: Metric, a0: Box, b0: Box) returns (distance: real)
    requires Valid(a0) && Valid(b0)
    ensures distance == Distance(m, a0, b0, MaxDim(a0, b0))
  {
    var a, b := a0, b0;
    if a.dim < b.dim {
      a, b := b, a;
      GapsFlip(a0, b0, MaxDim(a0, b0));
    }
    distance := 0.0;
    for i := 0 to b.dim
      invariant distance == Distance(m, a, b, i)
    {
      Distance1DIsGap(a, b, i);
      DistanceStep(m, a, b, i + 1);
      hide Distance, Gap, Distance1D, LL, UR;
      var d := Abs(Distance1D(LL(a, i), UR(a, i), LL(b, i), UR(b, i)));
      distance := Accumulate(m, distance, d);
    }
    for i := b.dim to a.dim
      invariant distance == Distance(m, a, b, i)
    {
      Distance1DIsGap(a, b, i);
      DistanceStep(m, a, b, i + 1);
      hide Distance, Gap, Distance1D, LL, UR;
      var d := Abs(Distance1D(LL(a, i), UR(a, i), 0.0, 0.0));
      distance := Accumulate(m, distance, d);
    }
  }

  function Accumulate(m: Metric, distance: real, d: real): real {
    match m
    case Taxicab => distance + d
    case EuclidSquared => distance + d * d
    case Chebyshev => if d > distance then d else distance
  }

  // ---------------------------------------------------------------- lower bounds

  lemma GapShrinks(k: Box, b: Box, query: Box, i: nat)
    requires Valid(k) && Valid(b) && Valid(query) && Encloses(k, b)
    ensures 0.0 <= Gap(k, query, i) <= Gap(b, query, i)
  {
    assert Lo(k, i) <= Lo(b, i) && Hi(b, i) <= Hi(k, i);
  }

  lemma SquareGrows(x: real, y: real)
    requires 0.0 <= x <= y
    ensures x * x <= y * y
  {
    assert x * x <= x * y;
    assert x * y <= y * y;
  }

  lemma AccumulateGrows(m: Metric, x: real, y: real, d: real, e: real)
    requires x <= y && 0.0 <= d <= e
    ensures Accumulate(m, x, d) <= Accumulate(m, y, e)
  {
    if m == EuclidSquared {
      SquareGrows(d, e);
    }
  }

  lemma DistanceStep(m: Metric, a: Box, b: Box, n: nat)
    requires Valid(a) && Valid(b) && n > 0
    ensures Distance(m, a, b, n) == Accumulate(m, Distance(m, a, b, n - 1), Gap(a, b, n - 1))
  {
  }

  lemma {:induction false} DistanceShrinks(m: Metric, k: Box, b: Box, query: Box, n: nat)
    requires Valid(k) && Valid(b) && Valid(query) && Encloses(k, b)
    ensures Distance(m, k, query, n) <= Distance(m, b, query, n)
    decreases n
  {
    if n > 0 {
      DistanceShrinks(m, k, b, query, n - 1);
      GapShrinks(k, b, query, n - 1);
      DistanceStep(m, k, query, n);
      DistanceStep(m, b, query, n);
      hide Distance, Gap, Accumulate, Encloses;
      AccumulateGrows(m, Distance(m, k, query, n - 1), Distance(m, b, query, n - 1), Gap(k, query, n - 1),
                      Gap(b, query, n - 1));
    }
  }

  lemma {:induction false} DistanceNonnegative(m: Metric, a: Box, b: Box, n: nat)
    requires Valid(a) && Valid(b)
    ensures Distance(m, a, b, n) >= 0.0
  {
    if n > 0 {
      DistanceNonnegative(m, a, b, n - 1);
      SquareGrows(0.0, Gap(a, b, n - 1));
    }
  }

  /** Dimensions that neither box has add nothing. */
  lemma {:induction false} PaddingAddsNothing(m: Metric, a: Box, b: Box, n: nat)
    requires Valid(a) && Valid(b) && n >= MaxDim(a, b)
    ensures Distance(m, a, b, n) == Distance(m, a, b, MaxDim(a, b))
    decreases n
  {
    if n > MaxDim(a, b) {
      PaddingAddsNothing(m, a, b, n - 1);
      DistanceNonnegative(m, a, b, n - 1);
      assert Gap(a, b, n - 1) == 0.0;
    }
  }

  /** The distance from a query to a box, of any dimension, is at least its distance to every
      key above the box. */
  lemma KeyIsNearer(m: Metric, k: Box, b: Box, query: Box)
    requires Valid(k) && Valid(b) && Valid(query) && Encloses(k, b)
    ensures Distance(m, k, query, MaxDim(k, query)) <= Distance(m, b, query, MaxDim(b, query))
  {
    DistanceShrinks(m, k, b, query, MaxDim(k, query));
    PaddingAddsNothing(m, b, query, MaxDim(k, query));
  }

  // ---------------------------------------------------------------- ordering by a coordinate

  /** g_cube_distance for the ~> operator: odd coordinate numbers are lower bounds, even ones
      upper bounds, and negative numbers ask for the opposite order. Number 0 is an error. */
  function CoordDistance(cube: Box, coord0: int, isLeaf: bool): Option<real>
    requires Valid(cube)
  {
    if coord0 == 0 then None
    else
      var inverse := coord0 < 0;
      var coord := if inverse then -coord0 else coord0;
      var value :=
        if coord <= 2 * cube.dim then
          var index := (coord - 1) / 2;
          var upper := (coord - 1) % 2 == 1;
          if cube.point then cube.x[index]
          else if isLeaf then
            if upper then Max(cube.x[index], cube.x[index + cube.dim])
            else Min(cube.x[index], cube.x[index + cube.dim])
          else if !inverse then Min(cube.x[index], cube.x[index + cube.dim])
          else Max(cube.x[index], cube.x[index + cube.dim])
        else 0.0;
      Some(if inverse then -value else value)
  }

  /** On a leaf this is the requested bound of the zero-padded box, negated for the opposite
      order; on an internal page it is the lower bound, or the negated upper one. */
  lemma CoordMeaning(cube: Box, coord: int, isLeaf: bool)
    requires Valid(cube) && coord != 0
    ensures var index := ((if coord < 0 then -coord else coord) - 1) / 2;
            var upper := ((if coord < 0 then -coord else coord) - 1) % 2 == 1;
            CoordDistance(cube, coord, isLeaf) == Some(
              if coord > 0 then (if isLeaf && upper then Hi(cube, index) else Lo(cube, index))
              else -(if isLeaf && !upper then Lo(cube, index) else Hi(cube, index)))
  {
  }

  /** For every signed coordinate, a key never comes after a box or a key beneath it. */
  lemma KeyComesFirst(k: Box, b: Box, coord: int, isLeaf: bool)
    requires Valid(k) && Valid(b) && Encloses(k, b) && coord != 0
    ensures CoordDistance(k, coord, false).Some? && CoordDistance(b, coord, isLeaf).Some?
    ensures CoordDistance(k, coord, false).value <= CoordDistance(b, coord, isLeaf).value
  {
    CoordMeaning(k, coord, false);
    CoordMeaning(b, coord, isLeaf);
    var index := ((if coord < 0 then -coord else coord) - 1) / 2;
    assert Lo(k, index) <= Lo(b, index) && Hi(b, index) <= Hi(k, index);
    LoBelowHi(b, index);
  }
}
