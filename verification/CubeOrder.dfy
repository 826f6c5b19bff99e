/** The order of boxes for B-tree indexes and sorting. Boxes of one dimension are ordered
    lexicographically; boxes of different dimensions need not be ordered at all. */
module CubeOrder {
  import opened Cube

  // ---------------------------------------------------------------- lexicographic order

  lemma {:induction false} FirstDifferenceTransitive(s: seq<real>, t: seq<real>, u: seq<real>)
    requires |s| == |t| == |u| && FirstDifference(s, t) <= 0 && FirstDifference(t, u) <= 0
    ensures FirstDifference(s, u) <= 0
  {
    if s != [] && s[0] == t[0] == u[0] {
      FirstDifferenceTransitive(s[1..], t[1..], u[1..]);
    }
  }

  /** What a box counts as among boxes of dimension n. */
  function Padded(a: Box, n: nat): seq<real>
    requires Valid(a)
  {
    Profile(a, n, n)
  }

  predicate Comparable(a: Box, n: nat) {
    a.dim == 0 || a.dim == n
  }

  /** Among boxes of dimension n, and those without any dimension, one order is used throughout. */
  lemma ComparedAsPadded(a: Box, b: Box, n: nat)
    requires Valid(a) && Valid(b) && Comparable(a, n) && Comparable(b, n)
    ensures CompareSpec(a, b) == FirstDifference(Padded(a, n), Padded(b, n))
  {
    var m, x := MinDim(a, b), MaxDim(a, b);
    if x == n {
      assert Profile(a, m, n) == Padded(a, n);
      assert Profile(b, m, n) == Padded(b, n);
    } else {
      assert Padded(a, n) == Padded(b, n);
      assert Profile(a, 0, 0) == Profile(b, 0, 0);
      NoDifference(Padded(a, n));
      NoDifference(Profile(a, 0, 0));
    }
  }

  /** Swapping the boxes changes the sign. */
  lemma CompareFlips(a: Box, b: Box)
    requires Valid(a) && Valid(b)
    ensures CompareSpec(b, a) == -CompareSpec(a, b)
  {
    var m, n := MinDim(a, b), MaxDim(a, b);
    FirstDifferenceFlips(Profile(a, m, n), Profile(b, m, n));
  }

  /** The box with the lower first bound comes first. */
  lemma LowerComesFirst(a: Box, b: Box)
    requires Valid(a) && Valid(b) && a.dim > 0 && b.dim > 0 && Lo(a, 0) < Lo(b, 0)
    ensures CompareSpec(a, b) == -1
  {
    CompareDecided(a, b, 0);
  }

  /** Of boxes with the same intervals, the one with fewer dimensions comes first. */
  lemma FewerComesFirst(a: Box, b: Box)
    requires Valid(a) && Valid(b) && a.dim < b.dim
    requires forall i: nat :: Lo(a, i) == Lo(b, i) && Hi(a, i) == Hi(b, i)
    ensures CompareSpec(a, b) == -1
  {
    CompareDecided(a, b, 2 * b.dim);
  }

  ghost predicate Transitive(a: Box, b: Box, c: Box)
    requires Valid(a) && Valid(b) && Valid(c)
  {
    CompareSpec(a, b) <= 0 && CompareSpec(b, c) <= 0 ==> CompareSpec(a, c) <= 0
  }

  lemma TransitiveAmong(a: Box, b: Box, c: Box, n: nat)
    requires Valid(a) && Valid(b) && Valid(c) && Comparable(a, n) && Comparable(b, n) && Comparable(c, n)
    ensures Transitive(a, b, c)
  {
    hide CompareSpec, Padded;
    ComparedAsPadded(a, b, n);
    ComparedAsPadded(b, c, n);
    ComparedAsPadded(a, c, n);
    if CompareSpec(a, b) <= 0 && CompareSpec(b, c) <= 0 {
      PaddedLengths(a, b, c, n);
      FirstDifferenceTransitive(Padded(a, n), Padded(b, n), Padded(c, n));
    }
  }

  lemma PaddedLengths(a: Box, b: Box, c: Box, n: nat)
    requires Valid(a) && Valid(b) && Valid(c)
    ensures |Padded(a, n)| == |Padded(b, n)| == |Padded(c, n)|
  {
  }

  // ---------------------------------------------------------------- where there is no order

  /** The box at zero, except that its upper bound in dimension 0 is `hi`, and that in dimension
      `j` it is the point 1. */
  function Odd(dim: nat, hi: real, j: nat): (b: Box)
    requires dim > 0 && hi >= 0.0 && j > 0
    ensures Valid(b) && b.dim == dim
    ensures forall i: nat :: Lo(b, i) == if i == j && i < dim then 1.0 else 0.0
    ensures forall i: nat :: Hi(b, i) == if i == 0 then hi else if i == j && i < dim then 1.0 else 0.0
  {
    var x := seq(2 * dim, k requires 0 <= k < 2 * dim =>
                            if k == dim then hi else if j < dim && (k == j || k == dim + j) then 1.0 else 0.0);
    Box(dim, false, x)
  }

  /** Three boxes, of dimensions m, n and n, each of which comes after the next one and the last
      of them after the first. */
  lemma Cycle(m: nat, n: nat) returns (a: Box, b: Box, c: Box)
    requires 1 <= m < n
    ensures Valid(a) && Valid(b) && Valid(c) && a.dim == m && b.dim == c.dim == n
    ensures CompareSpec(a, b) == 1 && CompareSpec(b, c) == 1 && CompareSpec(c, a) == 1
  {
    a, b, c := Odd(m, 1.0, n), Odd(n, 0.5, m), Odd(n, 2.0, n);
    CompareDecided(a, b, m);
    CompareDecided(b, c, m);
    CompareDecided(c, a, m);
    hide Odd, CompareSpec;
  }

  /** For boxes with dimensions from a given set, the comparison is transitive exactly if they
      all have the same dimension, apart from boxes without any. */
  lemma TransitiveExactly(dims: set<nat>)
    ensures (forall a, b, c :: Valid(a) && Valid(b) && Valid(c) && a.dim in dims && b.dim in dims && c.dim in dims ==>
               Transitive(a, b, c))
       <==> forall m, n :: m in dims && n in dims && m != 0 && n != 0 ==> m == n
  {
    hide Transitive, CompareSpec;
    if m, n :| m in dims && n in dims && m != 0 && n != 0 && m < n {
      NotTransitive(m, n, dims);
    }
    if forall m, n :: m in dims && n in dims && m != 0 && n != 0 ==> m == n {
      forall a, b, c | Valid(a) && Valid(b) && Valid(c) && a.dim in dims && b.dim in dims && c.dim in dims
        ensures Transitive(a, b, c)
      {
        TransitiveAmong(a, b, c, if a.dim != 0 then a.dim else if b.dim != 0 then b.dim else c.dim);
      }
    }
  }

  lemma NotTransitive(m: nat, n: nat, dims: set<nat>)
    requires 1 <= m < n && m in dims && n in dims
    ensures exists a, b, c :: Valid(a) && Valid(b) && Valid(c) && a.dim in dims && b.dim in dims && c.dim in dims
                              && !Transitive(a, b, c)
  {
    hide CompareSpec;
    var a, b, c := Cycle(m, n);
    CompareFlips(a, b);
    CompareFlips(c, a);
    assert CompareSpec(b, a) <= 0 && CompareSpec(a, c) <= 0 && CompareSpec(b, c) > 0;
    assert !Transitive(b, a, c);
  }
}
