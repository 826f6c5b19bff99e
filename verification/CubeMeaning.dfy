/** What the tests on boxes mean for the points in them, which keys a search enters, and what the
    sizes are that a split compares. */
module CubeMeaning {
  import opened Cube
  import opened CubeDistance
  import opened CubeMetric
  import opened CubeSplit

  // ---------------------------------------------------------------- points

  /** A point, given by its first coordinates, lies in a box; dimensions that the box does not
      have are zero. */
  predicate Inside(b: Box, p: seq<real>)
    requires Valid(b)
  {
    forall i :: 0 <= i < |p| ==> InInterval(b, i, p[i])
  }

  function LowCorner(b: Box): (p: seq<real>)
    requires Valid(b)
    ensures |p| == b.dim
  {
    seq(b.dim, i requires 0 <= i < b.dim => Lo(b, i))
  }

  function HighCorner(b: Box): (p: seq<real>)
    requires Valid(b)
    ensures |p| == b.dim
  {
    seq(b.dim, i requires 0 <= i < b.dim => Hi(b, i))
  }

  lemma CornersInside(b: Box)
    requires Valid(b)
    ensures Inside(b, LowCorner(b)) && Inside(b, HighCorner(b))
  {
    forall i | 0 <= i < b.dim ensures Lo(b, i) <= Hi(b, i) {
      LoBelowHi(b, i);
    }
  }

  /** A box contains another one exactly if it has all its points; dimensions that only the
      larger one has do not matter. */
  lemma ContainsMeaning(a: Box, b: Box)
    requires Valid(a) && Valid(b)
    ensures Contains(a, b) <==> forall p :: |p| == b.dim && Inside(b, p) ==> Inside(a, p)
  {
    if Contains(a, b) {
      forall p | |p| == b.dim && Inside(b, p) ensures Inside(a, p) {
        forall i | 0 <= i < |p| ensures InInterval(a, i, p[i]) {
          assert InInterval(b, i, p[i]);
        }
      }
    }
    if forall p :: |p| == b.dim && Inside(b, p) ==> Inside(a, p) {
      CornersInside(b);
      var low, high := LowCorner(b), HighCorner(b);
      forall i | 0 <= i < b.dim
        ensures Lo(a, i) <= Lo(b, i) && Hi(b, i) <= Hi(a, i)
        ensures i >= a.dim ==> LL(b, i) == 0.0 && UR(b, i) == 0.0
      {
        assert InInterval(a, i, low[i]) && InInterval(a, i, high[i]);
      }
    }
  }

  /** Boxes overlap exactly if they have a point in common. */
  lemma OverlapMeaning(a: Box, b: Box)
    requires Valid(a) && Valid(b)
    ensures Overlap(a, b) <==> exists p :: |p| == MaxDim(a, b) && Inside(a, p) && Inside(b, p)
  {
    if Overlap(a, b) {
      var p := seq(MaxDim(a, b), i requires 0 <= i < MaxDim(a, b) => Max(Lo(a, i), Lo(b, i)));
      forall i | 0 <= i < |p| ensures InInterval(a, i, p[i]) && InInterval(b, i, p[i]) {
        LoBelowHi(a, i);
        LoBelowHi(b, i);
      }
      assert |p| == MaxDim(a, b) && Inside(a, p) && Inside(b, p);
    }
    if p :| |p| == MaxDim(a, b) && Inside(a, p) && Inside(b, p) {
      forall i | 0 <= i < MaxDim(a, b) ensures Lo(a, i) <= Hi(b, i) && Lo(b, i) <= Hi(a, i) {
        assert InInterval(a, i, p[i]) && InInterval(b, i, p[i]);
      }
    }
  }

  // ---------------------------------------------------------------- which keys are entered

  /** The part of a box within another one that overlaps it, in the dimensions of the first. */
  function Common(k: Box, query: Box): (b: Box)
    requires Valid(k) && Valid(query) && Overlap(k, query)
    ensures Valid(b) && b.dim == k.dim
  {
    Box(k.dim, false, seq(2 * k.dim, j requires 0 <= j < 2 * k.dim =>
                            if j < k.dim then Max(Lo(k, j), Lo(query, j))
                            else Min(Hi(k, j - k.dim), Hi(query, j - k.dim))))
  }

  lemma CommonIsInBoth(k: Box, query: Box)
    requires Valid(k) && Valid(query) && Overlap(k, query)
    ensures var b := Common(k, query); Encloses(k, b) && Contains(query, b) && Straddles(query, b.dim)
  {
    var b := Common(k, query);
    forall i: nat
      ensures i < k.dim ==> Lo(b, i) == Max(Lo(k, i), Lo(query, i)) && Hi(b, i) == Min(Hi(k, i), Hi(query, i))
      ensures k.dim <= i ==> Lo(b, i) == Hi(b, i) == Lo(k, i) == Hi(k, i) == 0.0
    {
      if i < k.dim {
        CommonInterval(k, query, i);
      }
    }
    hide Common;
    forall i | query.dim <= i < b.dim ensures LL(b, i) == 0.0 && UR(b, i) == 0.0 {
      assert Lo(b, i) == 0.0 && Hi(b, i) == 0.0;
    }
  }

  lemma CommonInterval(k: Box, query: Box, i: nat)
    requires Valid(k) && Valid(query) && Overlap(k, query) && i < k.dim
    ensures var b := Common(k, query);
            Lo(b, i) == Max(Lo(k, i), Lo(query, i)) && Hi(b, i) == Min(Hi(k, i), Hi(query, i))
  {
    LoBelowHi(k, i);
    LoBelowHi(query, i);
    assert LL(Common(k, query), i) == Max(Lo(k, i), Lo(query, i));
    assert UR(Common(k, query), i) == Min(Hi(k, i), Hi(query, i));
  }

  /** A box beneath a key that would be found there. */
  ghost predicate Findable(k: Box, b: Box, query: Box, strategy: Strategy)
    requires Valid(k) && Valid(b) && Valid(query)
  {
    && Encloses(k, b) && LeafConsistent(b, query, strategy)
    && (strategy == ContainedByQuery ==> Straddles(query, b.dim))
  }

  /** The search enters a key exactly if some box within it could match: no key is entered for
      nothing, and, for "contained by", apart from the boxes that the condition on zero shuts out,
      none is passed by. */
  lemma EnteredExactly(k: Box, query: Box, strategy: Strategy)
    requires Valid(k) && Valid(query) && strategy != SameAs
    ensures InnerConsistent(k, query, strategy) <==> exists b :: Valid(b) && Findable(k, b, query, strategy)
  {
    hide Contains, Straddles;
    if InnerConsistent(k, query, strategy) {
      if strategy == ContainedByQuery {
        CommonIsInBoth(k, query);
        assert Findable(k, Common(k, query), query, strategy);
      } else {
        assert Findable(k, k, query, strategy);
      }
    }
    if b :| Valid(b) && Findable(k, b, query, strategy) {
      EnclosingIsConsistent(k, b, query, strategy);
    }
  }

  /** For equality, that holds of keys with the dimension of the query. */
  lemma EnteredForSame(k: Box, query: Box)
    requires Valid(k) && Valid(query) && k.dim == query.dim
    ensures InnerConsistent(k, query, SameAs) <==> exists b :: Valid(b) && Findable(k, b, query, SameAs)
  {
    if InnerConsistent(k, query, SameAs) {
      CompareIsSame(query, query);
      assert Findable(k, query, query, SameAs);
    }
    if b :| Valid(b) && Findable(k, b, query, SameAs) {
      EnclosingIsConsistent(k, b, query, SameAs);
    }
  }

  // ---------------------------------------------------------------- sizes

  /** A box of width 1 in every dimension has the volume 1. */
  lemma {:induction false} UnitVolume(b: Box, n: nat)
    requires Valid(b) && n <= b.dim && forall i :: 0 <= i < n ==> Width(b, i) == 1.0
    ensures Product(b, n) == 1.0
  {
    if n > 0 {
      UnitVolume(b, n - 1);
    }
  }

  /** Stretching a box in one dimension multiplies its volume. */
  lemma {:induction false} StretchedVolume(a: Box, b: Box, j: nat, c: real, n: nat)
    requires Valid(a) && Valid(b) && n <= a.dim && n <= b.dim
    requires forall i :: 0 <= i < n ==> Width(b, i) == if i == j then Times(c, Width(a, i)) else Width(a, i)
    ensures Product(b, n) == if j < n then Times(c, Product(a, n)) else Product(a, n)
    decreases n
  {
    if n > 0 {
      StretchedVolume(a, b, j, c, n - 1);
      TimesThree(c, Product(a, n - 1), Width(a, n - 1));
      hide Times, Width;
    }
  }

  lemma TimesThree(c: real, x: real, w: real)
    ensures Times(x, Times(c, w)) == Times(c, Times(x, w)) == Times(Times(c, x), w)
  {
    assert x * (c * w) == c * (x * w) == (c * x) * w;
  }

  /** In one dimension, the measure of the intersection is the length of the common part of the
      two intervals, or, if there is none, the gap between them. */
  lemma MeetMeaning(a: Box, b: Box, i: nat)
    requires Valid(a) && Valid(b)
    ensures var lo, hi := Max(Lo(a, i), Lo(b, i)), Min(Hi(a, i), Hi(b, i));
            && (forall x :: InInterval(a, i, x) && InInterval(b, i, x) <==> lo <= x <= hi)
            && Meet(a, b, i) == if Gap(a, b, i) == 0.0 then hi - lo else Gap(a, b, i)
  {
    LoBelowHi(a, i);
    LoBelowHi(b, i);
  }

  /** A box that is not a seed goes to the side whose volume would grow less. */
  lemma PrefersLeftMeaning(ld: Box, rd: Box, e: Box, u: Box, v: Box)
    requires Valid(ld) && Valid(rd) && Valid(e) && Valid(u) && Valid(v)
    requires IsUnion(u, ld, e) && IsUnion(v, rd, e)
    ensures PrefersLeft(ld, rd, e) <==> Volume(u) - Volume(ld) < Volume(v) - Volume(rd)
  {
    hide UnionVolume, Volume;
    UnionVolumeOf(u, ld, e);
    UnionVolumeOf(v, rd, e);
  }

  /** Two boxes waste the volume of their union less that of their intersection; the union of
      disjoint boxes is charged with the gap between them. */
  lemma WasteMeaning(a: Box, b: Box, u: Box, r: Box)
    requires Valid(a) && Valid(b) && Valid(u) && Valid(r) && IsUnion(u, a, b) && IsMeet(r, a, b)
    ensures Waste(a, b) == Volume(u) - Volume(r)
  {
    hide Product, MeetProduct, UnionVolume;
    UnionVolumeOf(u, a, b);
    MeetProductOf(r, a, b, r.dim);
  }
}
