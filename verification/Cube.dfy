/** Boxes of differing dimension: their unions, the tests made on them in a GiST index, and the
    distances that order a nearest-neighbour search. Coordinates are exact. */
module Cube {
  import opened Outcomes

  /** A box. A point stores its coordinates once; other boxes store one corner after the other,
      not necessarily the lower one first. */
  datatype Box = Box(dim: nat, point: bool, x: seq<real>)

  predicate Valid(b: Box) {
    |b.x| == if b.point then b.dim else 2 * b.dim
  }

  function Min(a: real, b: real): real {
    if a < b then a else b
  }

  function Max(a: real, b: real): real {
    if a > b then a else b
  }

  function LL(b: Box, i: nat): real
    requires Valid(b) && i < b.dim
  {
    b.x[i]
  }

  function UR(b: Box, i: nat): real
    requires Valid(b) && i < b.dim
  {
    if b.point then b.x[i] else b.x[i + b.dim]
  }

  /** The interval of a box in one dimension; dimensions it does not have count as [0, 0]. */
  function Lo(b: Box, i: nat): real
    requires Valid(b)
  {
    if i < b.dim then Min(LL(b, i), UR(b, i)) else 0.0
  }

  function Hi(b: Box, i: nat): real
    requires Valid(b)
  {
    if i < b.dim then Max(LL(b, i), UR(b, i)) else 0.0
  }

  function MaxDim(a: Box, b: Box): nat {
    if a.dim < b.dim then b.dim else a.dim
  }

  // ---------------------------------------------------------------- unions

  /** The smallest box around two others, in the larger of their dimensions. */
  ghost predicate IsUnion(u: Box, a: Box, b: Box)
    requires Valid(u) && Valid(a) && Valid(b)
  {
    && u.dim == MaxDim(a, b)
    && forall i: nat :: Lo(u, i) == Min(Lo(a, i), Lo(b, i)) && Hi(u, i) == Max(Hi(a, i), Hi(b, i))
  }

  /** One box lies within another, zero-padded where it has fewer dimensions. */
  ghost predicate Encloses(k: Box, b: Box)
    requires Valid(k) && Valid(b)
  {
    && b.dim <= k.dim
    && forall i: nat :: Lo(k, i) <= Lo(b, i) && Hi(b, i) <= Hi(k, i)
  }

  /** cube_union_v0. `same` says that both arguments are one object, which is then returned. */
  method Union(a0: Box, b0: Box, same: bool) returns (u: Box)
    requires Valid(a0) && Valid(b0) && (same ==> a0 == b0)
    ensures Valid(u) && IsUnion(u, a0, b0)
    ensures !same ==> (u.point <==> forall i :: 0 <= i < u.dim ==> Lo(u, i) == Hi(u, i))
  {
    if same {
      return a0;
    }
    var a, b := a0, b0;
    if a.dim < b.dim {
      a, b := b, a;
    }
    var x := FillCorners(a, b);
    forall j | 0 <= j < a.dim ensures x[j] <= x[j + a.dim] {
      assert UnionLo(a, b, j) <= UnionHi(a, b, j);
    }
    u := FromCorners(a.dim, x);
    forall j | 0 <= j < a.dim ensures Lo(u, j) == UnionLo(a, b, j) && Hi(u, j) == UnionHi(a, b, j) {
      assert x[j] <= x[j + a.dim];
    }
    UnionFromBounds(u, a, b);
  }

  /** The result array: lower bounds first, then upper bounds; first in the dimensions of both,
      then in those that only the larger box has. */
  method FillCorners(a: Box, b: Box) returns (corners: seq<real>)
    requires Valid(a) && Valid(b) && a.dim >= b.dim
    ensures |corners| == 2 * a.dim
    ensures forall j :: 0 <= j < a.dim ==> corners[j] == UnionLo(a, b, j)
    ensures forall j :: 0 <= j < a.dim ==> corners[j + a.dim] == UnionHi(a, b, j)
  {
    var dim := a.dim;
    var x := new real[2 * dim](_ => 0.0);
    var i := 0;
    while i < b.dim
      invariant 0 <= i <= b.dim
      invariant forall j :: 0 <= j < i ==> x[j] == UnionLo(a, b, j)
      invariant forall j :: 0 <= j < i ==> x[j + dim] == UnionHi(a, b, j)
    {
      x[i] := Min(Min(LL(a, i), UR(a, i)), Min(LL(b, i), UR(b, i)));
      x[i + dim] := Max(Max(LL(a, i), UR(a, i)), Max(LL(b, i), UR(b, i)));
      i := i + 1;
    }
    while i < dim
      invariant b.dim <= i <= dim
      invariant forall j :: 0 <= j < i ==> x[j] == UnionLo(a, b, j)
      invariant forall j :: 0 <= j < i ==> x[j + dim] == UnionHi(a, b, j)
    {
      x[i] := Min(0.0, Min(LL(a, i), UR(a, i)));
      x[i + dim] := Max(0.0, Max(LL(a, i), UR(a, i)));
      i := i + 1;
    }
    corners := x[..];
  }

  function UnionLo(a: Box, b: Box, i: nat): real
    requires Valid(a) && Valid(b)
  {
    Min(Lo(a, i), Lo(b, i))
  }

  function UnionHi(a: Box, b: Box, i: nat): real
    requires Valid(a) && Valid(b)
  {
    Max(Hi(a, i), Hi(b, i))
  }

  lemma UnionFromBounds(u: Box, a: Box, b: Box)
    requires Valid(u) && Valid(a) && Valid(b) && u.dim == a.dim >= b.dim
    requires forall j :: 0 <= j < u.dim ==> Lo(u, j) == UnionLo(a, b, j) && Hi(u, j) == UnionHi(a, b, j)
    ensures IsUnion(u, a, b) && IsUnion(u, b, a)
  {
  }

  /** A box given by two opposite corners, flagged as a point if it is one. */
  method FromCorners(dim: nat, x: seq<real>) returns (u: Box)
    requires |x| == 2 * dim
    ensures Valid(u) && u.dim == dim
    ensures u.point <==> forall j :: 0 <= j < dim ==> x[j] == x[j + dim]
    ensures forall j :: 0 <= j < dim ==> Lo(u, j) == Min(x[j], x[j + dim]) && Hi(u, j) == Max(x[j], x[j + dim])
  {
    u := Box(dim, false, x);
    var isPoint := IsPoint(u);
    if isPoint {
      forall j | 0 <= j < dim ensures x[j] == x[j + dim] {
        assert LL(u, j) == UR(u, j);
      }
      u := Box(dim, true, x[..dim]);
    }
  }

  /** cube_is_point_internal */
  method IsPoint(b: Box) returns (r: bool)
    requires Valid(b)
    ensures r <==> b.point || forall i :: 0 <= i < b.dim ==> LL(b, i) == UR(b, i)
  {
    if b.point {
      return true;
    }
    for i := 0 to b.dim
      invariant forall j :: 0 <= j < i ==> LL(b, j) == UR(b, j)
    {
      if LL(b, i) != UR(b, i) {
        return false;
      }
    }
    return true;
  }

  /** g_cube_union: none for a single entry, else the union of all of them. */
  method UnionAll(keys: seq<Box>) returns (out: Option<Box>)
    requires keys != [] && forall i :: 0 <= i < |keys| ==> Valid(keys[i])
    ensures out.Some? <==> |keys| > 1
    ensures out.Some? ==> Valid(out.value) && forall i :: 0 <= i < |keys| ==> Encloses(out.value, keys[i])
    ensures out.Some? ==> forall e :: Valid(e) && (forall i :: 0 <= i < |keys| ==> Encloses(e, keys[i])) ==>
            Encloses(e, out.value)
  {
    out := None;
    var tmp := keys[0];
    var i := 1;
    while i < |keys|
      invariant 1 <= i <= |keys| && Valid(tmp)
      invariant if i == 1 then out == None else out == Some(tmp)
      invariant forall j :: 0 <= j < i ==> Encloses(tmp, keys[j])
      invariant forall e :: Valid(e) && (forall j :: 0 <= j < |keys| ==> Encloses(e, keys[j])) ==> Encloses(e, tmp)
    {
      var u := Union(tmp, keys[i], false);
      UnionEncloses(u, tmp, keys[i]);
      forall j | 0 <= j < i + 1 ensures Encloses(u, keys[j]) {
        if j < i {
          EnclosesTransitive(u, tmp, keys[j]);
        }
      }
      forall e | Valid(e) && (forall j :: 0 <= j < |keys| ==> Encloses(e, keys[j])) ensures Encloses(e, u) {
        assert Encloses(e, tmp) && Encloses(e, keys[i]);
      }
      tmp := u;
      out := Some(tmp);
      i := i + 1;
    }
  }

  lemma UnionEncloses(u: Box, a: Box, b: Box)
    requires Valid(u) && Valid(a) && Valid(b) && IsUnion(u, a, b)
    ensures Encloses(u, a) && Encloses(u, b)
  {
  }

  lemma EnclosesTransitive(k: Box, m: Box, b: Box)
    requires Valid(k) && Valid(m) && Valid(b) && Encloses(k, m) && Encloses(m, b)
    ensures Encloses(k, b)
  {
  }

  // ---------------------------------------------------------------- tests

  /** cube_contains_v0: dimensions that only `b` has must be zero; those that only `a` has do
      not matter. */
  predicate Contains(a: Box, b: Box)
    requires Valid(a) && Valid(b)
  {
    && (forall i :: a.dim <= i < b.dim ==> LL(b, i) == 0.0 && UR(b, i) == 0.0)
    && (forall i :: 0 <= i < a.dim && i < b.dim ==> Lo(a, i) <= Lo(b, i) && Hi(b, i) <= Hi(a, i))
  }

  method ContainsLoop(a: Box, b: Box) returns (r: bool)
    requires Valid(a) && Valid(b)
    ensures r == Contains(a, b)
  {
    if a.dim < b.dim {
      for i := a.dim to b.dim
        invariant forall j :: a.dim <= j < i ==> LL(b, j) == 0.0 && UR(b, j) == 0.0
      {
        if LL(b, i) != 0.0 {
          return false;
        }
        if UR(b, i) != 0.0 {
          return false;
        }
      }
    }
    var n := if a.dim < b.dim then a.dim else b.dim;
    for i := 0 to n
      invariant forall j :: 0 <= j < i ==> Lo(a, j) <= Lo(b, j) && Hi(b, j) <= Hi(a, j)
    {
      if Lo(a, i) > Lo(b, i) {
        return false;
      }
      if Hi(a, i) < Hi(b, i) {
        return false;
      }
    }
    return true;
  }

  /** cube_overlap_v0: the zero-padded intervals meet in every dimension. */
  predicate Overlap(a: Box, b: Box)
    requires Valid(a) && Valid(b)
  {
    forall i :: 0 <= i < MaxDim(a, b) ==> Lo(a, i) <= Hi(b, i) && Lo(b, i) <= Hi(a, i)
  }

  method OverlapLoop(a0: Box, b0: Box) returns (r: bool)
    requires Valid(a0) && Valid(b0)
    ensures r == Overlap(a0, b0)
  {
    var a, b := a0, b0;
    if a.dim < b.dim {
      a, b := b, a;
    }
    for i := 0 to b.dim
      invariant forall j :: 0 <= j < i ==> Lo(a, j) <= Hi(b, j) && Lo(b, j) <= Hi(a, j)
    {
      if Lo(a, i) > Hi(b, i) {
        return false;
      }
      if Hi(a, i) < Lo(b, i) {
        return false;
      }
    }
    for i := b.dim to a.dim
      invariant forall j :: 0 <= j < i ==> Lo(a, j) <= Hi(b, j) && Lo(b, j) <= Hi(a, j)
    {
      if Lo(a, i) > 0.0 {
        return false;
      }
      if Hi(a, i) < 0.0 {
        return false;
      }
    }
    return true;
  }

  /** The dimensions and all intervals are the same. */
  predicate Same(a: Box, b: Box)
    requires Valid(a) && Valid(b)
  {
    a.dim == b.dim && forall i :: 0 <= i < a.dim ==> Lo(a, i) == Lo(b, i) && Hi(a, i) == Hi(b, i)
  }

  function MinDim(a: Box, b: Box): nat {
    if a.dim < b.dim then a.dim else b.dim
  }

  /** What cube_cmp_v0 compares, in order: the lower bounds of the first `m` dimensions, then
      their upper bounds, the same for the dimensions up to `n`, and then the dimension. */
  function Profile(a: Box, m: nat, n: nat): (p: seq<real>)
    requires Valid(a) && m <= n
    ensures |p| == 2 * n + 1
  {
    seq(2 * n + 1, k requires 0 <= k < 2 * n + 1 => ProfileAt(a, m, n, k))
  }

  function ProfileAt(a: Box, m: nat, n: nat, k: nat): real
    requires Valid(a) && m <= n && k <= 2 * n
  {
    if k < m then Lo(a, k)
    else if k < 2 * m then Hi(a, k - m)
    else if k < m + n then Lo(a, k - m)
    else if k < 2 * n then Hi(a, k - n)
    else a.dim as real
  }

  /** The sign of the first difference. */
  function FirstDifference(s: seq<real>, t: seq<real>): int
    requires |s| == |t|
  {
    if s == [] then 0 else if s[0] != t[0] then Order(s[0], t[0]) else FirstDifference(s[1..], t[1..])
  }

  lemma {:induction false} DiffersAt(s: seq<real>, t: seq<real>, k: nat)
    requires |s| == |t| && k < |s| && s[..k] == t[..k] && s[k] != t[k]
    ensures FirstDifference(s, t) == Order(s[k], t[k])
    decreases k
  {
    if k > 0 {
      assert s[0] == s[..k][0] && t[0] == t[..k][0];
      assert s[1..][..k - 1] == s[..k][1..] && t[1..][..k - 1] == t[..k][1..];
      DiffersAt(s[1..], t[1..], k - 1);
    }
  }

  lemma {:induction false} NoDifference(s: seq<real>)
    ensures FirstDifference(s, s) == 0
  {
    if s != [] {
      NoDifference(s[1..]);
    }
  }

  function Order(a: real, b: real): int {
    if a > b then 1 else if a < b then -1 else 0
  }

  function CompareSpec(a: Box, b: Box): int
    requires Valid(a) && Valid(b)
  {
    FirstDifference(Profile(a, MinDim(a, b), MaxDim(a, b)), Profile(b, MinDim(a, b), MaxDim(a, b)))
  }

  /** The profiles agree in their first `k` places. */
  predicate AgreeTo(a: Box, b: Box, m: nat, n: nat, k: nat)
    requires Valid(a) && Valid(b) && m <= n
  {
    forall j :: 0 <= j < k && j <= 2 * n ==> ProfileAt(a, m, n, j) == ProfileAt(b, m, n, j)
  }

  lemma AgreeStep(a: Box, b: Box, m: nat, n: nat, k: nat)
    requires Valid(a) && Valid(b) && m <= n && k <= 2 * n
    requires AgreeTo(a, b, m, n, k) && ProfileAt(a, m, n, k) == ProfileAt(b, m, n, k)
    ensures AgreeTo(a, b, m, n, k + 1)
  {
  }

  lemma CompareDecided(a: Box, b: Box, k: nat)
    requires Valid(a) && Valid(b) && k <= 2 * MaxDim(a, b)
    requires AgreeTo(a, b, MinDim(a, b), MaxDim(a, b), k)
    requires var m, n := MinDim(a, b), MaxDim(a, b); ProfileAt(a, m, n, k) != ProfileAt(b, m, n, k)
    ensures var m, n := MinDim(a, b), MaxDim(a, b);
            CompareSpec(a, b) == Order(ProfileAt(a, m, n, k), ProfileAt(b, m, n, k))
  {
    var m, n := MinDim(a, b), MaxDim(a, b);
    DiffersAt(Profile(a, m, n), Profile(b, m, n), k);
  }

  lemma {:induction false} FirstDifferenceFlips(s: seq<real>, t: seq<real>)
    requires |s| == |t|
    ensures FirstDifference(s, t) == -FirstDifference(t, s)
  {
    if s != [] {
      FirstDifferenceFlips(s[1..], t[1..]);
    }
  }

  /** The loops of cube_cmp_v0. */
  method Compare(a: Box, b: Box) returns (r: int)
    requires Valid(a) && Valid(b)
    ensures r == CompareSpec(a, b)
  {
    hide AgreeTo, CompareSpec;
    var dim := MinDim(a, b);
    ghost var n := MaxDim(a, b);
    AgreeToNone(a, b, dim, n);
    for i := 0 to dim
      invariant AgreeTo(a, b, dim, n, i)
    {
      if Lo(a, i) != Lo(b, i) {
        CompareDecided(a, b, i);
        return if Lo(a, i) > Lo(b, i) then 1 else -1;
      }
      AgreeStep(a, b, dim, n, i);
    }
    for i := 0 to dim
      invariant AgreeTo(a, b, dim, n, dim + i)
    {
      if Hi(a, i) != Hi(b, i) {
        CompareDecided(a, b, dim + i);
        return if Hi(a, i) > Hi(b, i) then 1 else -1;
      }
      AgreeStep(a, b, dim, n, dim + i);
    }
    if a.dim > b.dim {
      r := CompareExcess(a, b);
    } else if a.dim < b.dim {
      AgreeFlips(a, b);
      r := CompareExcess(b, a);
      r := -r;
    } else {
      AgreeAll(a, b);
      r := 0;
    }
  }

  /** The dimensions that only `a` has, against zero; if none differs, `a` is greater. */
  method CompareExcess(a: Box, b: Box) returns (r: int)
    requires Valid(a) && Valid(b) && a.dim > b.dim
    requires AgreeTo(a, b, b.dim, a.dim, 2 * b.dim)
    ensures r == CompareSpec(a, b)
  {
    hide AgreeTo, CompareSpec;
    var dim := b.dim;
    for i := dim to a.dim
      invariant AgreeTo(a, b, dim, a.dim, dim + i)
    {
      if Lo(a, i) != 0.0 {
        CompareDecided(a, b, dim + i);
        return if Lo(a, i) > 0.0 then 1 else -1;
      }
      AgreeStep(a, b, dim, a.dim, dim + i);
    }
    for i := dim to a.dim
      invariant AgreeTo(a, b, dim, a.dim, a.dim + i)
    {
      if Hi(a, i) != 0.0 {
        CompareDecided(a, b, a.dim + i);
        return if Hi(a, i) > 0.0 then 1 else -1;
      }
      AgreeStep(a, b, dim, a.dim, a.dim + i);
    }
    CompareDecided(a, b, 2 * a.dim);
    return 1;
  }

  lemma AgreeToNone(a: Box, b: Box, m: nat, n: nat)
    requires Valid(a) && Valid(b) && m <= n
    ensures AgreeTo(a, b, m, n, 0)
  {
  }

  lemma AgreeFlips(a: Box, b: Box)
    requires Valid(a) && Valid(b) && a.dim < b.dim
    requires AgreeTo(a, b, a.dim, b.dim, 2 * a.dim)
    ensures AgreeTo(b, a, a.dim, b.dim, 2 * a.dim) && CompareSpec(a, b) == -CompareSpec(b, a)
  {
    FirstDifferenceFlips(Profile(a, a.dim, b.dim), Profile(b, a.dim, b.dim));
  }

  lemma AgreeAll(a: Box, b: Box)
    requires Valid(a) && Valid(b) && a.dim == b.dim
    requires AgreeTo(a, b, a.dim, a.dim, 2 * a.dim)
    ensures CompareSpec(a, b) == 0
  {
    assert Profile(a, a.dim, a.dim) == Profile(b, a.dim, a.dim);
    NoDifference(Profile(a, a.dim, a.dim));
  }

  /** Two boxes compare as equal only if they are the same box. */
  lemma CompareIsSame(a: Box, b: Box)
    requires Valid(a) && Valid(b)
    ensures CompareSpec(a, b) == 0 <==> Same(a, b)
  {
    var m, n := MinDim(a, b), MaxDim(a, b);
    var p, q := Profile(a, m, n), Profile(b, m, n);
    if Same(a, b) {
      assert p == q;
      NoDifference(p);
    } else {
      if a.dim == b.dim {
        var i :| 0 <= i < a.dim && !(Lo(a, i) == Lo(b, i) && Hi(a, i) == Hi(b, i));
        assert p[i] == Lo(a, i) && q[i] == Lo(b, i) && p[i + m] == Hi(a, i) && q[i + m] == Hi(b, i);
      } else {
        assert p[2 * n] != q[2 * n];
      }
      SomeDifference(p, q);
    }
  }

  lemma {:induction false} SomeDifference(s: seq<real>, t: seq<real>)
    requires |s| == |t| && s != t
    ensures FirstDifference(s, t) != 0
  {
    if s[0] == t[0] {
      assert s == [s[0]] + s[1..] && t == [t[0]] + t[1..];
      SomeDifference(s[1..], t[1..]);
    }
  }

  datatype Strategy = OverlapWith | SameAs | ContainsQuery | ContainedByQuery | Other

  predicate LeafConsistent(key: Box, query: Box, strategy: Strategy)
    requires Valid(key) && Valid(query)
  {
    match strategy
    case OverlapWith => Overlap(key, query)
    case SameAs => CompareSpec(key, query) == 0
    case ContainsQuery => Contains(key, query)
    case ContainedByQuery => Contains(query, key)
    case Other => false
  }

  predicate InnerConsistent(key: Box, query: Box, strategy: Strategy)
    requires Valid(key) && Valid(query)
  {
    match strategy
    case OverlapWith => Overlap(key, query)
    case SameAs => Contains(key, query)
    case ContainsQuery => Contains(key, query)
    case ContainedByQuery => Overlap(key, query)
    case Other => false
  }

  /** In the dimensions that a box does not have, the query's interval includes zero. */
  predicate Straddles(query: Box, dim: nat)
    requires Valid(query)
  {
    forall i :: dim <= i < query.dim ==> Lo(query, i) <= 0.0 <= Hi(query, i)
  }

  /** A key above a matching box is judged consistent, whatever their dimensions. */
  lemma EnclosingIsConsistent(k: Box, b: Box, query: Box, strategy: Strategy)
    requires Valid(k) && Valid(b) && Valid(query) && Encloses(k, b)
    requires LeafConsistent(b, query, strategy)
    requires strategy == ContainedByQuery ==> Straddles(query, b.dim)
    ensures InnerConsistent(k, query, strategy)
  {
    match strategy
    case OverlapWith => OverlapUp(k, b, query);
    case SameAs => CompareIsSame(b, query);
    case ContainsQuery => ContainsUp(k, b, query);
    case ContainedByQuery =>
      forall i | 0 <= i < MaxDim(k, query) ensures Lo(k, i) <= Hi(query, i) && Lo(query, i) <= Hi(k, i) {
        LoBelowHi(b, i);
        if i >= query.dim && i < b.dim {
          assert LL(b, i) == 0.0 && UR(b, i) == 0.0;
        }
      }
    case Other =>
  }

  lemma LoBelowHi(b: Box, i: nat)
    requires Valid(b)
    ensures Lo(b, i) <= Hi(b, i)
  {
  }

  lemma OverlapUp(k: Box, b: Box, query: Box)
    requires Valid(k) && Valid(b) && Valid(query) && Encloses(k, b) && Overlap(b, query)
    ensures Overlap(k, query)
  {
    forall i | 0 <= i < MaxDim(k, query) ensures Lo(k, i) <= Hi(query, i) && Lo(query, i) <= Hi(k, i) {
      if i < MaxDim(b, query) {
        assert Lo(b, i) <= Hi(query, i) && Lo(query, i) <= Hi(b, i);
      }
    }
  }

  lemma ContainsUp(k: Box, b: Box, query: Box)
    requires Valid(k) && Valid(b) && Valid(query) && Encloses(k, b) && Contains(b, query)
    ensures Contains(k, query)
  {
    forall i | 0 <= i < k.dim && i < query.dim ensures Lo(k, i) <= Lo(query, i) && Hi(query, i) <= Hi(k, i) {
      if i >= b.dim {
        assert LL(query, i) == 0.0 && UR(query, i) == 0.0;
      }
    }
  }

  /** The "contained by" test, whose leaf and internal forms treat excess dimensions
      differently: all keys above a matching box pass if and only if the query's interval
      includes zero in every dimension that the box does not have. */
  lemma ContainedByExactly(b: Box, query: Box)
    requires Valid(b) && Valid(query) && LeafConsistent(b, query, ContainedByQuery)
    ensures (forall k :: Valid(k) && Encloses(k, b) ==> InnerConsistent(k, query, ContainedByQuery))
       <==> Straddles(query, b.dim)
  {
    if Straddles(query, b.dim) {
      forall k | Valid(k) && Encloses(k, b) ensures InnerConsistent(k, query, ContainedByQuery) {
        EnclosingIsConsistent(k, b, query, ContainedByQuery);
      }
    } else {
      var i :| b.dim <= i < query.dim && !(Lo(query, i) <= 0.0 <= Hi(query, i));
      assert Encloses(b, b);
      assert !Overlap(b, query);
    }
  }

  /** A matching box beneath a key that the search passes by: the interval at zero on a line, and
      a query in the plane that does not reach that line. */
  lemma ContainedByMisses()
    ensures var b, query := Box(1, true, [0.0]), Box(2, false, [0.0, 1.0, 0.0, 2.0]);
            && Valid(b) && Valid(query) && Encloses(b, b)
            && LeafConsistent(b, query, ContainedByQuery) && !InnerConsistent(b, query, ContainedByQuery)
  {
    var b, query := Box(1, true, [0.0]), Box(2, false, [0.0, 1.0, 0.0, 2.0]);
    assert Lo(query, 1) == 1.0 && Hi(b, 1) == 0.0;
  }
}
