/** Splitting a page of boxes: the pair that would waste most space together seeds the two
    sides, and every other box joins the side that has to grow less for it. */
module CubeSplit {
  import opened Cube

  // ---------------------------------------------------------------- sizes

  function Times(x: real, y: real): real {
    x * y
  }

  function Width(b: Box, i: nat): real
    requires Valid(b)
  {
    Hi(b, i) - Lo(b, i)
  }

  function Product(b: Box, n: nat): real
    requires Valid(b) && n <= b.dim
  {
    if n == 0 then 1.0 else Times(Product(b, n - 1), Width(b, n - 1))
  }

  /** The volume of a box; boxes without dimensions have none. */
  function Volume(b: Box): real
    requires Valid(b)
  {
    if b.dim == 0 then 0.0 else Product(b, b.dim)
  }

  lemma {:induction false} PointHasNoVolume(b: Box, n: nat)
    requires Valid(b) && b.point && 0 < n <= b.dim
    ensures Product(b, n) == 0.0
  {
    assert Width(b, n - 1) == 0.0;
  }

  /** rt_cube_size */
  method Size(b: Box) returns (size: real)
    requires Valid(b)
    ensures size == Volume(b)
  {
    if b.point || b.dim == 0 {
      if b.dim > 0 {
        PointHasNoVolume(b, b.dim);
      }
      return 0.0;
    }
    hide Times;
    size := 1.0;
    for i := 0 to b.dim
      invariant size == Product(b, i)
    {
      var d := UR(b, i) - LL(b, i);
      size := Times(size, if d < 0.0 then -d else d);
    }
  }

  /** The volume of the union of two boxes, and that of their intersection (where they do not
      meet, of the gap between them). */
  function UnionProduct(a: Box, b: Box, n: nat): real
    requires Valid(a) && Valid(b)
  {
    if n == 0 then 1.0 else Times(UnionProduct(a, b, n - 1), UnionHi(a, b, n - 1) - UnionLo(a, b, n - 1))
  }

  function UnionVolume(a: Box, b: Box): real
    requires Valid(a) && Valid(b)
  {
    if MaxDim(a, b) == 0 then 0.0 else UnionProduct(a, b, MaxDim(a, b))
  }

  function Meet(a: Box, b: Box, i: nat): real
    requires Valid(a) && Valid(b)
  {
    var d := Min(Hi(a, i), Hi(b, i)) - Max(Lo(a, i), Lo(b, i));
    if d < 0.0 then -d else d
  }

  function MeetProduct(a: Box, b: Box, n: nat): real
    requires Valid(a) && Valid(b)
  {
    if n == 0 then 1.0 else Times(MeetProduct(a, b, n - 1), Meet(a, b, n - 1))
  }

  function MeetVolume(a: Box, b: Box): real
    requires Valid(a) && Valid(b)
  {
    if MaxDim(a, b) == 0 then 0.0 else MeetProduct(a, b, MaxDim(a, b))
  }

  /** The space two boxes would waste together. */
  function Waste(a: Box, b: Box): real
    requires Valid(a) && Valid(b)
  {
    UnionVolume(a, b) - MeetVolume(a, b)
  }

  lemma {:induction false} UnionProductOf(u: Box, a: Box, b: Box, n: nat)
    requires Valid(u) && Valid(a) && Valid(b) && IsUnion(u, a, b) && n <= u.dim
    ensures Product(u, n) == UnionProduct(a, b, n)
    decreases n
  {
    if n > 0 {
      UnionProductOf(u, a, b, n - 1);
      assert Lo(u, n - 1) == UnionLo(a, b, n - 1) && Hi(u, n - 1) == UnionHi(a, b, n - 1);
      hide Times;
    }
  }

  lemma UnionVolumeOf(u: Box, a: Box, b: Box)
    requires Valid(u) && Valid(a) && Valid(b) && IsUnion(u, a, b)
    ensures Volume(u) == UnionVolume(a, b)
  {
    UnionProductOf(u, a, b, u.dim);
  }

  /** The box has the intersection's bounds, which may come in the wrong order. */
  predicate IsMeet(r: Box, a: Box, b: Box)
    requires Valid(r) && Valid(a) && Valid(b)
  {
    && r.dim == MaxDim(a, b)
    && forall i :: 0 <= i < r.dim ==> Width(r, i) == Meet(a, b, i)
  }

  lemma {:induction false} MeetProductOf(r: Box, a: Box, b: Box, n: nat)
    requires Valid(r) && Valid(a) && Valid(b) && IsMeet(r, a, b) && n <= r.dim
    ensures Product(r, n) == MeetProduct(a, b, n)
    decreases n
  {
    if n > 0 {
      MeetProductOf(r, a, b, n - 1);
      assert Width(r, n - 1) == Meet(a, b, n - 1);
      hide Times;
    }
  }

  /** cube_inter */
  method Intersection(a0: Box, b0: Box) returns (r: Box)
    requires Valid(a0) && Valid(b0)
    ensures Valid(r) && IsMeet(r, a0, b0)
    ensures r.point <==> forall i :: 0 <= i < r.dim ==> Meet(a0, b0, i) == 0.0
  {
    var a, b := a0, b0;
    if a.dim < b.dim {
      a, b := b, a;
    }
    var x := MeetCorners(a, b);
    r := FromCorners(a.dim, x);
    forall i | 0 <= i < a.dim
      ensures Width(r, i) == Meet(a0, b0, i) && (x[i] == x[i + a.dim] <==> Meet(a0, b0, i) == 0.0)
    {
      assert x[i] == Max(Lo(a, i), Lo(b, i)) && x[i + a.dim] == Min(Hi(a, i), Hi(b, i));
    }
  }

  method MeetCorners(a: Box, b: Box) returns (corners: seq<real>)
    requires Valid(a) && Valid(b) && a.dim >= b.dim
    ensures |corners| == 2 * a.dim
    ensures forall j :: 0 <= j < a.dim ==> corners[j] == Max(Lo(a, j), Lo(b, j))
    ensures forall j :: 0 <= j < a.dim ==> corners[j + a.dim] == Min(Hi(a, j), Hi(b, j))
  {
    hide LL, UR;
    var dim := a.dim;
    var x := new real[2 * dim](_ => 0.0);
    var i := 0;
    while i < b.dim
      invariant 0 <= i <= b.dim
      invariant forall j :: 0 <= j < i ==> x[j] == Max(Lo(a, j), Lo(b, j))
      invariant forall j :: 0 <= j < i ==> x[j + dim] == Min(Hi(a, j), Hi(b, j))
    {
      x[i] := Max(Lo(a, i), Lo(b, i));
      x[i + dim] := Min(Hi(a, i), Hi(b, i));
      i := i + 1;
    }
    while i < dim
      invariant b.dim <= i <= dim
      invariant forall j :: 0 <= j < i ==> x[j] == Max(Lo(a, j), Lo(b, j))
      invariant forall j :: 0 <= j < i ==> x[j + dim] == Min(Hi(a, j), Hi(b, j))
    {
      x[i] := Max(0.0, Lo(a, i));
      x[i + dim] := Min(0.0, Hi(a, i));
      i := i + 1;
    }
    corners := x[..];
  }

  // ---------------------------------------------------------------- seeds

  predicate AllValid(entries: seq<Box>) {
    forall i :: 0 <= i < |entries| ==> Valid(entries[i])
  }

  /** The pair (a, b) comes before the pair (i, j) in the order in which pairs are tried. */
  predicate PairBefore(a: nat, b: nat, i: nat, j: nat) {
    a < i || (a == i && b < j)
  }

  /** The pair tried so far that wastes most, if any has been tried; the first such pair of
      several. */
  ghost predicate MostWasteful(entries: seq<Box>, maxoff: nat, s1: nat, s2: nat, i: nat, j: nat)
    requires AllValid(entries) && maxoff < |entries|
  {
    && 1 <= s1 < s2 <= maxoff && PairBefore(s1, s2, i, j)
    && (forall a, b :: 1 <= a < b <= maxoff && PairBefore(a, b, i, j) ==>
          Waste(entries[a], entries[b]) <= Waste(entries[s1], entries[s2]))
    && (forall a, b :: 1 <= a < b <= maxoff && PairBefore(a, b, s1, s2) ==>
          Waste(entries[a], entries[b]) < Waste(entries[s1], entries[s2]))
  }

  /** The next pair has been compared with the best one so far, or is the first one. */
  lemma NextPair(entries: seq<Box>, maxoff: nat, s1: nat, s2: nat, i: nat, j: nat, first: bool)
    requires AllValid(entries) && maxoff < |entries| && 1 <= i < j <= maxoff
    requires if first then i == 1 && j == 2 else MostWasteful(entries, maxoff, s1, s2, i, j)
    ensures first || Waste(entries[i], entries[j]) > Waste(entries[s1], entries[s2]) ==>
              MostWasteful(entries, maxoff, i, j, i, j + 1)
    ensures !first && Waste(entries[i], entries[j]) <= Waste(entries[s1], entries[s2]) ==>
              MostWasteful(entries, maxoff, s1, s2, i, j + 1)
  {
    hide Waste;
  }

  lemma NextRow(entries: seq<Box>, maxoff: nat, s1: nat, s2: nat, i: nat)
    requires AllValid(entries) && maxoff < |entries|
    requires MostWasteful(entries, maxoff, s1, s2, i, maxoff + 1)
    ensures MostWasteful(entries, maxoff, s1, s2, i + 1, i + 2)
  {
    hide Waste;
  }

  method PairWaste(a: Box, b: Box) returns (waste: real)
    requires Valid(a) && Valid(b)
    ensures waste == Waste(a, b)
  {
    var union := Union(a, b, false);
    UnionVolumeOf(union, a, b);
    var sizeUnion := Size(union);
    var inter := Intersection(a, b);
    MeetProductOf(inter, a, b, inter.dim);
    var sizeInter := Size(inter);
    waste := sizeUnion - sizeInter;
  }

  /** The two seeds: the pair among the first `maxoff` entries that wastes most, or the first
      two entries when there is only one candidate. */
  method Seeds(entries: seq<Box>, maxoff: nat) returns (seed1: nat, seed2: nat)
    requires AllValid(entries) && 1 <= maxoff < |entries|
    ensures maxoff == 1 ==> seed1 == 1 && seed2 == 2
    ensures maxoff > 1 ==> MostWasteful(entries, maxoff, seed1, seed2, maxoff, maxoff + 1)
  {
    hide Waste, MostWasteful;
    seed1, seed2 := 1, 2;
    var firsttime, waste := true, 0.0;
    var i := 1;
    while i < maxoff
      invariant 1 <= i <= maxoff
      invariant firsttime <==> i == 1
      invariant 1 <= seed1 < seed2 && (if i == 1 then seed1 == 1 && seed2 == 2 else seed2 <= maxoff)
      invariant !firsttime ==> MostWasteful(entries, maxoff, seed1, seed2, i, i + 1)
      invariant !firsttime ==> waste == Waste(entries[seed1], entries[seed2])
    {
      var j := i + 1;
      while j <= maxoff
        invariant i + 1 <= j <= maxoff + 1
        invariant firsttime <==> i == 1 && j == 2
        invariant 1 <= seed1 < seed2 <= maxoff
        invariant !firsttime ==> MostWasteful(entries, maxoff, seed1, seed2, i, j)
        invariant !firsttime ==> waste == Waste(entries[seed1], entries[seed2])
      {
        var sizeWaste := PairWaste(entries[i], entries[j]);
        NextPair(entries, maxoff, seed1, seed2, i, j, firsttime);
        if sizeWaste > waste || firsttime {
          waste := sizeWaste;
          seed1, seed2 := i, j;
          firsttime := false;
        }
        j := j + 1;
      }
      NextRow(entries, maxoff, seed1, seed2, i);
      i := i + 1;
    }
  }

  // ---------------------------------------------------------------- the two sides

  /** The smallest box around the entries with the given numbers. */
  ghost predicate Hull(d: Box, entries: seq<Box>, members: seq<nat>)
    requires AllValid(entries)
  {
    && Valid(d)
    && (forall p :: 0 <= p < |members| ==> members[p] < |entries| && Encloses(d, entries[members[p]]))
    && forall e ::
         Valid(e) && (forall p :: 0 <= p < |members| ==> members[p] < |entries| && Encloses(e, entries[members[p]]))
         ==> Encloses(e, d)
  }

  lemma HullOfOne(d: Box, entries: seq<Box>, i: nat)
    requires AllValid(entries) && i < |entries| && Valid(d) && IsUnion(d, entries[i], entries[i])
    ensures Hull(d, entries, [i])
  {
    forall e | Valid(e) && (forall p :: 0 <= p < 1 ==> [i][p] < |entries| && Encloses(e, entries[[i][p]]))
      ensures Encloses(e, d)
    {
      assert Encloses(e, entries[[i][0]]);
    }
  }

  lemma HullGrows(d: Box, d': Box, entries: seq<Box>, members: seq<nat>, i: nat)
    requires AllValid(entries) && i < |entries| && Hull(d, entries, members)
    requires Valid(d') && IsUnion(d', d, entries[i])
    ensures Hull(d', entries, members + [i])
  {
    var all := members + [i];
    UnionEncloses(d', d, entries[i]);
    forall p | 0 <= p < |all| ensures all[p] < |entries| && Encloses(d', entries[all[p]]) {
      if p < |members| {
        EnclosesTransitive(d', d, entries[members[p]]);
      }
    }
    forall e | Valid(e) && (forall p :: 0 <= p < |all| ==> all[p] < |entries| && Encloses(e, entries[all[p]]))
      ensures Encloses(e, d')
    {
      forall p | 0 <= p < |members| ensures members[p] < |entries| && Encloses(e, entries[members[p]]) {
        assert all[p] == members[p];
      }
      assert Encloses(e, d) && all[|members|] == i && Encloses(e, entries[i]);
    }
  }

  /** Only the set of members matters. */
  lemma HullOfSame(d: Box, entries: seq<Box>, a: seq<nat>, b: seq<nat>)
    requires AllValid(entries) && Hull(d, entries, a)
    requires (forall p :: 0 <= p < |a| ==> a[p] in b) && (forall p :: 0 <= p < |b| ==> b[p] in a)
    ensures Hull(d, entries, b)
  {
    forall p | 0 <= p < |b| ensures b[p] < |entries| && Encloses(d, entries[b[p]]) {
      var q :| 0 <= q < |a| && a[q] == b[p];
    }
    forall e | Valid(e) && (forall p :: 0 <= p < |b| ==> b[p] < |entries| && Encloses(e, entries[b[p]]))
      ensures Encloses(e, d)
    {
      forall q | 0 <= q < |a| ensures a[q] < |entries| && Encloses(e, entries[a[q]]) {
        var p :| 0 <= p < |b| && b[p] == a[q];
      }
    }
  }

  /** The side's numbers are increasing and below `upTo`. */
  predicate Increasing(s: seq<nat>, upTo: nat) {
    && (forall p :: 0 <= p < |s| ==> 1 <= s[p] < upTo)
    && (forall p, q :: 0 <= p < q < |s| ==> s[p] < s[q])
  }

  /** Each number below `upTo` has gone to exactly one of the sides, each seed to its own. */
  ghost predicate Divided(l: seq<nat>, r: seq<nat>, upTo: nat, seed1: nat, seed2: nat) {
    && Increasing(l, upTo) && Increasing(r, upTo)
    && |l| + |r| == upTo - 1
    && (forall e :: 1 <= e < upTo ==> (e in l) != (e in r))
    && (1 <= seed1 < upTo ==> seed1 in l) && (1 <= seed2 < upTo ==> seed2 in r)
  }

  lemma DividedGrows(l: seq<nat>, r: seq<nat>, i: nat, seed1: nat, seed2: nat)
    requires Divided(l, r, i, seed1, seed2) && 1 <= i
    ensures i != seed2 ==> Divided(l + [i], r, i + 1, seed1, seed2)
    ensures i != seed1 ==> Divided(l, r + [i], i + 1, seed1, seed2)
  {
    assert forall e :: e in l + [i] <==> e in l || e == i;
    assert forall e :: e in r + [i] <==> e in r || e == i;
  }

  /** Which side has to grow less to take in an entry; a tie goes to the right. */
  predicate PrefersLeft(ld: Box, rd: Box, e: Box)
    requires Valid(ld) && Valid(rd) && Valid(e)
  {
    UnionVolume(ld, e) - Volume(ld) < UnionVolume(rd, e) - Volume(rd)
  }

  /** One entry that is not a seed is placed. */
  method Place(e: Box, ld: Box, rd: Box, sizeL: real, sizeR: real)
    returns (goLeft: bool, d: Box, size: real)
    requires Valid(e) && Valid(ld) && Valid(rd) && sizeL == Volume(ld) && sizeR == Volume(rd)
    ensures goLeft == PrefersLeft(ld, rd, e)
    ensures Valid(d) && IsUnion(d, if goLeft then ld else rd, e) && size == Volume(d)
  {
    var unionL := Union(ld, e, false);
    var unionR := Union(rd, e, false);
    UnionVolumeOf(unionL, ld, e);
    UnionVolumeOf(unionR, rd, e);
    var sizeAlpha := Size(unionL);
    var sizeBeta := Size(unionR);
    if sizeAlpha - sizeL < sizeBeta - sizeR {
      return true, unionL, sizeAlpha;
    } else {
      return false, unionR, sizeBeta;
    }
  }

  /** The numbers in `s` below `e`. */
  function Below(s: seq<nat>, e: nat): seq<nat> {
    if s == [] then []
    else Below(s[..|s| - 1], e) + if s[|s| - 1] < e then [s[|s| - 1]] else []
  }

  lemma BelowSnoc(s: seq<nat>, x: nat, e: nat)
    ensures Below(s + [x], e) == Below(s, e) + if x < e then [x] else []
  {
    assert (s + [x])[..|s|] == s;
  }

  lemma {:induction false} BelowAll(s: seq<nat>, e: nat)
    requires forall p :: 0 <= p < |s| ==> s[p] < e
    ensures Below(s, e) == s
    decreases |s|
  {
    if s != [] {
      BelowAll(s[..|s| - 1], e);
    }
  }

  /** Every entry that is not a seed went to the side that had to grow less at that time. */
  ghost predicate Greedy(entries: seq<Box>, l: seq<nat>, r: seq<nat>, seed1: nat, seed2: nat,
                         lds: seq<Box>, rds: seq<Box>, upTo: nat)
    requires AllValid(entries)
  {
    && |lds| == |rds| == upTo - 1 < |entries|
    && forall p :: 0 <= p < |lds| && p + 1 != seed1 && p + 1 != seed2 ==>
         PlacedGreedily(entries, l, r, seed1, seed2, lds[p], rds[p], p + 1)
  }

  ghost predicate PlacedGreedily(entries: seq<Box>, l: seq<nat>, r: seq<nat>, seed1: nat, seed2: nat,
                                 ld: Box, rd: Box, e: nat)
    requires AllValid(entries) && e < |entries|
  {
    && Hull(ld, entries, [seed1] + Below(l, e))
    && Hull(rd, entries, [seed2] + Below(r, e))
    && (e in l <==> PrefersLeft(ld, rd, entries[e]))
  }

  lemma PlacedStays(entries: seq<Box>, l: seq<nat>, r: seq<nat>, seed1: nat, seed2: nat, ld: Box, rd: Box, e: nat,
        i: nat)
    requires AllValid(entries) && e < i && e < |entries|
    requires PlacedGreedily(entries, l, r, seed1, seed2, ld, rd, e)
    ensures PlacedGreedily(entries, l + [i], r, seed1, seed2, ld, rd, e)
    ensures PlacedGreedily(entries, l, r + [i], seed1, seed2, ld, rd, e)
  {
    hide Hull, PrefersLeft;
    BelowSnoc(l, i, e);
    BelowSnoc(r, i, e);
    assert Below(l, e) + [] == Below(l, e) && Below(r, e) + [] == Below(r, e);
    assert e in l + [i] <==> e in l;
  }

  lemma PlacedNow(entries: seq<Box>, l: seq<nat>, r: seq<nat>, seed1: nat, seed2: nat, ld: Box, rd: Box, i: nat,
        goLeft: bool)
    requires AllValid(entries) && 1 <= i < |entries| && Divided(l, r, i, seed1, seed2)
    requires Hull(ld, entries, [seed1] + l) && Hull(rd, entries, [seed2] + r)
    requires goLeft == PrefersLeft(ld, rd, entries[i])
    ensures goLeft ==> PlacedGreedily(entries, l + [i], r, seed1, seed2, ld, rd, i)
    ensures !goLeft ==> PlacedGreedily(entries, l, r + [i], seed1, seed2, ld, rd, i)
  {
    hide Hull, PrefersLeft;
    BelowAll(l, i);
    BelowAll(r, i);
    BelowSnoc(l, i, i);
    BelowSnoc(r, i, i);
    assert l + [] == l && r + [] == r;
    assert i in l + [i] && i !in l;
  }

  lemma GreedyGrows(entries: seq<Box>, l: seq<nat>, r: seq<nat>, seed1: nat, seed2: nat,
                    lds: seq<Box>, rds: seq<Box>, i: nat, ld: Box, rd: Box, goLeft: bool)
    requires AllValid(entries) && 1 <= i < |entries| && Divided(l, r, i, seed1, seed2)
    requires Greedy(entries, l, r, seed1, seed2, lds, rds, i)
    requires Hull(ld, entries, [seed1] + l) && Hull(rd, entries, [seed2] + r)
    requires i != seed1 && i != seed2 ==> goLeft == PrefersLeft(ld, rd, entries[i])
    ensures goLeft ==> Greedy(entries, l + [i], r, seed1, seed2, lds + [ld], rds + [rd], i + 1)
    ensures !goLeft ==> Greedy(entries, l, r + [i], seed1, seed2, lds + [ld], rds + [rd], i + 1)
  {
    hide PlacedGreedily, Divided, Hull, PrefersLeft;
    if i != seed1 && i != seed2 {
      PlacedNow(entries, l, r, seed1, seed2, ld, rd, i, goLeft);
    }
    forall p | 0 <= p < |lds| && p + 1 != seed1 && p + 1 != seed2
      ensures PlacedGreedily(entries, l + [i], r, seed1, seed2, lds[p], rds[p], p + 1)
      ensures PlacedGreedily(entries, l, r + [i], seed1, seed2, lds[p], rds[p], p + 1)
    {
      PlacedStays(entries, l, r, seed1, seed2, lds[p], rds[p], p + 1, i);
    }
  }

  lemma SideGrows(datum: Box, d: Box, entries: seq<Box>, seed: nat, s: seq<nat>, i: nat)
    requires AllValid(entries) && i < |entries| && Hull(datum, entries, [seed] + s)
    requires i != seed ==> Valid(d) && Valid(datum) && IsUnion(d, datum, entries[i])
    ensures Hull(if i == seed then datum else d, entries, [seed] + (s + [i]))
  {
    hide Hull, IsUnion;
    if i == seed {
      HullOfSame(datum, entries, [seed] + s, [seed] + (s + [i]));
    } else {
      HullGrows(datum, d, entries, [seed] + s, i);
      assert ([seed] + s) + [i] == [seed] + (s + [i]);
    }
  }

  lemma SeedsInRange(entries: seq<Box>, maxoff: nat, seed1: nat, seed2: nat)
    requires AllValid(entries) && 1 <= maxoff < |entries| - 1
    requires maxoff == 1 ==> seed1 == 1 && seed2 == 2
    requires maxoff > 1 ==> MostWasteful(entries, maxoff, seed1, seed2, maxoff, maxoff + 1)
    ensures 1 <= seed1 < seed2 < |entries|
  {
  }

  /** What holds when entry `i` is about to be placed. */
  ghost predicate Halfway(entries: seq<Box>, l: seq<nat>, r: seq<nat>, i: nat, seed1: nat, seed2: nat,
                          ld: Box, rd: Box, lds: seq<Box>, rds: seq<Box>)
    requires AllValid(entries)
  {
    && 1 <= seed1 < seed2 < |entries|
    && Divided(l, r, i, seed1, seed2)
    && Hull(ld, entries, [seed1] + l) && Hull(rd, entries, [seed2] + r)
    && Greedy(entries, l, r, seed1, seed2, lds, rds, i)
  }

  lemma Start(entries: seq<Box>, seed1: nat, seed2: nat, ld: Box, rd: Box)
    requires AllValid(entries) && 1 <= seed1 < seed2 < |entries| && Valid(ld) && Valid(rd)
    requires IsUnion(ld, entries[seed1], entries[seed1]) && IsUnion(rd, entries[seed2], entries[seed2])
    ensures Halfway(entries, [], [], 1, seed1, seed2, ld, rd, [], [])
  {
    HullOfOne(ld, entries, seed1);
    HullOfOne(rd, entries, seed2);
    hide Hull, IsUnion;
    assert [seed1] + [] == [seed1] && [seed2] + [] == [seed2];
  }

  lemma Step(entries: seq<Box>, l: seq<nat>, r: seq<nat>, i: nat, seed1: nat, seed2: nat,
             ld: Box, rd: Box, lds: seq<Box>, rds: seq<Box>, goLeft: bool, d: Box)
    requires AllValid(entries) && 1 <= i < |entries|
    requires Halfway(entries, l, r, i, seed1, seed2, ld, rd, lds, rds) && Valid(ld) && Valid(rd)
    requires i == seed1 ==> goLeft
    requires i == seed2 ==> !goLeft
    requires i != seed1 && i != seed2 ==>
               goLeft == PrefersLeft(ld, rd, entries[i]) && Valid(d)
                 && IsUnion(d, if goLeft then ld else rd, entries[i])
    ensures goLeft ==>
              Halfway(entries, l + [i], r, i + 1, seed1, seed2, if i == seed1 then ld else d, rd, lds + [ld],
                      rds + [rd])
    ensures !goLeft ==>
              Halfway(entries, l, r + [i], i + 1, seed1, seed2, ld, if i == seed2 then rd else d, lds + [ld],
                      rds + [rd])
  {
    hide Hull, IsUnion, PrefersLeft, Divided, Greedy;
    DividedGrows(l, r, i, seed1, seed2);
    GreedyGrows(entries, l, r, seed1, seed2, lds, rds, i, ld, rd, goLeft);
    if goLeft {
      SideGrows(ld, d, entries, seed1, l, i);
    } else {
      SideGrows(rd, d, entries, seed2, r, i);
    }
  }

  lemma SeedsPlaced(entries: seq<Box>, l: seq<nat>, r: seq<nat>, seed1: nat, seed2: nat,
                    ld: Box, rd: Box, lds: seq<Box>, rds: seq<Box>)
    requires AllValid(entries)
    requires Halfway(entries, l, r, |entries|, seed1, seed2, ld, rd, lds, rds)
    ensures l != [] && r != [] && Divided(l, r, |entries|, seed1, seed2)
    ensures Hull(ld, entries, l) && Hull(rd, entries, r)
    ensures Greedy(entries, l, r, seed1, seed2, lds, rds, |entries|)
  {
    assert seed1 in l && seed2 in r;
    hide Hull, Greedy;
    HullOfSame(ld, entries, [seed1] + l, l);
    HullOfSame(rd, entries, [seed2] + r, r);
  }

  /** g_cube_picksplit. Entries are numbered from 1; entry 0 is not used. Each side's array has
      room for every number, and the sentinel is written behind the last one. For every entry
      but the seeds, `ldatums` and `rdatums` tell what the two sides were when it was placed. */
  method Picksplit(entries: seq<Box>)
    returns (left: array<nat>, right: array<nat>, nleft: nat, nright: nat, ldatum: Box, rdatum: Box,
             seed1: nat, seed2: nat, ghost ldatums: seq<Box>, ghost rdatums: seq<Box>)
    requires |entries| >= 3 && AllValid(entries)
    ensures |entries| > 3 ==> MostWasteful(entries, |entries| - 2, seed1, seed2, |entries| - 2, |entries| - 1)
    ensures 1 <= nleft < left.Length && 1 <= nright < right.Length && left[nleft] == right[nright] == 1
    ensures Divided(left[..nleft], right[..nright], |entries|, seed1, seed2)
    ensures Hull(ldatum, entries, left[..nleft]) && Hull(rdatum, entries, right[..nright])
    ensures Greedy(entries, left[..nleft], right[..nright], seed1, seed2, ldatums, rdatums, |entries|)
  {
    hide PrefersLeft, MostWasteful, Volume, IsUnion, Halfway, Hull, Divided, Greedy;
    var n := |entries|;
    var maxoff := n - 2;
    left, right := new nat[maxoff + 2], new nat[maxoff + 2];
    nleft, nright := 0, 0;
    seed1, seed2 := Seeds(entries, maxoff);
    SeedsInRange(entries, maxoff, seed1, seed2);
    ldatum := Union(entries[seed1], entries[seed1], true);
    var sizeL := Size(ldatum);
    rdatum := Union(entries[seed2], entries[seed2], true);
    var sizeR := Size(rdatum);
    ghost var l: seq<nat>, r: seq<nat> := [], [];
    ldatums, rdatums := [], [];
    Start(entries, seed1, seed2, ldatum, rdatum);
    maxoff := maxoff + 1;
    var i := 1;
    while i <= maxoff
      invariant 1 <= i <= maxoff + 1
      invariant left != right && left.Length == right.Length == n
      invariant nleft == |l| && nright == |r| && nleft + nright == i - 1
      invariant left[..nleft] == l && right[..nright] == r
      invariant Valid(ldatum) && Valid(rdatum) && sizeL == Volume(ldatum) && sizeR == Volume(rdatum)
      invariant Halfway(entries, l, r, i, seed1, seed2, ldatum, rdatum, ldatums, rdatums)
    {
      var goLeft, d, size := i == seed1, ldatum, sizeL;
      if i != seed1 && i != seed2 {
        goLeft, d, size := Place(entries[i], ldatum, rdatum, sizeL, sizeR);
      }
      Step(entries, l, r, i, seed1, seed2, ldatum, rdatum, ldatums, rdatums, goLeft, d);
      ldatums, rdatums := ldatums + [ldatum], rdatums + [rdatum];
      if goLeft {
        if i != seed1 {
          ldatum, sizeL := d, size;
        }
        left[nleft] := i;
        l, nleft := l + [i], nleft + 1;
      } else {
        if i != seed2 {
          rdatum, sizeR := d, size;
        }
        right[nright] := i;
        r, nright := r + [i], nright + 1;
      }
      i := i + 1;
    }
    SeedsPlaced(entries, l, r, seed1, seed2, ldatum, rdatum, ldatums, rdatums);
    left[nleft], right[nright] := 1, 1;
    assert left[..nleft] == l && right[..nright] == r;
  }
}
