/** Splitting a page of variable-length keys. Both halves are cut to the longer of the two
    common prefixes, so the half with the shorter one keeps more of its upper bound than a
    union would; whether its key still covers all its entries then depends on them. */
module GistVarSplit {
  import opened Outcomes
  import opened ByteStrings
  import opened GistOperators
  import opened GistVar
  import opened Sequences

  function Max(a: nat, b: nat): nat {
    if a >= b then a else b
  }

  /** gbt_vsrt_cmp */
  function SortCmp(a: VarKey, b: VarKey): int {
    if Cmp(a.lower, b.lower) == 0 then Cmp(a.upper, b.upper) else Cmp(a.lower, b.lower)
  }

  /** What the library's sort leaves behind: the entries' numbers, each once, in order. */
  ghost predicate Sorting(entries: seq<VarKey>, order: seq<nat>) {
    && |order| == |entries|
    && InRange(|entries|, order)
    && (forall e :: 0 <= e < |entries| ==> e in order)
    && (forall i, j :: 0 <= i < j < |order| ==> order[i] != order[j])
    && (forall i :: 0 < i < |order| ==> SortCmp(entries[order[i - 1]], entries[order[i]]) <= 0)
  }

  /** The key of one half, given the length both halves are cut to. */
  function HalfKey(ks: seq<VarKey>, cut: nat): VarKey
    requires ks != []
  {
    VarKey(Cut(Merge(ks).lower, cut), Cut(Merge(ks).upper, cut))
  }

  /** gbt_var_picksplit, after the sort: the first half of the sorted entries goes to the left,
      the rest to the right, and each side's bounds are merged, then cut. */
  method Picksplit(entries: seq<VarKey>, order: seq<nat>)
    returns (left: seq<nat>, right: seq<nat>, ldatum: VarKey, rdatum: VarKey)
    requires |entries| >= 2 && Sorting(entries, order)
    ensures left + right == order && |left| == |entries| / 2
    ensures left != [] && right != [] && InRange(|entries|, left) && InRange(|entries|, right)
    ensures var l, r := Pick(entries, left), Pick(entries, right);
            var cut := Max(CpLen(Merge(l)), CpLen(Merge(r))) + 2;
            ldatum == HalfKey(l, cut) && rdatum == HalfKey(r, cut)
  {
    hide Sorting, Merge, BinUnion, CommonPrefix, MergeAny;
    assert |order| == |entries| && InRange(|entries|, order) by {
      SortingInRange(entries, order);
    }
    MergeNothing();
    left, right := [], [];
    var ld: Option<VarKey>, rd: Option<VarKey> := None, None;
    var i := 0;
    while i < |entries|
      invariant 0 <= i <= |entries|
      invariant if i <= |entries| / 2 then left == order[..i] && right == []
                else left == order[..|entries| / 2] && right == order[|entries| / 2..i]
      invariant InRange(|entries|, left) && InRange(|entries|, right)
      invariant ld == MergeAny(Pick(entries, left)) && rd == MergeAny(Pick(entries, right))
    {
      if i < |entries| / 2 {
        PickOneMore(entries, left, order[i]);
        ld := Some(BinUnion(ld, entries[order[i]]));
        left := left + [order[i]];
      } else {
        PickOneMore(entries, right, order[i]);
        rd := Some(BinUnion(rd, entries[order[i]]));
        right := right + [order[i]];
      }
      i := i + 1;
    }
    MergeSomething(Pick(entries, left));
    MergeSomething(Pick(entries, right));
    var ll := NodeCpLen(ld.value);
    var lr := NodeCpLen(rd.value);
    var len := Max(ll, lr) + 1;
    ldatum := Truncate(ld.value, len);
    rdatum := Truncate(rd.value, len);
  }

  function MergeAny(ks: seq<VarKey>): Option<VarKey> {
    if ks == [] then None else Some(Merge(ks))
  }

  lemma SortingInRange(entries: seq<VarKey>, order: seq<nat>)
    requires Sorting(entries, order)
    ensures |order| == |entries| && InRange(|entries|, order)
  {
  }

  lemma MergeNothing()
    ensures MergeAny([]) == None
  {
  }

  lemma MergeSomething(ks: seq<VarKey>)
    requires ks != []
    ensures MergeAny(ks) == Some(Merge(ks))
  {
  }

  lemma PickOneMore(entries: seq<VarKey>, which: seq<nat>, e: nat)
    requires e < |entries| && InRange(|entries|, which)
    ensures MergeAny(Pick(entries, which + [e])) == Some(BinUnion(MergeAny(Pick(entries, which)), entries[e]))
  {
    var ks := Pick(entries, which);
    assert Pick(entries, which + [e]) == ks + [entries[e]];
    assert (ks + [entries[e]])[..|ks|] == ks;
  }

  /** Every entry goes to exactly one side. */
  lemma EachEntryOnce(entries: seq<VarKey>, order: seq<nat>, left: seq<nat>, right: seq<nat>, e: nat)
    requires Sorting(entries, order) && left + right == order && e < |entries|
    ensures (e in left) != (e in right)
  {
    hide SortCmp;
    assert e in left + right;
    assert forall a :: 0 <= a < |left| ==> left[a] == order[a];
    assert forall b :: 0 <= b < |right| ==> right[b] == order[|left| + b];
  }

  // ---------------------------------------------------------------- what a half covers

  function Beyond(u: Bytes, n: nat): Bytes {
    if n <= |u| then u[n..] else []
  }

  predicate AllMax(s: Bytes) {
    forall j :: 0 <= j < |s| ==> s[j] == 255
  }

  /** Wherever the half keeps more of its upper bound than an entry whose own upper bound
      stands for its extensions, it keeps only bytes that nothing can exceed. */
  predicate SafeCut(ks: seq<VarKey>, cut: nat)
    requires ks != []
  {
    forall i :: 0 <= i < |ks| && Open(ks[i]) && ks[i].upper <= Merge(ks).upper ==>
      AllMax(Beyond(HalfKey(ks, cut).upper, |ks[i].upper|))
  }

  /** The largest string beyond a common start is made of maximal bytes. */
  lemma {:induction false} MaxIsAbove(p: Bytes, u: Bytes, v: Bytes)
    requires p <= u && p <= v && AllMax(u[|p|..])
    ensures Leq(v, u) || u <= v
    decreases |u|
  {
    if u != [] && v != [] {
      if p != [] {
        assert p[0] == u[0] == v[0];
        assert p[1..] <= u[1..] && p[1..] <= v[1..] && u[1..][|p[1..]|..] == u[|p|..];
        MaxIsAbove(p[1..], u[1..], v[1..]);
        assert u == [u[0]] + u[1..] && v == [v[0]] + v[1..];
      } else {
        assert u[0] == u[|p|..][0] == 255;
        if v[0] == 255 {
          assert AllMax(u[1..]) by {
            forall j | 0 <= j < |u[1..]| ensures u[1..][j] == 255 {
              assert u[1..][j] == u[|p|..][j + 1];
            }
          }
          MaxIsAbove([], u[1..], v[1..]);
          assert u == [u[0]] + u[1..] && v == [v[0]] + v[1..];
        }
      }
    }
  }

  lemma SafeCutCovers(ks: seq<VarKey>, cut: nat, i: nat, v: Bytes)
    requires i < |ks| && cut >= CpLen(Merge(ks)) + 2 && SafeCut(ks, cut) && Covers(ks[i], v)
    ensures Covers(HalfKey(ks, cut), v)
  {
    MergeEncloses(ks, i);
    hide Merge, Covers, Open;
    PartStaysCovered(Merge(ks), cut, ks[i], v);
  }

  /** A part of a merged interval, whose upper bound may stand for its extensions. */
  lemma PartStaysCovered(k: VarKey, cut: nat, part: VarKey, v: Bytes)
    requires Leq(k.lower, part.lower) && Leq(part.upper, k.upper) && cut >= CpLen(k) + 2 && Covers(part, v)
    requires Open(part) && part.upper <= k.upper ==> AllMax(Beyond(Cut(k.upper, cut), |part.upper|))
    ensures Covers(VarKey(Cut(k.lower, cut), Cut(k.upper, cut)), v)
  {
    LeqTransitive(k.lower, part.lower, v);
    if Leq(v, k.upper) {
      CutCoversBelow(k, cut, v);
    } else {
      AboveMerged(k, part, v);
      CutCoversAbove(k, cut, part.upper, v);
    }
  }

  lemma CutCoversAbove(k: VarKey, cut: nat, ui: Bytes, v: Bytes)
    requires cut >= CpLen(k) + 2 && Leq(k.lower, v)
    requires CpLen(k) + 2 <= |ui| && ui <= v && ui <= k.upper
    requires AllMax(Beyond(Cut(k.upper, cut), |ui|))
    ensures Covers(VarKey(Cut(k.lower, cut), Cut(k.upper, cut)), v)
  {
    var u := Cut(k.upper, cut);
    PrefixLeq(Cut(k.lower, cut), k.lower);
    LeqTransitive(Cut(k.lower, cut), k.lower, v);
    CommonPrefixOfCut(k.lower, k.upper, cut);
    hide CommonPrefix, Leq;
    if |u| <= |ui| {
      assert u <= ui;
    } else {
      MaxIsAbove(ui, u, v);
    }
  }

  /** Where a cut that is not safe keeps a byte too many. */
  lemma UnsafeAt(ks: seq<VarKey>, cut: nat) returns (i: nat, j: nat)
    requires ks != [] && !SafeCut(ks, cut)
    ensures i < |ks| && Open(ks[i]) && ks[i].upper <= Merge(ks).upper
    ensures |ks[i].upper| <= j < |HalfKey(ks, cut).upper| && HalfKey(ks, cut).upper[j] < 255
  {
    hide Merge, Open, HalfKey;
    var u := HalfKey(ks, cut).upper;
    i :| 0 <= i < |ks| && Open(ks[i]) && ks[i].upper <= Merge(ks).upper && !AllMax(Beyond(u, |ks[i].upper|));
    var n := |ks[i].upper|;
    var x :| 0 <= x < |Beyond(u, n)| && Beyond(u, n)[x] != 255;
    j := n + x;
  }

  /** On a leaf page nothing has been truncated yet, and every cut is safe. */
  lemma LeafSplitCovers(ks: seq<VarKey>, cut: nat, i: nat)
    requires i < |ks| && cut >= CpLen(Merge(ks)) + 2
    requires forall j :: 0 <= j < |ks| ==> ks[j].lower == ks[j].upper
    ensures Covers(HalfKey(ks, cut), ks[i].lower)
  {
    LeafCutIsSafe(ks, cut);
    LeqReflexive(ks[i].lower);
    SafeCutCovers(ks, cut, i, ks[i].lower);
  }

  lemma LeafCutIsSafe(ks: seq<VarKey>, cut: nat)
    requires ks != [] && forall j :: 0 <= j < |ks| ==> ks[j].lower == ks[j].upper
    ensures SafeCut(ks, cut)
  {
    forall j | 0 <= j < |ks| ensures !Open(ks[j]) {
      CommonPrefixUnique(ks[j].lower, ks[j].upper, |ks[j].upper|);
    }
  }

  /** The half with the longer common prefix is cut just as a union would cut it: safely. */
  lemma LongerHalfCovers(ks: seq<VarKey>, i: nat, v: Bytes)
    requires i < |ks| && Covers(ks[i], v)
    ensures Covers(HalfKey(ks, CpLen(Merge(ks)) + 2), v)
  {
    UnionCovers(ks, i, v);
  }

  // ---------------------------------------------------------------- when a split hides a row

  /** The search still enters the key for every query that matches a value beneath an entry. */
  ghost predicate HidesNothing(k: VarKey, ks: seq<VarKey>) {
    forall i, v, query, strategy ::
      0 <= i < |ks| && Covers(ks[i], v) && LeafConsistent(v, query, strategy) ==> InnerConsistent(k, query, strategy)
  }

  /** Unless the merged lower bound is a prefix of the upper one, the two differ at a byte that
      every open part keeps. */
  lemma BoundsDiffer(m: VarKey, part: VarKey)
    requires Leq(m.lower, part.lower) && Open(part) && Leq(part.lower, part.upper) && part.upper <= m.upper
    requires !(m.lower <= m.upper)
    ensures CpLen(m) < |part.upper| && CpLen(m) < |m.lower| && m.lower[CpLen(m)] != m.upper[CpLen(m)]
  {
    PrefixLeq(part.upper, m.upper);
    LeqTransitive(part.lower, part.upper, m.upper);
    CommonPrefixShrinks(m.lower, part.lower, m.upper);
    var n := CpLen(part);
    assert part.upper[..n] == m.upper[..n];
    CommonPrefixUnique(part.lower, m.upper, n);
  }

  /** Equality with a value that a part covers and the half's key does not fails on the key, if
      the lower bound is not a prefix of the upper one. */
  lemma UnsafeCutHides(m: VarKey, cut: nat, part: VarKey, j: nat) returns (v: Bytes)
    requires Leq(m.lower, part.lower) && Open(part) && Leq(part.lower, part.upper) && part.upper <= m.upper
    requires cut >= CpLen(m) + 2 && !(m.lower <= m.upper)
    requires var u := Cut(m.upper, cut); |part.upper| <= j < |u| && u[j] < 255
    ensures Covers(part, v) && !InnerConsistent(VarKey(Cut(m.lower, cut), Cut(m.upper, cut)), v, Equal)
  {
    BoundsDiffer(m, part);
    var k := VarKey(Cut(m.lower, cut), Cut(m.upper, cut));
    hide CommonPrefix, Leq;
    v := k.upper[..j] + [k.upper[j] + 1];
    assert part.upper <= v;
    PrefixLeq(part.upper, v);
    LeqTransitive(part.lower, part.upper, v);
    assert v[..j] == k.upper[..j];
    DecidedAt(k.upper, v, j);
    CmpMeaning(v, k.upper);
    var n := CpLen(m);
    assert v[n] == k.upper[n] == m.upper[n] && k.lower[n] == m.lower[n];
  }

  lemma UnsafeCutHidesSome(ks: seq<VarKey>, cut: nat)
    requires ks != [] && cut >= CpLen(Merge(ks)) + 2 && !SafeCut(ks, cut) && !(Merge(ks).lower <= Merge(ks).upper)
    requires forall i :: 0 <= i < |ks| ==> Leq(ks[i].lower, ks[i].upper)
    ensures !HidesNothing(HalfKey(ks, cut), ks)
  {
    hide Covers, Leq, Merge, Open, InnerConsistent, LeafConsistent, CommonPrefix, SafeCut;
    var i, j := UnsafeAt(ks, cut);
    MergeEncloses(ks, i);
    var v := UnsafeCutHides(Merge(ks), cut, ks[i], j);
    EqualToItself(v);
  }

  lemma EqualToItself(v: Bytes)
    ensures LeafConsistent(v, v, Equal)
  {
  }

  /** A lower bound that is a prefix of the upper one matches all that extends it. */
  lemma PrefixKeyIsConsistent(k: VarKey, v: Bytes, query: Bytes, strategy: Strategy)
    requires k.lower <= k.upper && k.lower <= v && k.lower != k.upper
    requires LeafConsistent(v, query, strategy)
    ensures InnerConsistent(k, query, strategy)
  {
    PrefixLeq(k.lower, v);
    PrefixLeq(k.lower, k.upper);
    CmpMeaning(query, k.lower);
    CmpMeaning(query, k.upper);
    match strategy
    case LessEqual => LeqTransitive(k.lower, v, query);
    case Less => LeqTransitive(k.lower, v, query);
    case Greater => PrefixOrBelow(k, v, query);
    case GreaterEqual => PrefixOrBelow(k, v, query);
    case _ =>
  }

  lemma PrefixOrBelow(k: VarKey, v: Bytes, query: Bytes)
    requires k.lower <= k.upper && k.lower <= v && Leq(query, v)
    ensures Leq(query, k.upper) || k.lower <= query
  {
    LeqTotal(query, k.upper);
    PrefixLeq(k.lower, k.upper);
    if Leq(k.upper, query) {
      LeqTransitive(k.lower, k.upper, query);
      BetweenExtends(k.lower, query, v);
    }
  }

  lemma PrefixCut(m: VarKey, cut: nat)
    requires m.lower <= m.upper && cut >= CpLen(m) + 2
    ensures CpLen(m) == |m.lower| && Cut(m.lower, cut) == m.lower <= Cut(m.upper, cut)
    ensures m.lower == Cut(m.upper, cut) ==> m.lower == m.upper
  {
    CommonPrefixUnique(m.lower, m.upper, |m.lower|);
  }

  lemma PrefixHidesNothing(ks: seq<VarKey>, cut: nat, i: nat, v: Bytes, query: Bytes, strategy: Strategy)
    requires i < |ks| && cut >= CpLen(Merge(ks)) + 2 && Merge(ks).lower <= Merge(ks).upper
    requires Covers(ks[i], v) && LeafConsistent(v, query, strategy)
    ensures InnerConsistent(HalfKey(ks, cut), query, strategy)
  {
    hide Merge, CpLen, InnerConsistent, LeafConsistent, Leq, Open, Cut;
    var m, k := Merge(ks), HalfKey(ks, cut);
    MergeEncloses(ks, i);
    LeqTransitive(m.lower, ks[i].lower, v);
    PrefixCut(m, cut);
    if Leq(v, m.upper) {
      CutCoversBelow(m, cut, v);
      CoveredIsConsistent(k, v, query, strategy);
    } else {
      AboveMerged(m, ks[i], v);
      PrefixKeyIsConsistent(k, v, query, strategy);
    }
  }

  /** The main result on splits: the key of a half hides no value beneath its entries if and only
      if the cut is safe for it, or its lower bound is a prefix of its upper one. */
  lemma SplitHidesNothingExactly(ks: seq<VarKey>, cut: nat)
    requires ks != [] && cut >= CpLen(Merge(ks)) + 2
    requires forall i :: 0 <= i < |ks| ==> Leq(ks[i].lower, ks[i].upper)
    ensures HidesNothing(HalfKey(ks, cut), ks) <==> SafeCut(ks, cut) || Merge(ks).lower <= Merge(ks).upper
  {
    hide SafeCut, HalfKey, Merge, Covers, LeafConsistent, InnerConsistent, Leq;
    if SafeCut(ks, cut) || Merge(ks).lower <= Merge(ks).upper {
      forall i, v, query, strategy | 0 <= i < |ks| && Covers(ks[i], v) && LeafConsistent(v, query, strategy)
        ensures InnerConsistent(HalfKey(ks, cut), query, strategy)
      {
        if SafeCut(ks, cut) {
          SafeCutCovers(ks, cut, i, v);
          CoveredIsConsistent(HalfKey(ks, cut), v, query, strategy);
        } else {
          PrefixHidesNothing(ks, cut, i, v, query, strategy);
        }
      }
    } else {
      UnsafeCutHidesSome(ks, cut);
    }
  }
}
