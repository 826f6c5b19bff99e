/** Index trees over variable-length values: keys made by unions and splits, again and again, of
    keys that may already be truncated. */
module GistVarTree {
  import opened ByteStrings
  import opened GistOperators
  import opened GistVar
  import opened GistVarSplit
  import opened Sequences
  import G = GistSearch

  /** The interval that a key stands for. If its lower bound is a prefix of its upper one, the
      test enters the key for all that extends the lower bound, so the key stands for as much as
      if it had been cut like a union. */
  function Reach(k: VarKey): VarKey {
    if k.lower <= k.upper then Truncate(k, CpLen(k) + 1) else k
  }

  /** The half's lower bound is a prefix of its upper one, or the half keeps only maximal bytes
      where it keeps more than an entry whose upper bound stands for its extensions. */
  predicate SafeHalf(ks: seq<VarKey>, cut: nat)
    requires ks != []
  {
    var m := Merge(ks);
    m.lower <= m.upper
    || forall i :: 0 <= i < |ks| && Open(Reach(ks[i])) && Reach(ks[i]).upper <= m.upper ==>
         AllMax(Beyond(HalfKey(ks, cut).upper, |Reach(ks[i]).upper|))
  }

  /** How a key came about: from one value, by a union of such keys, or as the key of the half
      that some of them form in a split. */
  datatype Derivation = Value(v: Bytes) | Join(parts: seq<Derivation>) | Half(parts: seq<Derivation>, cut: nat)

  /** Splits are cut beyond the common prefix of each half, and safely. */
  predicate Proper(d: Derivation)
    decreases d, 0
  {
    match d
    case Value(_) => true
    case Join(parts) => parts != [] && forall i :: 0 <= i < |parts| ==> Proper(parts[i])
    case Half(parts, cut) =>
      && parts != []
      && (forall i :: 0 <= i < |parts| ==> Proper(parts[i]))
      && var ks := seq(|parts|, i requires 0 <= i < |parts| => KeyOf(parts[i]));
         cut >= CpLen(Merge(ks)) + 2 && SafeHalf(ks, cut)
  }

  function KeyOf(d: Derivation): VarKey
    requires Proper(d)
    decreases d, 1
  {
    match d
    case Value(v) => VarKey(v, v)
    case Join(parts) => Union(seq(|parts|, i requires 0 <= i < |parts| => KeyOf(parts[i])))
    case Half(parts, cut) => HalfKey(seq(|parts|, i requires 0 <= i < |parts| => KeyOf(parts[i])), cut)
  }

  predicate Contains(d: Derivation, v: Bytes) {
    match d
    case Value(w) => w == v
    case Join(parts) => exists i :: 0 <= i < |parts| && Contains(parts[i], v)
    case Half(parts, _) => exists i :: 0 <= i < |parts| && Contains(parts[i], v)
  }

  lemma ReachOfValue(v: Bytes)
    ensures Reach(VarKey(v, v)) == VarKey(v, v) && !Open(VarKey(v, v)) && Covers(VarKey(v, v), v)
  {
    CommonPrefixUnique(v, v, |v|);
    LeqReflexive(v);
  }

  /** The halves of every split of a leaf page may be used, however they are cut. */
  lemma LeafHalfIsProper(parts: seq<Derivation>, cut: nat)
    requires parts != [] && forall i :: 0 <= i < |parts| ==> parts[i].Value?
    requires cut >= CpLen(Merge(seq(|parts|, i requires 0 <= i < |parts| => VarKey(parts[i].v, parts[i].v)))) + 2
    ensures Proper(Half(parts, cut))
  {
    hide Merge, CommonPrefix, HalfKey, Reach, Open;
    var ks := seq(|parts|, i requires 0 <= i < |parts| => KeyOf(parts[i]));
    assert ks == seq(|parts|, i requires 0 <= i < |parts| => VarKey(parts[i].v, parts[i].v));
    forall i | 0 <= i < |ks| ensures !Open(Reach(ks[i])) {
      ReachOfValue(parts[i].v);
    }
  }

  lemma UnionReachesItself(ks: seq<VarKey>)
    requires ks != []
    ensures Reach(Union(ks)) == Union(ks)
  {
    hide CommonPrefix, Merge;
    UnionIsShort(ks);
  }

  /** So may, on a page whose keys are values or unions, every half that hides nothing. */
  lemma HarmlessHalfIsProper(parts: seq<Derivation>, cut: nat)
    requires parts != [] && forall i :: 0 <= i < |parts| ==> Proper(parts[i]) && !parts[i].Half?
    requires var ks := seq(|parts|, i requires 0 <= i < |parts| => KeyOf(parts[i]));
             cut >= CpLen(Merge(ks)) + 2 && (SafeCut(ks, cut) || Merge(ks).lower <= Merge(ks).upper)
    ensures Proper(Half(parts, cut))
  {
    hide Merge, CommonPrefix, HalfKey, Reach, Open, Union;
    var ks := seq(|parts|, i requires 0 <= i < |parts| => KeyOf(parts[i]));
    forall i | 0 <= i < |ks| ensures Reach(ks[i]) == ks[i] {
      match parts[i]
      case Value(v) => ReachOfValue(v);
      case Join(inner) => UnionReachesItself(seq(|inner|, j requires 0 <= j < |inner| => KeyOf(inner[j])));
    }
  }

  /** A key stands for what it covers. */
  lemma CoveredIsReached(k: VarKey, v: Bytes)
    requires Covers(k, v)
    ensures Covers(Reach(k), v)
  {
    if k.lower <= k.upper {
      LeqReflexive(k.lower);
      LeqReflexive(k.upper);
      TruncationCovers(k, k, v);
    }
  }

  lemma ReachIsInside(k: VarKey)
    ensures Reach(k).lower == k.lower && Leq(Reach(k).upper, k.upper)
  {
    LeqReflexive(k.upper);
    if k.lower <= k.upper {
      CommonPrefixUnique(k.lower, k.upper, |k.lower|);
      PrefixLeq(Reach(k).upper, k.upper);
    }
  }

  /** The merged bounds enclose what the parts stand for. */
  lemma MergeEnclosesReach(ks: seq<VarKey>, i: nat)
    requires i < |ks|
    ensures Leq(Merge(ks).lower, Reach(ks[i]).lower) && Leq(Reach(ks[i]).upper, Merge(ks).upper)
  {
    hide Merge, Reach;
    MergeEncloses(ks, i);
    ReachIsInside(ks[i]);
    LeqTransitive(Reach(ks[i]).upper, ks[i].upper, Merge(ks).upper);
  }

  lemma UnionReaches(ks: seq<VarKey>, i: nat, v: Bytes)
    requires i < |ks| && Covers(Reach(ks[i]), v)
    ensures Covers(Reach(Union(ks)), v)
  {
    hide Merge, Reach, Covers;
    MergeEnclosesReach(ks, i);
    TruncationCovers(Merge(ks), Reach(ks[i]), v);
    CoveredIsReached(Union(ks), v);
  }

  lemma PrefixHalfReach(m: VarKey, cut: nat)
    requires m.lower <= m.upper && cut >= CpLen(m) + 2
    ensures Reach(VarKey(Cut(m.lower, cut), Cut(m.upper, cut))) == Truncate(m, CpLen(m) + 1)
  {
    PrefixCut(m, cut);
    CommonPrefixOfCut(m.lower, m.upper, cut);
    hide CommonPrefix;
  }

  lemma HalfReaches(ks: seq<VarKey>, cut: nat, i: nat, v: Bytes)
    requires i < |ks| && cut >= CpLen(Merge(ks)) + 2 && SafeHalf(ks, cut) && Covers(Reach(ks[i]), v)
    ensures Covers(Reach(HalfKey(ks, cut)), v)
  {
    hide Merge, Reach, Covers, Open;
    MergeEnclosesReach(ks, i);
    var m := Merge(ks);
    if m.lower <= m.upper {
      TruncationCovers(m, Reach(ks[i]), v);
      PrefixHalfReach(m, cut);
    } else {
      PartStaysCovered(m, cut, Reach(ks[i]), v);
      CoveredIsReached(HalfKey(ks, cut), v);
    }
  }

  /** The search enters a key for whatever it stands for. */
  lemma ReachedIsConsistent(k: VarKey, v: Bytes, query: Bytes, strategy: Strategy)
    requires Covers(Reach(k), v) && LeafConsistent(v, query, strategy)
    ensures InnerConsistent(k, query, strategy)
  {
    hide InnerConsistent, LeafConsistent;
    if Covers(k, v) {
      CoveredIsConsistent(k, v, query, strategy);
    } else {
      ReachedBeyond(k, v);
      PrefixKeyIsConsistent(k, v, query, strategy);
    }
  }

  lemma ReachedBeyond(k: VarKey, v: Bytes)
    requires Covers(Reach(k), v) && !Covers(k, v)
    ensures k.lower <= k.upper && k.lower <= v && k.lower != k.upper
  {
    CommonPrefixUnique(k.lower, k.upper, |k.lower|);
    var r := Reach(k);
    if Leq(v, r.upper) {
      PrefixLeq(r.upper, k.upper);
      LeqTransitive(v, r.upper, k.upper);
    }
    CommonPrefixUnique(r.lower, r.upper, |k.lower|);
  }

  lemma UnsafeHalfHides(ks: seq<VarKey>, cut: nat) returns (i: nat, v: Bytes)
    requires ks != [] && cut >= CpLen(Merge(ks)) + 2 && !SafeHalf(ks, cut)
    requires forall i :: 0 <= i < |ks| ==> Leq(ks[i].lower, ks[i].upper)
    ensures i < |ks| && Covers(Reach(ks[i]), v) && !InnerConsistent(HalfKey(ks, cut), v, Equal)
  {
    hide Merge, Reach, Open, Covers, Leq, InnerConsistent, CommonPrefix;
    var m, u := Merge(ks), HalfKey(ks, cut).upper;
    i :| 0 <= i < |ks| && Open(Reach(ks[i])) && Reach(ks[i]).upper <= m.upper
         && !AllMax(Beyond(u, |Reach(ks[i]).upper|));
    var n := |Reach(ks[i]).upper|;
    var x :| 0 <= x < |Beyond(u, n)| && Beyond(u, n)[x] != 255;
    MergeEnclosesReach(ks, i);
    ReachInOrder(ks[i]);
    v := UnsafeCutHides(m, cut, Reach(ks[i]), n + x);
  }

  lemma ReachInOrder(k: VarKey)
    requires Leq(k.lower, k.upper)
    ensures Leq(Reach(k).lower, Reach(k).upper)
  {
    if k.lower <= k.upper {
      CommonPrefixUnique(k.lower, k.upper, |k.lower|);
      PrefixLeq(Reach(k).lower, Reach(k).upper);
    }
  }

  /** Which halves are safe, decided exactly: those whose key the search enters for every query
      that a value matches which one of the entries stands for. */
  lemma SafeHalfExactly(ks: seq<VarKey>, cut: nat)
    requires ks != [] && cut >= CpLen(Merge(ks)) + 2
    requires forall i :: 0 <= i < |ks| ==> Leq(ks[i].lower, ks[i].upper)
    ensures SafeHalf(ks, cut) <==>
            forall i, v, query, strategy ::
              0 <= i < |ks| && Covers(Reach(ks[i]), v) && LeafConsistent(v, query, strategy) ==>
                InnerConsistent(HalfKey(ks, cut), query, strategy)
  {
    hide SafeHalf, HalfKey, Merge, Covers, LeafConsistent, InnerConsistent, Leq, Reach;
    if SafeHalf(ks, cut) {
      forall i, v, query, strategy |
        0 <= i < |ks| && Covers(Reach(ks[i]), v) && LeafConsistent(v, query, strategy)
        ensures InnerConsistent(HalfKey(ks, cut), query, strategy)
      {
        HalfReaches(ks, cut, i, v);
        ReachedIsConsistent(HalfKey(ks, cut), v, query, strategy);
      }
    } else {
      var i, v := UnsafeHalfHides(ks, cut);
      EqualToItself(v);
    }
  }

  /** A key stands for every value it was derived from, however often keys were united, divided
      and cut. */
  lemma {:induction false} DerivedKeyReaches(d: Derivation, v: Bytes)
    requires Proper(d) && Contains(d, v)
    ensures Covers(Reach(KeyOf(d)), v)
  {
    hide Covers, SafeHalf, HalfKey, Union, Reach;
    if d.Value? {
      ReachOfValue(v);
    } else {
      var ks := seq(|d.parts|, j requires 0 <= j < |d.parts| => KeyOf(d.parts[j]));
      var i :| 0 <= i < |d.parts| && Contains(d.parts[i], v);
      DerivedKeyReaches(d.parts[i], v);
      if d.Join? {
        UnionReaches(ks, i, v);
      } else {
        HalfReaches(ks, d.cut, i, v);
      }
    }
  }

  /** The key was derived from at least this value. */
  ghost predicate DerivedFor(k: VarKey, v: Bytes) {
    exists d :: Proper(d) && KeyOf(d) == k && Contains(d, v)
  }

  /** The main result: in any tree whose internal keys were derived from the values beneath them,
      the pruned search returns exactly what a scan of all values returns, for every strategy. */
  lemma SearchIsScan(t: G.Index<VarKey, Bytes>, query: Bytes, strategy: Strategy)
    requires G.Covered(t, DerivedFor)
    ensures G.Search(t, k => InnerConsistent(k, query, strategy), v => LeafConsistent(v, query, strategy))
         == Filter(G.Values(t), v => LeafConsistent(v, query, strategy))
  {
    var enter := k => InnerConsistent(k, query, strategy);
    var hit := v => LeafConsistent(v, query, strategy);
    forall k, v | DerivedFor(k, v) && hit(v) ensures enter(k) {
      var d :| Proper(d) && KeyOf(d) == k && Contains(d, v);
      DerivedKeyReaches(d, v);
      ReachedIsConsistent(k, v, query, strategy);
    }
    G.SearchIsScan(t, DerivedFor, enter, hit);
  }

  // ---------------------------------------------------------------- a row that gets hidden

  const WIDE := VarKey([1, 0], [5, 5])
  const NARROW := VarKey([5, 5, 3, 0], [5, 5, 3, 1])
  const FAR := VarKey([7, 7, 7, 7, 0], [7, 7, 7, 7, 1])
  const FARTHER := VarKey([7, 7, 7, 7, 2], [7, 7, 7, 7, 3])

  /** The four keys are unions of two values each. */
  const DERIVED: seq<Derivation> :=
    [Join([Value([1, 0]), Value([5, 5, 9])]),
     Join([Value([5, 5, 3, 0]), Value([5, 5, 3, 1])]),
     Join([Value([7, 7, 7, 7, 0]), Value([7, 7, 7, 7, 1])]),
     Join([Value([7, 7, 7, 7, 2]), Value([7, 7, 7, 7, 3])])]

  lemma UnionOfTwo(a: Bytes, b: Bytes, n: nat)
    requires n < |a| && n < |b| && a[..n] == b[..n] && a[n] < b[n]
    ensures var d := Join([Value(a), Value(b)]);
            Proper(d) && KeyOf(d) == VarKey(Cut(a, n + 2), Cut(b, n + 2)) && Contains(d, a) && Contains(d, b)
  {
    var parts := [Value(a), Value(b)];
    assert Contains(parts[0], a) && Contains(parts[1], b);
    assert Proper(parts[0]) && Proper(parts[1]);
    var ks := seq(|parts|, i requires 0 <= i < |parts| => KeyOf(parts[i]));
    assert ks == [VarKey(a, a), VarKey(b, b)];
    assert KeyOf(Join(parts)) == Union(ks);
    MergeOfTwo(VarKey(a, a), VarKey(b, b), n, n);
    CommonPrefixUnique(a, b, n);
  }

  /** The merge of two intervals, the first of which starts lower and ends lower. */
  lemma MergeOfTwo(a: VarKey, b: VarKey, n: nat, m: nat)
    requires n < |a.lower| && n < |b.lower| && a.lower[..n] == b.lower[..n] && a.lower[n] < b.lower[n]
    requires a.upper <= b.upper || (m < |a.upper| && m < |b.upper| && a.upper[..m] == b.upper[..m]
                                    && a.upper[m] < b.upper[m])
    ensures Merge([a, b]) == VarKey(a.lower, b.upper)
  {
    var ks := [a, b];
    assert ks[..1] == [a];
    DecidedAt(a.lower, b.lower, n);
    CmpMeaning(a.lower, b.lower);
    if a.upper <= b.upper {
      PrefixLeq(a.upper, b.upper);
    } else {
      DecidedAt(a.upper, b.upper, m);
    }
    CmpMeaning(a.upper, b.upper);
    if Leq(b.upper, a.upper) {
      LeqAntisymmetric(a.upper, b.upper);
    }
  }

  lemma TheKeysAreDerived()
    ensures forall i :: 0 <= i < 4 ==> Proper(DERIVED[i])
    ensures KeyOf(DERIVED[0]) == WIDE && KeyOf(DERIVED[1]) == NARROW
    ensures KeyOf(DERIVED[2]) == FAR && KeyOf(DERIVED[3]) == FARTHER
    ensures Contains(DERIVED[0], [5, 5, 9])
  {
    hide KeyOf, Proper, Contains;
    UnionOfTwo([1, 0], [5, 5, 9], 0);
    UnionOfTwo([5, 5, 3, 0], [5, 5, 3, 1], 3);
    UnionOfTwo([7, 7, 7, 7, 0], [7, 7, 7, 7, 1], 4);
    UnionOfTwo([7, 7, 7, 7, 2], [7, 7, 7, 7, 3], 4);
  }

  /** The order in which the sort leaves them. */
  lemma TheKeysAreSorted()
    ensures Sorting([WIDE, NARROW, FAR, FARTHER], [0, 1, 2, 3])
  {
    DecidedAt(WIDE.lower, NARROW.lower, 0);
    DecidedAt(NARROW.lower, FAR.lower, 0);
    DecidedAt(FAR.lower, FARTHER.lower, 4);
    assert forall e: nat :: e < 4 ==> e in [0, 1, 2, 3];
    hide Leq;
  }

  /** Splitting an internal page with these keys hides a row: the value 5 5 9 lies beneath the
      first entry, yet the key of its half is not consistent with an equality search for it. */
  lemma SplitHidesRow()
    ensures var left, right := [WIDE, NARROW], [FAR, FARTHER];
            var cut := Max(CpLen(Merge(left)), CpLen(Merge(right))) + 2;
            && Covers(WIDE, [5, 5, 9])
            && LeafConsistent([5, 5, 9], [5, 5, 9], Equal)
            && !InnerConsistent(HalfKey(left, cut), [5, 5, 9], Equal)
  {
    var q: Bytes := [5, 5, 9];
    MergeOfTwo(WIDE, NARROW, 0, 0);
    MergeOfTwo(FAR, FARTHER, 4, 4);
    CommonPrefixUnique([1, 0], [5, 5, 3, 1], 0);
    CommonPrefixUnique([7, 7, 7, 7, 0], [7, 7, 7, 7, 3], 4);
    CommonPrefixUnique([1, 0], [5, 5], 0);
    DecidedAt([1, 0], q, 0);
    DecidedAt([5, 5, 3, 1], q, 2);
    CmpMeaning(q, [5, 5, 3, 1]);
    hide Merge, CommonPrefix, Leq, Cmp;
  }
}
