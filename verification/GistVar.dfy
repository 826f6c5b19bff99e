/** GiST keys for variable-length values, in the `bytea` case: intervals whose bounds are cut
    short, their unions, and the test that a search makes on them. */
module GistVar {
  import opened Outcomes
  import opened GistOperators
  import opened ByteStrings

  datatype VarKey = VarKey(lower: Bytes, upper: Bytes)

  // ---------------------------------------------------------------- operations

  /** gbt_var_node_cp_len */
  function CpLen(k: VarKey): nat {
    CommonPrefix(k.lower, k.upper)
  }

  /** gbt_var_node_truncate */
  function Truncate(k: VarKey, cpfLength: nat): VarKey {
    VarKey(Cut(k.lower, cpfLength + 1), Cut(k.upper, cpfLength + 1))
  }

  /** gbt_var_bin_union */
  function BinUnion(u: Option<VarKey>, e: VarKey): VarKey {
    match u
    case None => e
    case Some(r) =>
      VarKey(if Cmp(r.lower, e.lower) > 0 then e.lower else r.lower,
             if Cmp(r.upper, e.upper) < 0 then e.upper else r.upper)
  }

  /** The smallest interval around some keys, before truncation. */
  function Merge(ks: seq<VarKey>): VarKey
    requires ks != []
  {
    if |ks| == 1 then ks[0] else BinUnion(Some(Merge(ks[..|ks| - 1])), ks[|ks| - 1])
  }

  /** gbt_var_union: merged, then cut to two bytes beyond the common prefix. */
  function Union(ks: seq<VarKey>): VarKey
    requires ks != []
  {
    var k := Merge(ks);
    Truncate(k, CpLen(k) + 1)
  }

  predicate PrefixMatch(k: VarKey, query: Bytes) {
    k.lower <= query || k.upper <= query
  }

  /** gbt_var_consistent on a leaf entry, which stores one value. */
  predicate LeafConsistent(v: Bytes, query: Bytes, strategy: Strategy) {
    match strategy
    case LessEqual => Leq(v, query)
    case Less => Lt(v, query)
    case Equal => query == v
    case Greater => Lt(query, v)
    case GreaterEqual => Leq(query, v)
    case NotEqual => !(query == v && query == v)
    case Other => false
  }

  /** gbt_var_consistent on an internal entry. */
  predicate InnerConsistent(k: VarKey, query: Bytes, strategy: Strategy) {
    match strategy
    case LessEqual => Cmp(query, k.lower) >= 0 || PrefixMatch(k, query)
    case Less => Cmp(query, k.lower) >= 0 || PrefixMatch(k, query)
    case Equal => (Cmp(k.lower, query) <= 0 && Cmp(query, k.upper) <= 0) || PrefixMatch(k, query)
    case Greater => Cmp(query, k.upper) <= 0 || PrefixMatch(k, query)
    case GreaterEqual => Cmp(query, k.upper) <= 0 || PrefixMatch(k, query)
    case NotEqual => !(query == k.lower && query == k.upper)
    case Other => false
  }

  // ---------------------------------------------------------------- what the operators mean

  /** On stored values the six operators are those of the order: each is the negation of another
      one, and `<=` is `<` or `=`. */
  lemma OperatorsMean(v: Bytes, query: Bytes)
    ensures LeafConsistent(v, query, LessEqual) <==> Leq(v, query)
    ensures LeafConsistent(v, query, LessEqual) <==>
            LeafConsistent(v, query, Less) || LeafConsistent(v, query, Equal)
    ensures LeafConsistent(v, query, Less) <==> !LeafConsistent(v, query, GreaterEqual)
    ensures LeafConsistent(v, query, Greater) <==> !LeafConsistent(v, query, LessEqual)
    ensures LeafConsistent(v, query, Equal) <==> v == query
    ensures LeafConsistent(v, query, NotEqual) <==> v != query
    ensures !LeafConsistent(v, query, Other)
  {
    LeqTotal(v, query);
    LeqReflexive(v);
    if Leq(v, query) && Leq(query, v) {
      LeqAntisymmetric(v, query);
    }
  }

  /** A value that a cut key may stand for: between its bounds, or an extension of one of them. */
  predicate MayStandFor(k: VarKey, v: Bytes) {
    Leq(k.lower, v) && (Leq(v, k.upper) || k.upper <= v || k.lower <= v)
  }

  /** The search enters a key exactly if some value that the key may stand for would match, where
      `<` and `>` count as `<=` and `>=`. */
  lemma InnerExactly(k: VarKey, query: Bytes, strategy: Strategy)
    requires Leq(k.lower, k.upper) && strategy != NotEqual
    ensures InnerConsistent(k, query, strategy)
       <==> exists v :: MayStandFor(k, v) && LeafConsistent(v, query, OrEqual(strategy))
  {
    if InnerConsistent(k, query, strategy) && strategy != Other {
      var v := EnteredForSome(k, query, strategy);
    }
    if v :| MayStandFor(k, v) && LeafConsistent(v, query, OrEqual(strategy)) {
      MatchEnters(k, v, query, strategy);
    }
  }

  lemma EnteredForSome(k: VarKey, query: Bytes, strategy: Strategy) returns (v: Bytes)
    requires Leq(k.lower, k.upper) && strategy != NotEqual && strategy != Other
    requires InnerConsistent(k, query, strategy)
    ensures MayStandFor(k, v) && LeafConsistent(v, query, OrEqual(strategy))
  {
    CmpMeaning(query, k.lower);
    CmpMeaning(k.lower, query);
    CmpMeaning(query, k.upper);
    BoundsStand(k, query);
    LeqReflexive(query);
    match OrEqual(strategy)
    case LessEqual => v := if Leq(k.lower, query) then k.lower else query;
    case GreaterEqual => v := if Leq(query, k.upper) then k.upper else query;
    case _ => v := query;
  }

  lemma BoundsStand(k: VarKey, query: Bytes)
    requires Leq(k.lower, k.upper)
    ensures MayStandFor(k, k.lower) && MayStandFor(k, k.upper)
    ensures PrefixMatch(k, query) ==> MayStandFor(k, query)
  {
    LeqReflexive(k.lower);
    LeqReflexive(k.upper);
    if k.lower <= query {
      PrefixLeq(k.lower, query);
    } else if k.upper <= query {
      PrefixLeq(k.upper, query);
      LeqTransitive(k.lower, k.upper, query);
    }
  }

  lemma MatchEnters(k: VarKey, v: Bytes, query: Bytes, strategy: Strategy)
    requires Leq(k.lower, k.upper) && strategy != NotEqual
    requires MayStandFor(k, v) && LeafConsistent(v, query, OrEqual(strategy))
    ensures InnerConsistent(k, query, strategy)
  {
    CmpMeaning(query, k.lower);
    CmpMeaning(k.lower, query);
    CmpMeaning(query, k.upper);
    match OrEqual(strategy)
    case LessEqual => LeqTransitive(k.lower, v, query);
    case GreaterEqual =>
      LeqTotal(query, k.upper);
      if Leq(v, k.upper) {
        LeqTransitive(query, v, k.upper);
      } else if !Leq(query, k.upper) {
        LeqTransitive(k.lower, k.upper, query);
        BetweenExtends(if k.upper <= v then k.upper else k.lower, query, v);
      }
    case _ =>
  }

  /** For `<>` a key is entered unless both its bounds are the value itself. */
  lemma InnerNotEqual(k: VarKey, query: Bytes)
    ensures InnerConsistent(k, query, NotEqual) <==> k.lower != query || k.upper != query
  {
  }

  // ---------------------------------------------------------------- what a key covers

  /** A key whose upper bound may stand for all its extensions. */
  predicate Open(k: VarKey) {
    |k.upper| >= CpLen(k) + 2
  }

  /** The values that may lie beneath a key: a truncated upper bound covers its extensions. */
  predicate Covers(k: VarKey, v: Bytes) {
    Leq(k.lower, v) && (Leq(v, k.upper) || (k.upper <= v && Open(k)))
  }

  lemma PrefixOfLowerIsShut(k: VarKey)
    requires k.upper <= k.lower
    ensures !Open(k)
  {
    CommonPrefixUnique(k.lower, k.upper, |k.upper|);
  }

  lemma LowerBelowUpper(k: VarKey, v: Bytes)
    requires Covers(k, v)
    ensures Leq(k.lower, k.upper)
  {
    LeqTotal(k.lower, k.upper);
    if Leq(v, k.upper) {
      LeqTransitive(k.lower, v, k.upper);
    } else if Leq(k.upper, k.lower) {
      BetweenExtends(k.upper, k.lower, v);
      PrefixOfLowerIsShut(k);
    }
  }

  /** An upper bound that is cut beyond the first difference covers everything up to it. */
  lemma CutCoversBelow(k: VarKey, n: nat, v: Bytes)
    requires n >= CpLen(k) + 2 && Leq(k.lower, v) && Leq(v, k.upper)
    ensures Covers(VarKey(Cut(k.lower, n), Cut(k.upper, n)), v)
  {
    var u := Cut(k.upper, n);
    PrefixLeq(Cut(k.lower, n), k.lower);
    LeqTransitive(Cut(k.lower, n), k.lower, v);
    LeqTotal(v, u);
    if !Leq(v, u) {
      BetweenExtends(u, v, k.upper);
      CommonPrefixOfCut(k.lower, k.upper, n);
    }
  }

  /** A value above the merged upper bound that a part covers: the part's own upper bound is a
      prefix of both, and the parts differ before its last two bytes. */
  lemma AboveMerged(k: VarKey, part: VarKey, v: Bytes)
    requires Leq(k.lower, part.lower) && Leq(part.upper, k.upper)
    requires Covers(part, v) && !Leq(v, k.upper)
    ensures Open(part) && part.upper <= v && part.upper <= k.upper && Leq(k.lower, v)
    ensures CpLen(k) + 2 <= |part.upper|
  {
    LowerBelowUpper(part, v);
    LeqTransitive(k.lower, part.lower, v);
    if Leq(v, part.upper) {
      LeqTransitive(v, part.upper, k.upper);
    }
    LeqTotal(v, k.upper);
    BetweenExtends(part.upper, k.upper, v);
    LeqTransitive(part.lower, part.upper, k.upper);
    CommonPrefixShrinks(k.lower, part.lower, k.upper);
    var n := CpLen(part);
    assert part.upper[..n] == k.upper[..n];
    CommonPrefixUnique(part.lower, k.upper, n);
  }

  /** Truncating the union of some keys hides nothing that one of them covers. */
  lemma TruncationCovers(k: VarKey, part: VarKey, v: Bytes)
    requires Leq(k.lower, part.lower) && Leq(part.upper, k.upper) && Covers(part, v)
    ensures Covers(Truncate(k, CpLen(k) + 1), v)
  {
    var n := CpLen(k) + 2;
    LeqTransitive(k.lower, part.lower, v);
    if Leq(v, k.upper) {
      CutCoversBelow(k, n, v);
    } else {
      AboveMerged(k, part, v);
      assert Cut(k.upper, n) == part.upper[..n];
      CommonPrefixOfCut(k.lower, k.upper, n);
      PrefixLeq(Cut(k.lower, n), k.lower);
      LeqTransitive(Cut(k.lower, n), k.lower, v);
    }
  }

  lemma CmpMeaning(a: Bytes, b: Bytes)
    ensures Cmp(a, b) <= 0 <==> Leq(a, b)
    ensures Cmp(a, b) >= 0 <==> Leq(b, a)
    ensures Cmp(a, b) < 0 <==> !Leq(b, a)
  {
    LeqTotal(a, b);
    LeqReflexive(a);
    if Leq(a, b) && Leq(b, a) {
      LeqAntisymmetric(a, b);
    }
  }

  lemma {:induction false} MergeEncloses(ks: seq<VarKey>, i: nat)
    requires i < |ks|
    ensures Leq(Merge(ks).lower, ks[i].lower) && Leq(ks[i].upper, Merge(ks).upper)
  {
    var last := ks[|ks| - 1];
    LeqReflexive(last.lower);
    LeqReflexive(last.upper);
    if |ks| > 1 {
      var r := Merge(ks[..|ks| - 1]);
      CmpMeaning(r.lower, last.lower);
      CmpMeaning(r.upper, last.upper);
      LeqReflexive(r.lower);
      LeqReflexive(r.upper);
      if i < |ks| - 1 {
        MergeEncloses(ks[..|ks| - 1], i);
        LeqTransitive(Merge(ks).lower, r.lower, ks[i].lower);
        LeqTransitive(ks[i].upper, r.upper, Merge(ks).upper);
      }
    }
  }

  lemma UnionCovers(ks: seq<VarKey>, i: nat, v: Bytes)
    requires i < |ks| && Covers(ks[i], v)
    ensures Covers(Union(ks), v)
  {
    MergeEncloses(ks, i);
    TruncationCovers(Merge(ks), ks[i], v);
  }

  /** The merged bounds are bounds of some of the keys: no smaller interval would do. */
  lemma {:induction false} MergeIsTight(ks: seq<VarKey>)
    requires ks != []
    ensures exists i :: 0 <= i < |ks| && ks[i].lower == Merge(ks).lower
    ensures exists j :: 0 <= j < |ks| && ks[j].upper == Merge(ks).upper
  {
    hide Cmp;
    var last := ks[|ks| - 1];
    if |ks| > 1 {
      var rest := ks[..|ks| - 1];
      MergeIsTight(rest);
      var i :| 0 <= i < |rest| && rest[i].lower == Merge(rest).lower;
      var j :| 0 <= j < |rest| && rest[j].upper == Merge(rest).upper;
      assert ks[i] == rest[i] && ks[j] == rest[j];
    }
  }

  /** A union is short: both bounds are cut to at most two bytes beyond their common prefix,
      which stays as long as it was, and a bound that is not longer is left alone. */
  lemma UnionIsShort(ks: seq<VarKey>)
    requires ks != []
    ensures var m, u := Merge(ks), Union(ks);
            && CpLen(u) == CpLen(m)
            && |u.lower| <= CpLen(u) + 2 && |u.upper| <= CpLen(u) + 2
            && u.lower <= m.lower && u.upper <= m.upper
            && (|m.lower| <= CpLen(m) + 2 ==> u.lower == m.lower)
            && (|m.upper| <= CpLen(m) + 2 ==> u.upper == m.upper)
  {
    hide CommonPrefix, Merge;
    CommonPrefixOfCut(Merge(ks).lower, Merge(ks).upper, CpLen(Merge(ks)) + 2);
  }

  // ---------------------------------------------------------------- searching

  /** A key that covers a value matching the query is judged consistent. */
  lemma CoveredIsConsistent(k: VarKey, v: Bytes, query: Bytes, strategy: Strategy)
    requires Covers(k, v) && LeafConsistent(v, query, strategy)
    ensures InnerConsistent(k, query, strategy)
  {
    CmpMeaning(k.lower, query);
    CmpMeaning(query, k.lower);
    CmpMeaning(query, k.upper);
    LeqReflexive(query);
    match strategy
    case LessEqual => LeqTransitive(k.lower, v, query);
    case Less => LeqTransitive(k.lower, v, query);
    case Equal =>
    case Greater => NotBelowUpper(k, v, query);
    case GreaterEqual => NotBelowUpper(k, v, query);
    case NotEqual =>
      if query == k.lower && query == k.upper {
        CommonPrefixUnique(query, query, |query|);
        LeqAntisymmetric(query, v);
      }
  }

  lemma NotBelowUpper(k: VarKey, v: Bytes, query: Bytes)
    requires Covers(k, v) && Leq(query, v)
    ensures Leq(query, k.upper) || k.upper <= query
  {
    LeqTotal(query, k.upper);
    if Leq(v, k.upper) {
      LeqTransitive(query, v, k.upper);
    } else if Leq(k.upper, query) {
      BetweenExtends(k.upper, query, v);
    }
  }

  // ---------------------------------------------------------------- the loops

  /** gbt_var_node_cp_len: bytes are compared until they differ or one bound ends. */
  method NodeCpLen(k: VarKey) returns (i: nat)
    ensures i == CpLen(k)
  {
    i := 0;
    var ml := if |k.lower| <= |k.upper| then |k.lower| else |k.upper|;
    if ml == 0 {
      return 0;
    }
    while i < ml && k.lower[i] == k.upper[i]
      invariant i <= ml && k.lower[..i] == k.upper[..i]
    {
      i := i + 1;
    }
    CommonPrefixUnique(k.lower, k.upper, i);
  }

  /** gbt_var_union */
  method UnionMethod(entries: seq<VarKey>) returns (out: VarKey)
    requires entries != []
    ensures out == Union(entries)
  {
    out := entries[0];
    var i := 1;
    assert entries[..1] == [entries[0]];
    while i < |entries|
      invariant 1 <= i <= |entries|
      invariant out == Merge(entries[..i])
    {
      assert entries[..i + 1][..i] == entries[..i];
      out := BinUnion(Some(out), entries[i]);
      i := i + 1;
    }
    assert entries[..i] == entries;
    var plen := NodeCpLen(out);
    out := Truncate(out, plen + 1);
  }
}
