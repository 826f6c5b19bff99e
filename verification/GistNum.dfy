/** GiST keys for fixed-size values of any totally ordered type: intervals with exact bounds. */
module GistNum {
  import opened Outcomes
  import opened GistOperators
  import opened Sequences
  import G = GistSearch

  datatype NumKey<T> = NumKey(lower: T, upper: T)

  /** The type's comparison functions, all given by one total order. */
  ghost predicate TotalOrder<T(!new)>(le: (T, T) -> bool) {
    && (forall a, b :: le(a, b) || le(b, a))
    && (forall a, b :: le(a, b) && le(b, a) ==> a == b)
    && (forall a, b, c :: le(a, b) && le(b, c) ==> le(a, c))
  }

  predicate Gt<T>(le: (T, T) -> bool, a: T, b: T) {
    !le(a, b)
  }

  /** gbt_num_bin_union: the first key is adopted, later ones widen it. */
  function BinUnion<T>(le: (T, T) -> bool, u: Option<NumKey<T>>, e: NumKey<T>): NumKey<T> {
    match u
    case None => e
    case Some(k) =>
      NumKey(if Gt(le, k.lower, e.lower) then e.lower else k.lower,
             if Gt(le, e.upper, k.upper) then e.upper else k.upper)
  }

  /** gbt_num_consistent on a leaf entry, whose bounds are both the stored value. */
  predicate LeafConsistent<T(==)>(le: (T, T) -> bool, v: T, query: T, strategy: Strategy) {
    match strategy
    case LessEqual => le(v, query)
    case Less => Gt(le, query, v)
    case Equal => query == v
    case Greater => Gt(le, v, query)
    case GreaterEqual => le(query, v)
    case NotEqual => !(query == v && query == v)
    case Other => false
  }

  /** gbt_num_consistent on an internal entry. */
  predicate InnerConsistent<T(==)>(le: (T, T) -> bool, k: NumKey<T>, query: T, strategy: Strategy) {
    match strategy
    case LessEqual => le(k.lower, query)
    case Less => le(k.lower, query)
    case Equal => le(k.lower, query) && le(query, k.upper)
    case Greater => le(query, k.upper)
    case GreaterEqual => le(query, k.upper)
    case NotEqual => !(query == k.lower && query == k.upper)
    case Other => false
  }

  /** On stored values the six operators are those of the order: each is the negation of another
      one, and `<=` is `<` or `=`. */
  lemma OperatorsMean<T(!new)>(le: (T, T) -> bool, v: T, query: T)
    requires TotalOrder(le)
    ensures LeafConsistent(le, v, query, LessEqual) <==> le(v, query)
    ensures LeafConsistent(le, v, query, LessEqual) <==>
            LeafConsistent(le, v, query, Less) || LeafConsistent(le, v, query, Equal)
    ensures LeafConsistent(le, v, query, Less) <==> !LeafConsistent(le, v, query, GreaterEqual)
    ensures LeafConsistent(le, v, query, Greater) <==> !LeafConsistent(le, v, query, LessEqual)
    ensures LeafConsistent(le, v, query, Equal) <==> v == query
    ensures LeafConsistent(le, v, query, NotEqual) <==> v != query
    ensures !LeafConsistent(le, v, query, Other)
  {
  }

  predicate Within<T>(le: (T, T) -> bool, k: NumKey<T>, v: T) {
    le(k.lower, v) && le(v, k.upper)
  }

  /** The search enters a key exactly if some value between its bounds would match, where `<` and
      `>` count as `<=` and `>=`. */
  lemma InnerExactly<T(!new)>(le: (T, T) -> bool, k: NumKey<T>, query: T, strategy: Strategy)
    requires TotalOrder(le) && le(k.lower, k.upper)
    ensures InnerConsistent(le, k, query, strategy)
       <==> exists v :: Within(le, k, v) && LeafConsistent(le, v, query, OrEqual(strategy))
  {
    assert Within(le, k, k.lower) && Within(le, k, k.upper);
    if Within(le, k, query) {
      assert LeafConsistent(le, query, query, Equal);
    }
  }

  // ---------------------------------------------------------------- exact bounds

  /** The key's bounds are the least and the greatest bound of the given keys. */
  ghost predicate Exact<T(!new)>(le: (T, T) -> bool, k: NumKey<T>, ks: seq<NumKey<T>>) {
    && (exists i :: 0 <= i < |ks| && ks[i].lower == k.lower)
    && (exists i :: 0 <= i < |ks| && ks[i].upper == k.upper)
    && (forall i :: 0 <= i < |ks| ==> le(k.lower, ks[i].lower) && le(ks[i].upper, k.upper))
  }

  ghost predicate ExactOrNone<T(!new)>(le: (T, T) -> bool, u: Option<NumKey<T>>, ks: seq<NumKey<T>>) {
    if ks == [] then u == None else u.Some? && Exact(le, u.value, ks)
  }

  lemma ExactSnoc<T(!new)>(le: (T, T) -> bool, u: Option<NumKey<T>>, ks: seq<NumKey<T>>, e: NumKey<T>)
    requires TotalOrder(le) && ExactOrNone(le, u, ks)
    ensures ExactOrNone(le, Some(BinUnion(le, u, e)), ks + [e])
  {
    var k, all := BinUnion(le, u, e), ks + [e];
    assert all[|ks|] == e;
    if ks != [] {
      var i :| 0 <= i < |ks| && ks[i].lower == u.value.lower;
      var j :| 0 <= j < |ks| && ks[j].upper == u.value.upper;
      assert all[i] == ks[i] && all[j] == ks[j];
    }
  }

  /** The union of some keys, one after the other. */
  function Merge<T>(le: (T, T) -> bool, ks: seq<NumKey<T>>): Option<NumKey<T>> {
    if ks == [] then None else Some(BinUnion(le, Merge(le, ks[..|ks| - 1]), ks[|ks| - 1]))
  }

  lemma MergeNothing<T>(le: (T, T) -> bool)
    ensures Merge(le, []) == None
  {
  }

  lemma MergeMore<T>(le: (T, T) -> bool, ks: seq<NumKey<T>>, e: NumKey<T>)
    ensures Merge(le, ks + [e]) == Some(BinUnion(le, Merge(le, ks), e))
  {
    assert (ks + [e])[..|ks|] == ks;
  }

  lemma {:induction false} MergeIsExact<T(!new)>(le: (T, T) -> bool, ks: seq<NumKey<T>>)
    requires TotalOrder(le)
    ensures ExactOrNone(le, Merge(le, ks), ks)
  {
    hide TotalOrder, ExactOrNone, BinUnion;
    if ks == [] {
      ExactNothing(le);
    } else {
      var rest := ks[..|ks| - 1];
      MergeIsExact(le, rest);
      ExactSnoc(le, Merge(le, rest), rest, ks[|ks| - 1]);
      assert ks == rest + [ks[|ks| - 1]];
    }
  }

  /** gbt_num_union: the bounds are copied from the first key and then widened in place. */
  method Union<T(!new)>(le: (T, T) -> bool, keys: seq<NumKey<T>>) returns (out: NumKey<T>)
    requires TotalOrder(le) && keys != []
    ensures Exact(le, out, keys) && Merge(le, keys) == Some(out)
  {
    hide TotalOrder;
    var lower, upper := keys[0].lower, keys[0].upper;
    var i := 1;
    MergeMore(le, [], keys[0]);
    assert keys[..1] == [] + [keys[0]];
    while i < |keys|
      invariant 1 <= i <= |keys|
      invariant Merge(le, keys[..i]) == Some(NumKey(lower, upper))
    {
      MergeMore(le, keys[..i], keys[i]);
      assert keys[..i + 1] == keys[..i] + [keys[i]];
      var cur := keys[i];
      if Gt(le, lower, cur.lower) {
        lower := cur.lower;
      }
      if Gt(le, cur.upper, upper) {
        upper := cur.upper;
      }
      i := i + 1;
    }
    assert keys[..i] == keys;
    MergeIsExact(le, keys);
    out := NumKey(lower, upper);
  }

  // ---------------------------------------------------------------- trees

  /** How a key came about: from one value, by a union of such keys, or as the key of the half
      of a split that gets the keys with the given numbers. */
  datatype Derivation<T> =
    | Value(v: T) | Join(parts: seq<Derivation<T>>) | Half(parts: seq<Derivation<T>>, which: seq<nat>)

  predicate Proper<T>(d: Derivation<T>) {
    match d
    case Value(_) => true
    case Join(parts) => parts != [] && forall i :: 0 <= i < |parts| ==> Proper(parts[i])
    case Half(parts, which) =>
      which != [] && InRange(|parts|, which) && forall i :: 0 <= i < |parts| ==> Proper(parts[i])
  }

  function KeyOf<T>(le: (T, T) -> bool, d: Derivation<T>): NumKey<T>
    requires Proper(d)
  {
    match d
    case Value(v) => NumKey(v, v)
    case Join(parts) => Merge(le, seq(|parts|, i requires 0 <= i < |parts| => KeyOf(le, parts[i]))).value
    case Half(parts, which) =>
      Merge(le, Pick(seq(|parts|, i requires 0 <= i < |parts| => KeyOf(le, parts[i])), which)).value
  }

  ghost predicate Contains<T>(d: Derivation<T>, v: T) {
    match d
    case Value(w) => w == v
    case Join(parts) => exists i :: 0 <= i < |parts| && Contains(parts[i], v)
    case Half(parts, which) => exists i :: i in which && i < |parts| && Contains(parts[i], v)
  }

  /** The key's bounds are the least and the greatest value that it was made from. */
  ghost predicate Spans<T(!new)>(le: (T, T) -> bool, k: NumKey<T>, d: Derivation<T>) {
    && Contains(d, k.lower) && Contains(d, k.upper)
    && forall v :: Contains(d, v) ==> le(k.lower, v) && le(v, k.upper)
  }

  /** Some keys that span the derivations with the given numbers, and an exact key for them. */
  lemma ExactSpans<T(!new)>(le: (T, T) -> bool, d: Derivation<T>, which: seq<nat>, k: NumKey<T>, ks: seq<NumKey<T>>)
    requires TotalOrder(le) && (d.Join? || d.Half?) && InRange(|d.parts|, which)
    requires |ks| == |which| && Exact(le, k, ks)
    requires forall i :: 0 <= i < |which| ==> Spans(le, ks[i], d.parts[which[i]])
    requires forall v :: Contains(d, v) <==> exists i :: 0 <= i < |which| && Contains(d.parts[which[i]], v)
    ensures Spans(le, k, d)
  {
    hide Contains;
    var i :| 0 <= i < |ks| && ks[i].lower == k.lower;
    assert Spans(le, ks[i], d.parts[which[i]]);
    var j :| 0 <= j < |ks| && ks[j].upper == k.upper;
    assert Spans(le, ks[j], d.parts[which[j]]);
    forall v | Contains(d, v) ensures le(k.lower, v) && le(v, k.upper) {
      var n :| 0 <= n < |which| && Contains(d.parts[which[n]], v);
      assert Spans(le, ks[n], d.parts[which[n]]);
    }
  }

  /** Whatever way a tree was built by unions and splits, each key holds the least and the
      greatest value beneath it. */
  lemma {:induction false} DerivedKeySpans<T(!new)>(le: (T, T) -> bool, d: Derivation<T>)
    requires TotalOrder(le) && Proper(d)
    ensures Spans(le, KeyOf(le, d), d)
  {
    hide TotalOrder, Exact;
    if d.Value? {
      ValueSpans(le, d.v);
    } else {
      var keys := seq(|d.parts|, i requires 0 <= i < |d.parts| => KeyOf(le, d.parts[i]));
      var all := seq(|d.parts|, i requires 0 <= i < |d.parts| => i);
      var which := if d.Join? then all else d.which;
      assert Pick(keys, all) == keys;
      forall i | 0 <= i < |d.parts| ensures Spans(le, keys[i], d.parts[i]) {
        DerivedKeySpans(le, d.parts[i]);
      }
      MergeIsExact(le, Pick(keys, which));
      forall v ensures Contains(d, v) <==> exists i :: 0 <= i < |which| && Contains(d.parts[which[i]], v) {
        ContainsAmong(d, which, v);
      }
      hide Spans, Contains;
      ExactSpans(le, d, which, KeyOf(le, d), Pick(keys, which));
    }
  }

  lemma ContainsAmong<T>(d: Derivation<T>, which: seq<nat>, v: T)
    requires (d.Join? || d.Half?) && InRange(|d.parts|, which)
    requires d.Join? ==> which == seq(|d.parts|, i requires 0 <= i < |d.parts| => i)
    requires d.Half? ==> which == d.which
    ensures Contains(d, v) <==> exists i :: 0 <= i < |which| && Contains(d.parts[which[i]], v)
  {
    if d.Join? && Contains(d, v) {
      var i :| 0 <= i < |d.parts| && Contains(d.parts[i], v);
      assert which[i] == i;
    }
  }

  lemma ValueSpans<T(!new)>(le: (T, T) -> bool, v: T)
    requires TotalOrder(le)
    ensures Spans(le, NumKey(v, v), Value(v))
  {
  }

  /** The key was derived from at least this value. */
  ghost predicate DerivedFor<T(!new)>(le: (T, T) -> bool, k: NumKey<T>, v: T) {
    exists d: Derivation<T> :: Proper(d) && KeyOf(le, d) == k && Contains(d, v)
  }

  ghost function Derived<T(!new)>(le: (T, T) -> bool): (NumKey<T>, T) -> bool {
    (k, v) => DerivedFor(le, k, v)
  }

  /** In any tree whose internal keys were derived from the values beneath them, the pruned search
      equals a scan, for any total order and every strategy. */
  lemma SearchIsScan<T(!new)>(le: (T, T) -> bool, t: G.Index<NumKey<T>, T>, query: T, strategy: Strategy)
    requires TotalOrder(le) && G.Covered(t, Derived(le))
    ensures G.Search(t, k => InnerConsistent(le, k, query, strategy), v => LeafConsistent(le, v, query, strategy))
         == Filter(G.Values(t), v => LeafConsistent(le, v, query, strategy))
  {
    var enter := k => InnerConsistent(le, k, query, strategy);
    var hit := v => LeafConsistent(le, v, query, strategy);
    forall k, v | Derived(le)(k, v) && hit(v) ensures enter(k) {
      var d: Derivation<T> :| Proper(d) && KeyOf(le, d) == k && Contains(d, v);
      DerivedKeySpans(le, d);
      assert le(k.lower, v) && le(v, k.upper);
    }
    G.SearchIsScan(t, Derived(le), enter, hit);
  }

  // ---------------------------------------------------------------- nearest neighbours

  /** gbt_num_distance: the distance to the nearer bound, or 0 inside the interval. */
  function Distance<T>(le: (T, T) -> bool, dist: (T, T) -> real, k: NumKey<T>, query: T): real {
    if le(query, k.lower) then dist(query, k.lower)
    else if le(k.upper, query) then dist(query, k.upper)
    else 0.0
  }

  /** A distance that grows as one moves away from the query in either direction. */
  ghost predicate Metric<T(!new)>(le: (T, T) -> bool, dist: (T, T) -> real) {
    && (forall a, b :: dist(a, b) >= 0.0)
    && (forall q, a, b :: le(q, a) && le(a, b) ==> dist(q, a) <= dist(q, b))
    && (forall q, a, b :: le(b, a) && le(a, q) ==> dist(q, a) <= dist(q, b))
  }

  /** The distance to a key is the distance to some value between its bounds, and no value
      between them is nearer. */
  lemma DistanceIsLeast<T(!new)>(le: (T, T) -> bool, dist: (T, T) -> real, k: NumKey<T>, query: T)
    requires TotalOrder(le) && Metric(le, dist) && dist(query, query) == 0.0 && le(k.lower, k.upper)
    ensures exists v :: Within(le, k, v) && Distance(le, dist, k, query) == dist(query, v)
    ensures forall v :: Within(le, k, v) ==> Distance(le, dist, k, query) <= dist(query, v)
  {
    assert Within(le, k, k.lower) && Within(le, k, k.upper);
    assert le(k.lower, query) && le(query, k.upper) ==> Within(le, k, query);
  }

  /** The distance to a key never exceeds the distance to a key or a value it encloses. */
  lemma DistanceIsLowerBound<T(!new)>(le: (T, T) -> bool, dist: (T, T) -> real, k: NumKey<T>, inner: NumKey<T>,
        query: T)
    requires TotalOrder(le) && Metric(le, dist)
    requires le(k.lower, inner.lower) && le(inner.lower, inner.upper) && le(inner.upper, k.upper)
    ensures Distance(le, dist, k, query) <= Distance(le, dist, inner, query)
  {
    assert le(query, k.lower) ==> le(query, inner.lower);
    assert le(k.upper, query) ==> le(inner.upper, query);
  }

  /** In a tree whose keys were derived from the values beneath them, the distance to a key never
      exceeds that to a value beneath it. */
  lemma DerivedKeyIsNearer<T(!new)>(le: (T, T) -> bool, dist: (T, T) -> real, k: NumKey<T>, v: T, query: T)
    requires TotalOrder(le) && Metric(le, dist) && DerivedFor(le, k, v)
    ensures Distance(le, dist, k, query) <= Distance(le, dist, NumKey(v, v), query)
  {
    hide Metric, Distance;
    var d: Derivation<T> :| Proper(d) && KeyOf(le, d) == k && Contains(d, v);
    DerivedKeySpans(le, d);
    DistanceIsLowerBound(le, dist, k, NumKey(v, v), query);
  }

  // ---------------------------------------------------------------- split

  /** gbt_num_picksplit: the sorted entries are cut in two halves. `order` is what the
      library's sort leaves behind: the entries' numbers, each once, by increasing lower bound. */
  method Picksplit<T(!new)>(le: (T, T) -> bool, keys: seq<NumKey<T>>, order: seq<nat>)
    returns (left: seq<nat>, right: seq<nat>, ldatum: Option<NumKey<T>>, rdatum: Option<NumKey<T>>)
    requires TotalOrder(le) && |order| == |keys| && InRange(|keys|, order)
    requires forall i, j :: 0 <= i < j < |order| ==> le(keys[order[i]].lower, keys[order[j]].lower)
    ensures left + right == order && |left| == |keys| / 2
    ensures InRange(|keys|, left) && InRange(|keys|, right)
    ensures forall i, j :: 0 <= i < |left| && 0 <= j < |right| ==> le(keys[left[i]].lower, keys[right[j]].lower)
    ensures ldatum == Merge(le, Pick(keys, left)) && rdatum == Merge(le, Pick(keys, right))
    ensures ExactOrNone(le, ldatum, Pick(keys, left)) && ExactOrNone(le, rdatum, Pick(keys, right))
  {
    hide TotalOrder, ExactOrNone, BinUnion, Merge;
    left, right, ldatum, rdatum := [], [], None, None;
    MergeNothing(le);
    var i := 0;
    while i < |keys|
      invariant 0 <= i <= |keys|
      invariant if i <= |keys| / 2 then left == order[..i] && right == []
                else left == order[..|keys| / 2] && right == order[|keys| / 2..i]
      invariant InRange(|keys|, left) && InRange(|keys|, right)
      invariant ldatum == Merge(le, Pick(keys, left)) && rdatum == Merge(le, Pick(keys, right))
    {
      var e := keys[order[i]];
      if i < |keys| / 2 {
        MergeMore(le, Pick(keys, left), e);
        assert Pick(keys, left + [order[i]]) == Pick(keys, left) + [e];
        ldatum := Some(BinUnion(le, ldatum, e));
        left := left + [order[i]];
      } else {
        MergeMore(le, Pick(keys, right), e);
        assert Pick(keys, right + [order[i]]) == Pick(keys, right) + [e];
        rdatum := Some(BinUnion(le, rdatum, e));
        right := right + [order[i]];
      }
      i := i + 1;
    }
    MergeIsExact(le, Pick(keys, left));
    MergeIsExact(le, Pick(keys, right));
  }

  lemma ExactNothing<T(!new)>(le: (T, T) -> bool)
    ensures ExactOrNone<T>(le, None, [])
  {
  }
}
