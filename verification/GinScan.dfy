/** GIN support for ordered types: one entry to start from, and a comparison that tells when to
    stop. */
module GinScan {
  import opened Outcomes
  import opened Sequences

  /** A comparison function of a type: the sign of the result tells how a compares to b. Values
      that compare as equal need not be identical. */
  ghost predicate Ordering<K(!new)>(cmp: (K, K) -> int) {
    && (forall a, b :: cmp(a, b) < 0 <==> cmp(b, a) > 0)
    && (forall a, b, c :: cmp(a, b) <= 0 && cmp(b, c) <= 0 ==> cmp(a, c) <= 0)
  }

  ghost predicate Sorted<K(!new)>(cmp: (K, K) -> int, keys: seq<K>) {
    forall i, j :: 0 <= i < j < |keys| ==> cmp(keys[i], keys[j]) <= 0
  }

  /** What the operator means: key strategy datum. Other numbers are not operators. */
  datatype Strategy = Less | LessEqual | Equal | GreaterEqual | Greater | Unrecognized(n: nat)

  predicate Wanted<K>(cmp: (K, K) -> int, strategy: Strategy, datum: K, key: K) {
    match strategy
    case Less => cmp(key, datum) < 0
    case LessEqual => cmp(key, datum) <= 0
    case Equal => cmp(key, datum) == 0
    case GreaterEqual => cmp(key, datum) >= 0
    case Greater => cmp(key, datum) > 0
    case Unrecognized(_) => false
  }

  /** The operators are those of the ordering: each is the negation of another one, `<=` is `<` or
      `=`, and `=` is `<=` and `>=`. */
  lemma OperatorsMean<K(!new)>(cmp: (K, K) -> int, datum: K, key: K)
    requires Ordering(cmp)
    ensures Wanted(cmp, LessEqual, datum, key) <==> cmp(key, datum) <= 0
    ensures Wanted(cmp, LessEqual, datum, key) <==> Wanted(cmp, Less, datum, key) || Wanted(cmp, Equal, datum, key)
    ensures Wanted(cmp, Less, datum, key) <==> !Wanted(cmp, GreaterEqual, datum, key)
    ensures Wanted(cmp, Greater, datum, key) <==> !Wanted(cmp, LessEqual, datum, key)
    ensures Wanted(cmp, Equal, datum, key)
       <==> Wanted(cmp, LessEqual, datum, key) && Wanted(cmp, GreaterEqual, datum, key)
    ensures Wanted(cmp, Less, datum, key) <==> Wanted(cmp, Greater, key, datum)
  {
    assert cmp(key, datum) < 0 <==> cmp(datum, key) > 0;
    assert cmp(datum, key) < 0 <==> cmp(key, datum) > 0;
  }

  /** QueryInfo, the parts that matter. */
  datatype QueryInfo<K> = QueryInfo(strategy: Strategy, datum: K)

  datatype Extracted<K> = Extracted(entry: K, partialMatch: bool, info: QueryInfo<K>)

  datatype Error = UnrecognizedStrategy(n: nat)

  /** gin_btree_extract_query */
  function ExtractQuery<K>(datum: K, strategy: Strategy, leftmost: K): Result<Extracted<K>, Error> {
    var info := QueryInfo(strategy, datum);
    match strategy
    case Less => Success(Extracted(leftmost, true, info))
    case LessEqual => Success(Extracted(leftmost, true, info))
    case GreaterEqual => Success(Extracted(datum, true, info))
    case Greater => Success(Extracted(datum, true, info))
    case Equal => Success(Extracted(datum, false, info))
    case Unrecognized(n) => Failure(UnrecognizedStrategy(n))
  }

  /** gin_btree_compare_prefix, where `a` is the entry extracted and `b` a key of the index. */
  function ComparePrefix<K>(cmp: (K, K) -> int, a: K, b: K, data: QueryInfo<K>): Result<int, Error> {
    var c := cmp(if data.strategy.Less? || data.strategy.LessEqual? then data.datum else a, b);
    match data.strategy
    case Less => Success(if c > 0 then 0 else 1)
    case LessEqual => Success(if c >= 0 then 0 else 1)
    case Equal => Success(if c != 0 then 1 else 0)
    case GreaterEqual => Success(if c <= 0 then 0 else 1)
    case Greater => Success(if c < 0 then 0 else if c == 0 then -1 else 1)
    case Unrecognized(n) => Failure(UnrecognizedStrategy(n))
  }

  // ---------------------------------------------------------------- the scan that uses them

  /** The first position whose key is not below the entry. */
  function StartOf<K>(cmp: (K, K) -> int, keys: seq<K>, entry: K): nat {
    if keys == [] || cmp(entry, keys[0]) <= 0 then 0 else 1 + StartOf(cmp, keys[1..], entry)
  }

  /** A scan for partial matches: 0 collects a key, a negative result passes over it, and a
      positive one ends the scan. */
  function Collect<K>(cmp: (K, K) -> int, keys: seq<K>, x: Extracted<K>): seq<K> {
    if keys == [] then []
    else
      match ComparePrefix(cmp, x.entry, keys[0], x.info)
      case Success(r) =>
        if r > 0 then [] else (if r == 0 then [keys[0]] else []) + Collect(cmp, keys[1..], x)
      case Failure(_) => []
  }

  /** Without partial match, only keys equal to the entry are collected. */
  function CollectEqual<K>(cmp: (K, K) -> int, keys: seq<K>, entry: K): seq<K> {
    if keys == [] || cmp(entry, keys[0]) != 0 then [] else [keys[0]] + CollectEqual(cmp, keys[1..], entry)
  }

  lemma {:induction false} StartInRange<K>(cmp: (K, K) -> int, keys: seq<K>, entry: K)
    ensures StartOf(cmp, keys, entry) <= |keys|
  {
    if keys != [] && cmp(entry, keys[0]) > 0 {
      StartInRange(cmp, keys[1..], entry);
    }
  }

  function Scan<K>(cmp: (K, K) -> int, keys: seq<K>, x: Extracted<K>): seq<K> {
    StartInRange(cmp, keys, x.entry);
    var rest := keys[StartOf(cmp, keys, x.entry)..];
    if x.partialMatch then Collect(cmp, rest, x) else CollectEqual(cmp, rest, x.entry)
  }

  // ---------------------------------------------------------------- the scan finds exactly what is wanted

  lemma SortedTail<K(!new)>(cmp: (K, K) -> int, keys: seq<K>)
    requires keys != [] && Sorted(cmp, keys)
    ensures Sorted(cmp, keys[1..])
  {
  }

  /** The first key is not above any key. */
  lemma FirstIsLeast<K(!new)>(cmp: (K, K) -> int, keys: seq<K>, i: nat)
    requires Ordering(cmp) && Sorted(cmp, keys) && i < |keys|
    ensures cmp(keys[0], keys[i]) <= 0
  {
    if i == 0 {
      assert !(cmp(keys[0], keys[0]) > 0);
    }
  }

  /** A key is collected in the end exactly if it is wanted and not below the entry. */
  predicate Reached<K>(cmp: (K, K) -> int, x: Extracted<K>, key: K) {
    Wanted(cmp, x.info.strategy, x.info.datum, key) && cmp(x.entry, key) <= 0
  }

  /** What stops the scan stops it for every later key too. */
  lemma StopsForGood<K(!new)>(cmp: (K, K) -> int, x: Extracted<K>, a: K, b: K)
    requires Ordering(cmp) && cmp(a, b) <= 0
    requires cmp(x.entry, a) <= 0
    requires x.info.strategy.Less? || x.info.strategy.LessEqual? || x.entry == x.info.datum
    requires ComparePrefix(cmp, x.entry, a, x.info).Success? && ComparePrefix(cmp, x.entry, a, x.info).value > 0
    ensures !Reached(cmp, x, b)
  {
    var d := x.info.datum;
    assert cmp(d, a) <= 0 && cmp(a, b) <= 0 ==> cmp(d, b) <= 0;
    assert cmp(d, b) <= 0 && cmp(b, a) <= 0 ==> cmp(d, a) <= 0;
    assert cmp(a, b) <= 0 && cmp(b, d) <= 0 ==> cmp(a, d) <= 0;
    assert cmp(a, d) < 0 <==> cmp(d, a) > 0;
    assert cmp(b, d) < 0 <==> cmp(d, b) > 0;
    assert cmp(d, a) < 0 <==> cmp(a, d) > 0;
    assert cmp(d, b) < 0 <==> cmp(b, d) > 0;
  }

  /** One key at or after the entry is judged rightly. */
  lemma JudgedRightly<K(!new)>(cmp: (K, K) -> int, x: Extracted<K>, key: K)
    requires Ordering(cmp) && cmp(x.entry, key) <= 0 && !x.info.strategy.Unrecognized?
    requires x.info.strategy.Less? || x.info.strategy.LessEqual? || x.entry == x.info.datum
    ensures var r := ComparePrefix(cmp, x.entry, key, x.info);
            r.Success? && (r.value == 0 <==> Reached(cmp, x, key))
  {
    var d := x.info.datum;
    assert cmp(key, d) < 0 <==> cmp(d, key) > 0;
    assert cmp(d, key) < 0 <==> cmp(key, d) > 0;
  }

  lemma {:induction false} CollectsReached<K(!new)>(cmp: (K, K) -> int, keys: seq<K>, x: Extracted<K>)
    requires Ordering(cmp) && Sorted(cmp, keys) && !x.info.strategy.Unrecognized?
    requires x.info.strategy.Less? || x.info.strategy.LessEqual? || x.entry == x.info.datum
    requires keys != [] ==> cmp(x.entry, keys[0]) <= 0
    ensures Collect(cmp, keys, x) == Filter(keys, k => Reached(cmp, x, k))
    decreases |keys|
  {
    hide ComparePrefix, Reached, Ordering, Sorted;
    if keys != [] {
      JudgedRightly(cmp, x, keys[0]);
      if ComparePrefix(cmp, x.entry, keys[0], x.info).value > 0 {
        forall k | k in keys ensures !Reached(cmp, x, k) {
          var i :| 0 <= i < |keys| && keys[i] == k;
          FirstIsLeast(cmp, keys, i);
          StopsForGood(cmp, x, keys[0], keys[i]);
        }
        FilterNone(keys, k => Reached(cmp, x, k));
      } else {
        SortedTail(cmp, keys);
        if |keys| > 1 {
          FirstIsLeast(cmp, keys, 1);
          Chain(cmp, x.entry, keys[0], keys[1]);
        }
        CollectsReached(cmp, keys[1..], x);
      }
    }
  }

  lemma Chain<K(!new)>(cmp: (K, K) -> int, a: K, b: K, c: K)
    requires Ordering(cmp) && cmp(a, b) <= 0 && cmp(b, c) <= 0
    ensures cmp(a, c) <= 0
  {
  }

  lemma {:induction false} CollectsEqual<K(!new)>(cmp: (K, K) -> int, keys: seq<K>, x: Extracted<K>)
    requires Ordering(cmp) && Sorted(cmp, keys) && x.info.strategy.Equal? && x.entry == x.info.datum
    requires keys != [] ==> cmp(x.entry, keys[0]) <= 0
    ensures CollectEqual(cmp, keys, x.entry) == Filter(keys, k => Reached(cmp, x, k))
    decreases |keys|
  {
    hide Reached, Ordering, Sorted;
    if keys != [] {
      EqualIsReached(cmp, x, keys[0]);
      if cmp(x.entry, keys[0]) != 0 {
        forall k | k in keys ensures !Reached(cmp, x, k) {
          var i :| 0 <= i < |keys| && keys[i] == k;
          FirstIsLeast(cmp, keys, i);
          LaterIsNotEqual(cmp, x, keys[0], keys[i]);
        }
        FilterNone(keys, k => Reached(cmp, x, k));
      } else {
        SortedTail(cmp, keys);
        if |keys| > 1 {
          FirstIsLeast(cmp, keys, 1);
          Chain(cmp, x.entry, keys[0], keys[1]);
        }
        CollectsEqual(cmp, keys[1..], x);
      }
    }
  }

  lemma EqualIsReached<K(!new)>(cmp: (K, K) -> int, x: Extracted<K>, key: K)
    requires Ordering(cmp) && x.info.strategy.Equal? && x.entry == x.info.datum && cmp(x.entry, key) <= 0
    ensures Reached(cmp, x, key) <==> cmp(x.entry, key) == 0
  {
    assert cmp(x.entry, key) < 0 <==> cmp(key, x.entry) > 0;
    assert cmp(key, x.entry) < 0 <==> cmp(x.entry, key) > 0;
  }

  lemma LaterIsNotEqual<K(!new)>(cmp: (K, K) -> int, x: Extracted<K>, a: K, b: K)
    requires Ordering(cmp) && x.info.strategy.Equal? && x.entry == x.info.datum
    requires cmp(x.entry, a) < 0 && cmp(a, b) <= 0
    ensures !Reached(cmp, x, b)
  {
    var d := x.entry;
    assert cmp(a, b) <= 0 && cmp(b, d) <= 0 ==> cmp(a, d) <= 0;
    assert cmp(d, a) < 0 <==> cmp(a, d) > 0;
  }

  lemma {:induction false} BelowStart<K(!new)>(cmp: (K, K) -> int, keys: seq<K>, x: Extracted<K>)
    requires Ordering(cmp) && Sorted(cmp, keys)
    ensures var n := StartOf(cmp, keys, x.entry);
            && n <= |keys|
            && (n < |keys| ==> cmp(x.entry, keys[n]) <= 0)
            && Sorted(cmp, keys[n..])
            && Filter(keys, k => Reached(cmp, x, k)) == Filter(keys[n..], k => Reached(cmp, x, k))
    decreases |keys|
  {
    hide Ordering, Sorted, Wanted;
    if keys == [] || cmp(x.entry, keys[0]) <= 0 {
      assert keys[0..] == keys;
    } else {
      SortedTail(cmp, keys);
      BelowStart(cmp, keys[1..], x);
      var n := StartOf(cmp, keys[1..], x.entry);
      assert keys[1..][n..] == keys[n + 1..];
    }
  }

  /** For every recognised operator: the scan collects, in order, exactly the keys wanted that
      are not below the entry. */
  lemma ScanIsFilter<K(!new)>(cmp: (K, K) -> int, keys: seq<K>, datum: K, strategy: Strategy, leftmost: K)
    requires Ordering(cmp) && Sorted(cmp, keys) && !strategy.Unrecognized?
    ensures var x := ExtractQuery(datum, strategy, leftmost).value;
            Scan(cmp, keys, x) == Filter(keys, k => Reached(cmp, x, k))
  {
    hide Ordering, Sorted, Reached, Collect, CollectEqual;
    var x := ExtractQuery(datum, strategy, leftmost).value;
    BelowStart(cmp, keys, x);
    var rest := keys[StartOf(cmp, keys, x.entry)..];
    if x.partialMatch {
      CollectsReached(cmp, rest, x);
    } else {
      CollectsEqual(cmp, rest, x);
    }
  }

  predicate FromLeft(strategy: Strategy) {
    strategy.Less? || strategy.LessEqual?
  }

  /** The main result: on sorted keys, every recognised operator finds in one stretch exactly
      the keys that a test of all of them finds; the two operators that start from the leftmost
      value do so exactly if no key wanted lies to its left. */
  lemma ScanIsExact<K(!new)>(cmp: (K, K) -> int, keys: seq<K>, datum: K, strategy: Strategy, leftmost: K)
    requires Ordering(cmp) && Sorted(cmp, keys) && !strategy.Unrecognized?
    ensures var x := ExtractQuery(datum, strategy, leftmost).value;
            Scan(cmp, keys, x) == Filter(keys, k => Wanted(cmp, strategy, datum, k))
            <==> FromLeft(strategy) ==>
                   forall i :: 0 <= i < |keys| && Wanted(cmp, strategy, datum, keys[i]) ==> cmp(leftmost, keys[i]) <= 0
  {
    hide Ordering, Sorted, Wanted, Scan, Filter;
    var x := ExtractQuery(datum, strategy, leftmost).value;
    var reached, wanted := k => Reached(cmp, x, k), k => Wanted(cmp, strategy, datum, k);
    ScanIsFilter(cmp, keys, datum, strategy, leftmost);
    FilterSame(keys, reached, wanted);
    if !FromLeft(strategy) {
      forall i | 0 <= i < |keys| && Wanted(cmp, strategy, datum, keys[i]) ensures cmp(x.entry, keys[i]) <= 0 {
        WantedIsNotBelow(cmp, strategy, datum, keys[i]);
      }
    }
  }

  lemma WantedIsNotBelow<K(!new)>(cmp: (K, K) -> int, strategy: Strategy, datum: K, key: K)
    requires Ordering(cmp) && !FromLeft(strategy) && Wanted(cmp, strategy, datum, key)
    ensures cmp(datum, key) <= 0
  {
    assert cmp(key, datum) < 0 <==> cmp(datum, key) > 0;
    assert cmp(datum, key) < 0 <==> cmp(key, datum) > 0;
  }

  // ---------------------------------------------------------------- types without a least value

  /** gin_numeric_cmp and gin_enum_cmp: a mark stands for a leftmost value. */
  function MarkedCompare<K>(cmp: (K, K) -> int): (Option<K>, Option<K>) -> int {
    (a: Option<K>, b: Option<K>) =>
      if a.None? then (if b.None? then 0 else -1)
      else if b.None? then 1
      else cmp(a.value, b.value)
  }

  /** With the mark the type still has an ordering, and the mark is below every key. */
  lemma MarkIsLeftmost<K(!new)>(cmp: (K, K) -> int)
    requires Ordering(cmp)
    ensures Ordering(MarkedCompare(cmp))
    ensures forall k :: MarkedCompare(cmp)(None, k) <= 0
  {
    var marked := MarkedCompare(cmp);
    forall a, b ensures marked(a, b) < 0 <==> marked(b, a) > 0 {
    }
    forall a, b, c | marked(a, b) <= 0 && marked(b, c) <= 0 ensures marked(a, c) <= 0 {
      if a.Some? && b.Some? && c.Some? {
        Chain(cmp, a.value, b.value, c.value);
      }
    }
  }

  /** So for these types all operators find exactly what is wanted. */
  lemma MarkedScanIsExact<K(!new)>(cmp: (K, K) -> int, keys: seq<Option<K>>, datum: K, strategy: Strategy)
    requires Ordering(cmp) && Sorted(MarkedCompare(cmp), keys) && !strategy.Unrecognized?
    ensures var marked, x := MarkedCompare(cmp), ExtractQuery(Some(datum), strategy, None).value;
            Scan(marked, keys, x) == Filter(keys, k => Wanted(marked, strategy, Some(datum), k))
  {
    MarkIsLeftmost(cmp);
    hide Ordering, Sorted, Wanted, Scan, Filter, MarkedCompare;
    ScanIsExact(MarkedCompare(cmp), keys, Some(datum), strategy, None);
  }
}
