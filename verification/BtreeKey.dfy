/** Index keys of a B-tree and the comparisons the verifier makes between them.

    A key is the list of its attribute values, each given by its rank in the order of its
    operator class, followed by the heap TID when it is present. The heap TID is "just
    another key attribute", and attributes that are missing count as minus infinity, so the
    logical order of keys is the lexicographic one in which a proper prefix comes first. */
module BtreeKey {

  type Key = seq<int>

  /** What the verifier knows about the index: its number of key attributes, and whether it
      is a version 4 index, whose keys are made unique by the heap TID. */
  datatype Config = Config(nkeyatts: nat, heapkeyspace: bool)

  /** An insertion scan key: the attributes of a tuple and, in version 4 indexes, its TID.
      The verifier always sets `pivotsearch`. */
  datatype ScanKey = ScanKey(atts: seq<int>, scantid: Tid)

  datatype Tid = NoTid | SomeTid(tid: int)

  function Min(a: nat, b: nat): nat {
    if a <= b then a else b
  }

  /** The logical order of keys. */
  predicate Less(a: Key, b: Key) {
    b != [] && (a == [] || a[0] < b[0] || (a[0] == b[0] && Less(a[1..], b[1..])))
  }

  /** The order the checks enforce between neighbours: strict in a version 4 index, while
      indexes carried over from older versions may hold equal siblings. */
  predicate Before(c: Config, a: Key, b: Key) {
    Less(a, b) || (!c.heapkeyspace && a == b)
  }

  function Sign(a: int, b: int): int {
    if a < b then -1 else if a == b then 0 else 1
  }

  /** Comparison of the attributes that both sides have. */
  function CompareAtts(a: seq<int>, b: seq<int>): int {
    if a == [] || b == [] then 0
    else if a[0] != b[0] then Sign(a[0], b[0])
    else CompareAtts(a[1..], b[1..])
  }

  function MakeScanKey(c: Config, k: Key): ScanKey {
    ScanKey(k[..Min(c.nkeyatts, |k|)],
            if c.heapkeyspace && |k| > c.nkeyatts then SomeTid(k[c.nkeyatts]) else NoTid)
  }

  function KeyAtts(c: Config, t: Key): nat {
    Min(c.nkeyatts, |t|)
  }

  /** Three-way comparison of a scan key with a tuple that is not a negative infinity item. */
  function Compare(c: Config, key: ScanKey, t: Key): int {
    var natts := KeyAtts(c, t);
    var cmp := CompareAtts(key.atts, t[..natts]);
    if cmp != 0 then cmp
    else if |key.atts| > natts then 1
    else if key.scantid.NoTid? then 0
    else if |t| <= c.nkeyatts then 1
    else Sign(key.scantid.tid, t[c.nkeyatts])
  }

  predicate InvariantLeq(c: Config, key: ScanKey, upper: Key) {
    Compare(c, key, upper) <= 0
  }

  predicate InvariantL(c: Config, key: ScanKey, upper: Key) {
    if !c.heapkeyspace then InvariantLeq(c, key, upper)
    else
      var cmp := Compare(c, key, upper);
      if cmp == 0 then
        if |key.atts| == KeyAtts(c, upper) then key.scantid.NoTid? && |upper| > c.nkeyatts
        else |key.atts| < KeyAtts(c, upper)
      else cmp < 0
  }

  predicate InvariantG(c: Config, key: ScanKey, lower: Key) {
    var cmp := Compare(c, key, lower);
    if !c.heapkeyspace then cmp >= 0 else cmp > 0
  }

  /** Attribute counts: data items of leaf pages have every attribute (and their TID in a
      version 4 index); pivot tuples may be truncated in version 4 indexes only. */
  predicate CheckNatts(c: Config, pivot: bool, k: Key) {
    if !c.heapkeyspace then |k| == c.nkeyatts
    else if pivot then 1 <= |k| <= c.nkeyatts + 1
    else |k| == c.nkeyatts + 1
  }

  // ---------------------------------------------------------------- the order is a total order

  lemma {:induction false} LessTransitive(a: Key, b: Key, d: Key)
    requires Less(a, b) && Less(b, d)
    ensures Less(a, d)
  {
    if a != [] && a[0] == b[0] == d[0] {
      LessTransitive(a[1..], b[1..], d[1..]);
    }
  }

  lemma {:induction false} LessIrreflexive(a: Key)
    ensures !Less(a, a)
  {
    if a != [] {
      LessIrreflexive(a[1..]);
    }
  }

  lemma {:induction false} LessTotal(a: Key, b: Key)
    ensures Less(a, b) || a == b || Less(b, a)
  {
    if a != [] && b != [] && a[0] == b[0] {
      LessTotal(a[1..], b[1..]);
      assert a == [a[0]] + a[1..] && b == [b[0]] + b[1..];
    }
  }

  lemma BeforeTransitive(c: Config, a: Key, b: Key, d: Key)
    requires Before(c, a, b) && Before(c, b, d)
    ensures Before(c, a, d)
  {
    if Less(a, b) && Less(b, d) {
      LessTransitive(a, b, d);
    }
  }

  // ---------------------------------------------------------------- what the comparisons mean

  /** The three outcomes of a comparison, in terms of the logical order: a scan key that runs
      out first compares as equal, although it comes first. */
  lemma {:induction false} CompareMeaning(c: Config, k: Key, t: Key)
    requires |k| <= c.nkeyatts + 1 && |t| <= c.nkeyatts + 1
    requires !c.heapkeyspace ==> |k| <= c.nkeyatts && |t| <= c.nkeyatts
    ensures Compare(c, MakeScanKey(c, k), t) > 0 <==> Less(t, k)
    ensures Compare(c, MakeScanKey(c, k), t) == 0 <==> k <= t
    ensures Compare(c, MakeScanKey(c, k), t) < 0 <==> Less(k, t) && !(k <= t)
    decreases |k|
  {
    var n := c.nkeyatts;
    if k != [] && t != [] && n > 0 && k[0] == t[0] {
      var c' := Config(n - 1, c.heapkeyspace);
      CompareMeaning(c', k[1..], t[1..]);
      assert k[..Min(n, |k|)][1..] == k[1..][..Min(n - 1, |k| - 1)];
      assert t[..Min(n, |t|)][1..] == t[1..][..Min(n - 1, |t| - 1)];
      assert Compare(c, MakeScanKey(c, k), t) == Compare(c', MakeScanKey(c', k[1..]), t[1..]);
      assert k <= t <==> k[1..] <= t[1..] by {
        assert k == [k[0]] + k[1..] && t == [t[0]] + t[1..];
      }
    } else if k != [] && t != [] && n > 0 {
      assert k[..Min(n, |k|)][0] == k[0] && t[..Min(n, |t|)][0] == t[0];
    } else if k != [] && t != [] {
      assert k == [k[0]] && t == [t[0]];
    }
  }

  lemma {:induction false} PrefixIsLess(k: Key, t: Key)
    requires k <= t
    ensures Less(k, t) <==> k != t
    decreases |k|
  {
    if k != [] {
      PrefixIsLess(k[1..], t[1..]);
      assert k == [k[0]] + k[1..] && t == [t[0]] + t[1..];
    }
  }

  /** The upper bound check accepts exactly the pairs in the enforced order, truncated keys
      included: the extra step after a tie is what makes this an equivalence. */
  lemma InvariantLMeaning(c: Config, k: Key, upper: Key)
    requires |k| <= c.nkeyatts + 1 && |upper| <= c.nkeyatts + 1
    requires !c.heapkeyspace ==> |k| == c.nkeyatts == |upper|
    ensures InvariantL(c, MakeScanKey(c, k), upper) <==> Before(c, k, upper)
  {
    CompareMeaning(c, k, upper);
    LessIrreflexive(k);
    if k <= upper {
      PrefixIsLess(k, upper);
      assert |k| == |upper| ==> k == upper;
    }
  }

  /** The "at most" check accepts exactly the pairs in the non-strict order. */
  lemma InvariantLeqMeaning(c: Config, k: Key, upper: Key)
    requires |k| <= c.nkeyatts + 1 && |upper| <= c.nkeyatts + 1
    requires !c.heapkeyspace ==> |k| <= c.nkeyatts && |upper| <= c.nkeyatts
    ensures InvariantLeq(c, MakeScanKey(c, k), upper) <==> Less(k, upper) || k == upper
  {
    CompareMeaning(c, k, upper);
    LessTotal(k, upper);
    if k <= upper {
      PrefixIsLess(k, upper);
    }
    if Less(upper, k) && Less(k, upper) {
      LessTransitive(k, upper, k);
      LessIrreflexive(k);
    }
    LessIrreflexive(k);
  }

  /** The lower bound check, whose scan key comes from the item on the right. */
  lemma InvariantGMeaning(c: Config, k: Key, lower: Key)
    requires |k| <= c.nkeyatts + 1 && |lower| <= c.nkeyatts + 1
    requires !c.heapkeyspace ==> |k| == c.nkeyatts == |lower|
    ensures InvariantG(c, MakeScanKey(c, k), lower) <==> Before(c, lower, k)
  {
    CompareMeaning(c, k, lower);
    if k <= lower {
      PrefixIsLess(k, lower);
      assert |k| == |lower| ==> k == lower;
    }
    LessTotal(k, lower);
    if Less(lower, k) && Less(k, lower) {
      LessTransitive(k, lower, k);
      LessIrreflexive(k);
    }
  }
}
