/** The scan of a Bloom index: all pages, all tuples, all words of the signature. */
module BloomScan {
  import opened Outcomes
  import opened BloomRandom
  import opened BloomSignature
  import opened BloomPage
  import opened BloomStore
  import opened BloomIndex

  /** The tuples on one page that match, in order. */
  function FoundOn(ts: seq<BloomTuple>, query: Signature): seq<Tid> {
    if ts == [] then []
    else
      FoundOn(ts[..|ts| - 1], query)
      + if Passes(ts[|ts| - 1], query) then [ts[|ts| - 1].tid] else []
  }

  predicate Passes(t: BloomTuple, query: Signature) {
    |t.sign| == |query| && Matches(t.sign, query)
  }

  /** The tuples on all pages that match, in order. */
  function Found(ps: seq<Page>, query: Signature): seq<Tid> {
    if ps == [] then [] else Found(ps[..|ps| - 1], query) + FoundOn(Tuples(ps[|ps| - 1]), query)
  }

  lemma {:induction false} FoundOnExactly(ts: seq<BloomTuple>, query: Signature, tid: Tid)
    ensures tid in FoundOn(ts, query) <==> exists t :: t in multiset(ts) && t.tid == tid && Passes(t, query)
  {
    hide Passes;
    if ts != [] {
      var rest, t := ts[..|ts| - 1], ts[|ts| - 1];
      FoundOnExactly(rest, query, tid);
      assert ts == rest + [t];
      assert t in multiset(ts);
    }
  }

  /** The scan finds the tuples of the index that pass the test, and no others. */
  lemma {:induction false} FoundExactly(ps: seq<Page>, query: Signature, tid: Tid)
    ensures tid in Found(ps, query) <==> exists t :: t in All(ps) && t.tid == tid && Passes(t, query)
  {
    hide Passes, FoundOn, Tuples;
    if ps != [] {
      FoundExactly(ps[..|ps| - 1], query, tid);
      FoundOnExactly(Tuples(ps[|ps| - 1]), query, tid);
    }
  }

  /** No row is missed: if a tuple formed from some column hashes is in the index, a search
      for equal hashes reports its heap pointer. */
  lemma EqualRowIsFound(words: nat, ps: seq<Page>, t: BloomTuple, hashes: Hashes, bits: BitCounts, keys: seq<ScanKey>)
    requires words > 0 && t in All(ps)
    requires Signable(hashes) && |hashes| <= |bits| && t.sign == SignColumns(words, hashes, bits, |hashes|)
    requires Searchable(keys) && Satisfies(hashes, keys)
    ensures t.tid in Found(ps, SignKeys(words, keys, bits, |keys|))
  {
    hide Matches, SignKeys, SignColumns, Stuck, Found;
    NoFalseNegatives(words, hashes, bits, keys, |keys|);
    var query := SignKeys(words, keys, bits, |keys|);
    FoundExactly(ps, query, t.tid);
    assert Passes(t, query);
  }

  lemma FoundOnStep(ts: seq<BloomTuple>, query: Signature, n: nat)
    requires n < |ts|
    ensures FoundOn(ts[..n + 1], query) == FoundOn(ts[..n], query) + if Passes(ts[n], query) then [ts[n].tid] else []
  {
    assert ts[..n + 1][..n] == ts[..n];
  }

  lemma FoundStep(ps: seq<Page>, query: Signature, n: nat)
    requires n < |ps|
    ensures Found(ps[..n + 1], query) == Found(ps[..n], query) + FoundOn(Tuples(ps[n]), query)
  {
    assert ps[..n + 1][..n] == ps[..n];
  }

  /** Each key is for a column of the index. */
  predicate KeysFit(bits: BitCounts, keys: seq<ScanKey>) {
    && |bits| <= 32
    && (forall i :: 0 <= i < |bits| ==> bits[i] > 0)
    && forall i :: 0 <= i < |keys| ==> keys[i].attno < |bits|
  }

  class Scan {
    const index: Index
    const bits: BitCounts
    var keys: seq<ScanKey>
    var sign: Option<Signature>  // the query's signature, once it has been computed

    ghost predicate Valid()
      reads this, index
    {
      && index.Valid()
      && index.words > 0
      && KeysFit(bits, keys)
      && (sign.Some? ==> Searchable(keys) && sign.value == SignKeys(index.words, keys, bits, |keys|))
    }

    /** blbeginscan and blrescan */
    constructor (index: Index, bits: BitCounts, keys: seq<ScanKey>)
      requires index.Valid()
      requires KeysFit(bits, keys)
      ensures Valid() && this.index == index && this.bits == bits && this.keys == keys
    {
      hide ValidPages, ValidMeta, SignKeys, LegalLength, KeysFit;
      LegalLengths(index.words);
      this.index, this.bits, this.keys := index, bits, keys;
      sign := None;
    }

    /** A search that calls for a null finds nothing. Where the generator gets stuck before
        that, C leaves the outcome undefined. Otherwise the scan reports exactly the tuples that
        pass the test, in order, and counts them. */
    method GetBitmap() returns (defined: bool, tids: seq<Tid>, ntids: nat)
      requires Valid()
      modifies this
      ensures Valid() && keys == old(keys)
      ensures ntids == |tids|
      ensures Searchable(keys) ==>
                defined && tids == Found(index.pages, SignKeys(index.words, keys, bits, |keys|))
      ensures !Searchable(keys) && defined ==> tids == [] && exists i :: 0 <= i < |keys| && keys[i].hash.None?
      ensures !defined ==> exists i :: 0 <= i < |keys| && keys[i].hash.Some? && Stuck(keys[i].hash.value, keys[i].attno)
    {
      hide LegalLength, Stuck, SignKeys, Found, KeysFit, ValidPages, ValidMeta;
      if sign.None? {
        var r := FormQuery();
        match r
        case Undefined => return false, [], 0;
        case Null => return true, [], 0;
        case Formed(s) => sign := Some(s);
      }
      tids, ntids := ScanPages(sign.value);
      return true, tids, ntids;
    }

    /** The part that computes the signature. */
    method FormQuery() returns (r: Query)
      requires Valid()
      ensures r.Formed? <==> Searchable(keys)
      ensures r.Formed? ==> r.sign == SignKeys(index.words, keys, bits, |keys|)
      ensures r.Null? ==> exists i :: 0 <= i < |keys| && keys[i].hash.None?
      ensures r.Undefined? ==>
              exists i :: 0 <= i < |keys| && keys[i].hash.Some? && Stuck(keys[i].hash.value, keys[i].attno)
    {
      hide LegalLength, Stuck, Positions, SetAll, Inside;
      var gen := new Generator();
      var query := new bv16[index.words](_ => 0);
      assert query[..] == Blank(index.words);
      var i := 0;
      while i < |keys|
        invariant 0 <= i <= |keys|
        invariant forall k :: 0 <= k < i ==> keys[k].hash.Some? && !Stuck(keys[k].hash.value, keys[k].attno)
        invariant Searchable(keys) ==> query[..] == SignKeys(index.words, keys, bits, i)
      {
        if keys[i].hash.None? {
          return Null;
        }
        var defined := SignValue(gen, query, keys[i].hash.value, keys[i].attno, bits[keys[i].attno]);
        if !defined {
          return Undefined;
        }
        i := i + 1;
      }
      return Formed(query[..]);
    }

    /** The part that reads all pages. */
    method ScanPages(query: Signature) returns (tids: seq<Tid>, ntids: nat)
      requires index.Valid() && |query| == index.words
      ensures tids == Found(index.pages, query) && ntids == |tids|
    {
      hide LegalLength, Matches, Found, FoundOn, Capacity;
      tids, ntids := [], 0;
      var blkno, npages := 1, |index.pages|;
      FoundOnMetapage(index.pages, query, index.words);
      while blkno < npages
        invariant 1 <= blkno <= npages
        invariant tids == Found(index.pages[..blkno], query) && ntids == |tids|
      {
        FoundStep(index.pages, query, blkno);
        var page := index.pages[blkno];
        assert ValidPage(index.words, page);
        if !Reusable(page) {
          ghost var before := tids;
          var offset := 0;
          FoundOnNothing(query);
          assert page.tuples[..0] == [];
          while offset < |page.tuples|
            invariant 0 <= offset <= |page.tuples|
            invariant tids == before + FoundOn(page.tuples[..offset], query) && ntids == |tids|
          {
            FoundOnStep(page.tuples, query, offset);
            var res := TestTuple(page.tuples[offset].sign, query);
            if res {
              tids := tids + [page.tuples[offset].tid];
              ntids := ntids + 1;
            }
            offset := offset + 1;
          }
          assert page.tuples[..offset] == page.tuples;
        } else {
          FoundOnNothing(query);
        }
        blkno := blkno + 1;
      }
      assert index.pages[..blkno] == index.pages;
    }
  }

  datatype Query = Null | Undefined | Formed(sign: Signature)

  lemma FoundOnMetapage(ps: seq<Page>, query: Signature, words: nat)
    requires ValidPages(words, ps)
    ensures |ps| >= 1 && Found(ps[..1], query) == []
  {
    assert ps[..1][..0] == [];
  }

  lemma FoundOnNothing(query: Signature)
    ensures FoundOn([], query) == []
  {
  }

  /** The loop over the words of one signature. */
  method TestTuple(sign: Signature, query: Signature) returns (res: bool)
    requires |sign| == |query|
    ensures res <==> Matches(sign, query)
  {
    res := true;
    var i := 0;
    while i < |query|
      invariant 0 <= i <= |query| && res
      invariant forall k :: 0 <= k < i ==> Has(sign[k], query[k])
    {
      if sign[i] & query[i] != query[i] {
        return false;
      }
      i := i + 1;
    }
  }
}
