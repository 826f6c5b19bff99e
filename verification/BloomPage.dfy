/** Data pages of a Bloom index: fixed-size tuples in one array, added at the end, and
    compacted in place by VACUUM. */
module BloomPage {
  import opened Integers
  import opened Outcomes
  import opened BloomSignature

  const BLCKSZ := 8192
  const PAGE_HEADER := 24  // MAXALIGN(SizeOfPageHeaderData)
  const PAGE_OPAQUE := 8   // MAXALIGN(sizeof(BloomPageOpaqueData))

  type Tid = int

  datatype BloomTuple = BloomTuple(tid: Tid, sign: Signature)

  /** bloptions: the length of a signature in words, from its length in bits. */
  function Words(bits: nat): nat {
    (bits + 15) / 16
  }

  /** The lengths that the option accepts. */
  predicate LegalLength(words: nat) {
    exists bits :: 1 <= bits <= 4096 && words == Words(bits)
  }

  lemma LegalLengths(words: nat)
    ensures LegalLength(words) <==> 1 <= words <= 256
  {
    if 1 <= words <= 256 {
      assert words == Words(16 * words);
    }
  }

  function TupleSize(words: nat): nat {
    6 + 2 * words
  }

  /** BloomPageGetFreeSpace */
  function FreeSpace(words: nat, maxoff: nat): int {
    BLCKSZ - PAGE_HEADER - maxoff * TupleSize(words) - PAGE_OPAQUE
  }

  /** The offset of the end of the first `maxoff` tuples, for pd_lower. */
  function EndOf(words: nat, maxoff: nat): int {
    PAGE_HEADER + maxoff * TupleSize(words)
  }

  /** How many tuples fit on a page. */
  function Capacity(words: nat): nat {
    Quotient(BLCKSZ - PAGE_HEADER - PAGE_OPAQUE, TupleSize(words))
  }

  /** The test for free space lets in exactly as many tuples as the page has room for, and
      the last one still ends before the page's special area. */
  lemma FreeSpaceMeansRoom(words: nat, maxoff: nat)
    ensures FreeSpace(words, maxoff) >= TupleSize(words) <==> maxoff < Capacity(words)
    ensures maxoff <= Capacity(words) <==> EndOf(words, maxoff) <= BLCKSZ - PAGE_OPAQUE
  {
    var size, space := TupleSize(words), BLCKSZ - PAGE_HEADER - PAGE_OPAQUE;
    FitsExactly(space, size, maxoff);
    FitsExactly(space, size, maxoff + 1);
    hide Quotient;
    assert (maxoff + 1) * size == maxoff * size + size;
  }

  lemma FitsExactly(space: nat, size: nat, n: nat)
    requires size > 0
    ensures n * size <= space <==> n <= Quotient(space, size)
  {
    var q, r := space / size, space % size;
    assert space == q * size + r;
    if n <= q {
      assert n * size <= q * size;
    } else {
      assert n * size >= (q + 1) * size;
      assert (q + 1) * size == q * size + size;
    }
  }

  /** For every legal length, an empty page has room for a tuple. */
  lemma EmptyPageHasRoom(words: nat)
    requires LegalLength(words)
    ensures Capacity(words) >= 15
  {
    LegalLengths(words);
    FitsExactly(BLCKSZ - PAGE_HEADER - PAGE_OPAQUE, TupleSize(words), 15);
  }

  /** With the default of 80 bits, signatures have 5 words and a page has room for 510 tuples. */
  lemma DefaultCapacity()
    ensures Words(80) == 5 && Capacity(5) == 510
  {
    hide Quotient;
    FitsExactly(BLCKSZ - PAGE_HEADER - PAGE_OPAQUE, TupleSize(5), 510);
    FitsExactly(BLCKSZ - PAGE_HEADER - PAGE_OPAQUE, TupleSize(5), 511);
  }

  // ---------------------------------------------------------------- pages as values

  /** A page: never initialised, or with its tuples; a deleted page has none. */
  datatype Page = New | Data(deleted: bool, tuples: seq<BloomTuple>)

  /** PageIsNew or BloomPageIsDeleted: may be reused, after being initialised. */
  predicate Reusable(p: Page) {
    p.New? || p.deleted
  }

  predicate ValidPage(words: nat, p: Page) {
    p.Data? ==>
      && |p.tuples| <= Capacity(words)
      && (p.deleted ==> p.tuples == [])
      && forall i :: 0 <= i < |p.tuples| ==> |p.tuples[i].sign| == words
  }

  function Tuples(p: Page): seq<BloomTuple> {
    if p.New? then [] else p.tuples
  }

  /** A page after an attempt to insert: a reusable one is initialised first. */
  function Placed(words: nat, p: Page, t: BloomTuple): Option<Page> {
    var ts := if Reusable(p) then [] else p.tuples;
    if |ts| < Capacity(words) then Some(Data(false, ts + [t])) else None
  }

  /** Tuples that the callback does not want removed. */
  function Live(dead: Tid -> bool, ts: seq<BloomTuple>): seq<BloomTuple> {
    if ts == [] then []
    else Live(dead, ts[..|ts| - 1]) + if dead(ts[|ts| - 1].tid) then [] else [ts[|ts| - 1]]
  }

  /** A page after VACUUM has visited it: it is marked as deleted if that emptied it. */
  function Vacuumed(dead: Tid -> bool, p: Page): Page {
    if Reusable(p) then p
    else
      var live := Live(dead, p.tuples);
      Data(live == [] && p.tuples != [], live)
  }

  /** The loop of Vacuum after `i` of the first `end` tuples, of which `j` have been kept. */
  ghost predicate Halfway(dead: Tid -> bool, was: seq<BloomTuple>, now: seq<BloomTuple>, end: nat, i: nat, j: nat) {
    && j <= i <= end <= |was| == |now|
    && now[..j] == Live(dead, was[..i])
    && forall k :: i <= k < end ==> now[k] == was[k]
  }

  lemma HalfwayAtStart(dead: Tid -> bool, was: seq<BloomTuple>, end: nat)
    requires end <= |was|
    ensures Halfway(dead, was, was, end, 0, 0)
  {
  }

  lemma HalfwayStep(dead: Tid -> bool, was: seq<BloomTuple>, now: seq<BloomTuple>, end: nat, i: nat, j: nat)
    requires Halfway(dead, was, now, end, i, j) && i < end
    ensures dead(now[i].tid) ==> Halfway(dead, was, now, end, i + 1, j)
    ensures !dead(now[i].tid) ==> Halfway(dead, was, now[j := now[i]], end, i + 1, j + 1)
  {
    assert was[..i + 1][..i] == was[..i];
    assert now[j := now[i]][..j + 1] == now[..j] + [now[i]];
  }

  lemma HalfwayAtEnd(dead: Tid -> bool, was: seq<BloomTuple>, now: seq<BloomTuple>, end: nat, j: nat)
    requires Halfway(dead, was, now, end, end, j)
    ensures now[..j] == Live(dead, was[..end])
  {
  }

  // ---------------------------------------------------------------- pages in place

  class BloomPageBuffer {
    const words: nat
    const data: array<BloomTuple>
    var isNew: bool
    var deleted: bool
    var maxoff: nat
    var pdLower: int

    ghost predicate Valid()
      reads this, data
    {
      && data.Length == Capacity(words)
      && maxoff <= data.Length
      && pdLower == EndOf(words, maxoff)
      && (isNew || deleted ==> maxoff == 0)
    }

    ghost function View(): Page
      reads this, data
      requires Valid()
    {
      if isNew then New else Data(deleted, data[..maxoff])
    }

    constructor (words: nat)
      ensures Valid() && fresh(data) && View() == New && this.words == words
    {
      this.words := words;
      data := new BloomTuple[Capacity(words)](_ => BloomTuple(0, []));
      isNew, deleted, maxoff, pdLower := true, false, 0, PAGE_HEADER;
    }

    /** A copy of a page, to work on. */
    constructor Load(words: nat, p: Page)
      requires ValidPage(words, p)
      ensures Valid() && fresh(data) && View() == p && this.words == words
    {
      var ts := Tuples(p);
      this.words := words;
      data := new BloomTuple[Capacity(words)](i => if 0 <= i < |ts| then ts[i] else BloomTuple(0, []));
      isNew, deleted, maxoff, pdLower := p.New?, p.Data? && p.deleted, |ts|, EndOf(words, |ts|);
      new;
      assert data[..maxoff] == ts;
    }

    /** The page to be written back. */
    method Image() returns (p: Page)
      requires Valid()
      ensures p == View()
    {
      if isNew {
        return New;
      }
      return Data(deleted, data[..maxoff]);
    }

    /** BloomInitPage */
    method Init()
      requires Valid()
      modifies this
      ensures Valid() && View() == Data(false, [])
    {
      isNew, deleted, maxoff, pdLower := false, false, 0, PAGE_HEADER;
    }

    /** BloomPageAddItem: fails exactly if the page is full, and then changes nothing. */
    method AddItem(t: BloomTuple) returns (ok: bool)
      requires Valid() && !isNew && !deleted
      modifies this, data
      ensures Valid()
      ensures ok <==> |old(View()).tuples| < Capacity(words)
      ensures View() == if ok then Data(false, old(View()).tuples + [t]) else old(View())
      ensures pdLower <= BLCKSZ - PAGE_OPAQUE
    {
      FreeSpaceMeansRoom(words, maxoff);
      FreeSpaceMeansRoom(words, maxoff + 1);
      if FreeSpace(words, maxoff) < TupleSize(words) {
        return false;
      }
      data[maxoff] := t;
      maxoff := maxoff + 1;
      pdLower := EndOf(words, maxoff);
      return true;
    }

    /** What blinsert does with a page that it tries. */
    method Place(t: BloomTuple) returns (ok: bool)
      requires Valid() && LegalLength(words)
      modifies this, data
      ensures Valid() && ok == Placed(words, old(View()), t).Some?
      ensures ok ==> View() == Placed(words, old(View()), t).value
      ensures !ok ==> View() == old(View())
    {
      EmptyPageHasRoom(words);
      if isNew || deleted {
        Init();
      }
      ok := AddItem(t);
    }

    /** The body of blbulkdelete for one page: live tuples are moved down over dead ones.
        Tells how many tuples were removed, and whether the page goes on the list of pages
        that are not full. */
    method Vacuum(dead: Tid -> bool) returns (removed: nat, notFull: bool)
      requires Valid()
      modifies this, data
      ensures Valid() && View() == Vacuumed(dead, old(View()))
      ensures removed == |Tuples(old(View()))| - |Tuples(View())|
      ensures notFull <==> 0 < |Tuples(View())| < Capacity(words)
      ensures isNew == old(isNew) && (deleted ==> maxoff == 0)
    {
      hide Live, EndOf, Capacity, Halfway, FreeSpace, TupleSize;
      if isNew || deleted {
        return 0, false;
      }
      ghost var was := data[..];
      var end := maxoff;
      var itup, itupPtr := 0, 0;
      removed := 0;
      HalfwayAtStart(dead, was, end);
      while itup < end
        invariant 0 <= itupPtr <= itup <= end <= data.Length == |was|
        invariant maxoff == end - (itup - itupPtr) && removed == itup - itupPtr
        invariant Halfway(dead, was, data[..], end, itup, itupPtr)
        invariant !isNew && !deleted && pdLower == EndOf(words, end)
      {
        ghost var now := data[..];
        HalfwayStep(dead, was, now, end, itup, itupPtr);
        if dead(data[itup].tid) {
          maxoff := maxoff - 1;
          removed := removed + 1;
        } else {
          if itupPtr != itup {
            data[itupPtr] := data[itup];
          }
          assert data[..] == now[itupPtr := now[itup]];
          itupPtr := itupPtr + 1;
        }
        itup := itup + 1;
      }
      HalfwayAtEnd(dead, was, data[..], end, itupPtr);
      assert data[..][..itupPtr] == data[..itupPtr] && was[..end] == old(data[..maxoff]);
      FreeSpaceMeansRoom(words, maxoff);
      notFull := maxoff != 0 && FreeSpace(words, maxoff) >= TupleSize(words);
      if itupPtr != itup {
        if maxoff == 0 {
          deleted := true;
        }
        pdLower := EndOf(words, itupPtr);
      }
    }
  }

  // ---------------------------------------------------------------- what VACUUM leaves

  /** The remaining tuples are the live ones: each as often as before, and no dead one. */
  lemma {:induction false} LiveKeepsExactly(dead: Tid -> bool, ts: seq<BloomTuple>, t: BloomTuple)
    ensures multiset(Live(dead, ts))[t] == if dead(t.tid) then 0 else multiset(ts)[t]
  {
    if ts != [] {
      LiveKeepsExactly(dead, ts[..|ts| - 1], t);
      assert ts == ts[..|ts| - 1] + [ts[|ts| - 1]];
    }
  }

  /** Their order is kept: a live tuple's place is the number of live tuples before it. */
  lemma {:induction false} LiveKeepsOrder(dead: Tid -> bool, ts: seq<BloomTuple>, i: nat)
    requires i < |ts| && !dead(ts[i].tid)
    ensures |Live(dead, ts[..i])| < |Live(dead, ts)| && Live(dead, ts)[|Live(dead, ts[..i])|] == ts[i]
    decreases |ts|
  {
    var rest := ts[..|ts| - 1];
    if i == |ts| - 1 {
      assert ts[..i] == rest;
    } else {
      LiveKeepsOrder(dead, rest, i);
      assert rest[..i] == ts[..i];
    }
  }

  lemma {:induction false} LiveShrinks(dead: Tid -> bool, ts: seq<BloomTuple>)
    ensures |Live(dead, ts)| <= |ts|
  {
    if ts != [] {
      LiveShrinks(dead, ts[..|ts| - 1]);
    }
  }

  /** If as many tuples are left as there were, none has been removed. */
  lemma {:induction false} LiveMayBeAll(dead: Tid -> bool, ts: seq<BloomTuple>)
    ensures |Live(dead, ts)| == |ts| ==> Live(dead, ts) == ts
  {
    if ts != [] {
      LiveMayBeAll(dead, ts[..|ts| - 1]);
      LiveShrinks(dead, ts[..|ts| - 1]);
    }
  }

  lemma {:induction false} LiveKeepsMembers(dead: Tid -> bool, ts: seq<BloomTuple>, i: nat)
    requires i < |Live(dead, ts)|
    ensures Live(dead, ts)[i] in ts
  {
    LiveKeepsExactly(dead, ts, Live(dead, ts)[i]);
    assert Live(dead, ts)[i] in multiset(Live(dead, ts));
  }

  lemma VacuumedIsValid(dead: Tid -> bool, words: nat, p: Page)
    requires ValidPage(words, p)
    ensures ValidPage(words, Vacuumed(dead, p))
  {
    LiveShrinks(dead, Tuples(p));
    var live := Live(dead, Tuples(p));
    forall i | 0 <= i < |live| ensures |live[i].sign| == words {
      LiveKeepsMembers(dead, Tuples(p), i);
    }
  }

  lemma PlacedIsValid(words: nat, p: Page, t: BloomTuple)
    requires ValidPage(words, p) && |t.sign| == words
    ensures Placed(words, p, t).Some? ==> ValidPage(words, Placed(words, p, t).value)
    ensures Placed(words, p, t).Some? ==>
            multiset(Tuples(Placed(words, p, t).value)) == multiset(Tuples(p)) + multiset{t}
    ensures Reusable(p) && LegalLength(words) ==> Placed(words, p, t) == Some(Data(false, [t]))
  {
    hide Capacity, LegalLength;
    if LegalLength(words) {
      EmptyPageHasRoom(words);
    }
    assert [] + [t] == [t];
    var ts := if Reusable(p) then [] else p.tuples;
    assert ts == Tuples(p);
    assert multiset(ts + [t]) == multiset(ts) + multiset{t};
  }
}
