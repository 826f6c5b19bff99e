/** The operations of a Bloom index, one at a time: insertion, the two parts of VACUUM, and the
    scan. */
module BloomIndex {
  import opened Outcomes
  import opened BloomPage
  import opened BloomStore

  class Index {
    const words: nat
    var pages: seq<Page>
    var meta: Meta
    var fsm: set<nat>  // the free space map: blocks that may be reusable

    ghost predicate Valid()
      reads this
    {
      && LegalLength(words)
      && ValidPages(words, pages)
      && ValidMeta(meta, |pages|)
      && forall b :: b in fsm ==> 1 <= b < |pages|
    }

    /** BloomInitMetapage: an index with nothing but its metapage. */
    constructor (words: nat)
      requires LegalLength(words)
      ensures Valid() && pages == [New] && fsm == {} && this.words == words
      ensures meta.nStart == meta.nEnd == 0
    {
      this.words := words;
      pages, fsm := [New], {};
      meta := Meta(0, 0, seq(META_N, _ => 0));
    }

    /** BloomNewBuffer: a block from the free space map that really is reusable, or else a new
        block at the end. */
    method NewBuffer() returns (b: nat)
      requires Valid()
      modifies `pages, `fsm
      ensures Valid() && fsm <= old(fsm) && 1 <= b < |pages| && Reusable(pages[b])
      ensures if b < |old(pages)| then pages == old(pages) && b in old(fsm)
              else pages == old(pages) + [New] && forall k :: k in old(fsm) ==> !Reusable(pages[k])
    {
      while fsm != {}
        invariant Valid() && fsm <= old(fsm) && pages == old(pages)
        invariant forall k :: k in old(fsm) - fsm ==> !Reusable(pages[k])
        decreases fsm
      {
        b :| b in fsm;
        fsm := fsm - {b};
        if Reusable(pages[b]) {
          return b;
        }
      }
      b := |pages|;
      pages := pages + [New];
    }

    /** One attempt to put the tuple on a page; a failed one leaves the page as it was. */
    method TryPage(b: nat, t: BloomTuple) returns (ok: bool)
      requires Valid() && |t.sign| == words && 1 <= b < |pages|
      modifies `pages
      ensures Valid() && ok == Placed(words, old(pages)[b], t).Some?
      ensures pages == if ok then old(pages)[b := Placed(words, old(pages)[b], t).value] else old(pages)
    {
      hide LegalLength;
      PlacedIsValid(words, pages[b], t);
      var buffer := new BloomPageBuffer.Load(words, pages[b]);
      ok := buffer.Place(t);
      if ok {
        var p := buffer.Image();
        PutIsValid(words, pages, b, p);
        pages := pages[b := p];
      }
    }

    /** blinsert. The first attempt, without changing the metapage, comes to the same as the
        walk over the list that follows it. The program's error, when an empty page has no
        room, does not occur. */
    method Insert(t: BloomTuple) returns (placed: bool)
      requires Valid() && |t.sign| == words
      modifies this
      ensures placed && Valid() && fsm <= old(fsm)
      ensures Inserted(words, t, old(pages), old(meta), pages, meta)
      ensures All(pages) == All(old(pages)) + multiset{t}
    {
      hide LegalLength, ValidPages, Placed, All;
      ghost var first := FirstWithRoom(words, pages, meta, t, meta.nStart);
      var blkno: Option<nat> := None;
      if meta.nEnd > meta.nStart {
        blkno := Some(meta.notFull[meta.nStart]);
        var ok := TryPage(blkno.value, t);
        if ok {
          InsertedAddsOne(words, t, old(pages), old(meta), pages, meta);
          return true;
        }
      }
      var nStart := meta.nStart;
      if nStart < meta.nEnd && blkno == Some(meta.notFull[nStart]) {
        nStart := nStart + 1;
      }
      while nStart < meta.nEnd
        invariant Valid() && pages == old(pages) && meta == old(meta) && fsm == old(fsm)
        invariant nStart <= meta.nEnd && first == FirstWithRoom(words, pages, meta, t, nStart)
      {
        var ok := TryPage(meta.notFull[nStart], t);
        if ok {
          meta := meta.(nStart := nStart);
          InsertedAddsOne(words, t, old(pages), old(meta), pages, meta);
          return true;
        }
        nStart := nStart + 1;
      }
      placed := InsertOnNewPage(t);
      InsertedAddsOne(words, t, old(pages), old(meta), pages, meta);
    }

    /** The end of blinsert: a new page, which then is all the list has. */
    method InsertOnNewPage(t: BloomTuple) returns (placed: bool)
      requires Valid() && |t.sign| == words
      modifies this
      ensures placed && Valid() && fsm <= old(fsm)
      ensures |meta.notFull| == META_N
      ensures var b := meta.notFull[0];
              && 1 <= b <= |old(pages)|
              && (b < |old(pages)| ==> Reusable(old(pages)[b]))
              && pages == Put(old(pages), b, Data(false, [t]))
              && meta == Meta(0, 1, old(meta).notFull[0 := b])
    {
      var b := NewBuffer();
      PlacedIsValid(words, pages[b], t);
      hide LegalLength, ValidPages, Placed;
      placed := TryPage(b, t);
      if placed {
        meta := Meta(0, 1, meta.notFull[0 := b]);
      }
    }

    /** blbulkdelete: every page is compacted, and the metapage's list is made anew, from the
        first pages found with room. */
    method BulkDelete(dead: Tid -> bool) returns (removed: nat)
      requires Valid()
      modifies `pages, `meta
      ensures Valid()
      ensures pages == VacuumedAll(dead, old(pages))
      ensures removed + Count(pages) == Count(old(pages))
      ensures var list := Capped(NotFull(words, pages));
              meta.nStart == 0 && meta.nEnd == |list| && meta.notFull[..meta.nEnd] == list
    {
      hide LegalLength, Vacuumed, Capacity, NotFull, VacuumedAll, Capped, Count;
      ghost var was := pages;
      var npages := |pages|;
      var blkno := 1;
      var notFullPage: seq<nat> := [];
      removed := 0;
      SweptAtStart(dead, words, was);
      while blkno < npages
        invariant 1 <= blkno <= npages == |pages| && ValidPages(words, pages) && meta == old(meta)
        invariant Swept(dead, words, was, pages, blkno, notFullPage, removed)
      {
        assert ValidPage(words, pages[blkno]);
        SweptStep(dead, words, was, pages, blkno, notFullPage, removed);
        var buffer := new BloomPageBuffer.Load(words, pages[blkno]);
        var r, notFull := buffer.Vacuum(dead);
        var p := buffer.Image();
        if r > 0 {
          PutIsValid(words, pages, blkno, p);
          pages := pages[blkno := p];
        } else {
          assert pages == pages[blkno := p];
        }
        if notFull && |notFullPage| < META_N {
          notFullPage := notFullPage + [blkno];
        }
        removed := removed + r;
        blkno := blkno + 1;
      }
      SweptAtEnd(dead, words, was, pages, notFullPage, removed);
      meta := Meta(0, |notFullPage|, notFullPage + meta.notFull[|notFullPage|..]);
    }

    /** blvacuumcleanup: reusable pages are recorded as free, and the tuples are counted. */
    method VacuumCleanup() returns (pagesFree: nat, tuples: nat)
      requires Valid()
      modifies `fsm
      ensures Valid() && fsm == old(fsm) + FreeBlocks(pages, |pages|)
      ensures tuples == |All(pages)|
      ensures pagesFree == |FreeBlocks(pages, |pages|)|
    {
      hide LegalLength, ValidPages, Count, All, FreeBlocks;
      pagesFree, tuples := 0, 0;
      var blkno := 1;
      CountOfMetapage(words, pages);
      while blkno < |pages|
        invariant 1 <= blkno <= |pages| && tuples == Count(pages[..blkno])
        invariant pagesFree == |FreeBlocks(pages, blkno)|
        invariant fsm == old(fsm) + FreeBlocks(pages, blkno)
        invariant pages == old(pages) && meta == old(meta)
      {
        PrefixOfMore(pages, blkno);
        FreeBlocksStep(pages, blkno);
        if Reusable(pages[blkno]) {
          ReusableIsEmpty(words, pages, blkno);
          fsm := fsm + {blkno};
          pagesFree := pagesFree + 1;
        } else {
          tuples := tuples + |pages[blkno].tuples|;
        }
        blkno := blkno + 1;
      }
      assert pages[..blkno] == pages;
      CountIsSize(pages);
      FreeBlocksExist(pages);
    }
  }

  // ---------------------------------------------------------------- the loop of VacuumCleanup

  /** The data blocks below n whose page is reusable. */
  function FreeBlocks(ps: seq<Page>, n: nat): set<nat>
    requires n <= |ps|
  {
    set b: nat | 1 <= b < n && Reusable(ps[b])
  }

  lemma FreeBlocksStep(ps: seq<Page>, n: nat)
    requires 1 <= n < |ps|
    ensures FreeBlocks(ps, n + 1) == FreeBlocks(ps, n) + if Reusable(ps[n]) then {n} else {}
    ensures n !in FreeBlocks(ps, n)
  {
  }

  lemma FreeBlocksExist(ps: seq<Page>)
    ensures forall b :: b in FreeBlocks(ps, |ps|) ==> 1 <= b < |ps|
  {
  }

  // ---------------------------------------------------------------- the loop of BulkDelete

  /** Blocks below `n` have been compacted, the others not; the list and the count are right for
      that part. */
  ghost predicate Swept(dead: Tid -> bool, words: nat, was: seq<Page>, now: seq<Page>, n: nat, list: seq<nat>,
        removed: nat)
  {
    && n <= |was| == |now|
    && now[..n] == VacuumedAll(dead, was[..n])
    && now[n..] == was[n..]
    && list == Capped(NotFull(words, now[..n]))
    && removed + Count(now[..n]) == Count(was[..n])
  }

  lemma SweptAtStart(dead: Tid -> bool, words: nat, was: seq<Page>)
    requires ValidPages(words, was)
    ensures Swept(dead, words, was, was, 1, [], 0)
  {
    assert was[..1] == [New] && [New][..0] == [];
    assert VacuumedAll(dead, [New]) == [New];
  }

  lemma VacuumedShrinks(dead: Tid -> bool, words: nat, p: Page)
    requires ValidPage(words, p)
    ensures |Tuples(Vacuumed(dead, p))| <= |Tuples(p)|
    ensures |Tuples(Vacuumed(dead, p))| == |Tuples(p)| ==> Vacuumed(dead, p) == p
  {
    LiveShrinks(dead, Tuples(p));
    LiveMayBeAll(dead, Tuples(p));
  }

  lemma SweptStep(dead: Tid -> bool, words: nat, was: seq<Page>, now: seq<Page>, n: nat, list: seq<nat>, removed: nat)
    requires Swept(dead, words, was, now, n, list, removed) && n < |was|
    requires ValidPage(words, now[n])
    ensures var p := Vacuumed(dead, now[n]);
            && |Tuples(p)| <= |Tuples(now[n])|
            && (|Tuples(p)| == |Tuples(now[n])| ==> p == now[n])
            && ValidPage(words, p)
            && Swept(dead, words, was, now[n := p], n + 1,
                     if 0 < |Tuples(p)| < Capacity(words) && |list| < META_N then list + [n] else list,
                     removed + |Tuples(now[n])| - |Tuples(p)|)
  {
    hide Vacuumed, Capacity, ValidPage, Live, Capped, NotFull, Count;
    var p := Vacuumed(dead, now[n]);
    VacuumedIsValid(dead, words, now[n]);
    VacuumedShrinks(dead, words, now[n]);
    assert now[n] == now[n..][0] == was[n];
    var after := now[n := p];
    assert after[..n + 1] == now[..n] + [p];
    assert was[..n + 1] == was[..n] + [was[n]];
    assert VacuumedAll(dead, was[..n + 1]) == VacuumedAll(dead, was[..n]) + [p];
    assert after[n + 1..] == now[n..][1..] && was[n + 1..] == was[n..][1..];
    CountOfMore(now[..n], p);
    CountOfMore(was[..n], was[n]);
    NotFullOfMore(words, now[..n], p);
  }

  lemma PrefixOfMore(ps: seq<Page>, n: nat)
    requires n < |ps|
    ensures Count(ps[..n + 1]) == Count(ps[..n]) + |Tuples(ps[n])|
  {
    assert ps[..n + 1] == ps[..n] + [ps[n]];
    CountOfMore(ps[..n], ps[n]);
  }

  lemma CountOfMetapage(words: nat, ps: seq<Page>)
    requires ValidPages(words, ps)
    ensures |ps| >= 1 && Count(ps[..1]) == 0 && FreeBlocks(ps, 1) == {}
  {
    assert ps[..1] == [New] && [New][..0] == [];
  }

  lemma CountOfMore(ps: seq<Page>, p: Page)
    ensures Count(ps + [p]) == Count(ps) + |Tuples(p)|
  {
    assert (ps + [p])[..|ps|] == ps;
  }

  lemma NotFullOfMore(words: nat, ps: seq<Page>, p: Page)
    ensures Capped(NotFull(words, ps + [p]))
         == var list := Capped(NotFull(words, ps));
            if 0 < |Tuples(p)| < Capacity(words) && |list| < META_N then list + [|ps|] else list
  {
    assert (ps + [p])[..|ps|] == ps;
    hide Capacity;
  }

  lemma SweptAtEnd(dead: Tid -> bool, words: nat, was: seq<Page>, now: seq<Page>, list: seq<nat>, removed: nat)
    requires Swept(dead, words, was, now, |was|, list, removed) && ValidPages(words, now)
    ensures now == VacuumedAll(dead, was) && removed + Count(now) == Count(was)
    ensures list == Capped(NotFull(words, now)) && |list| <= META_N
    ensures forall k :: 0 <= k < |list| ==> 1 <= list[k] < |now|
  {
    hide ValidPage, VacuumedAll, Count, NotFull;
    assert now[..|was|] == now && was[..|was|] == was;
  }
}
