/** Building a Bloom index: tuples are gathered on a cached page, which is written out when it
    is full. */
module BloomBuild {
  import opened BloomPage
  import opened BloomStore
  import opened BloomIndex

  /** The tuples of some pages, one page after the other. */
  function Laid(ps: seq<Page>): seq<BloomTuple> {
    if ps == [] then [] else Laid(ps[..|ps| - 1]) + Tuples(ps[|ps| - 1])
  }

  lemma LaidMore(ps: seq<Page>, p: Page)
    ensures Laid(ps + [p]) == Laid(ps) + Tuples(p)
  {
    assert (ps + [p])[..|ps|] == ps;
  }

  /** The order of tuples aside, this is the index's contents. */
  lemma {:induction false} LaidIsAll(ps: seq<Page>)
    ensures multiset(Laid(ps)) == All(ps)
  {
    if ps != [] {
      LaidIsAll(ps[..|ps| - 1]);
    }
  }

  /** Pages as the build writes them: all full, except that the last one need not be. */
  predicate Packed(words: nat, ps: seq<Page>) {
    && |ps| >= 1 && ps[0] == New
    && (forall b :: 1 <= b < |ps| ==> ps[b].Data? && !ps[b].deleted && ps[b].tuples != [])
    && forall b :: 1 <= b < |ps| - 1 ==> |ps[b].tuples| == Capacity(words)
  }

  /** Packed, and even the last page full, so that another page may follow. */
  predicate AllFull(words: nat, ps: seq<Page>) {
    Packed(words, ps) && (|ps| > 1 ==> |Tuples(ps[|ps| - 1])| == Capacity(words))
  }

  predicate Sized(words: nat, ts: seq<BloomTuple>) {
    forall i :: 0 <= i < |ts| ==> |ts[i].sign| == words
  }

  class BuildState {
    const index: Index
    const data: BloomPageBuffer  // the cached page
    var count: nat               // the number of tuples on it
    var indtuples: nat

    /** What has been written and what is cached are, in order, the tuples received. */
    ghost predicate Valid(given: seq<BloomTuple>)
      reads this, index, data, data.data
    {
      && index.Valid() && data.Valid() && data.words == index.words
      && data.View().Data? && !data.View().deleted
      && count == |data.View().tuples|
      && indtuples == |given|
      && given == Laid(index.pages) + data.View().tuples
      && Sized(index.words, given)
      && AllFull(index.words, index.pages)
      && (count == 0 ==> given == [])
      && index.fsm == {} && index.meta.nStart == index.meta.nEnd == 0
    }

    constructor (words: nat)
      requires LegalLength(words)
      ensures Valid([]) && fresh(index) && fresh(data) && fresh(data.data) && index.words == words
    {
      index := new Index(words);
      data := new BloomPageBuffer(words);
      count, indtuples := 0, 0;
      new;
      data.Init();
      LaidMore([], New);
      assert [] + [New] == [New];
    }

    /** flushCachedPage */
    method FlushCachedPage()
      requires index.Valid() && index.fsm == {} && data.Valid() && data.words == index.words
      requires ValidPage(index.words, data.View())
      modifies index
      ensures index.Valid() && index.fsm == {} && index.meta == old(index.meta)
      ensures index.pages == old(index.pages) + [data.View()]
    {
      hide LegalLength, ValidPage;
      ghost var was := index.pages;
      var b := index.NewBuffer();
      var p := data.Image();
      PutIsValid(index.words, index.pages, b, p);
      index.pages := index.pages[b := p];
      assert index.pages == was + [p];
    }

    /** bloomBuildCallback. The error that an empty page has no room does not occur. */
    method Callback(itup: BloomTuple, ghost given: seq<BloomTuple>) returns (ok: bool)
      requires Valid(given) && |itup.sign| == index.words
      modifies this, index, data, data.data
      ensures ok && Valid(given + [itup])
    {
      hide LegalLength, Laid, ValidPages, AllFull;
      EmptyPageHasRoom(index.words);
      ghost var was := data.View();
      var added := data.AddItem(itup);
      if added {
        count := count + 1;
      } else {
        CachedPageIsValid(index.words, given, Laid(index.pages), was);
        ghost var pages := index.pages;
        FlushCachedPage();
        FlushedIsFull(index.words, pages, was);
        data.Init();
        count := 0;
        ok := data.AddItem(itup);
        if !ok {
          return;
        }
        count := count + 1;
      }
      indtuples := indtuples + 1;
      ok := true;
      assert given + [itup] == Laid(index.pages) + data.View().tuples;
    }
  }

  lemma CachedPageIsValid(words: nat, given: seq<BloomTuple>, before: seq<BloomTuple>, p: Page)
    requires p.Data? && !p.deleted && |p.tuples| <= Capacity(words)
    requires given == before + p.tuples && Sized(words, given)
    ensures ValidPage(words, p)
  {
    forall i | 0 <= i < |p.tuples| ensures |p.tuples[i].sign| == words {
      assert p.tuples[i] == given[|before| + i];
    }
  }

  lemma FlushedIsFull(words: nat, ps: seq<Page>, p: Page)
    requires AllFull(words, ps) && p.Data? && !p.deleted && |p.tuples| == Capacity(words) && p.tuples != []
    ensures AllFull(words, ps + [p]) && Laid(ps + [p]) == Laid(ps) + p.tuples
  {
    hide Capacity;
    LaidMore(ps, p);
  }

  lemma FlushedIsPacked(words: nat, ps: seq<Page>, p: Page)
    requires AllFull(words, ps) && p.Data? && !p.deleted && p.tuples != []
    ensures Packed(words, ps + [p]) && Laid(ps + [p]) == Laid(ps) + p.tuples
  {
    hide Capacity;
    LaidMore(ps, p);
  }

  /** blbuild: the index holds the tuples of the heap scan in order, on full pages as far as
      they go, and none is counted twice or left out. */
  method Build(words: nat, input: seq<BloomTuple>) returns (index: Index, indexTuples: nat)
    requires LegalLength(words) && Sized(words, input)
    ensures fresh(index) && index.Valid() && index.words == words
    ensures Laid(index.pages) == input && indexTuples == |input| && All(index.pages) == multiset(input)
    ensures Packed(words, index.pages)
    ensures index.fsm == {} && index.meta.nStart == index.meta.nEnd == 0
  {
    hide LegalLength, Laid, ValidPages, All, AllFull, Packed;
    var state := new BuildState(words);
    var i := 0;
    while i < |input|
      invariant 0 <= i <= |input| && state.Valid(input[..i])
      invariant state.index.words == words
      invariant fresh(state) && fresh(state.index) && fresh(state.data) && fresh(state.data.data)
    {
      var ok := state.Callback(input[i], input[..i]);
      assert input[..i + 1] == input[..i] + [input[i]];
      i := i + 1;
    }
    assert input[..i] == input;
    index := state.index;
    ghost var before := index.pages;
    if state.count > 0 {
      CachedPageIsValid(words, input, Laid(before), state.data.View());
      state.FlushCachedPage();
      FlushedIsPacked(words, before, state.data.View());
    } else {
      FullIsPacked(words, before);
    }
    LaidIsAll(index.pages);
    indexTuples := state.indtuples;
  }

  lemma FullIsPacked(words: nat, ps: seq<Page>)
    requires AllFull(words, ps)
    ensures Packed(words, ps)
  {
  }
}
