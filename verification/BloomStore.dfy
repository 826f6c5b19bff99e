/** The pages of a Bloom index together, and its metapage's list of pages that are not full. */
module BloomStore {
  import opened BloomPage

  const META_N := 2004  // BloomMetaBlockN: how many block numbers the metapage holds

  /** The metapage's array of pages that are not full; the entries in use are
      notFull[nStart..nEnd]. */
  datatype Meta = Meta(nStart: nat, nEnd: nat, notFull: seq<nat>)

  /** The list is in bounds and names only data blocks that exist. */
  predicate ValidMeta(meta: Meta, blocks: nat) {
    && meta.nStart <= meta.nEnd <= META_N == |meta.notFull|
    && forall k :: 0 <= k < meta.nEnd ==> 1 <= meta.notFull[k] < blocks
  }

  /** Block b is pages[b]. Block 0 is the metapage: it is kept apart, and New stands in its
      place. */
  predicate ValidPages(words: nat, pages: seq<Page>) {
    |pages| >= 1 && pages[0] == New && forall b :: 0 <= b < |pages| ==> ValidPage(words, pages[b])
  }

  /** All tuples of some pages. */
  function All(ps: seq<Page>): multiset<BloomTuple> {
    if ps == [] then multiset{} else All(ps[..|ps| - 1]) + multiset(Tuples(ps[|ps| - 1]))
  }

  lemma {:induction false} AllSplits(ps: seq<Page>, qs: seq<Page>)
    ensures All(ps + qs) == All(ps) + All(qs)
    decreases |qs|
  {
    hide Tuples;
    if qs == [] {
      assert ps + qs == ps;
    } else {
      AllSplits(ps, qs[..|qs| - 1]);
      assert (ps + qs)[..|ps + qs| - 1] == ps + qs[..|qs| - 1];
    }
  }

  lemma AllOfOne(p: Page)
    ensures All([p]) == multiset(Tuples(p))
  {
    assert [p][..0] == [];
  }

  /** Changing one page changes only its own tuples. */
  lemma AllOfUpdate(ps: seq<Page>, b: nat, p: Page)
    requires b < |ps|
    ensures All(ps) == All(ps[..b]) + multiset(Tuples(ps[b])) + All(ps[b + 1..])
    ensures All(ps[b := p]) == All(ps[..b]) + multiset(Tuples(p)) + All(ps[b + 1..])
  {
    hide All, Tuples;
    assert ps == ps[..b] + [ps[b]] + ps[b + 1..];
    assert ps[b := p] == ps[..b] + [p] + ps[b + 1..];
    AllAround(ps[..b], ps[b], ps[b + 1..]);
    AllAround(ps[..b], p, ps[b + 1..]);
  }

  lemma AllAround(before: seq<Page>, p: Page, after: seq<Page>)
    ensures All(before + [p] + after) == All(before) + multiset(Tuples(p)) + All(after)
  {
    AllOfOne(p);
    hide All, Tuples;
    AllSplits(before + [p], after);
    AllSplits(before, [p]);
  }

  /** A page put at an existing block or just past the end. */
  function Put(ps: seq<Page>, b: nat, p: Page): seq<Page>
    requires b <= |ps|
  {
    if b < |ps| then ps[b := p] else ps + [p]
  }

  /** Putting in a page that has one tuple more than before adds that tuple. */
  lemma AllOfPut(ps: seq<Page>, b: nat, p: Page, t: BloomTuple)
    requires b <= |ps|
    requires multiset(Tuples(p)) == multiset(if b < |ps| then Tuples(ps[b]) else []) + multiset{t}
    ensures All(Put(ps, b, p)) == All(ps) + multiset{t}
  {
    if b < |ps| {
      AllOfUpdate(ps, b, p);
    } else {
      AllSplits(ps, [p]);
      AllOfOne(p);
    }
  }

  /** VACUUM's first part of the work, on all pages. */
  function VacuumedAll(dead: Tid -> bool, ps: seq<Page>): (r: seq<Page>)
    ensures |r| == |ps|
  {
    seq(|ps|, b requires 0 <= b < |ps| => Vacuumed(dead, ps[b]))
  }

  /** Exactly the dead tuples disappear. */
  lemma {:induction false} VacuumedKeepsExactly(dead: Tid -> bool, ps: seq<Page>, t: BloomTuple)
    requires forall b :: 0 <= b < |ps| ==> ps[b].Data? && ps[b].deleted ==> ps[b].tuples == []
    ensures All(VacuumedAll(dead, ps))[t] == if dead(t.tid) then 0 else All(ps)[t]
    decreases |ps|
  {
    if ps != [] {
      VacuumedKeepsExactly(dead, ps[..|ps| - 1], t);
      var after := VacuumedAll(dead, ps);
      assert after[..|ps| - 1] == VacuumedAll(dead, ps[..|ps| - 1]);
      LiveKeepsExactly(dead, Tuples(ps[|ps| - 1]), t);
      assert multiset(Tuples(Vacuumed(dead, ps[|ps| - 1])))[t]
          == if dead(t.tid) then 0 else multiset(Tuples(ps[|ps| - 1]))[t];
      hide Vacuumed, Live, VacuumedAll;
    }
  }

  /** The number of tuples. */
  function Count(ps: seq<Page>): nat {
    if ps == [] then 0 else Count(ps[..|ps| - 1]) + |Tuples(ps[|ps| - 1])|
  }

  lemma {:induction false} CountIsSize(ps: seq<Page>)
    ensures Count(ps) == |All(ps)|
  {
    if ps != [] {
      CountIsSize(ps[..|ps| - 1]);
    }
  }

  // ---------------------------------------------------------------- one insertion

  /** The first entry of the list, from n on, whose page takes the tuple. */
  function FirstWithRoom(words: nat, pages: seq<Page>, meta: Meta, t: BloomTuple, n: nat): (r: nat)
    requires ValidMeta(meta, |pages|) && n <= meta.nEnd
    ensures n <= r <= meta.nEnd
    ensures r < meta.nEnd ==> Placed(words, pages[meta.notFull[r]], t).Some?
    ensures forall k :: n <= k < r ==> Placed(words, pages[meta.notFull[k]], t).None?
    decreases meta.nEnd - n
  {
    if n == meta.nEnd || Placed(words, pages[meta.notFull[n]], t).Some? then n
    else FirstWithRoom(words, pages, meta, t, n + 1)
  }

  /** What an insertion does: the tuple goes to the first page on the list that takes it, and
      the list then starts there; if there is none, it goes to a page not in use, which then
      is all the list has. */
  ghost predicate Inserted(words: nat, t: BloomTuple, was: seq<Page>, wasMeta: Meta, now: seq<Page>, nowMeta: Meta)
    requires ValidMeta(wasMeta, |was|)
  {
    var n := FirstWithRoom(words, was, wasMeta, t, wasMeta.nStart);
    if n < wasMeta.nEnd then
      var b := wasMeta.notFull[n];
      now == was[b := Placed(words, was[b], t).value] && nowMeta == wasMeta.(nStart := n)
    else
      && |nowMeta.notFull| == META_N
      && var b := nowMeta.notFull[0];
      && nowMeta == Meta(0, 1, wasMeta.notFull[0 := b])
      && 1 <= b <= |was|
      && (b < |was| ==> Reusable(was[b]))
      && now == Put(was, b, Data(false, [t]))
  }

  lemma PutIsValid(words: nat, pages: seq<Page>, b: nat, p: Page)
    requires ValidPages(words, pages) && 1 <= b <= |pages| && ValidPage(words, p)
    ensures ValidPages(words, Put(pages, b, p))
  {
    hide ValidPage;
  }

  lemma FreshPageIsValid(words: nat, t: BloomTuple)
    requires LegalLength(words) && |t.sign| == words
    ensures ValidPage(words, Data(false, [t]))
  {
    EmptyPageHasRoom(words);
    hide Capacity;
  }

  /** An insertion adds its tuple, loses none, and keeps the pages and the list valid. */
  lemma InsertedAddsOne(words: nat, t: BloomTuple, was: seq<Page>, wasMeta: Meta, now: seq<Page>, nowMeta: Meta)
    requires LegalLength(words) && |t.sign| == words
    requires ValidPages(words, was) && ValidMeta(wasMeta, |was|)
    requires Inserted(words, t, was, wasMeta, now, nowMeta)
    ensures All(now) == All(was) + multiset{t}
    ensures ValidPages(words, now) && ValidMeta(nowMeta, |now|)
  {
    hide FirstWithRoom, Placed, All, ValidPage, LegalLength;
    var n := FirstWithRoom(words, was, wasMeta, t, wasMeta.nStart);
    if n < wasMeta.nEnd {
      var b := wasMeta.notFull[n];
      var p := Placed(words, was[b], t).value;
      PlacedIsValid(words, was[b], t);
      PutIsValid(words, was, b, p);
      AllOfPut(was, b, p, t);
    } else {
      var b := nowMeta.notFull[0];
      FreshPageIsValid(words, t);
      PutIsValid(words, was, b, Data(false, [t]));
      ReusableIsEmpty(words, was, b);
      AllOfPut(was, b, Data(false, [t]), t);
    }
  }

  lemma ReusableIsEmpty(words: nat, pages: seq<Page>, b: nat)
    requires ValidPages(words, pages) && b <= |pages| && (b < |pages| ==> Reusable(pages[b]))
    ensures b < |pages| ==> Tuples(pages[b]) == []
  {
    assert b < |pages| ==> ValidPage(words, pages[b]);
  }

  // ---------------------------------------------------------------- the list that VACUUM makes

  /** The blocks whose page has both tuples and room, in order. */
  function NotFull(words: nat, ps: seq<Page>): (bs: seq<nat>)
    ensures |bs| <= |ps| && forall k :: 0 <= k < |bs| ==> 0 <= bs[k] < |ps| && Tuples(ps[bs[k]]) != []
  {
    if ps == [] then []
    else
      NotFull(words, ps[..|ps| - 1])
      + if 0 < |Tuples(ps[|ps| - 1])| < Capacity(words) then [|ps| - 1] else []
  }

  function Capped(bs: seq<nat>): seq<nat> {
    if |bs| <= META_N then bs else bs[..META_N]
  }
}
