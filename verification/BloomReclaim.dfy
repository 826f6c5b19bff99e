/** What becomes of a page: where an insertion goes, which pages VACUUM records as free or lists
    as not full, and that in no run a page is lost to both. */
module BloomReclaim {
  import opened Outcomes
  import opened BloomPage
  import opened BloomStore
  import opened BloomIndex
  import opened BloomConcurrent
  import opened BloomRuns
  import opened BloomHistory

  // ---------------------------------------------------------------- where an insertion goes

  predicate HasRoom(words: nat, p: Page) {
    |Tuples(p)| < Capacity(words)
  }

  /** An entry of the list names a page with room. */
  predicate SomeRoom(words: nat, pages: seq<Page>, meta: Meta)
    requires ValidMeta(meta, |pages|)
  {
    exists k: nat :: meta.nStart <= k < meta.nEnd && HasRoom(words, pages[meta.notFull[k]])
  }

  lemma PlacedExactly(words: nat, p: Page, t: BloomTuple)
    requires ValidPage(words, p)
    ensures Placed(words, p, t) == if HasRoom(words, p) then Some(Data(false, Tuples(p) + [t])) else None
  {
  }

  /** After an insertion the list begins with the page that took the tuple, as its last one; no
      other page has changed. If some page of the list had room, it is the first of those, and
      the list has only lost full pages; otherwise it is a page not in use, and all the list. */
  lemma InsertionGoesToFirst(words: nat, t: BloomTuple, was: seq<Page>, wasMeta: Meta, now: seq<Page>, nowMeta: Meta)
    requires ValidPages(words, was) && ValidMeta(wasMeta, |was|)
    requires Inserted(words, t, was, wasMeta, now, nowMeta)
    ensures nowMeta.nStart < nowMeta.nEnd <= |nowMeta.notFull|
    ensures var b := nowMeta.notFull[nowMeta.nStart];
            && 1 <= b < |now| == (if b < |was| then |was| else |was| + 1)
            && Tuples(now[b]) == (if b < |was| then Tuples(was[b]) else []) + [t]
            && !Reusable(now[b])
            && forall c :: 0 <= c < |was| && c != b ==> now[c] == was[c]
    ensures SomeRoom(words, was, wasMeta) ==>
              && nowMeta == wasMeta.(nStart := nowMeta.nStart) && wasMeta.nStart <= nowMeta.nStart
              && HasRoom(words, was[wasMeta.notFull[nowMeta.nStart]])
              && forall k :: wasMeta.nStart <= k < nowMeta.nStart ==> !HasRoom(words, was[wasMeta.notFull[k]])
    ensures !SomeRoom(words, was, wasMeta) ==>
              && nowMeta.nStart == 0 && nowMeta.nEnd == 1
              && (nowMeta.notFull[0] < |was| ==> Reusable(was[nowMeta.notFull[0]]))
  {
    hide HasRoom, Placed, ValidPage;
    var n := FirstWithRoom(words, was, wasMeta, t, wasMeta.nStart);
    forall k: nat | wasMeta.nStart <= k < wasMeta.nEnd
      ensures Placed(words, was[wasMeta.notFull[k]], t)
           == if HasRoom(words, was[wasMeta.notFull[k]]) then Some(Data(false, Tuples(was[wasMeta.notFull[k]]) + [t]))
              else None
    {
      PlacedExactly(words, was[wasMeta.notFull[k]], t);
    }
    if n >= wasMeta.nEnd {
      ReusableIsEmpty(words, was, nowMeta.notFull[0]);
    }
  }

  // ---------------------------------------------------------------- what VACUUM empties

  predicate AllDead(dead: Tid -> bool, ts: seq<BloomTuple>) {
    forall i :: 0 <= i < |ts| ==> dead(ts[i].tid)
  }

  lemma {:induction false} EmptyIfAllDead(dead: Tid -> bool, ts: seq<BloomTuple>)
    ensures Live(dead, ts) == [] <==> AllDead(dead, ts)
  {
    if ts != [] {
      EmptyIfAllDead(dead, ts[..|ts| - 1]);
      assert dead(ts[|ts| - 1].tid) && AllDead(dead, ts[..|ts| - 1]) ==> AllDead(dead, ts);
    }
  }

  /** A page can be reused after VACUUM exactly if it could be before, or had tuples and has lost
      all of them. */
  lemma EmptiedExactly(dead: Tid -> bool, words: nat, p: Page)
    requires ValidPage(words, p)
    ensures Reusable(Vacuumed(dead, p)) <==> Reusable(p) || (p.tuples != [] && AllDead(dead, p.tuples))
  {
    if !Reusable(p) {
      EmptyIfAllDead(dead, p.tuples);
    }
  }

  /** After blbulkdelete and blvacuumcleanup, the blocks recorded as free are those that could be
      reused before, and those that had tuples of which none is left. */
  lemma FreedExactly(dead: Tid -> bool, words: nat, was: seq<Page>, b: nat)
    requires ValidPages(words, was)
    ensures b in FreeBlocks(VacuumedAll(dead, was), |was|)
       <==> 1 <= b < |was| && (Reusable(was[b]) || (Tuples(was[b]) != [] && AllDead(dead, Tuples(was[b]))))
  {
    hide ValidPage, Vacuumed, AllDead;
    if 1 <= b < |was| {
      EmptiedExactly(dead, words, was[b]);
      assert VacuumedAll(dead, was)[b] == Vacuumed(dead, was[b]);
    }
  }

  /** The list names each page that has both tuples and room, once and in order. */
  lemma {:induction false} ListedExactly(words: nat, ps: seq<Page>)
    ensures forall b :: b in NotFull(words, ps) <==> 0 <= b < |ps| && 0 < |Tuples(ps[b])| < Capacity(words)
    ensures forall i, j :: 0 <= i < j < |NotFull(words, ps)| ==> NotFull(words, ps)[i] < NotFull(words, ps)[j]
  {
    hide Tuples, Capacity;
    if ps != [] {
      ListedExactly(words, ps[..|ps| - 1]);
    }
  }

  /** The metapage takes the first 2004 of them. */
  lemma CappedExactly(bs: seq<nat>)
    ensures Capped(bs) <= bs && (Capped(bs) == bs || |Capped(bs)| == META_N)
  {
  }

  // ---------------------------------------------------------------- no page is lost

  /** Every page is new, deleted, or has tuples. */
  predicate NoneIdle(ps: seq<Page>) {
    forall b :: 0 <= b < |ps| ==> ps[b] != Data(false, [])
  }

  /** After VACUUM each data block is free, listed as not full, or full. */
  lemma EachAccountedFor(dead: Tid -> bool, words: nat, was: seq<Page>, b: nat)
    requires ValidPages(words, was) && NoneIdle(was) && 1 <= b < |was|
    ensures var now := VacuumedAll(dead, was);
            b in FreeBlocks(now, |now|) || b in NotFull(words, now) || |Tuples(now[b])| == Capacity(words)
  {
    hide ValidPage, Vacuumed, NotFull, Capacity;
    var now := VacuumedAll(dead, was);
    assert now[b] == Vacuumed(dead, was[b]);
    ListedExactly(words, now);
    VacuumLeavesNoneIdle(dead, words, was[b]);
  }

  lemma VacuumLeavesNoneIdle(dead: Tid -> bool, words: nat, p: Page)
    requires ValidPage(words, p) && p != Data(false, [])
    ensures var q := Vacuumed(dead, p); q != Data(false, []) && |Tuples(q)| <= Capacity(words)
    ensures var q := Vacuumed(dead, p); Reusable(q) || Tuples(q) != []
  {
    VacuumedIsValid(dead, words, p);
  }

  lemma StepLeavesNoneIdle(words: nat, s: State, a: Action)
    requires Shape(words, s) && Enabled(words, s, a) && NoneIdle(s.pages)
    ensures NoneIdle(After(words, s, a).pages)
  {
    hide LegalLength, ValidPages, ValidPage, Placed, Vacuumed, All, Reusable, Tuples;
    match a
    case VacuumPage =>
      PageOk(words, s, s.vacuum.blkno);
      VacuumLeavesNoneIdle(s.vacuum.dead, words, s.pages[s.vacuum.blkno]);
    case TryPage(i) =>
      assert PhaseOk(s, i);
      PlacedHasTuples(words, s.pages[s.inserters[i].phase.blkno], s.inserters[i].t);
    case Walk(i) =>
      PlacedHasTuples(words, s.pages[s.meta.notFull[s.inserters[i].phase.n]], s.inserters[i].t);
    case _ =>
  }

  lemma PlacedHasTuples(words: nat, p: Page, t: BloomTuple)
    ensures Placed(words, p, t).Some? ==> Placed(words, p, t).value != Data(false, [])
  {
  }

  /** In every run, however the steps interleave, each page stays new, deleted or filled: so the
      next pass of VACUUM will find a use for each page that is not full. */
  lemma {:induction false} NoPageIsLost(words: nat, s: State, actions: seq<Action>)
    requires Shape(words, s) && CanRun(words, s, actions) && NoneIdle(s.pages)
    ensures NoneIdle(Final(words, s, actions).pages)
    decreases |actions|
  {
    hide Shape, Enabled, After, NoneIdle;
    if actions != [] {
      StepLeavesNoneIdle(words, s, actions[0]);
      StepKeepsShape(words, s, actions[0]);
      NoPageIsLost(words, After(words, s, actions[0]), actions[1..]);
    }
  }

  // ---------------------------------------------------------------- VACUUM alone

  lemma RunAfter(words: nat, s: State, a: Action, rest: seq<Action>)
    requires Shape(words, s) && Enabled(words, s, a)
    requires Shape(words, After(words, s, a)) && CanRun(words, After(words, s, a), rest)
    ensures CanRun(words, s, [a] + rest)
    ensures Final(words, s, [a] + rest) == Final(words, After(words, s, a), rest)
  {
    hide Shape, Enabled, After;
    assert ([a] + rest)[1..] == rest;
  }

  lemma NothingToRun(words: nat, s: State)
    requires Shape(words, s)
    ensures CanRun(words, s, []) && Final(words, s, []) == s
  {
  }

  /** The outcome of blbulkdelete, as Index.BulkDelete states it. */
  predicate BulkDeleted(dead: Tid -> bool, words: nat, was: seq<Page>, r: State) {
    && r.vacuum.Idle?
    && r.pages == VacuumedAll(dead, was)
    && var list := Capped(NotFull(words, r.pages));
       r.meta.nStart == 0 && r.meta.nEnd == |list| <= |r.meta.notFull| && r.meta.notFull[..r.meta.nEnd] == list
  }

  /** The rest of a pass that nobody disturbs. */
  lemma {:induction false} PassCompletes(words: nat, dead: Tid -> bool, was: seq<Page>, s: State, removed: nat)
    returns (actions: seq<Action>)
    requires Shape(words, s) && s.lock == None && s.vacuum.Sweeping? && s.vacuum.dead == dead
    requires s.vacuum.npages == |was| && Swept(dead, words, was, s.pages, s.vacuum.blkno, s.vacuum.list, removed)
    ensures CanRun(words, s, actions) && |actions| == s.vacuum.npages - s.vacuum.blkno + 1
    ensures var r := Final(words, s, actions); BulkDeleted(dead, words, was, r) && r.inserters == s.inserters
    decreases s.vacuum.npages - s.vacuum.blkno
  {
    hide LegalLength, ValidPages, ValidMeta, CanRun, Swept, VacuumedAll, NotFull, Capped, Vacuumed, Capacity, Tuples;
    var v := s.vacuum;
    if v.blkno == v.npages {
      StepKeepsShape(words, s, FinishVacuum);
      SweptAtEnd(dead, words, was, s.pages, v.list, removed);
      NothingToRun(words, After(words, s, FinishVacuum));
      RunAfter(words, s, FinishVacuum, []);
      actions := [FinishVacuum] + [];
    } else {
      PageOk(words, s, v.blkno);
      SweptStep(dead, words, was, s.pages, v.blkno, v.list, removed);
      var p := Vacuumed(dead, s.pages[v.blkno]);
      StepKeepsShape(words, s, VacuumPage);
      var s1 := After(words, s, VacuumPage);
      actions := PassCompletes(words, dead, was, s1, removed + |Tuples(s.pages[v.blkno])| - |Tuples(p)|);
      RunAfter(words, s, VacuumPage, actions);
      actions := [VacuumPage] + actions;
    }
  }

  /** A pass of VACUUM that nobody disturbs visits each page once and ends with the outcome of the
      whole operation: every page compacted, and the list made anew of the pages found with
      room. */
  lemma AloneVacuums(words: nat, dead: Tid -> bool, s: State) returns (actions: seq<Action>)
    requires Shape(words, s) && s.lock == None && s.vacuum.Idle?
    ensures CanRun(words, s, actions) && |actions| == |s.pages| + 1
    ensures var r := Final(words, s, actions); BulkDeleted(dead, words, s.pages, r) && r.inserters == s.inserters
  {
    hide LegalLength, CanRun, Swept, BulkDeleted, ValidMeta;
    var s1 := After(words, s, StartVacuum(dead));
    StepKeepsShape(words, s, StartVacuum(dead));
    SweptAtStart(dead, words, s.pages);
    actions := PassCompletes(words, dead, s.pages, s1, 0);
    RunAfter(words, s, StartVacuum(dead), actions);
    actions := [StartVacuum(dead)] + actions;
  }
}
