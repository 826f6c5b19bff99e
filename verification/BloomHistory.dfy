/** Whole runs of a Bloom index in use: no interleaving of insertions, VACUUM and scans loses
    a tuple, keeps a dead one, or hides one from a scan. */
module BloomHistory {
  import opened BloomSignature
  import opened BloomPage
  import opened BloomStore
  import opened BloomScan
  import opened BloomConcurrent
  import opened BloomRuns

  /** At first nothing is going on; the insertions have only formed their tuples. */
  predicate Initial(words: nat, s: State) {
    && Shape(words, s)
    && (forall i :: 0 <= i < |s.inserters| ==> s.inserters[i].phase.Ready?)
    && s.vacuum.Idle? && s.scan.Off? && s.removed == multiset{}
  }

  predicate CanRun(words: nat, s: State, actions: seq<Action>)
    requires Shape(words, s)
    decreases |actions|
  {
    actions == []
    || (Enabled(words, s, actions[0])
        && (StepKeepsShape(words, s, actions[0]); CanRun(words, After(words, s, actions[0]), actions[1..])))
  }

  function Final(words: nat, s: State, actions: seq<Action>): State
    requires Shape(words, s) && CanRun(words, s, actions)
    decreases |actions|
  {
    if actions == [] then s
    else
      StepKeepsShape(words, s, actions[0]);
      Final(words, After(words, s, actions[0]), actions[1..])
  }

  lemma {:induction false} RunKeeps(words: nat, s: State, actions: seq<Action>, base: nat, t: BloomTuple)
    requires Shape(words, s) && CanRun(words, s, actions) && Kept(s, base, t)
    ensures var r := Final(words, s, actions); Shape(words, r) && Kept(r, base, t)
    decreases |actions|
  {
    hide Shape, Enabled, After, Kept;
    if actions != [] {
      StepKeeps(words, s, actions[0], base, t);
      RunKeeps(words, After(words, s, actions[0]), actions[1..], base, t);
    }
  }

  lemma InitiallyKept(words: nat, s: State, t: BloomTuple)
    requires Initial(words, s)
    ensures Kept(s, All(s.pages)[t], t)
  {
    hide CountIn, All, LegalLength, ValidPages, ValidMeta;
    CountIsWhole(s.pages, t);
    NoneDone(s.inserters, t);
  }

  lemma {:induction false} NoneDone(xs: seq<Inserter>, t: BloomTuple)
    requires forall i :: 0 <= i < |xs| ==> xs[i].phase.Ready?
    ensures DoneCount(xs, t) == 0
  {
    if xs != [] {
      NoneDone(xs[..|xs| - 1], t);
    }
  }

  /** Every run, however the steps interleave: the tuples in the index and those removed are
      those of the beginning and those whose insertion is done, each counted as often as it
      occurs. All pages and the metapage's list are valid. */
  lemma NothingIsLost(words: nat, s: State, actions: seq<Action>, t: BloomTuple)
    requires Initial(words, s) && CanRun(words, s, actions)
    ensures var r := Final(words, s, actions);
            && Shape(words, r)
            && All(r.pages)[t] + r.removed[t] == All(s.pages)[t] + DoneCount(r.inserters, t)
  {
    hide Enabled, After, CanRun, Final, ValidPages, ValidMeta, InsertersOk, LegalLength;
    InitiallyKept(words, s, t);
    RunKeeps(words, s, actions, All(s.pages)[t], t);
    CountIsWhole(Final(words, s, actions).pages, t);
    hide CountIn, All, DoneCount;
  }

  // ---------------------------------------------------------------- what is removed

  /** No pass of VACUUM in the run wants this heap pointer removed. */
  predicate Wanted(actions: seq<Action>, tid: Tid) {
    forall k :: 0 <= k < |actions| && actions[k].StartVacuum? ==> !actions[k].dead(tid)
  }

  predicate NotRemoved(s: State, t: BloomTuple) {
    s.removed[t] == 0 && (s.vacuum.Sweeping? ==> !s.vacuum.dead(t.tid))
  }

  lemma StepRemovesOnlyDead(words: nat, s: State, a: Action, t: BloomTuple)
    requires Shape(words, s) && Enabled(words, s, a)
    requires NotRemoved(s, t) && (a.StartVacuum? ==> !a.dead(t.tid))
    ensures NotRemoved(After(words, s, a), t)
  {
    hide LegalLength, ValidPages, ValidPage, Placed, Vacuumed, All, FoundOn, Reusable, Tuples;
    match a
    case VacuumPage =>
      PageOk(words, s, s.vacuum.blkno);
      VacuumedCopies(s.vacuum.dead, words, s.pages[s.vacuum.blkno], t);
    case _ =>
  }

  lemma {:induction false} RunRemovesOnlyDead(words: nat, s: State, actions: seq<Action>, t: BloomTuple)
    requires Shape(words, s) && CanRun(words, s, actions)
    requires NotRemoved(s, t) && Wanted(actions, t.tid)
    ensures Final(words, s, actions).removed[t] == 0
    decreases |actions|
  {
    hide Shape, Enabled, After;
    if actions != [] {
      StepRemovesOnlyDead(words, s, actions[0], t);
      StepKeepsShape(words, s, actions[0]);
      assert Wanted(actions[1..], t.tid);
      RunRemovesOnlyDead(words, After(words, s, actions[0]), actions[1..], t);
    }
  }

  /** A tuple that no pass of VACUUM wants removed occurs in the end as often as at first, and
      once more for each time it has been inserted. */
  lemma LiveTuplesStay(words: nat, s: State, actions: seq<Action>, t: BloomTuple)
    requires Initial(words, s) && CanRun(words, s, actions) && Wanted(actions, t.tid)
    ensures var r := Final(words, s, actions);
            All(r.pages)[t] == All(s.pages)[t] + DoneCount(r.inserters, t)
  {
    NothingIsLost(words, s, actions, t);
    RunRemovesOnlyDead(words, s, actions, t);
    hide CanRun, Final, All, DoneCount, LegalLength, ValidPages, ValidMeta, InsertersOk, Enabled, After;
  }

  /** When a pass of VACUUM has visited its pages, a dead tuple is left at most as often as it
      has been inserted since the pass began: whatever there was at the beginning is gone. */
  lemma DeadTuplesGo(words: nat, s: State, actions: seq<Action>, t: BloomTuple)
    requires Initial(words, s) && CanRun(words, s, actions)
    ensures var r := Final(words, s, actions);
            r.vacuum.Sweeping? && r.vacuum.blkno == r.vacuum.npages && r.vacuum.dead(t.tid) ==>
              All(r.pages)[t] <= r.vacuum.added[t]
  {
    hide Enabled, After, CanRun, Final, ValidPages, ValidMeta, InsertersOk, LegalLength, CountIn, All, DoneCount;
    InitiallyKept(words, s, t);
    RunKeeps(words, s, actions, All(s.pages)[t], t);
    var r := Final(words, s, actions);
    CountIsWhole(r.pages, t);
    if r.vacuum.Sweeping? {
      CountSplits(r.pages, 0, r.vacuum.npages, |r.pages|, t);
    }
  }

  // ---------------------------------------------------------------- what a scan reports

  /** The bitmap has the pointers of exactly those tuples looked at that pass the test. */
  ghost predicate BitmapOk(s: State) {
    s.scan.Reading? ==>
      forall tid :: tid in s.scan.tids <==>
        exists t :: t in s.scan.seen && t.tid == tid && Passes(t, s.scan.query)
  }

  lemma StepKeepsBitmap(words: nat, s: State, a: Action)
    requires Shape(words, s) && Enabled(words, s, a) && BitmapOk(s)
    ensures BitmapOk(After(words, s, a))
  {
    hide LegalLength, ValidPages, ValidPage, Placed, Vacuumed, All, FoundOn, Reusable, Tuples, Passes, Capacity;
    match a
    case ScanPage => ScanPageKeepsBitmap(s);
    case StartScan(query) =>
    case EndScan =>
    case _ => assert After(words, s, a).scan == s.scan;
  }

  lemma ScanPageKeepsBitmap(s: State)
    requires s.scan.Reading? && s.scan.blkno < |s.pages| && BitmapOk(s)
    ensures BitmapOk(AfterScanPage(s))
  {
    hide FoundOn, Passes, Tuples;
    var r, ts := AfterScanPage(s), Tuples(s.pages[s.scan.blkno]);
    forall tid ensures tid in r.scan.tids <==> exists t :: t in r.scan.seen && t.tid == tid && Passes(t, s.scan.query) {
      FoundOnExactly(ts, s.scan.query, tid);
      assert forall t :: t in r.scan.seen <==> t in s.scan.seen || t in multiset(ts);
    }
  }

  lemma {:induction false} RunKeepsBitmap(words: nat, s: State, actions: seq<Action>)
    requires Shape(words, s) && CanRun(words, s, actions) && BitmapOk(s)
    ensures BitmapOk(Final(words, s, actions))
    decreases |actions|
  {
    hide Shape, Enabled, After, BitmapOk;
    if actions != [] {
      StepKeepsBitmap(words, s, actions[0]);
      StepKeepsShape(words, s, actions[0]);
      RunKeepsBitmap(words, After(words, s, actions[0]), actions[1..]);
    }
  }

  /** A scan at its end has found every passing tuple that was in the index when it began and
      of which not all copies have been removed since, whatever went on meanwhile. */
  lemma ScanMissesNothing(words: nat, s: State, actions: seq<Action>, t: BloomTuple)
    requires Initial(words, s) && CanRun(words, s, actions)
    ensures var r := Final(words, s, actions);
            (r.scan.Reading? && r.scan.blkno == r.scan.npages && Passes(t, r.scan.query)
             && r.scan.start[t] + r.scan.gone[t] > r.removed[t])
            ==> t.tid in r.scan.tids
  {
    hide Enabled, After, CanRun, Final, ValidPages, ValidMeta, InsertersOk, LegalLength, CountIn, All, DoneCount,
         Passes;
    InitiallyKept(words, s, t);
    RunKeeps(words, s, actions, All(s.pages)[t], t);
    RunKeepsBitmap(words, s, actions);
    var r := Final(words, s, actions);
    if r.scan.Reading? {
      CountOfNothing(r.pages, r.scan.npages, t);
    }
  }

  /** A scan reports only pointers of tuples that pass the test and that are in the index or
      have been removed from it. */
  lemma ScanInventsNothing(words: nat, s: State, actions: seq<Action>, tid: Tid)
    requires Initial(words, s) && CanRun(words, s, actions)
    ensures var r := Final(words, s, actions);
            r.scan.Reading? && tid in r.scan.tids ==>
              exists t: BloomTuple :: t.tid == tid && Passes(t, r.scan.query) && t in All(r.pages) + r.removed
  {
    hide Enabled, After, CanRun, Final, ValidPages, ValidMeta, InsertersOk, LegalLength, CountIn, All, DoneCount,
         Passes;
    RunKeepsBitmap(words, s, actions);
    var r := Final(words, s, actions);
    if r.scan.Reading? && tid in r.scan.tids {
      var t :| t in r.scan.seen && t.tid == tid && Passes(t, r.scan.query);
      InitiallyKept(words, s, t);
      RunKeeps(words, s, actions, All(s.pages)[t], t);
      CountIsWhole(r.pages, t);
      assert t in All(r.pages) + r.removed;
    }
  }

  /** In particular a row whose columns have the hashes sought, and which VACUUM leaves alone,
      is reported even while other processes insert and VACUUM runs. */
  lemma EqualRowIsReported(words: nat, s: State, actions: seq<Action>, t: BloomTuple, hashes: Hashes, bits: BitCounts,
        keys: seq<ScanKey>)
    requires Initial(words, s) && CanRun(words, s, actions) && Wanted(actions, t.tid)
    requires words > 0 && Signable(hashes) && |hashes| <= |bits| && t.sign == SignColumns(words, hashes, bits, |hashes|)
    requires Searchable(keys) && Satisfies(hashes, keys)
    ensures var r := Final(words, s, actions);
            (r.scan.Reading? && r.scan.blkno == r.scan.npages && t in r.scan.start
             && r.scan.query == SignKeys(words, keys, bits, |keys|))
            ==> t.tid in r.scan.tids
  {
    NoFalseNegatives(words, hashes, bits, keys, |keys|);
    ScanMissesNothing(words, s, actions, t);
    RunRemovesOnlyDead(words, s, actions, t);
    hide CanRun, Final, Enabled, After, Shape, SignKeys, SignColumns, Matches, Stuck;
  }
}
