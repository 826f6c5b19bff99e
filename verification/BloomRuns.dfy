/** What holds in every state that insertions, VACUUM and scans can reach together. */
module BloomRuns {
  import opened Outcomes
  import opened BloomPage
  import opened BloomStore
  import opened BloomScan
  import opened BloomConcurrent

  // ---------------------------------------------------------------- every step keeps the shape

  /** An insertion that changes only its own phase. */
  lemma MovedShape(words: nat, s: State, i: nat, phase: Phase)
    requires Shape(words, s) && i < |s.inserters| && !s.inserters[i].phase.Walking?
    requires phase.Trying? ==> 1 <= phase.blkno < |s.pages|
    requires !phase.Walking?
    ensures Shape(words, Moved(s, i, phase))
  {
    hide LegalLength, ValidPages, ValidMeta;
    forall j | 0 <= j < |s.inserters| ensures PhaseOk(Moved(s, i, phase), j) {
      assert PhaseOk(s, j);
    }
  }

  /** The same for an insertion that has taken, or has, the lock. */
  lemma WalkingShape(words: nat, s: State, i: nat, n: nat)
    requires Shape(words, s) && i < |s.inserters|
    requires s.lock == None || s.lock == Some(i)
    requires s.meta.nStart <= n <= s.meta.nEnd
    ensures Shape(words, Moved(s, i, Walking(n)).(lock := Some(i)))
  {
    hide LegalLength, ValidPages, ValidMeta;
    forall j | 0 <= j < |s.inserters| ensures PhaseOk(Moved(s, i, Walking(n)).(lock := Some(i)), j) {
      assert PhaseOk(s, j);
    }
  }

  /** An insertion that ends. If it has the lock, it may leave another list. */
  lemma LandedShape(words: nat, s: State, i: nat, b: nat, p: Page, lock: Option<nat>, meta: Meta)
    requires Shape(words, s) && i < |s.inserters| && 1 <= b < |s.pages| && ValidPage(words, p)
    requires ValidMeta(meta, |s.pages|)
    requires if s.lock == Some(i) then lock == None else lock == s.lock && meta == s.meta
    ensures Shape(words, Landed(s, i, b, p).(meta := meta, lock := lock))
  {
    hide LegalLength, ValidPages, ValidMeta, ValidPage;
    var r := Landed(s, i, b, p).(meta := meta, lock := lock);
    LandedPages(words, s.pages, b, p);
    forall j | 0 <= j < |s.inserters| ensures PhaseOk(r, j) {
      assert PhaseOk(s, j);
    }
  }

  lemma LandedPages(words: nat, pages: seq<Page>, b: nat, p: Page)
    requires ValidPages(words, pages) && 1 <= b < |pages| && ValidPage(words, p)
    ensures ValidPages(words, pages[b := p])
  {
    hide ValidPage;
  }

  lemma TryPageShape(words: nat, s: State, i: nat)
    requires Shape(words, s) && Enabled(words, s, TryPage(i))
    ensures Shape(words, After(words, s, TryPage(i)))
  {
    hide LegalLength, ValidPages, Placed, ValidPage;
    assert PhaseOk(s, i);
    var b := s.inserters[i].phase.blkno;
    PageOk(words, s, b);
    PlacedIsValid(words, s.pages[b], s.inserters[i].t);
    match Placed(words, s.pages[b], s.inserters[i].t)
    case Some(p) => LandedShape(words, s, i, b, p, s.lock, s.meta);
    case None => MovedShape(words, s, i, NeedsMeta(Some(b)));
  }

  lemma WalkShape(words: nat, s: State, i: nat)
    requires Shape(words, s) && Enabled(words, s, Walk(i))
    ensures Shape(words, After(words, s, Walk(i)))
  {
    hide LegalLength, ValidPages, Placed, ValidPage;
    assert PhaseOk(s, i);
    var n := s.inserters[i].phase.n;
    var b := s.meta.notFull[n];
    PageOk(words, s, b);
    PlacedIsValid(words, s.pages[b], s.inserters[i].t);
    match Placed(words, s.pages[b], s.inserters[i].t)
    case Some(p) => LandedShape(words, s, i, b, p, None, s.meta.(nStart := n));
    case None =>
      WalkingShape(words, s, i, n + 1);
      assert Moved(s, i, Walking(n + 1)).(lock := Some(i)) == Moved(s, i, Walking(n + 1));
  }

  lemma PageOk(words: nat, s: State, b: nat)
    requires Shape(words, s) && b < |s.pages|
    ensures ValidPage(words, s.pages[b])
  {
    hide LegalLength, ValidMeta, ValidPage;
  }

  lemma NewPageShape(words: nat, s: State, i: nat, b: nat)
    requires Shape(words, s) && Enabled(words, s, NewPage(i, b))
    ensures Shape(words, After(words, s, NewPage(i, b)))
  {
    hide LegalLength, ValidPages, ValidPage, Reusable;
    assert PhaseOk(s, i);
    FreshPageIsValid(words, s.inserters[i].t);
    LandedShape(words, s, i, b, Data(false, [s.inserters[i].t]), None, Meta(0, 1, s.meta.notFull[0 := b]));
  }

  lemma ExtendShape(words: nat, s: State, i: nat)
    requires Shape(words, s) && Enabled(words, s, Extend(i))
    ensures Shape(words, After(words, s, Extend(i)))
  {
    hide LegalLength, Reusable;
    var r := After(words, s, Extend(i));
    forall j | 0 <= j < |s.inserters| ensures PhaseOk(r, j) {
      assert PhaseOk(s, j);
    }
  }

  lemma VacuumPageShape(words: nat, s: State)
    requires Shape(words, s) && Enabled(words, s, VacuumPage)
    ensures Shape(words, After(words, s, VacuumPage))
  {
    hide LegalLength, ValidPages, ValidPage, Vacuumed, Capacity;
    var v := s.vacuum;
    PageOk(words, s, v.blkno);
    VacuumedIsValid(v.dead, words, s.pages[v.blkno]);
    LandedPages(words, s.pages, v.blkno, Vacuumed(v.dead, s.pages[v.blkno]));
    var r := After(words, s, VacuumPage);
    forall j | 0 <= j < |s.inserters| ensures PhaseOk(r, j) {
      assert PhaseOk(s, j);
    }
  }

  lemma FinishVacuumShape(words: nat, s: State)
    requires Shape(words, s) && Enabled(words, s, FinishVacuum)
    ensures Shape(words, After(words, s, FinishVacuum))
  {
    hide LegalLength, ValidPages;
    var r := After(words, s, FinishVacuum);
    forall j | 0 <= j < |s.inserters| ensures PhaseOk(r, j) {
      assert PhaseOk(s, j);
    }
  }

  lemma LockMetaShape(words: nat, s: State, i: nat)
    requires Shape(words, s) && Enabled(words, s, LockMeta(i))
    ensures Shape(words, After(words, s, LockMeta(i)))
  {
    hide LegalLength, ValidPages;
    var n := s.meta.nStart;
    WalkingShape(words, s, i, n);
    if n < s.meta.nEnd {
      WalkingShape(words, s, i, n + 1);
    }
  }

  lemma OtherShape(words: nat, s: State, a: Action)
    requires Shape(words, s) && Enabled(words, s, a)
    requires a.StartVacuum? || a.StartScan? || a.ScanPage? || a.EndScan?
    ensures Shape(words, After(words, s, a))
  {
    hide LegalLength, ValidPages, ValidMeta, All, FoundOn;
    var r := After(words, s, a);
    assert |s.pages| >= 1 by { HasMetapage(words, s.pages); }
    forall j | 0 <= j < |s.inserters| ensures PhaseOk(r, j) {
      assert PhaseOk(s, j);
    }
  }

  lemma HasMetapage(words: nat, pages: seq<Page>)
    requires ValidPages(words, pages)
    ensures |pages| >= 1
  {
  }

  /** Every step keeps the pages within their room and deleted pages empty, the list in bounds
      and naming only data blocks, and the lock with at most one insertion, which is then
      walking the list. */
  lemma StepKeepsShape(words: nat, s: State, a: Action)
    requires Shape(words, s) && Enabled(words, s, a)
    ensures Shape(words, After(words, s, a))
  {
    hide LegalLength, ValidPages, Placed, ValidPage, Vacuumed, All;
    match a
    case ReadMeta(i) =>
      var phase := if s.meta.nEnd > s.meta.nStart then Trying(s.meta.notFull[s.meta.nStart]) else NeedsMeta(None);
      MovedShape(words, s, i, phase);
    case TryPage(i) => TryPageShape(words, s, i);
    case LockMeta(i) => LockMetaShape(words, s, i);
    case Walk(i) => WalkShape(words, s, i);
    case Extend(i) => ExtendShape(words, s, i);
    case NewPage(i, b) => NewPageShape(words, s, i, b);
    case VacuumPage => VacuumPageShape(words, s);
    case FinishVacuum => FinishVacuumShape(words, s);
    case _ => OtherShape(words, s, a);
  }

  // ---------------------------------------------------------------- how often a tuple occurs

  function Copies(p: Page, t: BloomTuple): nat {
    multiset(Tuples(p))[t]
  }

  /** How often the tuple occurs in blocks lo to hi - 1. */
  function CountIn(ps: seq<Page>, lo: nat, hi: nat, t: BloomTuple): nat
    requires lo <= hi <= |ps|
    decreases hi
  {
    if lo == hi then 0 else CountIn(ps, lo, hi - 1, t) + Copies(ps[hi - 1], t)
  }

  lemma {:induction false} CountOfUpdate(ps: seq<Page>, b: nat, p: Page, lo: nat, hi: nat, t: BloomTuple)
    requires b < |ps| && lo <= hi <= |ps|
    ensures CountIn(ps[b := p], lo, hi, t)
         == CountIn(ps, lo, hi, t) + if lo <= b < hi then Copies(p, t) - Copies(ps[b], t) else 0
    decreases hi
  {
    hide Copies;
    if lo < hi {
      CountOfUpdate(ps, b, p, lo, hi - 1, t);
    }
  }

  lemma {:induction false} CountOfAppend(ps: seq<Page>, p: Page, lo: nat, hi: nat, t: BloomTuple)
    requires lo <= hi <= |ps|
    ensures CountIn(ps + [p], lo, hi, t) == CountIn(ps, lo, hi, t)
    decreases hi
  {
    hide Copies;
    if lo < hi {
      CountOfAppend(ps, p, lo, hi - 1, t);
    }
  }

  lemma {:induction false} CountSplits(ps: seq<Page>, lo: nat, mid: nat, hi: nat, t: BloomTuple)
    requires lo <= mid <= hi <= |ps|
    ensures CountIn(ps, lo, hi, t) == CountIn(ps, lo, mid, t) + CountIn(ps, mid, hi, t)
    decreases hi
  {
    hide Copies;
    if mid < hi {
      CountSplits(ps, lo, mid, hi - 1, t);
    }
  }

  lemma {:induction false} CountIsAll(ps: seq<Page>, n: nat, t: BloomTuple)
    requires n <= |ps|
    ensures CountIn(ps, 0, n, t) == All(ps[..n])[t]
    decreases n
  {
    if n > 0 {
      CountIsAll(ps, n - 1, t);
      assert ps[..n][..n - 1] == ps[..n - 1];
    }
  }

  lemma CountIsWhole(ps: seq<Page>, t: BloomTuple)
    ensures CountIn(ps, 0, |ps|, t) == All(ps)[t]
  {
    CountIsAll(ps, |ps|, t);
    assert ps[..|ps|] == ps;
  }

  function IsDone(x: Inserter, t: BloomTuple): nat {
    if x.phase.Done? && x.t == t then 1 else 0
  }

  /** How many insertions of the tuple are done. */
  function DoneCount(xs: seq<Inserter>, t: BloomTuple): nat {
    if xs == [] then 0 else DoneCount(xs[..|xs| - 1], t) + IsDone(xs[|xs| - 1], t)
  }

  lemma {:induction false} DoneOfUpdate(xs: seq<Inserter>, i: nat, x: Inserter, t: BloomTuple)
    requires i < |xs|
    ensures DoneCount(xs[i := x], t) == DoneCount(xs, t) + IsDone(x, t) - IsDone(xs[i], t)
    decreases |xs|
  {
    hide IsDone;
    var last := |xs| - 1;
    if i < last {
      DoneOfUpdate(xs[..last], i, x, t);
      assert xs[i := x][..last] == xs[..last][i := x];
    } else {
      assert xs[i := x][..last] == xs[..last];
    }
  }

  // ---------------------------------------------------------------- what every step keeps

  /** Tuples are conserved: those in the index and those removed are those there were at first
      and those inserted. */
  predicate Conserved(s: State, base: nat, t: BloomTuple) {
    CountIn(s.pages, 0, |s.pages|, t) + s.removed[t] == base + DoneCount(s.inserters, t)
  }

  /** On pages that this pass of VACUUM has visited or will not visit, a dead tuple occurs at
      most as often as it has been inserted since the pass began. */
  predicate SweptClean(s: State, t: BloomTuple)
    requires VacuumOk(s)
  {
    s.vacuum.Sweeping? && s.vacuum.dead(t.tid) ==>
      CountIn(s.pages, 0, s.vacuum.blkno, t) + CountIn(s.pages, s.vacuum.npages, |s.pages|, t) <= s.vacuum.added[t]
  }

  /** Every tuple there was when the scan began has been seen, is still ahead, or has been
      removed since. */
  predicate ScanAccounts(s: State, t: BloomTuple)
    requires ScanOk(s)
  {
    s.scan.Reading? ==>
      && s.scan.start[t] + s.scan.gone[t]
           <= s.scan.seen[t] + CountIn(s.pages, s.scan.blkno, s.scan.npages, t) + s.removed[t]
      && (s.scan.seen[t] > 0 ==> CountIn(s.pages, 0, |s.pages|, t) + s.removed[t] > 0)
  }

  predicate Kept(s: State, base: nat, t: BloomTuple)
    requires VacuumOk(s) && ScanOk(s)
  {
    Conserved(s, base, t) && SweptClean(s, t) && ScanAccounts(s, t)
  }

  lemma LandedKeeps(s: State, i: nat, b: nat, p: Page, base: nat, t: BloomTuple)
    requires VacuumOk(s) && ScanOk(s) && Kept(s, base, t)
    requires i < |s.inserters| && !s.inserters[i].phase.Done? && b < |s.pages|
    requires multiset(Tuples(p)) == multiset(Tuples(s.pages[b])) + multiset{s.inserters[i].t}
    ensures var r := Landed(s, i, b, p); VacuumOk(r) && ScanOk(r) && Kept(r, base, t)
  {
    hide CountIn, DoneCount, Tuples;
    CountOfUpdate(s.pages, b, p, 0, |s.pages|, t);
    DoneOfUpdate(s.inserters, i, s.inserters[i].(phase := Done), t);
    if s.vacuum.Sweeping? {
      CountOfUpdate(s.pages, b, p, 0, s.vacuum.blkno, t);
      CountOfUpdate(s.pages, b, p, s.vacuum.npages, |s.pages|, t);
    }
    if s.scan.Reading? {
      CountOfUpdate(s.pages, b, p, s.scan.blkno, s.scan.npages, t);
    }
  }

  lemma MovedKeeps(s: State, i: nat, phase: Phase, base: nat, t: BloomTuple)
    requires VacuumOk(s) && ScanOk(s) && Kept(s, base, t)
    requires i < |s.inserters| && !s.inserters[i].phase.Done? && !phase.Done?
    ensures Kept(Moved(s, i, phase), base, t)
  {
    hide CountIn, DoneCount;
    DoneOfUpdate(s.inserters, i, s.inserters[i].(phase := phase), t);
  }

  lemma VacuumPageKeeps(words: nat, s: State, base: nat, t: BloomTuple)
    requires Shape(words, s) && Kept(s, base, t) && Enabled(words, s, VacuumPage)
    ensures var r := AfterVacuumPage(words, s); VacuumOk(r) && ScanOk(r) && Kept(r, base, t)
  {
    hide CountIn, DoneCount, Vacuumed, Capacity, LegalLength, ValidPages, ValidPage, ValidMeta, InsertersOk, Copies;
    var b := s.vacuum.blkno;
    var p := Vacuumed(s.vacuum.dead, s.pages[b]);
    PageOk(words, s, b);
    VacuumedCopies(s.vacuum.dead, words, s.pages[b], t);
    RemovedCopies(s.removed, s.pages[b], p, t);
    CountOfUpdate(s.pages, b, p, 0, |s.pages|, t);
    VacuumPageSweeps(s.pages, b, p, s.vacuum.npages, t);
    if s.scan.Reading? {
      CountOfUpdate(s.pages, b, p, s.scan.blkno, s.scan.npages, t);
    }
  }

  lemma RemovedCopies(removed: multiset<BloomTuple>, p: Page, q: Page, t: BloomTuple)
    requires Copies(q, t) <= Copies(p, t)
    ensures (removed + (multiset(Tuples(p)) - multiset(Tuples(q))))[t] == removed[t] + Copies(p, t) - Copies(q, t)
  {
  }

  lemma VacuumPageSweeps(ps: seq<Page>, b: nat, p: Page, npages: nat, t: BloomTuple)
    requires b < npages <= |ps|
    ensures CountIn(ps[b := p], 0, b + 1, t) == CountIn(ps, 0, b, t) + Copies(p, t)
    ensures CountIn(ps[b := p], npages, |ps|, t) == CountIn(ps, npages, |ps|, t)
  {
    hide CountIn, Copies;
    CountOfUpdate(ps, b, p, 0, b, t);
    CountOfNext(ps[b := p], 0, b, t);
    CountOfUpdate(ps, b, p, npages, |ps|, t);
  }

  lemma CountOfNext(ps: seq<Page>, lo: nat, hi: nat, t: BloomTuple)
    requires lo <= hi < |ps|
    ensures CountIn(ps, lo, hi + 1, t) == CountIn(ps, lo, hi, t) + Copies(ps[hi], t)
  {
  }

  /** VACUUM takes exactly the dead tuples off a page. */
  lemma VacuumedCopies(dead: Tid -> bool, words: nat, p: Page, t: BloomTuple)
    requires ValidPage(words, p)
    ensures Copies(Vacuumed(dead, p), t) == if dead(t.tid) then 0 else Copies(p, t)
  {
    LiveKeepsExactly(dead, Tuples(p), t);
  }

  lemma ScanPageKeeps(words: nat, s: State, base: nat, t: BloomTuple)
    requires Shape(words, s) && Kept(s, base, t) && Enabled(words, s, ScanPage)
    ensures var r := AfterScanPage(s); VacuumOk(r) && ScanOk(r) && Kept(r, base, t)
  {
    hide CountIn, DoneCount, FoundOn, LegalLength, ValidPages, ValidMeta, InsertersOk, Tuples;
    var lo, hi := s.scan.blkno, s.scan.npages;
    CountSplits(s.pages, lo, lo + 1, hi, t);
    CountOfNext(s.pages, lo, lo, t);
    CountOfNothing(s.pages, lo, t);
    CountSplits(s.pages, 0, lo, |s.pages|, t);
    CountSplits(s.pages, lo, hi, |s.pages|, t);
  }

  lemma CountOfNothing(ps: seq<Page>, n: nat, t: BloomTuple)
    requires n <= |ps|
    ensures CountIn(ps, n, n, t) == 0
  {
  }

  lemma ExtendKeeps(s: State, base: nat, t: BloomTuple)
    requires VacuumOk(s) && ScanOk(s) && Kept(s, base, t)
    ensures var r := s.(pages := s.pages + [New]); VacuumOk(r) && ScanOk(r) && Kept(r, base, t)
  {
    hide CountIn, DoneCount;
    var n := |s.pages|;
    CountOfAppend(s.pages, New, 0, n, t);
    CountOfNext(s.pages + [New], 0, n, t);
    if s.vacuum.Sweeping? {
      CountOfAppend(s.pages, New, 0, s.vacuum.blkno, t);
      CountOfAppend(s.pages, New, s.vacuum.npages, n, t);
      CountOfNext(s.pages + [New], s.vacuum.npages, n, t);
    }
    if s.scan.Reading? {
      CountOfAppend(s.pages, New, s.scan.blkno, s.scan.npages, t);
    }
  }

  /** The metapage has no tuples. */
  lemma CountOfMetapage(words: nat, ps: seq<Page>, t: BloomTuple)
    requires ValidPages(words, ps)
    ensures CountIn(ps, 0, 1, t) == 0
  {
    CountOfNothing(ps, 0, t);
  }

  lemma StartKeeps(words: nat, s: State, a: Action, base: nat, t: BloomTuple)
    requires Shape(words, s) && Kept(s, base, t) && Enabled(words, s, a)
    requires a.StartVacuum? || a.StartScan?
    ensures var r := After(words, s, a); VacuumOk(r) && ScanOk(r) && Kept(r, base, t)
  {
    hide CountIn, DoneCount, ValidPages, LegalLength, ValidMeta, InsertersOk, All;
    HasMetapage(words, s.pages);
    CountOfMetapage(words, s.pages, t);
    CountSplits(s.pages, 0, 1, |s.pages|, t);
    CountOfNothing(s.pages, |s.pages|, t);
    CountIsWhole(s.pages, t);
  }

  lemma StepKeeps(words: nat, s: State, a: Action, base: nat, t: BloomTuple)
    requires Shape(words, s) && Kept(s, base, t) && Enabled(words, s, a)
    ensures var r := After(words, s, a); Shape(words, r) && Kept(r, base, t)
  {
    hide LegalLength, ValidPages, Placed, ValidPage, Vacuumed, All, CountIn, DoneCount, Reusable, Capacity, FoundOn;
    StepKeepsShape(words, s, a);
    match a
    case ReadMeta(i) => MovedKeeps(s, i, After(words, s, a).inserters[i].phase, base, t);
    case TryPage(i) => TryPageKeeps(words, s, i, base, t);
    case LockMeta(i) => MovedKeeps(s, i, After(words, s, a).inserters[i].phase, base, t);
    case Walk(i) => WalkKeeps(words, s, i, base, t);
    case Extend(i) => ExtendKeeps(s, base, t);
    case NewPage(i, b) => NewPageKeeps(words, s, i, b, base, t);
    case VacuumPage => VacuumPageKeeps(words, s, base, t);
    case FinishVacuum =>
    case ScanPage => ScanPageKeeps(words, s, base, t);
    case EndScan =>
    case _ => StartKeeps(words, s, a, base, t);
  }

  lemma TryPageKeeps(words: nat, s: State, i: nat, base: nat, t: BloomTuple)
    requires Shape(words, s) && Kept(s, base, t) && Enabled(words, s, TryPage(i))
    ensures var r := After(words, s, TryPage(i)); VacuumOk(r) && ScanOk(r) && Kept(r, base, t)
  {
    hide LegalLength, ValidPages, Placed, ValidPage, CountIn, DoneCount, Kept, Reusable, Tuples;
    assert PhaseOk(s, i);
    var b := s.inserters[i].phase.blkno;
    PageOk(words, s, b);
    PlacedIsValid(words, s.pages[b], s.inserters[i].t);
    match Placed(words, s.pages[b], s.inserters[i].t)
    case Some(p) => LandedKeeps(s, i, b, p, base, t);
    case None => MovedKeeps(s, i, NeedsMeta(Some(b)), base, t);
  }

  lemma WalkKeeps(words: nat, s: State, i: nat, base: nat, t: BloomTuple)
    requires Shape(words, s) && Kept(s, base, t) && Enabled(words, s, Walk(i))
    ensures var r := After(words, s, Walk(i)); VacuumOk(r) && ScanOk(r) && Kept(r, base, t)
  {
    hide LegalLength, ValidPages, Placed, ValidPage, CountIn, DoneCount, Reusable, Tuples;
    var n := s.inserters[i].phase.n;
    var b := s.meta.notFull[n];
    PageOk(words, s, b);
    PlacedIsValid(words, s.pages[b], s.inserters[i].t);
    match Placed(words, s.pages[b], s.inserters[i].t)
    case Some(p) => LandedKeeps(s, i, b, p, base, t);
    case None => MovedKeeps(s, i, Walking(n + 1), base, t);
  }

  lemma NewPageKeeps(words: nat, s: State, i: nat, b: nat, base: nat, t: BloomTuple)
    requires Shape(words, s) && Kept(s, base, t) && Enabled(words, s, NewPage(i, b))
    ensures var r := After(words, s, NewPage(i, b)); VacuumOk(r) && ScanOk(r) && Kept(r, base, t)
  {
    hide LegalLength, ValidPages, CountIn, DoneCount, Reusable;
    ReusableIsEmpty(words, s.pages, b);
    LandedKeeps(s, i, b, Data(false, [s.inserters[i].t]), base, t);
  }
}
