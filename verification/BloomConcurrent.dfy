/** Insertions, VACUUM and a scan of one Bloom index at the same time. Each step is what one
    process does while it holds a lock: on the metapage, shared or exclusive, or on one page.
    Any number of insertions take part; passes of VACUUM follow one another, as its lock on the
    table makes them; a scan changes nothing, so one at a time stands for all. */
module BloomConcurrent {
  import opened Outcomes
  import opened BloomSignature
  import opened BloomPage
  import opened BloomStore
  import opened BloomScan

  /** How far an insertion has come. */
  datatype Phase =
    | Ready                          // has formed its tuple
    | Trying(blkno: nat)             // has read the list, and holds no lock
    | NeedsMeta(tried: Option<nat>)  // wants the exclusive lock on the metapage
    | Walking(n: nat)                // has that lock, and is at entry n of the list
    | Done

  datatype Inserter = Inserter(t: BloomTuple, phase: Phase)

  /** A pass of VACUUM: its place, the list that it makes, and, for the record, the tuples
      inserted since it began. */
  datatype Vacuum = Idle | Sweeping(dead: Tid -> bool, npages: nat, blkno: nat, list: seq<nat>,
                                    added: multiset<BloomTuple>)

  /** A scan: its place and its bitmap, and, for the record, what the index held and what had
      been removed when it began, and the tuples that it has looked at. */
  datatype Scanner = Off | Reading(query: Signature, npages: nat, blkno: nat, tids: set<Tid>,
                                   start: multiset<BloomTuple>, gone: multiset<BloomTuple>, seen: multiset<BloomTuple>)

  /** `lock` tells which insertion holds the exclusive lock on the metapage. `removed` records
      the tuples that VACUUM has removed. */
  datatype State = State(pages: seq<Page>, meta: Meta, lock: Option<nat>, inserters: seq<Inserter>,
                         vacuum: Vacuum, scan: Scanner, removed: multiset<BloomTuple>)

  datatype Action =
    | ReadMeta(i: nat) | TryPage(i: nat) | LockMeta(i: nat) | Walk(i: nat) | Extend(i: nat) | NewPage(i: nat, b: nat)
    | StartVacuum(dead: Tid -> bool) | VacuumPage | FinishVacuum
    | StartScan(query: Signature) | ScanPage | EndScan

  // ---------------------------------------------------------------- what every state has

  predicate PhaseOk(s: State, i: nat)
    requires i < |s.inserters|
  {
    match s.inserters[i].phase
    case Trying(b) => 1 <= b < |s.pages|
    case Walking(n) => s.lock == Some(i) && s.meta.nStart <= n <= s.meta.nEnd
    case _ => true
  }

  predicate InsertersOk(words: nat, s: State) {
    && (forall i :: 0 <= i < |s.inserters| ==> PhaseOk(s, i) && |s.inserters[i].t.sign| == words)
    && (s.lock.Some? ==> s.lock.value < |s.inserters| && s.inserters[s.lock.value].phase.Walking?)
  }

  predicate VacuumOk(s: State) {
    s.vacuum.Sweeping? ==>
      && 1 <= s.vacuum.blkno <= s.vacuum.npages <= |s.pages|
      && |s.vacuum.list| <= META_N
      && forall k :: 0 <= k < |s.vacuum.list| ==> 1 <= s.vacuum.list[k] < s.vacuum.blkno
  }

  predicate ScanOk(s: State) {
    s.scan.Reading? ==> 1 <= s.scan.blkno <= s.scan.npages <= |s.pages|
  }

  predicate Shape(words: nat, s: State) {
    && LegalLength(words)
    && ValidPages(words, s.pages)
    && ValidMeta(s.meta, |s.pages|)
    && InsertersOk(words, s)
    && VacuumOk(s)
    && ScanOk(s)
  }

  // ---------------------------------------------------------------- steps

  predicate Enabled(words: nat, s: State, a: Action)
    requires Shape(words, s)
  {
    match a
    case ReadMeta(i) => i < |s.inserters| && s.inserters[i].phase.Ready? && s.lock.None?
    case TryPage(i) => i < |s.inserters| && s.inserters[i].phase.Trying?
    case LockMeta(i) => i < |s.inserters| && s.inserters[i].phase.NeedsMeta? && s.lock.None?
    case Walk(i) => i < |s.inserters| && s.inserters[i].phase.Walking? && s.inserters[i].phase.n < s.meta.nEnd
    case Extend(i) => AtEndOfList(s, i)
    case NewPage(i, b) => AtEndOfList(s, i) && 1 <= b < |s.pages| && Reusable(s.pages[b])
    case StartVacuum(_) => s.vacuum.Idle?
    case VacuumPage => s.vacuum.Sweeping? && s.vacuum.blkno < s.vacuum.npages
    case FinishVacuum => s.vacuum.Sweeping? && s.vacuum.blkno == s.vacuum.npages && s.lock.None?
    case StartScan(_) => s.scan.Off?
    case ScanPage => s.scan.Reading? && s.scan.blkno < s.scan.npages
    case EndScan => s.scan.Reading? && s.scan.blkno == s.scan.npages
  }

  predicate AtEndOfList(s: State, i: nat) {
    i < |s.inserters| && s.inserters[i].phase.Walking? && s.inserters[i].phase.n >= s.meta.nEnd
  }

  function Moved(s: State, i: nat, phase: Phase): State
    requires i < |s.inserters|
  {
    s.(inserters := s.inserters[i := s.inserters[i].(phase := phase)])
  }

  /** Insertion i puts its tuple on a page, which becomes p, and is done. */
  function Landed(s: State, i: nat, b: nat, p: Page): State
    requires i < |s.inserters| && b < |s.pages|
  {
    var v := if s.vacuum.Idle? then Idle else s.vacuum.(added := s.vacuum.added + multiset{s.inserters[i].t});
    Moved(s, i, Done).(pages := s.pages[b := p], vacuum := v)
  }

  function AfterReadMeta(s: State, i: nat): State
    requires i < |s.inserters| && s.meta.nEnd <= |s.meta.notFull|
  {
    Moved(s, i, if s.meta.nEnd > s.meta.nStart then Trying(s.meta.notFull[s.meta.nStart]) else NeedsMeta(None))
  }

  function AfterTryPage(words: nat, s: State, i: nat): State
    requires i < |s.inserters| && s.inserters[i].phase.Trying? && s.inserters[i].phase.blkno < |s.pages|
  {
    var b := s.inserters[i].phase.blkno;
    match Placed(words, s.pages[b], s.inserters[i].t)
    case Some(p) => Landed(s, i, b, p)
    case None => Moved(s, i, NeedsMeta(Some(b)))
  }

  function AfterLockMeta(s: State, i: nat): State
    requires i < |s.inserters| && s.inserters[i].phase.NeedsMeta? && s.meta.nEnd <= |s.meta.notFull|
  {
    var n := s.meta.nStart;
    var skip := n < s.meta.nEnd && s.inserters[i].phase.tried == Some(s.meta.notFull[n]);
    Moved(s, i, Walking(if skip then n + 1 else n)).(lock := Some(i))
  }

  function AfterWalk(words: nat, s: State, i: nat): State
    requires i < |s.inserters| && s.inserters[i].phase.Walking?
    requires ValidMeta(s.meta, |s.pages|) && s.inserters[i].phase.n < s.meta.nEnd
  {
    var n := s.inserters[i].phase.n;
    var b := s.meta.notFull[n];
    match Placed(words, s.pages[b], s.inserters[i].t)
    case Some(p) => Landed(s, i, b, p).(meta := s.meta.(nStart := n), lock := None)
    case None => Moved(s, i, Walking(n + 1))
  }

  function AfterNewPage(s: State, i: nat, b: nat): State
    requires i < |s.inserters| && b < |s.pages| && |s.meta.notFull| == META_N
  {
    Landed(s, i, b, Data(false, [s.inserters[i].t])).(meta := Meta(0, 1, s.meta.notFull[0 := b]), lock := None)
  }

  function AfterVacuumPage(words: nat, s: State): State
    requires s.vacuum.Sweeping? && s.vacuum.blkno < |s.pages|
  {
    var v := s.vacuum;
    var p := Vacuumed(v.dead, s.pages[v.blkno]);
    var list := if 0 < |Tuples(p)| < Capacity(words) && |v.list| < META_N then v.list + [v.blkno] else v.list;
    s.(pages := s.pages[v.blkno := p], vacuum := v.(blkno := v.blkno + 1, list := list),
       removed := s.removed + (multiset(Tuples(s.pages[v.blkno])) - multiset(Tuples(p))))
  }

  function AfterFinishVacuum(s: State): State
    requires s.vacuum.Sweeping? && |s.vacuum.list| <= |s.meta.notFull|
  {
    var list := s.vacuum.list;
    s.(meta := Meta(0, |list|, list + s.meta.notFull[|list|..]), vacuum := Idle)
  }

  function AfterStartScan(s: State, query: Signature): State {
    s.(scan := Reading(query, |s.pages|, 1, {}, All(s.pages), s.removed, multiset{}))
  }

  function AfterScanPage(s: State): State
    requires s.scan.Reading? && s.scan.blkno < |s.pages|
  {
    var ts := Tuples(s.pages[s.scan.blkno]);
    var found := set tid | tid in FoundOn(ts, s.scan.query);
    s.(scan := s.scan.(blkno := s.scan.blkno + 1, tids := s.scan.tids + found, seen := s.scan.seen + multiset(ts)))
  }

  function After(words: nat, s: State, a: Action): State
    requires Shape(words, s) && Enabled(words, s, a)
  {
    match a
    case ReadMeta(i) => AfterReadMeta(s, i)
    case TryPage(i) => assert PhaseOk(s, i); AfterTryPage(words, s, i)
    case LockMeta(i) => AfterLockMeta(s, i)
    case Walk(i) => AfterWalk(words, s, i)
    case Extend(i) => s.(pages := s.pages + [New])
    case NewPage(i, b) => AfterNewPage(s, i, b)
    case StartVacuum(dead) => s.(vacuum := Sweeping(dead, |s.pages|, 1, [], multiset{}))
    case VacuumPage => AfterVacuumPage(words, s)
    case FinishVacuum => AfterFinishVacuum(s)
    case StartScan(query) => AfterStartScan(s, query)
    case ScanPage => AfterScanPage(s)
    case EndScan => s.(scan := Off)
  }
}
