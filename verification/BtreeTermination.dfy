/** When the walks of the verifier end. On every file, a check that raises no error ends exactly
    if the right links of the level end, and those below each of its downlinks. */
module BtreeTermination {
  import opened Integers
  import opened Outcomes
  import opened BtreeKey
  import opened BtreePage
  import opened BtreeLeftmost
  import opened BtreeChain
  import opened BtreeCheck
  import opened BtreeLevel

  predicate Finished<T>(r: Result<T, Error>) {
    r.Success? || r.error != Unfinished
  }

  predicate Decided(r: Check<Error>) {
    r.Pass? || r.error != Unfinished
  }

  /** The program raises no error: it succeeds or goes on for ever. */
  predicate NoError<T>(r: Result<T, Error>) {
    r.Success? || r.error == Unfinished
  }

  lemma {:induction false} LeftWalkFinishes(f: File, chain: seq<BlockNumber>)
    requires LeftChain(f, chain)
    ensures Finished(LeftWalk(f, chain))
    decreases |f| - |chain|
  {
    ChainFits(f, chain);
    var from := chain[|chain| - 1];
    var reached := f[from].prev;
    if reached != P_NONE && AcceptedStep(f, chain[0], from, reached) {
      ExtendChain(f, chain, reached);
      ChainFits(f, chain + [reached]);
      LeftWalkFinishes(f, chain + [reached]);
    }
  }

  /** Pages seen on the way down carry falling level numbers (modulo 2^32). */
  predicate Falling(f: File, seen: seq<BlockNumber>, top: int) {
    forall k :: 0 <= k < |seen| ==> seen[k] < |f| && f[seen[k]].level == (top - 1 - k) % 0x1_0000_0000
  }

  lemma FallingFits(f: File, seen: seq<BlockNumber>, top: int)
    requires Falling(f, seen, top)
    ensures |seen| <= |f|
  {
    if |seen| > |f| {
      var s := seen[..|f| + 1];
      forall i, j | 0 <= i < j < |s| ensures s[i] != s[j] {
        assert f[seen[i]].level == (top - 1 - i) % 0x1_0000_0000;
        assert f[seen[j]].level == (top - 1 - j) % 0x1_0000_0000;
      }
      DistinctFit(s, |f|);
    }
  }

  lemma FallingGrows(f: File, seen: seq<BlockNumber>, top: int, level: Uint32, child: BlockNumber)
    requires Falling(f, seen, top) && level == (top - |seen|) % 0x1_0000_0000
    requires child < |f| && (f[child].level + 1) % 0x1_0000_0000 == level
    ensures Falling(f, seen + [child], top) && f[child].level == (top - |seen + [child]|) % 0x1_0000_0000
  {
    OneLower(f[child].level, top - |seen|);
    forall k | 0 <= k < |seen + [child]|
      ensures (seen + [child])[k] < |f| && f[(seen + [child])[k]].level == (top - 1 - k) % 0x1_0000_0000
    {
      if k < |seen| {
        assert (seen + [child])[k] == seen[k];
      }
    }
  }

  lemma OneLower(n: Uint32, m: int)
    requires (n + 1) % 0x1_0000_0000 == m % 0x1_0000_0000
    ensures n == (m - 1) % 0x1_0000_0000
  {
  }

  /** So the descent to a leaf never runs longer than the file, whatever its downlinks say. */
  lemma {:induction false} DescentFinishes(f: File, level: Uint32, child: BlockNumber, fuel: nat,
        seen: seq<BlockNumber>, top: int)
    requires Falling(f, seen, top) && level == (top - |seen|) % 0x1_0000_0000
    requires |seen| + fuel > |f|
    ensures Finished(DescendToLeaf(f, level, child, fuel))
    decreases fuel
  {
    hide Falling;
    if fuel == 0 {
      FallingFits(f, seen, top);
    } else if child < |f| && (f[child].level + 1) % 0x1_0000_0000 == level && !f[child].leaf {
      var page := f[child];
      var first := Item(page, FirstData(page));
      if first.Success? {
        FallingGrows(f, seen, top, level, child);
        DescentFinishes(f, page.level, first.value.link, fuel - 1, seen + [child], top);
      }
    }
  }

  lemma MissingDecides(f: File, rightsplit: bool, blkno: BlockNumber, fuel: nat)
    requires blkno < |f| && fuel > |f|
    ensures Decided(DownlinkMissing(f, rightsplit, blkno, fuel))
  {
    var page := f[blkno];
    var first := Item(page, FirstData(page));
    if first.Success? {
      DescentFinishes(f, page.level, first.value.link, fuel, [], page.level);
    }
  }

  lemma VisitFinishes(f: File, target: Page, lowkey: Option<Tuple>, off: Option<nat>, downlink: BlockNumber,
                      prev: BlockNumber, blkno: BlockNumber, rightsplit: bool, first: bool, fuel: nat)
    requires blkno != P_NONE && fuel > |f|
    ensures Finished(VisitChild(f, target, lowkey, off, downlink, prev, blkno, rightsplit, first, fuel))
  {
    if blkno < |f| {
      LeftWalkFinishes(f, [blkno]);
      MissingDecides(f, rightsplit, blkno, fuel);
      hide DownlinkMissing, LeftWalk;
    }
  }

  lemma {:induction false} LowerBoundDecides(c: Config, key: ScanKey, child: Page, off: nat)
    ensures Decided(LowerBoundFrom(c, key, child, off))
    decreases |child.items| - off
  {
    if off < |child.items| {
      LowerBoundDecides(c, key, child, off + 1);
    }
  }

  // ---------------------------------------------------------------- if the right links end, so does the check

  /** The right links end below every downlink of the page. */
  ghost predicate LinksEnd(f: File, p: Page) {
    !p.leaf ==> forall o :: FirstData(p) <= o < |p.items| ==> Ends(f, p.items[o].link)
  }

  /** So they do on the level itself, from block b on, and below its live pages. */
  ghost predicate LevelEndsAfter(f: File, b: BlockNumber, n: nat)
    decreases n
  {
    if b == P_NONE || b >= |f| then n == 0
    else n > 0 && (f[b].halfDead || LinksEnd(f, f[b])) && LevelEndsAfter(f, f[b].next, n - 1)
  }

  ghost predicate LevelEnds(f: File, b: BlockNumber) {
    exists n: nat :: LevelEndsAfter(f, b, n)
  }

  lemma {:induction false} LevelEndsIsEnds(f: File, b: BlockNumber, n: nat)
    requires LevelEndsAfter(f, b, n)
    ensures EndsAfter(f, b, n)
    decreases n
  {
    if n > 0 {
      LevelEndsIsEnds(f, f[b].next, n - 1);
    }
  }

  lemma {:induction false} HighKeyFinishes(f: File, target: Page, lowkey: Option<Tuple>, off: Option<nat>,
        downlink: BlockNumber, prev: BlockNumber, blkno: BlockNumber, rightsplit: bool, first: bool, fuel: nat, n: nat)
    requires EndsAfter(f, blkno, n) && fuel > n + |f|
    ensures var r := HighKeyWalk(f, target, lowkey, off, downlink, prev, blkno, rightsplit, first, fuel);
            Finished(r) && (r.Success? ==> Ends(f, r.value.prevrightlink))
    decreases n
  {
    hide VisitChild;
    if blkno == P_NONE {
      EndsAtOnce(f, INVALID_BLOCK);
    } else {
      VisitFinishes(f, target, lowkey, off, downlink, prev, blkno, rightsplit, first, fuel);
      var r := VisitChild(f, target, lowkey, off, downlink, prev, blkno, rightsplit, first, fuel);
      if r.Success? {
        assert EndsAfter(f, f[blkno].next, n - 1);
        if blkno != downlink {
          HighKeyFinishes(f, target, lowkey, off, downlink, prev, f[blkno].next, f[blkno].incompleteSplit, false,
                          fuel - 1, n - 1);
        }
      }
    }
  }

  lemma ChildHighKeyFinishes(f: File, target: Page, lowkey: Option<Tuple>, off: Option<nat>, cur: Cursor, fuel: nat)
    requires Ends(f, cur.prevrightlink) && fuel > 2 * |f|
    requires off.Some? && off.value < |target.items| ==> Ends(f, target.items[off.value].link)
    ensures var r := ChildHighKeyCheck(f, target, lowkey, off, cur, fuel);
            Finished(r) && (r.Success? ==> Ends(f, r.value.prevrightlink))
  {
    hide HighKeyWalk;
    var link := if off.Some? then LinkAt(target, off.value) else Success(P_NONE);
    if link.Success? {
      EndsAtOnce(f, P_NONE);
      var unstarted := cur.prevrightlink == INVALID_BLOCK;
      var blkno := if unstarted then link.value else cur.prevrightlink;
      var n: nat :| EndsAfter(f, blkno, n);
      EndsSoon(f, blkno, n);
      HighKeyFinishes(f, target, lowkey, off, link.value, cur.prevrightlink, blkno,
                      !unstarted && cur.previncompletesplit, true, fuel, n);
    }
  }

  lemma {:induction false} LiveRightFinishes(f: File, b: BlockNumber, fuel: nat, n: nat)
    requires b != P_NONE && EndsAfter(f, b, n) && fuel > n
    ensures Finished(LiveRight(f, b, fuel))
    decreases n
  {
    if b < |f| && !Rightmost(f[b]) {
      LiveRightFinishes(f, f[b].next, fuel - 1, n - 1);
    }
  }

  lemma RightKeyFinishes(f: File, target: Page, fuel: nat)
    requires Ends(f, target.next) && fuel > |f|
    ensures Finished(RightKey(f, target, fuel))
  {
    hide LiveRight;
    if !Rightmost(target) {
      var n: nat :| EndsAfter(f, target.next, n);
      EndsSoon(f, target.next, n);
      LiveRightFinishes(f, target.next, fuel, n);
    }
  }

  lemma ItemFinishes(c: Config, f: File, target: Page, lowkey: Option<Tuple>, off: nat, cur: Cursor, fuel: nat)
    requires Ends(f, cur.prevrightlink) && Ends(f, target.next) && LinksEnd(f, target) && fuel > 2 * |f|
    requires FirstData(target) <= off < |target.items| && (!Rightmost(target) ==> 0 < |target.items|)
    ensures var r := TargetItem(c, f, target, lowkey, off, cur, fuel);
            Finished(r) && (r.Success? ==> Ends(f, r.value.prevrightlink))
  {
    hide ChildHighKeyCheck, RightKey, LowerBoundFrom, InvariantL, InvariantLeq, InvariantG, MakeScanKey, Sane,
         CheckNatts, Ends;
    RightKeyFinishes(f, target, fuel);
    if !target.leaf {
      ChildHighKeyFinishes(f, target, lowkey, Some(off), cur, fuel);
      if target.items[off].link < |f| {
        var child := f[target.items[off].link];
        LowerBoundDecides(c, MakeScanKey(c, target.items[off].key), child, FirstData(child));
      }
    }
  }

  lemma {:induction false} ItemsFinish(c: Config, f: File, target: Page, lowkey: Option<Tuple>, off: nat, cur: Cursor,
        fuel: nat)
    requires Ends(f, cur.prevrightlink) && Ends(f, target.next) && LinksEnd(f, target) && fuel > 2 * |f|
    requires FirstData(target) <= off && (!Rightmost(target) ==> 0 < |target.items|)
    ensures var r := TargetItems(c, f, target, lowkey, off, cur, fuel);
            Finished(r) && (r.Success? ==> Ends(f, r.value.prevrightlink))
    decreases |target.items| - off
  {
    hide TargetItem, Ends, LinksEnd;
    if off < |target.items| {
      ItemFinishes(c, f, target, lowkey, off, cur, fuel);
      var r := TargetItem(c, f, target, lowkey, off, cur, fuel);
      if r.Success? {
        ItemsFinish(c, f, target, lowkey, off + 1, r.value, fuel);
      }
    }
  }

  lemma TargetFinishes(c: Config, f: File, target: Page, lowkey: Option<Tuple>, cur: Cursor, fuel: nat)
    requires Ends(f, cur.prevrightlink) && Ends(f, target.next) && LinksEnd(f, target) && fuel > 2 * |f|
    requires !Rightmost(target) ==> 0 < |target.items|
    ensures var r := TargetPageCheck(c, f, target, lowkey, cur, fuel);
            Finished(r) && (r.Success? ==> Ends(f, r.value.prevrightlink))
  {
    hide TargetItems, ChildHighKeyCheck, Ends, LinksEnd, CheckNatts;
    ItemsFinish(c, f, target, lowkey, FirstData(target), cur, fuel);
    var r := TargetItems(c, f, target, lowkey, FirstData(target), cur, fuel);
    if r.Success? {
      ChildHighKeyFinishes(f, target, lowkey, None, r.value, fuel);
    }
  }

  lemma PageFinishes(c: Config, f: File, level: Level, w: Walk, fuel: nat)
    requires w.current != P_NONE && Ends(f, w.cur.prevrightlink) && fuel > 2 * |f|
    requires w.current < |f| ==>
               Ends(f, f[w.current].next) && (f[w.current].halfDead || LinksEnd(f, f[w.current]))
    ensures var r := VisitPage(c, f, level, w, fuel);
            Finished(r) && (r.Success? ==> Ends(f, r.value.cur.prevrightlink))
  {
    hide TargetPageCheck, LeftWalk, Ends, LinksEnd;
    if w.current < |f| {
      var p := f[w.current];
      LeftWalkFinishes(f, [w.current]);
      if Sane(p) && !Ignore(p) {
        TargetFinishes(c, f, p, w.lowkey, w.cur, fuel);
      }
    }
  }

  lemma {:induction false} WalkFinishes(c: Config, f: File, level: Level, w: Walk, fuel: nat, n: nat, k: nat)
    requires w.current != P_NONE && Ends(f, w.cur.prevrightlink) && fuel > 2 * |f|
    requires LevelEndsAfter(f, w.current, k) && n > k
    ensures Finished(LevelWalk(c, f, level, w, fuel, n))
    decreases n
  {
    hide VisitPage, LinksEnd;
    if w.current < |f| {
      LevelEndsIsEnds(f, f[w.current].next, k - 1);
      assert Ends(f, f[w.current].next);
    }
    PageFinishes(c, f, level, w, fuel);
    var r := VisitPage(c, f, level, w, fuel);
    if r.Success? {
      VisitPasses(c, f, level, w, fuel);
      if r.value.current != P_NONE {
        WalkFinishes(c, f, level, r.value, fuel, n - 1, k - 1);
      }
    }
  }

  /** The check of a level ends if the right links of the level and below it do, whatever else
      is wrong with the file, within about twice as many iterations as it has blocks. */
  lemma LevelCheckFinishes(c: Config, f: File, level: Level, fuel: nat)
    requires level.leftmost != P_NONE && LevelEnds(f, level.leftmost) && fuel > 2 * |f|
    ensures Finished(CheckLevel(c, f, level, fuel))
  {
    hide LevelWalk, LinksEnd;
    EndsAtOnce(f, INVALID_BLOCK);
    var k: nat :| LevelEndsAfter(f, level.leftmost, k);
    LevelEndsIsEnds(f, level.leftmost, k);
    EndsSoon(f, level.leftmost, k);
    WalkFinishes(c, f, level, StartOf(level), fuel, fuel, k);
  }

  // ---------------------------------------------------------------- if the check succeeds, the right links end

  lemma {:induction false} HighKeyReturns(f: File, target: Page, lowkey: Option<Tuple>, off: Option<nat>,
        downlink: BlockNumber, prev: BlockNumber, blkno: BlockNumber, rightsplit: bool, first: bool, fuel: nat)
    requires HighKeyWalk(f, target, lowkey, off, downlink, prev, blkno, rightsplit, first, fuel).Success?
    requires var w := HighKeyWalk(f, target, lowkey, off, downlink, prev, blkno, rightsplit, first, fuel);
             Ends(f, w.value.prevrightlink)
    ensures Ends(f, blkno) && Ends(f, downlink)
    decreases fuel
  {
    hide VisitChild, Ends;
    EndsAtOnce(f, P_NONE);
    if blkno != P_NONE {
      var page := VisitChild(f, target, lowkey, off, downlink, prev, blkno, rightsplit, first, fuel).value;
      if blkno != downlink {
        HighKeyReturns(f, target, lowkey, off, downlink, prev, page.next, page.incompleteSplit, false, fuel - 1);
      }
      EndsBefore(f, blkno);
    }
  }

  /** At the end of a level the walk along its children is over. */
  lemma {:induction false} HighKeyIsOver(f: File, target: Page, lowkey: Option<Tuple>, off: Option<nat>,
        prev: BlockNumber, blkno: BlockNumber, rightsplit: bool, first: bool, fuel: nat)
    requires HighKeyWalk(f, target, lowkey, off, P_NONE, prev, blkno, rightsplit, first, fuel).Success?
    ensures HighKeyWalk(f, target, lowkey, off, P_NONE, prev, blkno, rightsplit, first, fuel).value == FRESH
    decreases fuel
  {
    hide VisitChild;
    if blkno != P_NONE {
      var page := VisitChild(f, target, lowkey, off, P_NONE, prev, blkno, rightsplit, first, fuel).value;
      HighKeyIsOver(f, target, lowkey, off, prev, page.next, page.incompleteSplit, false, fuel - 1);
    }
  }

  lemma ChildHighKeyReturns(f: File, target: Page, lowkey: Option<Tuple>, off: Option<nat>, cur: Cursor, fuel: nat)
    requires ChildHighKeyCheck(f, target, lowkey, off, cur, fuel).Success?
    requires Ends(f, ChildHighKeyCheck(f, target, lowkey, off, cur, fuel).value.prevrightlink)
    ensures Ends(f, cur.prevrightlink)
    ensures off.Some? ==> off.value < |target.items| && Ends(f, target.items[off.value].link)
  {
    hide HighKeyWalk, Ends;
    EndsAtOnce(f, INVALID_BLOCK);
    var downlink := if off.Some? then LinkAt(target, off.value).value else P_NONE;
    if cur.prevrightlink == INVALID_BLOCK {
      HighKeyReturns(f, target, lowkey, off, downlink, cur.prevrightlink, downlink, false, true, fuel);
    } else {
      HighKeyReturns(f, target, lowkey, off, downlink, cur.prevrightlink, cur.prevrightlink, cur.previncompletesplit,
                     true, fuel);
    }
  }

  lemma ItemReturns(c: Config, f: File, target: Page, lowkey: Option<Tuple>, off: nat, cur: Cursor, fuel: nat)
    requires off < |target.items| && (!Rightmost(target) ==> 0 < |target.items|)
    requires TargetItem(c, f, target, lowkey, off, cur, fuel).Success?
    requires Ends(f, TargetItem(c, f, target, lowkey, off, cur, fuel).value.prevrightlink)
    ensures Ends(f, cur.prevrightlink) && (!target.leaf ==> Ends(f, target.items[off].link))
    ensures target.leaf ==> TargetItem(c, f, target, lowkey, off, cur, fuel).value == cur
  {
    hide ChildHighKeyCheck, LowerBoundFrom, ItemCheck, Ends, ReadPage;
    if !target.leaf {
      ChildHighKeyReturns(f, target, lowkey, Some(off), cur, fuel);
    }
  }

  lemma {:induction false} ItemsReturn(c: Config, f: File, target: Page, lowkey: Option<Tuple>, off: nat, cur: Cursor,
        fuel: nat)
    requires !Rightmost(target) ==> 0 < |target.items|
    requires TargetItems(c, f, target, lowkey, off, cur, fuel).Success?
    requires Ends(f, TargetItems(c, f, target, lowkey, off, cur, fuel).value.prevrightlink)
    ensures Ends(f, cur.prevrightlink)
    ensures !target.leaf ==> forall o :: off <= o < |target.items| ==> Ends(f, target.items[o].link)
    decreases |target.items| - off
  {
    hide TargetItem, Ends;
    if off < |target.items| {
      var r := TargetItem(c, f, target, lowkey, off, cur, fuel);
      ItemsReturn(c, f, target, lowkey, off + 1, r.value, fuel);
      ItemReturns(c, f, target, lowkey, off, cur, fuel);
    }
  }

  lemma {:induction false} LeafKeepsCursor(c: Config, f: File, target: Page, lowkey: Option<Tuple>, off: nat,
        cur: Cursor, fuel: nat)
    requires target.leaf && (!Rightmost(target) ==> 0 < |target.items|)
    requires TargetItems(c, f, target, lowkey, off, cur, fuel).Success?
    ensures TargetItems(c, f, target, lowkey, off, cur, fuel).value == cur
    decreases |target.items| - off
  {
    hide ItemCheck;
    if off < |target.items| {
      LeafKeepsCursor(c, f, target, lowkey, off + 1, cur, fuel);
    }
  }

  lemma TargetReturns(c: Config, f: File, target: Page, lowkey: Option<Tuple>, cur: Cursor, fuel: nat)
    requires !Rightmost(target) ==> 0 < |target.items|
    requires TargetPageCheck(c, f, target, lowkey, cur, fuel).Success?
    ensures var r := TargetPageCheck(c, f, target, lowkey, cur, fuel).value;
            && (Ends(f, r.prevrightlink) ==> Ends(f, cur.prevrightlink) && LinksEnd(f, target))
            && (target.leaf ==> r == cur)
            && (!target.leaf && Rightmost(target) ==> r == FRESH)
  {
    hide TargetItems, HighKeyWalk, CheckNatts, Ends;
    var r := TargetPageCheck(c, f, target, lowkey, cur, fuel).value;
    var items := TargetItems(c, f, target, lowkey, FirstData(target), cur, fuel).value;
    if target.leaf {
      LeafKeepsCursor(c, f, target, lowkey, FirstData(target), cur, fuel);
    } else if Rightmost(target) {
      HighKeyIsOver(f, target, lowkey, None, items.prevrightlink,
                    if items.prevrightlink == INVALID_BLOCK then P_NONE else items.prevrightlink,
                    items.prevrightlink != INVALID_BLOCK && items.previncompletesplit, true, fuel);
      if Ends(f, r.prevrightlink) {
        ChildHighKeyReturns(f, target, lowkey, None, items, fuel);
      }
    }
    if Ends(f, items.prevrightlink) {
      ItemsReturn(c, f, target, lowkey, FirstData(target), cur, fuel);
    }
  }

  lemma PageReturns(c: Config, f: File, level: Level, w: Walk, fuel: nat)
    requires w.current != P_NONE && VisitPage(c, f, level, w, fuel).Success?
    ensures var w' := VisitPage(c, f, level, w, fuel).value; var p := f[w.current];
            && w'.current == p.next
            && (Ends(f, w'.cur.prevrightlink) ==> Ends(f, w.cur.prevrightlink) && (p.halfDead || LinksEnd(f, p)))
            && (level.level == 0 ==> w'.cur == w.cur)
            && (level.level != 0 && Rightmost(p) ==> w'.cur == FRESH)
  {
    hide TargetPageCheck, LeftWalk, Ends, LinksEnd;
    var p := f[w.current];
    if !p.halfDead {
      TargetReturns(c, f, p, w.lowkey, w.cur, fuel);
    }
  }

  lemma {:induction false} WalkReturns(c: Config, f: File, level: Level, w: Walk, fuel: nat, n: nat)
    requires w.current != P_NONE && LevelWalk(c, f, level, w, fuel, n).Success?
    requires level.level == 0 ==> w.cur == FRESH
    ensures Ends(f, w.cur.prevrightlink) && LevelEnds(f, w.current)
    decreases n
  {
    hide VisitPage, Ends, LinksEnd;
    PageReturns(c, f, level, w, fuel);
    var w' := VisitPage(c, f, level, w, fuel).value;
    var k: nat := 0;
    if w'.current == P_NONE {
      EndsAtOnce(f, INVALID_BLOCK);
    } else {
      WalkReturns(c, f, level, w', fuel, n - 1);
      k :| LevelEndsAfter(f, w'.current, k);
    }
    assert LevelEndsAfter(f, w.current, k + 1);
  }

  /** The main result on termination, for every file: a check of a level that raises no error
      ends if and only if the right links do, from the first block of the level and from every
      downlink on it. */
  lemma LevelCheckEndsExactly(c: Config, f: File, level: Level, fuel: nat)
    requires level.leftmost != P_NONE && fuel > 2 * |f|
    ensures NoError(CheckLevel(c, f, level, fuel)) ==>
              (CheckLevel(c, f, level, fuel).Success? <==> LevelEnds(f, level.leftmost))
  {
    hide LevelWalk, LevelEnds;
    if LevelEnds(f, level.leftmost) {
      LevelCheckFinishes(c, f, level, fuel);
    }
    if CheckLevel(c, f, level, fuel).Success? {
      WalkReturns(c, f, level, StartOf(level), fuel, fuel);
    }
  }

  /** The same on every level that the verifier gets to. */
  ghost predicate TreeEnds(c: Config, f: File, level: Level, fuel: nat)
    decreases level.level + 1
  {
    level.leftmost != P_NONE ==>
      && LevelEnds(f, level.leftmost)
      && (CheckLevel(c, f, level, fuel).Success? ==>
            var down := CheckLevel(c, f, level, fuel).value;
            WalkGoesOneDownIfDone(c, f, level, fuel);
            down.leftmost == P_NONE || down.leftmost == INVALID_BLOCK || TreeEnds(c, f, down, fuel))
  }

  /** A check of the whole index that raises no error ends if and only if the right links do on
      every level that it gets to. */
  lemma {:induction false} EveryLevelEndsExactly(c: Config, f: File, level: Level, fuel: nat)
    requires fuel > 2 * |f|
    ensures var r := CheckEveryLevel(c, f, level, fuel);
            r == Pass || r == Fail(Unfinished) ==> (r == Pass <==> TreeEnds(c, f, level, fuel))
    decreases level.level + 1
  {
    hide CheckLevel, LevelEnds;
    if level.leftmost != P_NONE {
      LevelCheckEndsExactly(c, f, level, fuel);
      WalkGoesOneDownIfDone(c, f, level, fuel);
      var r := CheckLevel(c, f, level, fuel);
      if r.Success? && r.value.leftmost != P_NONE && r.value.leftmost != INVALID_BLOCK {
        EveryLevelEndsExactly(c, f, r.value, fuel);
      }
    }
  }

  lemma {:induction false} AllEndMeansLevelEnds(f: File, b: BlockNumber, n: nat)
    requires forall x: BlockNumber :: x < |f| ==> Ends(f, x)
    requires EndsAfter(f, b, n)
    ensures LevelEndsAfter(f, b, n)
    decreases n
  {
    hide Ends;
    if n > 0 {
      forall o | FirstData(f[b]) <= o < |f[b].items| ensures Ends(f, f[b].items[o].link) {
        if f[b].items[o].link >= |f| {
          EndsAtOnce(f, f[b].items[o].link);
        }
      }
      AllEndMeansLevelEnds(f, f[b].next, n - 1);
    }
  }

  /** In particular, if the right links of the file form no cycle, the verifier ends with an
      answer. */
  lemma {:induction false} EveryLevelFinishes(c: Config, f: File, level: Level, fuel: nat)
    requires (forall x: BlockNumber :: x < |f| ==> Ends(f, x)) && fuel > 2 * |f|
    ensures Decided(CheckEveryLevel(c, f, level, fuel))
    decreases level.level + 1
  {
    hide CheckLevel, Ends;
    if level.leftmost != P_NONE {
      if level.leftmost >= |f| {
        EndsAtOnce(f, level.leftmost);
      }
      NoCycleOnLevel(f, level.leftmost);
      LevelCheckFinishes(c, f, level, fuel);
      WalkGoesOneDownIfDone(c, f, level, fuel);
      var r := CheckLevel(c, f, level, fuel);
      if r.Success? && r.value.leftmost != P_NONE && r.value.leftmost != INVALID_BLOCK {
        EveryLevelFinishes(c, f, r.value, fuel);
      }
    }
  }

  lemma NoCycleOnLevel(f: File, b: BlockNumber)
    requires (forall x: BlockNumber :: x < |f| ==> Ends(f, x)) && Ends(f, b)
    ensures LevelEnds(f, b)
  {
    var n: nat :| EndsAfter(f, b, n);
    AllEndMeansLevelEnds(f, b, n);
  }

  // ---------------------------------------------------------------- rings that are found

  /** From block to block of the path, and then to `last`. */
  predicate RightPath(f: File, path: seq<BlockNumber>, last: BlockNumber) {
    path != [] ==>
      && 0 < path[0] < |f| && f[path[0]].next == (if |path| > 1 then path[1] else last)
      && RightPath(f, path[1..], last)
  }

  /** A walk along the children that comes back to the page it set out from does not go on for
      ever: the verifier reports an error, that ring or another one. */
  lemma {:induction false} ChildRingIsFound(f: File, target: Page, lowkey: Option<Tuple>, off: Option<nat>,
        downlink: BlockNumber, prev: BlockNumber, split: bool, first: bool, fuel: nat, path: seq<BlockNumber>)
    requires prev != P_NONE && RightPath(f, path, prev) && (path == [] ==> !first)
    requires downlink != prev && downlink !in path && fuel > |path| + |f|
    ensures var blkno := if path == [] then prev else path[0];
            var r := HighKeyWalk(f, target, lowkey, off, downlink, prev, blkno, split, first, fuel);
            !r.Success? && Finished(r)
    decreases |path|
  {
    hide VisitChild;
    if path == [] {
      BackAgainFails(f, target, lowkey, off, downlink, prev, split, fuel);
    } else {
      VisitFinishes(f, target, lowkey, off, downlink, prev, path[0], split, first, fuel);
      ChildRingIsFound(f, target, lowkey, off, downlink, prev, f[path[0]].incompleteSplit, false, fuel - 1, path[1..]);
    }
  }

  lemma BackAgainFails(f: File, target: Page, lowkey: Option<Tuple>, off: Option<nat>, downlink: BlockNumber,
        prev: BlockNumber, split: bool, fuel: nat)
    requires prev != P_NONE
    ensures var r := VisitChild(f, target, lowkey, off, downlink, prev, prev, split, false, fuel);
            !r.Success? && Finished(r)
  {
    hide MatchHighKey, DownlinkMissing, LeftmostIgnoringHalfDead;
  }

  /** Nor does the walk along a level stay at a half-dead page whose right link leads back to it. */
  lemma SelfRingIsFound(c: Config, f: File, level: Level, w: Walk, fuel: nat, n: nat)
    requires 0 < w.current < |f| && f[w.current].halfDead && f[w.current].next == w.current && n >= 2
    ensures var r := LevelWalk(c, f, level, w, fuel, n); !r.Success? && Finished(r)
  {
    hide TargetPageCheck, FirstPageCheck, NextLevelDown;
    var r := VisitPage(c, f, level, w, fuel);
    if r.Success? {
      assert !VisitPage(c, f, level, r.value, fuel).Success?;
    }
  }

  // ---------------------------------------------------------------- how it can go wrong

  /** An empty leaf, and a half-dead page that is both its left and its right sibling. */
  const RING: File := [BLANK.(meta := true),
                       BLANK.(root := true, prev := 2, next := 2, items := [Tuple([1, 1], 0)]),
                       BLANK.(halfDead := true, next := 1, items := [Tuple([1, 1], 0)])]

  const LEAF_LEVEL := Level(1, 0, true)

  lemma {:induction false} RingGoesRound(w: Walk, fuel: nat, n: nat)
    requires w.nextdown.leftmost == P_NONE
    requires (w.current == 1 && w.left == 2) || (w.current == 2 && w.left == 1)
    ensures LevelWalk(Config(1, true), RING, LEAF_LEVEL, w, fuel, n) == Failure(Unfinished)
    decreases n
  {
    if n > 0 {
      var w' := VisitPage(Config(1, true), RING, LEAF_LEVEL, w, fuel);
      assert w'.Success?;
      RingGoesRound(w'.value, fuel, n - 1);
    }
  }

  /** The condition can fail without an error: here the level walk goes round for ever, and no
      check objects. */
  lemma LevelWalkCanRunForever(fuel: nat)
    ensures CheckLevel(Config(1, true), RING, LEAF_LEVEL, fuel) == Failure(Unfinished)
  {
    if fuel > 0 {
      var c := Config(1, true);
      assert AcceptedStep(RING, 1, 1, 2);
      assert LeftChain(RING, [1]);
      assert LeftChain(RING, [1] + [2]);
      assert LeftWalk(RING, [1] + [2]) == Success(true);
      assert LeftWalk(RING, [1]) == Success(true);
      var w' := VisitPage(c, RING, LEAF_LEVEL, StartOf(LEAF_LEVEL), fuel);
      assert w'.Success?;
      RingGoesRound(w'.value, fuel, fuel - 1);
    }
  }
}
