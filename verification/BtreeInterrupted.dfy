/** Files that are always reported: those with a page that has neither a downlink nor, any more, a
    separator in the level above, and those whose true root is not flagged as a root. Crashes leave
    such files behind, and they are sound. */
module BtreeInterrupted {
  import opened Outcomes
  import opened BtreeKey
  import opened BtreePage
  import opened BtreeLeftmost
  import opened BtreeChain
  import opened BtreeCheck
  import opened BtreeLevel
  import opened BtreeParent
  import opened BtreeHealthy

  // ---------------------------------------------------------------- pages without a separator

  /** A pivot of the page, or its high key. */
  predicate KeyOfPage(p: Page, k: Key) {
    exists o: nat :: o < |p.items| && o != FirstData(p) && p.items[o].key == k
  }

  predicate KeyOfLevel(f: File, blocks: seq<BlockNumber>, k: Key)
    requires forall i :: 0 <= i < |blocks| ==> blocks[i] < |f|
  {
    exists i: nat :: i < |blocks| && KeyOfPage(f[blocks[i]], k)
  }

  /** The page should have a high key, and its split is complete. */
  predicate Bounded(p: Page) {
    !Rightmost(p) && !p.incompleteSplit && 0 < |p.items|
  }

  /** The high key of the page is none that the target or its left sibling has. */
  predicate Unmatched(target: Page, lowkey: Option<Tuple>, p: Page) {
    && Bounded(p)
    && !KeyOfPage(target, p.items[0].key)
    && (lowkey.Some? ==> lowkey.value.key != p.items[0].key)
  }

  /** What it takes to pass over a page that has no downlink and needs none: its high key must be
      the pivot at which the walk has arrived. */
  lemma PassedOverExactly(f: File, target: Page, lowkey: Option<Tuple>, off: Option<nat>, downlink: BlockNumber,
        prev: BlockNumber, b: BlockNumber, split: bool, fuel: nat)
    requires 0 < b < |f| && Sane(f[b]) && b != downlink && b != prev && b != f[b].prev
    requires f[b].halfDead && Bounded(f[b]) && f[b].level + 1 == target.level
    ensures VisitChild(f, target, lowkey, off, downlink, prev, b, split, false, fuel).Success?
       <==> && PivotFor(target, lowkey, off, false).Success?
            && PivotFor(target, lowkey, off, false).value.key == f[b].items[0].key
  {
  }

  /** No walk that checks the target's children gets past this page. */
  ghost predicate Impassable(f: File, target: Page, lowkey: Option<Tuple>, b: BlockNumber) {
    0 < b < |f| &&
    forall off: Option<nat>, downlink: BlockNumber, prev: BlockNumber, split: bool, first: bool, fuel: nat ::
      IsDownlink(target, off, downlink) ==>
        !VisitChild(f, target, lowkey, off, downlink, prev, b, split, first, fuel).Success?
  }

  lemma UnmatchedIsImpassable(f: File, target: Page, lowkey: Option<Tuple>, b: BlockNumber)
    requires 0 < b < |f| && Unmatched(target, lowkey, f[b]) && !target.leaf
    requires forall o :: FirstData(target) <= o < |target.items| ==> target.items[o].link != b
    ensures Impassable(f, target, lowkey, b)
  {
    forall off: Option<nat>, downlink: BlockNumber, prev: BlockNumber, split: bool, first: bool, fuel: nat
      | IsDownlink(target, off, downlink)
      ensures !VisitChild(f, target, lowkey, off, downlink, prev, b, split, first, fuel).Success?
    {
      UnmatchedFails(f, target, lowkey, off, downlink, prev, b, split, first, fuel);
      hide VisitChild, Unmatched;
    }
  }

  lemma UnmatchedFails(f: File, target: Page, lowkey: Option<Tuple>, off: Option<nat>, downlink: BlockNumber,
        prev: BlockNumber, b: BlockNumber, split: bool, first: bool, fuel: nat)
    requires 0 < b < |f| && b != downlink && Unmatched(target, lowkey, f[b]) && !target.leaf
    ensures !VisitChild(f, target, lowkey, off, downlink, prev, b, split, first, fuel).Success?
  {
    if off.Some? && !NegativeInfinity(target, off.value) {
      var o := if off.value >= |target.items| then 0 else off.value;
      assert o < |target.items| && o != FirstData(target) ==> KeyOfPage(target, target.items[o].key);
    }
  }

  // ---------------------------------------------------------------- the walk never gets past it

  /** The cursor is behind the first k children; nothing is remembered at the start. */
  predicate CursorAt(f: File, kids: seq<BlockNumber>, k: nat, cur: Cursor)
    requires k <= |kids|
  {
    cur == if k == 0 then FRESH else Cursor(At(kids, k), SplitAt(f, kids, false, k))
  }

  lemma {:induction false} WalkStopsShort(f: File, target: Page, lowkey: Option<Tuple>, off: Option<nat>,
        downlink: BlockNumber, prev: BlockNumber, first: bool, fuel: nat, start: BlockNumber, kids: seq<BlockNumber>,
        k: nat, m: nat)
    returns (k': nat)
    requires Chain(f, start, kids) && k <= m < |kids|
    requires Impassable(f, target, lowkey, kids[m]) && IsDownlink(target, off, downlink)
    requires HighKeyWalk(f, target, lowkey, off, downlink, prev, At(kids, k), SplitAt(f, kids, false, k),
                         first, fuel).Success?
    ensures downlink != P_NONE && k < k' <= m
    ensures CursorAt(f, kids, k', HighKeyWalk(f, target, lowkey, off, downlink, prev, At(kids, k),
                                              SplitAt(f, kids, false, k), first, fuel).value)
    decreases fuel
  {
    hide Chain, VisitChild, IsDownlink;
    BlockAt(f, start, kids, k);
    BlockAt(f, start, kids, k + 1);
    var b := At(kids, k);
    assert VisitChild(f, target, lowkey, off, downlink, prev, b, SplitAt(f, kids, false, k), first, fuel).Success?;
    assert k < m;
    if b == downlink {
      k' := k + 1;
    } else {
      k' := WalkStopsShort(f, target, lowkey, off, downlink, prev, false, fuel - 1, start, kids, k + 1, m);
    }
  }

  lemma CheckStopsShort(f: File, target: Page, lowkey: Option<Tuple>, off: Option<nat>, d: BlockNumber, cur: Cursor,
        fuel: nat, start: BlockNumber, kids: seq<BlockNumber>, k: nat, m: nat)
    returns (k': nat)
    requires Chain(f, start, kids) && k <= m < |kids|
    requires Impassable(f, target, lowkey, kids[m]) && IsDownlink(target, off, d)
    requires CursorAt(f, kids, k, cur) && (k == 0 ==> d == start)
    requires ChildHighKeyCheck(f, target, lowkey, off, cur, fuel).Success?
    ensures d != P_NONE && k < k' <= m
    ensures CursorAt(f, kids, k', ChildHighKeyCheck(f, target, lowkey, off, cur, fuel).value)
  {
    hide HighKeyWalk, Impassable;
    AtIsABlock(f, start, kids, k);
    k' := WalkStopsShort(f, target, lowkey, off, d, cur.prevrightlink, true, fuel, start, kids, k, m);
  }

  lemma ItemStopsShort(c: Config, f: File, target: Page, lowkey: Option<Tuple>, o: nat, cur: Cursor, fuel: nat,
        start: BlockNumber, kids: seq<BlockNumber>, k: nat, m: nat)
    returns (k': nat)
    requires Chain(f, start, kids) && k <= m < |kids| && Impassable(f, target, lowkey, kids[m])
    requires !target.leaf && FirstData(target) <= o < |target.items|
    requires CursorAt(f, kids, k, cur) && (k == 0 ==> target.items[o].link == start)
    requires !Rightmost(target) ==> 0 < |target.items|
    requires TargetItem(c, f, target, lowkey, o, cur, fuel).Success?
    ensures k < k' <= m && CursorAt(f, kids, k', TargetItem(c, f, target, lowkey, o, cur, fuel).value)
  {
    hide ChildHighKeyCheck, ItemCheck, CursorAt, Impassable, Chain;
    k' := CheckStopsShort(f, target, lowkey, Some(o), target.items[o].link, cur, fuel, start, kids, k, m);
  }

  lemma {:induction false} ItemsStopShort(c: Config, f: File, target: Page, lowkey: Option<Tuple>, o: nat, cur: Cursor,
        fuel: nat, start: BlockNumber, kids: seq<BlockNumber>, k: nat, m: nat)
    returns (k': nat)
    requires Chain(f, start, kids) && k <= m < |kids| && Impassable(f, target, lowkey, kids[m])
    requires !target.leaf && FirstData(target) <= o <= |target.items|
    requires CursorAt(f, kids, k, cur) && (k == 0 ==> o < |target.items| && target.items[o].link == start)
    requires !Rightmost(target) ==> 0 < |target.items|
    requires TargetItems(c, f, target, lowkey, o, cur, fuel).Success?
    ensures 0 < k' <= m && CursorAt(f, kids, k', TargetItems(c, f, target, lowkey, o, cur, fuel).value)
    decreases |target.items| - o
  {
    hide TargetItem, CursorAt, Impassable, Chain;
    if o == |target.items| {
      k' := k;
    } else {
      var k1 := ItemStopsShort(c, f, target, lowkey, o, cur, fuel, start, kids, k, m);
      var cur' := TargetItem(c, f, target, lowkey, o, cur, fuel).value;
      k' := ItemsStopShort(c, f, target, lowkey, o + 1, cur', fuel, start, kids, k1, m);
    }
  }

  /** The check of a page does not get past the child either; that of the last page fails. */
  lemma PageStopsShort(c: Config, f: File, target: Page, lowkey: Option<Tuple>, cur: Cursor, fuel: nat,
        start: BlockNumber, kids: seq<BlockNumber>, k: nat, m: nat)
    returns (k': nat)
    requires Chain(f, start, kids) && k <= m < |kids| && Impassable(f, target, lowkey, kids[m])
    requires !target.leaf && FirstData(target) < |target.items|
    requires CursorAt(f, kids, k, cur) && (k == 0 ==> target.items[FirstData(target)].link == start)
    requires TargetPageCheck(c, f, target, lowkey, cur, fuel).Success?
    ensures !Rightmost(target) && 0 < k' <= m
    ensures CursorAt(f, kids, k', TargetPageCheck(c, f, target, lowkey, cur, fuel).value)
  {
    hide TargetItems, CursorAt, ChildHighKeyCheck, Chain, Impassable;
    k' := ItemsStopShort(c, f, target, lowkey, FirstData(target), cur, fuel, start, kids, k, m);
    if Rightmost(target) {
      var cur' := TargetItems(c, f, target, lowkey, FirstData(target), cur, fuel).value;
      var none := CheckStopsShort(f, target, lowkey, None, P_NONE, cur', fuel, start, kids, k', m);
    }
  }

  // ---------------------------------------------------------------- a whole level

  /** None, or the high key of a page of the level: what the walk may carry along. */
  predicate Carried(f: File, blocks: seq<BlockNumber>, lowkey: Option<Tuple>)
    requires forall i :: 0 <= i < |blocks| ==> blocks[i] < |f|
  {
    lowkey.Some? ==>
      exists i: nat :: i < |blocks| && !Rightmost(f[blocks[i]]) && 0 < |f[blocks[i]].items|
                       && lowkey.value == f[blocks[i]].items[0]
  }

  /** None of the level's pages lets its children's walk past this page. */
  ghost predicate ImpassableHere(f: File, level: Level, blocks: seq<BlockNumber>, b: BlockNumber)
    requires forall i :: 0 <= i < |blocks| ==> blocks[i] < |f|
  {
    forall i: nat, lowkey: Option<Tuple> ::
      i < |blocks| && !f[blocks[i]].halfDead && !f[blocks[i]].leaf && f[blocks[i]].level == level.level
      && FirstData(f[blocks[i]]) < |f[blocks[i]].items| && Carried(f, blocks, lowkey) ==>
        Impassable(f, f[blocks[i]], lowkey, b)
  }

  lemma VisitedPage(c: Config, f: File, level: Level, w: Walk, fuel: nat)
    requires w.current != P_NONE && VisitPage(c, f, level, w, fuel).Success? && level.level > 0
    ensures var p := f[w.current]; var w' := VisitPage(c, f, level, w, fuel).value;
            && w'.current == p.next
            && (p.halfDead ==> !Rightmost(p) && w'.cur == w.cur)
            && (!Rightmost(p) ==> 0 < |p.items|)
            && (w'.lowkey == if Rightmost(p) then None else Some(p.items[0]))
            && (!p.halfDead ==>
                  && !p.leaf && FirstData(p) < |p.items| && p.level == level.level
                  && TargetPageCheck(c, f, p, w.lowkey, w.cur, fuel) == Success(w'.cur))
  {
    hide TargetPageCheck, FirstPageCheck, NextLevelDown;
  }

  /** The downlinks of the rest of the level begin with those of the next page that has any. */
  lemma LinksFrom(f: File, blocks: seq<BlockNumber>, i: nat)
    requires i < |blocks| && forall n :: 0 <= n < |blocks| ==> blocks[n] < |f|
    ensures f[blocks[i]].halfDead ==> Downlinks(f, blocks[i..]) == Downlinks(f, blocks[i + 1..])
    ensures !f[blocks[i]].halfDead && FirstData(f[blocks[i]]) < |f[blocks[i]].items| ==>
              Downlinks(f, blocks[i..]) != []
              && Downlinks(f, blocks[i..])[0] == f[blocks[i]].items[FirstData(f[blocks[i]])].link
  {
    var p := f[blocks[i]];
    assert blocks[i..][0] == blocks[i] && blocks[i..][1..] == blocks[i + 1..];
    if p.halfDead {
      assert [] + Downlinks(f, blocks[i + 1..]) == Downlinks(f, blocks[i + 1..]);
    } else if FirstData(p) < |p.items| {
      assert PageLinks(p)[0] == p.items[FirstData(p)].link;
    }
  }

  lemma {:induction false} LevelStopsShort(c: Config, f: File, level: Level, w: Walk, fuel: nat, n: nat,
        top: BlockNumber, blocks: seq<BlockNumber>, i: nat, start: BlockNumber, kids: seq<BlockNumber>, k: nat, m: nat)
    requires Chain(f, top, blocks) && i < |blocks| && w.current == blocks[i] && level.level > 0
    requires forall n :: 0 <= n < |blocks| ==> blocks[n] < |f|
    requires Chain(f, start, kids) && k <= m < |kids| && CursorAt(f, kids, k, w.cur)
    requires k == 0 ==> Downlinks(f, blocks[i..]) != [] ==> Downlinks(f, blocks[i..])[0] == start
    requires ImpassableHere(f, level, blocks, kids[m]) && Carried(f, blocks, w.lowkey)
    ensures w.current != P_NONE && !LevelWalk(c, f, level, w, fuel, n).Success?
    decreases |blocks| - i
  {
    hide VisitPage, CursorAt, Downlinks, TargetPageCheck, Chain, Impassable;
    NextInLevel(f, top, blocks, i);
    if LevelWalk(c, f, level, w, fuel, n).Success? {
      VisitedPage(c, f, level, w, fuel);
      LinksFrom(f, blocks, i);
      var p, w' := f[w.current], VisitPage(c, f, level, w, fuel).value;
      var k' := k;
      if !p.halfDead {
        assert Impassable(f, f[blocks[i]], w.lowkey, kids[m]);
        k' := PageStopsShort(c, f, p, w.lowkey, w.cur, fuel, start, kids, k, m);
      }
      assert Carried(f, blocks, w'.lowkey);
      hide ImpassableHere, Carried;
      LevelStopsShort(c, f, level, w', fuel, n - 1, top, blocks, i + 1, start, kids, k', m);
    }
  }

  /** A page that nothing lets past makes the check of the level above fail. */
  lemma ImpassableIsReported(c: Config, f: File, level: Level, fuel: nat, blocks: seq<BlockNumber>,
        kids: seq<BlockNumber>, b: BlockNumber)
    requires level.leftmost != P_NONE && level.level > 0 && Chain(f, level.leftmost, blocks)
    requires Downlinks(f, blocks) != [] && Chain(f, Downlinks(f, blocks)[0], kids) && b in kids
    requires ImpassableHere(f, level, blocks, b)
    ensures !CheckLevel(c, f, level, fuel).Success?
  {
    hide LevelWalk, Downlinks, ImpassableHere;
    var m :| 0 <= m < |kids| && kids[m] == b;
    assert blocks[0..] == blocks;
    LevelStopsShort(c, f, level, StartOf(level), fuel, fuel, level.leftmost, blocks, 0, Downlinks(f, blocks)[0], kids,
                    0, m);
  }

  lemma NotKeyIsUnmatched(f: File, blocks: seq<BlockNumber>, i: nat, lowkey: Option<Tuple>, p: Page)
    requires i < |blocks| && (forall n :: 0 <= n < |blocks| ==> blocks[n] < |f|) && Bounded(p)
    requires !KeyOfLevel(f, blocks, p.items[0].key) && Carried(f, blocks, lowkey)
    ensures Unmatched(f[blocks[i]], lowkey, p)
  {
    assert !KeyOfPage(f[blocks[i]], p.items[0].key);
    if lowkey.Some? {
      var n: nat :| n < |blocks| && !Rightmost(f[blocks[n]]) && 0 < |f[blocks[n]].items|
                    && lowkey.value == f[blocks[n]].items[0];
      assert !KeyOfPage(f[blocks[n]], p.items[0].key);
    }
  }

  /** The main result on false alarms, for every file: a page of the level below without a
      downlink, whose split is complete, makes the check fail if its high key is no longer a key of
      the level above. */
  lemma UnmatchedIsReported(c: Config, f: File, level: Level, fuel: nat, blocks: seq<BlockNumber>,
        kids: seq<BlockNumber>, b: BlockNumber)
    requires level.leftmost != P_NONE && level.level > 0 && Chain(f, level.leftmost, blocks)
    requires Downlinks(f, blocks) != [] && Chain(f, Downlinks(f, blocks)[0], kids)
    requires b in kids && b !in Downlinks(f, blocks) && b < |f| && Bounded(f[b])
    requires !KeyOfLevel(f, blocks, f[b].items[0].key)
    ensures !CheckLevel(c, f, level, fuel).Success?
  {
    hide CheckLevel, KeyOfLevel, Downlinks, Bounded, Carried, Impassable, Unmatched;
    forall i: nat, lowkey: Option<Tuple>
      | i < |blocks| && !f[blocks[i]].halfDead && !f[blocks[i]].leaf && f[blocks[i]].level == level.level
        && FirstData(f[blocks[i]]) < |f[blocks[i]].items| && Carried(f, blocks, lowkey)
      ensures Impassable(f, f[blocks[i]], lowkey, b)
    {
      NotKeyIsUnmatched(f, blocks, i, lowkey, f[b]);
      forall o | FirstData(f[blocks[i]]) <= o < |f[blocks[i]].items| ensures f[blocks[i]].items[o].link != b {
        IsADownlink(f, blocks, i, o);
      }
      UnmatchedIsImpassable(f, f[blocks[i]], lowkey, b);
    }
    ImpassableIsReported(c, f, level, fuel, blocks, kids, b);
  }

  lemma {:induction false} IsADownlink(f: File, blocks: seq<BlockNumber>, i: nat, o: nat)
    requires i < |blocks| && forall n :: 0 <= n < |blocks| ==> blocks[n] < |f|
    requires !f[blocks[i]].halfDead && FirstData(f[blocks[i]]) <= o < |f[blocks[i]].items|
    ensures f[blocks[i]].items[o].link in Downlinks(f, blocks)
    decreases i
  {
    if i > 0 {
      IsADownlink(f, blocks[1..], i - 1, o);
    } else {
      var p := f[blocks[0]];
      assert PageLinks(p)[o - FirstData(p)] == p.items[o].link;
    }
  }

  /** What the walk over the children finds out about every page of their level, those without a
      downlink included: it can be read, is numbered one lower (pages deleted before version 14 have
      no number), and does not name itself as its left sibling. */
  predicate FitsBelow(f: File, level: Level, b: BlockNumber) {
    && 0 < b < |f| && Sane(f[b]) && f[b].prev != b
    && (!f[b].deleted || f[b].fullXid ==> f[b].level + 1 == level.level)
  }

  lemma MisfitIsImpassable(f: File, level: Level, target: Page, lowkey: Option<Tuple>, b: BlockNumber)
    requires 0 < b < |f| && !FitsBelow(f, level, b) && target.level == level.level
    ensures Impassable(f, target, lowkey, b)
  {
    forall off: Option<nat>, downlink: BlockNumber, prev: BlockNumber, split: bool, first: bool, fuel: nat
      | IsDownlink(target, off, downlink)
      ensures !VisitChild(f, target, lowkey, off, downlink, prev, b, split, first, fuel).Success?
    {
    }
  }

  lemma ChildrenFitBelow(c: Config, f: File, level: Level, fuel: nat, blocks: seq<BlockNumber>, kids: seq<BlockNumber>)
    requires level.leftmost != P_NONE && level.level > 0 && Chain(f, level.leftmost, blocks)
    requires Downlinks(f, blocks) != [] && Chain(f, Downlinks(f, blocks)[0], kids)
    requires CheckLevel(c, f, level, fuel).Success?
    ensures forall b :: b in kids ==> FitsBelow(f, level, b)
  {
    hide CheckLevel, Downlinks, Carried, Impassable, FitsBelow;
    forall b | b in kids ensures FitsBelow(f, level, b) {
      if !FitsBelow(f, level, b) {
        forall i: nat, lowkey: Option<Tuple>
          | i < |blocks| && !f[blocks[i]].halfDead && !f[blocks[i]].leaf && f[blocks[i]].level == level.level
            && FirstData(f[blocks[i]]) < |f[blocks[i]].items| && Carried(f, blocks, lowkey)
          ensures Impassable(f, f[blocks[i]], lowkey, b)
        {
          MisfitIsImpassable(f, level, f[blocks[i]], lowkey, b);
        }
        ImpassableIsReported(c, f, level, fuel, blocks, kids, b);
      }
    }
  }

  // ---------------------------------------------------------------- roots without their flag

  lemma NextOfChain(f: File, start: BlockNumber, blocks: seq<BlockNumber>)
    requires Chain(f, start, blocks) && start < |f| && !Rightmost(f[start])
    ensures Chain(f, f[start].next, blocks[1..])
  {
    if |blocks| > 1 {
      ChainTail(f, start, blocks);
    }
  }

  lemma {:induction false} RootFlagWanted(c: Config, f: File, level: Level, w: Walk, fuel: nat, n: nat,
        blocks: seq<BlockNumber>)
    requires Chain(f, w.current, blocks) && level.istrueroot && w.nextdown.leftmost == INVALID_BLOCK
    requires forall i :: 0 <= i < |blocks| ==> blocks[i] < |f|
    requires var k := FirstLive(f, blocks); k < |blocks| && !f[blocks[k]].root
    ensures w.current != P_NONE && !LevelWalk(c, f, level, w, fuel, n).Success?
    decreases |blocks|
  {
    hide TargetPageCheck, LeftmostIgnoringHalfDead;
    if n > 0 && VisitPage(c, f, level, w, fuel).Success? && f[w.current].halfDead {
      NextOfChain(f, w.current, blocks);
      RootFlagWanted(c, f, level, VisitPage(c, f, level, w, fuel).value, fuel, n - 1, blocks[1..]);
    }
  }

  /** An incomplete split of the root is reported, whatever else the file holds: the left half has
      lost the flag, and the metapage still names it as the root. */
  lemma RootSplitIsReported(c: Config, f: File, level: Level, fuel: nat, blocks: seq<BlockNumber>)
    requires level.leftmost != P_NONE && level.istrueroot && Chain(f, level.leftmost, blocks)
    requires !f[level.leftmost].halfDead && !f[level.leftmost].root
    ensures CheckEveryLevel(c, f, level, fuel) != Pass
  {
    hide LevelWalk;
    RootFlagWanted(c, f, level, StartOf(level), fuel, fuel, blocks);
  }

  /** What is sound otherwise passes if and only if its first page has the flag. */
  lemma RootFlagExactly(c: Config, f: File, levels: seq<seq<BlockNumber>>, fuel: nat)
    requires HealthyTree(c, f, levels) && fuel >= |f|
    ensures CheckEveryLevel(c, f, Level(levels[0][0], |levels| - 1, true), fuel) == Pass <==> f[levels[0][0]].root
  {
    hide HealthyLevel, HealthyPair, CheckEveryLevel;
    var level := Level(levels[0][0], |levels| - 1, true);
    if f[levels[0][0]].root {
      HealthyIndexPasses(c, f, levels, fuel);
    } else {
      assert HealthyLevel(c, f, levels[0], |levels| - 1);
      TopOfTree(c, f, levels[0], |levels| - 1);
      RootSplitIsReported(c, f, level, fuel, levels[0]);
    }
  }

  lemma TopOfTree(c: Config, f: File, blocks: seq<BlockNumber>, number: nat)
    requires HealthyLevel(c, f, blocks, number)
    ensures blocks != [] && Chain(f, blocks[0], blocks) && blocks[0] != P_NONE && !f[blocks[0]].halfDead
  {
    hide Sorted, LiveReals, Bounds, FirstOfLevel;
  }

  /** The two halves of what was the only page of an index: the left one is still named by the
      metapage, and the new root is not there yet. */
  const SPLIT_ROOT: File := [BLANK.(meta := true),
                             BLANK.(incompleteSplit := true, next := 2, items := [Tuple([5], 0), Tuple([1, 1], 0)]),
                             BLANK.(prev := 1, items := [Tuple([7, 1], 0)])]

  lemma SplitRootReported(fuel: nat)
    ensures CheckEveryLevel(Config(1, true), SPLIT_ROOT, Level(1, 0, true), fuel) != Pass
  {
    hide CheckEveryLevel;
    assert Chain(SPLIT_ROOT, 1, [1, 2]);
    RootSplitIsReported(Config(1, true), SPLIT_ROOT, Level(1, 0, true), fuel, [1, 2]);
  }
}
