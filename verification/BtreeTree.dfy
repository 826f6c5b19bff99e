/** What a successful check of one level implies for the next one: where it starts, which of its
    pages lie beneath downlinks, and which of those are looked at. */
module BtreeTree {
  import opened Outcomes
  import opened BtreeKey
  import opened BtreePage
  import opened BtreeLeftmost
  import opened BtreeChain
  import opened BtreeCheck
  import opened BtreeLevel
  import opened BtreeParent

  // ---------------------------------------------------------------- a level and the one below

  lemma LevelIsChecked(c: Config, f: File, level: Level, fuel: nat, blocks: seq<BlockNumber>)
    requires level.leftmost != P_NONE && CheckLevel(c, f, level, fuel).Success?
    requires Chain(f, level.leftmost, blocks)
    ensures CheckedLevel(c, f, level, fuel, blocks)
  {
    hide CheckLevel, Visited, Chain;
    var seen := LevelIsChain(c, f, level, fuel);
    ChainIsOne(f, level.leftmost, seen, blocks);
  }

  /** A live page of an internal level. */
  lemma InternalPage(c: Config, f: File, level: Level, fuel: nat, blocks: seq<BlockNumber>, b: BlockNumber)
    requires CheckedLevel(c, f, level, fuel, blocks) && b in blocks
    ensures b < |f| && Sane(f[b]) && !f[b].deleted
    ensures !f[b].halfDead ==> Accepted(c, f, level, fuel, b)
    ensures !f[b].halfDead && level.level > 0 ==> !f[b].leaf && FirstData(f[b]) < |f[b].items|
    ensures !f[b].leaf ==> !f[b].halfDead
  {
    hide TargetPageCheck;
    assert Visited(c, f, level, fuel, b);
  }

  lemma VisitPageUnfolds(c: Config, f: File, level: Level, w: Walk, fuel: nat)
    requires w.current != P_NONE && VisitPage(c, f, level, w, fuel).Success?
    ensures var p := f[w.current]; var w' := VisitPage(c, f, level, w, fuel).value;
            && w'.current == p.next
            && (p.halfDead ==> w'.cur == w.cur)
            && (!p.halfDead ==>
                  (!Rightmost(p) ==> 0 < |p.items|)
                    && TargetPageCheck(c, f, p, w.lowkey, w.cur, fuel) == Success(w'.cur))
  {
    hide TargetPageCheck, FirstPageCheck, NextLevelDown;
  }

  /** The walk over the upper level from its i-th page on goes from each downlink to the next:
      half-dead pages leave it where it is, and after the last page it goes on to the end. */
  lemma {:induction false} LevelSteps(c: Config, f: File, level: Level, w: Walk, fuel: nat, n: nat,
        blocks: seq<BlockNumber>, i: nat, prev: BlockNumber)
    requires CheckedLevel(c, f, level, fuel, blocks) && level.level > 0
    requires forall j :: 0 <= j < |blocks| ==> blocks[j] < |f|
    requires i < |blocks| && w.current == blocks[i] && w.current != P_NONE
    requires LevelWalk(c, f, level, w, fuel, n).Success? && CursorAfter(f, w.cur, prev)
    ensures Steps(f, prev, Downlinks(f, blocks[i..]) + [P_NONE])
    decreases |blocks| - i
  {
    hide Accepted, Chain, VisitPage, PageLinks, Visited, CursorAfter, Walked, TargetPageCheck, LinksFit;
    NextInLevel(f, level.leftmost, blocks, i);
    var p := f[blocks[i]];
    VisitPageUnfolds(c, f, level, w, fuel);
    LastIsLive(c, f, level, fuel, blocks);
    var w' := VisitPage(c, f, level, w, fuel).value;
    var rest := blocks[i + 1..];
    assert blocks[i..][0] == blocks[i] && blocks[i..][1..] == rest;
    if p.halfDead {
      assert Downlinks(f, blocks[i..]) == [] + Downlinks(f, rest);
      assert [] + Downlinks(f, rest) == Downlinks(f, rest);
      LevelSteps(c, f, level, w', fuel, n - 1, blocks, i + 1, prev);
    } else {
      InternalPage(c, f, level, fuel, blocks, blocks[i]);
      PageSteps(c, f, p, w.lowkey, w.cur, fuel, prev);
      var links := PageLinks(p);
      if i + 1 < |blocks| {
        LevelSteps(c, f, level, w', fuel, n - 1, blocks, i + 1, Last(prev, links));
        StepsConcat(f, prev, links, Downlinks(f, rest) + [P_NONE]);
        assert links + (Downlinks(f, rest) + [P_NONE]) == (links + Downlinks(f, rest)) + [P_NONE];
      } else {
        StepsConcat(f, prev, links, [P_NONE]);
        assert rest == [] && links + [] == links;
      }
    }
  }

  lemma LastIsLive(c: Config, f: File, level: Level, fuel: nat, blocks: seq<BlockNumber>)
    requires CheckedLevel(c, f, level, fuel, blocks)
    ensures 0 < blocks[|blocks| - 1] < |f| && !f[blocks[|blocks| - 1]].halfDead
  {
    hide Accepted;
    assert Visited(c, f, level, fuel, blocks[|blocks| - 1]);
    assert Accepted(c, f, level, fuel, blocks[|blocks| - 1]) ==> !f[blocks[|blocks| - 1]].halfDead by {
      AcceptedIsLive(c, f, level, fuel, blocks[|blocks| - 1]);
    }
  }

  lemma AcceptedIsLive(c: Config, f: File, level: Level, fuel: nat, b: BlockNumber)
    ensures Accepted(c, f, level, fuel, b) ==> b < |f| && !f[b].halfDead
  {
  }

  // ---------------------------------------------------------------- where the next level starts

  lemma {:induction false} NextDownStays(c: Config, f: File, level: Level, w: Walk, fuel: nat, n: nat)
    requires w.current != P_NONE && w.nextdown.leftmost != INVALID_BLOCK
    requires LevelWalk(c, f, level, w, fuel, n).Success?
    ensures LevelWalk(c, f, level, w, fuel, n).value == w.nextdown
    decreases n
  {
    var w' := VisitPage(c, f, level, w, fuel).value;
    if w'.current != P_NONE {
      NextDownStays(c, f, level, w', fuel, n - 1);
    }
  }

  /** The next level down, as read off a live page. */
  function Below(p: Page): Level {
    if p.leaf || FirstData(p) >= |p.items| then Level(P_NONE, -1, false)
    else Level(p.items[FirstData(p)].link, p.level - 1, false)
  }

  lemma FirstVisit(c: Config, f: File, level: Level, w: Walk, fuel: nat)
    requires w.current != P_NONE && VisitPage(c, f, level, w, fuel).Success?
    requires w.nextdown.leftmost == INVALID_BLOCK && w.cur == FRESH
    ensures var w' := VisitPage(c, f, level, w, fuel).value; var p := f[w.current];
            if p.halfDead then w'.nextdown == w.nextdown && w'.cur == w.cur
            else
              && w'.nextdown == Below(p) && Below(p).leftmost != INVALID_BLOCK
              && p.level == level.level && Sane(p) && !p.deleted
              && LeftmostIgnoringHalfDead(f, w.current) == Success(true)
  {
    hide TargetPageCheck, LeftmostIgnoringHalfDead;
    var p := f[w.current];
    if !p.halfDead && !p.leaf && p.items[FirstData(p)].link != P_NONE {
      FirstLinkReadable(c, f, p, w.lowkey, fuel);
    }
  }

  lemma FirstLinkReadable(c: Config, f: File, p: Page, lowkey: Option<Tuple>, fuel: nat)
    requires !p.leaf && FirstData(p) < |p.items| && p.items[FirstData(p)].link != P_NONE
    requires !Rightmost(p) ==> 0 < |p.items|
    requires TargetPageCheck(c, f, p, lowkey, FRESH, fuel).Success?
    ensures p.items[FirstData(p)].link != INVALID_BLOCK
  {
    var o := FirstData(p);
    assert TargetItems(c, f, p, lowkey, o, FRESH, fuel).Success?;
    assert TargetItem(c, f, p, lowkey, o, FRESH, fuel).Success?;
    assert ChildHighKeyCheck(f, p, lowkey, Some(o), FRESH, fuel).Success?;
  }

  lemma {:induction false} WalkReadsBelow(c: Config, f: File, level: Level, w: Walk, fuel: nat, n: nat,
        blocks: seq<BlockNumber>)
    requires Chain(f, w.current, blocks) && LevelWalk(c, f, level, w, fuel, n).Success?
    requires w.nextdown.leftmost == INVALID_BLOCK && w.cur == FRESH
    requires !f[blocks[|blocks| - 1]].halfDead
    ensures var k := FirstLive(f, blocks);
            && k < |blocks| && LevelWalk(c, f, level, w, fuel, n).value == Below(f[blocks[k]])
            && Below(f[blocks[k]]).leftmost != INVALID_BLOCK
            && f[blocks[k]].level == level.level && Sane(f[blocks[k]]) && !f[blocks[k]].deleted
            && LeftmostIgnoringHalfDead(f, blocks[k]) == Success(true)
    decreases |blocks|
  {
    hide VisitPage, LeftmostIgnoringHalfDead, Sane, Below;
    FirstVisit(c, f, level, w, fuel);
    VisitPasses(c, f, level, w, fuel);
    var w' := VisitPage(c, f, level, w, fuel).value;
    if f[w.current].halfDead {
      ChainTail(f, w.current, blocks);
      WalkReadsBelow(c, f, level, w', fuel, n - 1, blocks[1..]);
    } else if w'.current != P_NONE {
      NextDownStays(c, f, level, w', fuel, n - 1);
    }
  }

  /** The next level starts at the first downlink of the first live page, which is leftmost on
      its level; below the leaf level there is none. So the verifier goes on to the next level
      exactly if that downlink is not null. */
  lemma NextLevelStart(c: Config, f: File, level: Level, fuel: nat, blocks: seq<BlockNumber>)
    requires level.leftmost != P_NONE && CheckLevel(c, f, level, fuel).Success?
    requires Chain(f, level.leftmost, blocks)
    ensures var down := CheckLevel(c, f, level, fuel).value; var k := FirstLive(f, blocks);
            && k < |blocks| && LeftmostIgnoringHalfDead(f, blocks[k]) == Success(true)
            && down.leftmost != INVALID_BLOCK
            && var p := f[blocks[k]];
               && p.level == level.level
               && (level.level == 0 <==> p.leaf)
               && (p.leaf || FirstData(p) < |p.items|)
               && down == if p.leaf then Level(P_NONE, -1, false)
                          else Level(p.items[FirstData(p)].link, level.level - 1, false)
  {
    hide Visited, LeftmostIgnoringHalfDead;
    LevelIsChecked(c, f, level, fuel, blocks);
    LastIsLive(c, f, level, fuel, blocks);
    WalkReadsBelow(c, f, level, StartOf(level), fuel, fuel, blocks);
  }

  lemma {:induction false} FirstDownlink(f: File, blocks: seq<BlockNumber>)
    requires forall i :: 0 <= i < |blocks| ==> blocks[i] < |f|
    requires var k := FirstLive(f, blocks); k < |blocks| && FirstData(f[blocks[k]]) < |f[blocks[k]].items|
    ensures var p := f[blocks[FirstLive(f, blocks)]];
            Downlinks(f, blocks) != [] && Downlinks(f, blocks)[0] == p.items[FirstData(p)].link
  {
    if f[blocks[0]].halfDead {
      FirstDownlink(f, blocks[1..]);
    }
  }

  lemma {:induction false} DownlinksThere(f: File, blocks: seq<BlockNumber>)
    requires blocks != [] && forall i :: 0 <= i < |blocks| ==> blocks[i] < |f|
    requires var p := f[blocks[|blocks| - 1]]; !p.halfDead && FirstData(p) < |p.items|
    ensures Downlinks(f, blocks) != []
  {
    if |blocks| > 1 {
      DownlinksThere(f, blocks[1..]);
    } else {
      var p := f[blocks[0]];
      assert PageLinks(p) != [];
    }
  }

  /** A level that was checked: from each of its downlinks to the next. */
  lemma LevelIsStepped(c: Config, f: File, level: Level, fuel: nat, blocks: seq<BlockNumber>)
    requires level.leftmost != P_NONE && level.level > 0 && CheckLevel(c, f, level, fuel).Success?
    requires Chain(f, level.leftmost, blocks)
    ensures Downlinks(f, blocks) != [] && Steps(f, P_NONE, Downlinks(f, blocks) + [P_NONE])
    ensures CheckLevel(c, f, level, fuel).value.leftmost == Downlinks(f, blocks)[0]
  {
    hide Visited, LeftmostIgnoringHalfDead, LevelWalk, PageLinks, Steps;
    NextLevelStart(c, f, level, fuel, blocks);
    LevelIsChecked(c, f, level, fuel, blocks);
    FirstDownlink(f, blocks);
    assert blocks[0..] == blocks;
    LevelSteps(c, f, level, StartOf(level), fuel, fuel, blocks, 0, P_NONE);
  }

  lemma FirstStepIsLeftmost(f: File, d: BlockNumber)
    requires Walked(f, P_NONE, d) && d != P_NONE
    ensures d < |f| && LeftmostIgnoringHalfDead(f, d) == Success(true)
  {
    hide LeftmostIgnoringHalfDead, MatchHighKey, DownlinkMissing;
    var target: Page, lowkey: Option<Tuple>, off: Option<nat>, cur: Cursor, fuel: nat :|
      && CursorAfter(f, cur, P_NONE) && IsDownlink(target, off, d)
      && ChildHighKeyCheck(f, target, lowkey, off, cur, fuel).Success?;
    assert VisitChild(f, target, lowkey, off, d, INVALID_BLOCK, d, false, true, fuel).Success?;
  }

  /** The children beneath the first downlink of a level, and beneath each one after a null downlink,
      are the first of their level: only half-dead pages lie to their left. */
  lemma RunsStartLeftmost(c: Config, f: File, level: Level, fuel: nat, blocks: seq<BlockNumber>, j: nat)
    requires level.leftmost != P_NONE && level.level > 0 && CheckLevel(c, f, level, fuel).Success?
    requires Chain(f, level.leftmost, blocks) && j < |Downlinks(f, blocks)|
    requires j > 0 ==> Downlinks(f, blocks)[j - 1] == P_NONE
    requires Downlinks(f, blocks)[j] != P_NONE
    ensures exists chain :: LeadsToNone(f, Downlinks(f, blocks)[j], chain)
  {
    hide CheckLevel, Steps, Downlinks, Walked, LeftmostIgnoringHalfDead;
    LevelIsStepped(c, f, level, fuel, blocks);
    var links := Downlinks(f, blocks);
    StepAt(f, P_NONE, links + [P_NONE], j);
    assert (links + [P_NONE])[..j] == links[..j];
    FirstStepIsLeftmost(f, links[j]);
    LeftmostExactly(f, links[j]);
  }

  /** The child beneath a downlink, unless it is the first one of its page, is not deleted. */
  lemma LinkedIsLive(c: Config, f: File, level: Level, fuel: nat, b: BlockNumber, o: nat)
    requires Accepted(c, f, level, fuel, b) && !f[b].leaf
    requires FirstData(f[b]) < o < |f[b].items| && f[b].items[o].link != P_NONE
    ensures f[b].items[o].link < |f| && !f[f[b].items[o].link].deleted
  {
    hide TargetPageCheck;
    AcceptedFits(c, f, level, fuel, b);
    assert LinkFits(c, f, f[b], o);
  }

  lemma {:induction false} StepAt(f: File, prev: BlockNumber, links: seq<BlockNumber>, j: nat)
    requires Steps(f, prev, links) && j < |links|
    ensures Walked(f, Last(prev, links[..j]), links[j])
    decreases j
  {
    hide Walked;
    if j > 0 {
      StepAt(f, links[0], links[1..], j - 1);
      assert links[1..][..j - 1] == links[..j][1..];
    }
  }

  /** A run of downlinks begins at the first one of the level and after every null one. From the
      block it names, the right links visit the downlinks of the run in order, and besides them
      only pages that need not have one. */
  lemma RunIsWoven(c: Config, f: File, level: Level, fuel: nat, blocks: seq<BlockNumber>, j: nat,
        chain: seq<BlockNumber>)
    requires level.leftmost != P_NONE && level.level > 0 && CheckLevel(c, f, level, fuel).Success?
    requires Chain(f, level.leftmost, blocks)
    requires var links := Downlinks(f, blocks);
             j < |links| && links[j] != P_NONE && (j == 0 || links[j - 1] == P_NONE) && Chain(f, links[j], chain)
    ensures Weave(f, chain, false, BeforeNull(Downlinks(f, blocks)[j..]))
  {
    hide CheckLevel, Steps, Weave, Downlinks;
    LevelIsStepped(c, f, level, fuel, blocks);
    var links := Downlinks(f, blocks);
    assert links + [P_NONE] == links[..j] + (links[j..] + [P_NONE]);
    StepsConcat(f, P_NONE, links[..j], links[j..] + [P_NONE]);
    StepsWeave(f, P_NONE, links[j..], links[j], chain, 0);
    assert chain[0..] == chain;
  }

  /** The main result on two levels, on every file: the right links of the lower level visit the
      downlinks of the upper one, up to the first null one, in order, and besides them only pages
      that need not have one. So the chain is exactly those downlinks if and only if every such
      page has one among them. */
  lemma ChildLevelChain(c: Config, f: File, level: Level, fuel: nat, blocks: seq<BlockNumber>, kids: seq<BlockNumber>)
    requires level.leftmost != P_NONE && level.level > 0 && CheckLevel(c, f, level, fuel).Success?
    requires Chain(f, level.leftmost, blocks)
    requires Chain(f, CheckLevel(c, f, level, fuel).value.leftmost, kids)
    ensures var links := BeforeNull(Downlinks(f, blocks));
            && Weave(f, kids, false, links)
            && (kids == links <==> forall i :: 0 <= i < |kids| && Free(f, kids, false, i) ==> kids[i] in links)
  {
    hide CheckLevel, Weave, Free, Downlinks, BeforeNull, Steps;
    LevelIsStepped(c, f, level, fuel, blocks);
    var links := Downlinks(f, blocks);
    assert kids[0] != P_NONE;
    RunIsWoven(c, f, level, fuel, blocks, 0, kids);
    assert links[0..] == links;
    ChainFitsFile(f, links[0], kids);
    WeaveExactly(f, kids, BeforeNull(links));
  }

  /** A page beneath a downlink is looked at if it is on the chain of the next level. */
  predicate AllOnChain(links: seq<BlockNumber>, kids: seq<BlockNumber>) {
    forall d :: d in links && d != P_NONE ==> d in kids
  }

  /** Every downlink that comes right after a null one is null or leads to that chain. */
  predicate RunsOnChain(links: seq<BlockNumber>, kids: seq<BlockNumber>) {
    forall j :: 0 < j < |links| && links[j - 1] == P_NONE && links[j] != P_NONE ==> links[j] in kids
  }

  lemma {:induction false} StaysOnChain(f: File, links: seq<BlockNumber>, start: BlockNumber, kids: seq<BlockNumber>,
        j: nat)
    requires Chain(f, start, kids) && Steps(f, P_NONE, links + [P_NONE]) && RunsOnChain(links, kids)
    requires j < |links| && links[0] == start && links[j] != P_NONE
    ensures links[j] in kids
    decreases j
  {
    hide Walked, Weave, Steps;
    if j == 0 {
      assert kids[0] == start;
    } else if links[j - 1] != P_NONE {
      StaysOnChain(f, links, start, kids, j - 1);
      var k :| 0 <= k < |kids| && kids[k] == links[j - 1];
      StepAt(f, P_NONE, links + [P_NONE], j);
      assert Last(P_NONE, (links + [P_NONE])[..j]) == links[j - 1];
      var k' := CheckAlong(f, links[j - 1], links[j], start, kids, k + 1);
    }
  }

  /** What is looked at on the next level: all pages beneath downlinks before the first null one,
      and beneath every other run of downlinks if its first one is on the chain. */
  lemma LookedAtExactly(c: Config, f: File, level: Level, fuel: nat, blocks: seq<BlockNumber>, kids: seq<BlockNumber>)
    requires level.leftmost != P_NONE && level.level > 0 && CheckLevel(c, f, level, fuel).Success?
    requires Chain(f, level.leftmost, blocks)
    requires Chain(f, CheckLevel(c, f, level, fuel).value.leftmost, kids)
    ensures forall d :: d in BeforeNull(Downlinks(f, blocks)) ==> d in kids
    ensures AllOnChain(Downlinks(f, blocks), kids) <==> RunsOnChain(Downlinks(f, blocks), kids)
  {
    hide CheckLevel, Weave, Free, Downlinks, Steps;
    LevelIsStepped(c, f, level, fuel, blocks);
    var links := Downlinks(f, blocks);
    ChildLevelChain(c, f, level, fuel, blocks, kids);
    forall d | d in BeforeNull(links) ensures d in kids {
      WovenIn(f, kids, false, BeforeNull(links), d);
    }
    if RunsOnChain(links, kids) {
      forall j | 0 <= j < |links| && links[j] != P_NONE ensures links[j] in kids {
        StaysOnChain(f, links, links[0], kids, j);
      }
    }
  }

  /** The place of a downlink on its level. If a pivot or a high key bounds it from above, another
      one follows. */
  lemma {:induction false} PlaceOf(f: File, blocks: seq<BlockNumber>, b: BlockNumber, o: nat) returns (j: nat)
    requires blocks != [] && forall i :: 0 <= i < |blocks| ==> blocks[i] < |f|
    requires var p := f[blocks[|blocks| - 1]]; !p.halfDead && FirstData(p) < |p.items| && Rightmost(p)
    requires b in blocks && !f[b].halfDead && FirstData(f[b]) <= o < |f[b].items|
    ensures j < |Downlinks(f, blocks)| && Downlinks(f, blocks)[j] == f[b].items[o].link
    ensures UpperBound(f[b], o).Some? ==> j + 1 < |Downlinks(f, blocks)|
    decreases |blocks|
  {
    var first, rest := f[blocks[0]], blocks[1..];
    var own := if first.halfDead then [] else PageLinks(first);
    assert Downlinks(f, blocks) == own + Downlinks(f, rest);
    if rest != [] {
      DownlinksThere(f, rest);
    }
    if b == blocks[0] {
      j := o - FirstData(first);
    } else {
      var k := PlaceOf(f, rest, b, o);
      j := |own| + k;
    }
  }

  /** The same on a level that was checked: the walk went on from that child to the next one. */
  lemma StepFrom(c: Config, f: File, level: Level, fuel: nat, blocks: seq<BlockNumber>, b: BlockNumber, o: nat)
    returns (j: nat)
    requires level.leftmost != P_NONE && level.level > 0 && CheckLevel(c, f, level, fuel).Success?
    requires Chain(f, level.leftmost, blocks) && b in blocks && b < |f| && !f[b].leaf
    requires FirstData(f[b]) <= o < |f[b].items| && UpperBound(f[b], o).Some?
    ensures j + 1 < |Downlinks(f, blocks)| && Downlinks(f, blocks)[j] == f[b].items[o].link
    ensures Walked(f, Downlinks(f, blocks)[j], Downlinks(f, blocks)[j + 1])
  {
    hide CheckLevel, Steps, Downlinks, Walked, UpperBound, Visited, Accepted;
    LevelIsStepped(c, f, level, fuel, blocks);
    LevelIsChecked(c, f, level, fuel, blocks);
    InternalPage(c, f, level, fuel, blocks, b);
    LastIsLive(c, f, level, fuel, blocks);
    InternalPage(c, f, level, fuel, blocks, blocks[|blocks| - 1]);
    j := PlaceOf(f, blocks, b, o);
    var links := Downlinks(f, blocks);
    StepAt(f, P_NONE, links + [P_NONE], j + 1);
    assert Last(P_NONE, (links + [P_NONE])[..j + 1]) == links[j];
  }

  /** A child that is rightmost on its level and bounded from above is followed by a null
      downlink. */
  lemma RightmostBeforeNull(c: Config, f: File, level: Level, fuel: nat, blocks: seq<BlockNumber>, b: BlockNumber,
        o: nat)
    requires level.leftmost != P_NONE && level.level > 0 && CheckLevel(c, f, level, fuel).Success?
    requires Chain(f, level.leftmost, blocks) && b in blocks && b < |f| && !f[b].leaf
    requires FirstData(f[b]) <= o < |f[b].items| && UpperBound(f[b], o).Some?
    requires var d := f[b].items[o].link; d != P_NONE && d < |f| && Rightmost(f[d])
    ensures exists j :: 0 <= j < |Downlinks(f, blocks)| - 1 && Downlinks(f, blocks)[j] == f[b].items[o].link
                        && Downlinks(f, blocks)[j + 1] == P_NONE
  {
    hide CheckLevel, Downlinks, Walked, UpperBound;
    var j := StepFrom(c, f, level, fuel, blocks, b, o);
    var links := Downlinks(f, blocks);
    if links[j + 1] != P_NONE {
      WalkedOn(f, links[j], links[j + 1]);
    }
  }

  /** What one page that was looked at says about the children beneath its downlinks. */
  lemma AcceptedFits(c: Config, f: File, level: Level, fuel: nat, b: BlockNumber)
    requires Accepted(c, f, level, fuel, b) && !f[b].leaf
    ensures LinksFit(c, f, f[b])
  {
    hide TargetPageCheck, LinksFit;
    var lowkey, cur :| TargetPageCheck(c, f, f[b], lowkey, cur, fuel).Success?;
    PageSteps(c, f, f[b], lowkey, cur, fuel, P_NONE);
  }

  lemma LevelIsInternal(c: Config, f: File, level: Level, fuel: nat, blocks: seq<BlockNumber>, b: BlockNumber)
    requires level.leftmost != P_NONE && CheckEveryLevel(c, f, level, fuel) == Pass
    requires Chain(f, level.leftmost, blocks) && b in blocks && b < |f| && !f[b].leaf
    ensures level.level > 0 && !f[b].halfDead
  {
    hide CheckLevel, TargetPageCheck;
    LevelIsChecked(c, f, level, fuel, blocks);
    InternalPage(c, f, level, fuel, blocks, b);
  }

  lemma EveryLevelChecksThis(c: Config, f: File, level: Level, fuel: nat)
    requires level.leftmost != P_NONE && CheckEveryLevel(c, f, level, fuel) == Pass
    ensures CheckLevel(c, f, level, fuel).Success?
  {
  }
}
