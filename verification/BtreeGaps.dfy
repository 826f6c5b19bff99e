/** Corrupt files that pass the checks, one for each case that the exact conditions of the other
    modules name: null downlinks at the start of a level and within it, pages that need not have a
    downlink, incomplete splits, empty pages and first downlinks. */
module BtreeGaps {
  import opened Outcomes
  import opened BtreeKey
  import opened BtreePage
  import opened BtreeLeftmost
  import opened BtreeChain
  import opened BtreeCheck
  import opened BtreeLevel
  import opened BtreeParent
  import opened BtreeTermination
  import opened BtreeTree
  import opened BtreeBounds

  const ONE_KEY := Config(1, true)

  /** A root page whose first downlink is block 0. */
  const NOWHERE: File := [BLANK.(meta := true),
                          BLANK.(leaf := false, root := true, level := 1, items := [Tuple([], P_NONE)])]

  /** The verifier takes the null downlink for the end of the tree: it accepts an internal
      root page without ever looking at a leaf. */
  lemma NullDownlinkAccepted(fuel: nat)
    requires fuel > 0
    ensures CheckEveryLevel(ONE_KEY, NOWHERE, Level(1, 1, true), fuel) == Pass
  {
    var level := Level(1, 1, true);
    assert LeftChain(NOWHERE, [1]);
    var p := NOWHERE[1];
    assert ChildHighKeyCheck(NOWHERE, p, None, Some(0), FRESH, fuel) == Success(FRESH);
    assert ChildHighKeyCheck(NOWHERE, p, None, None, FRESH, fuel) == Success(FRESH);
    assert TargetItems(ONE_KEY, NOWHERE, p, None, 0, FRESH, fuel) == Success(FRESH);
    assert CheckLevel(ONE_KEY, NOWHERE, level, fuel) == Success(Level(P_NONE, 0, false));
  }

  /** The first downlink of the first live page of a level. */
  function FirstDown(f: File, blocks: seq<BlockNumber>): BlockNumber
    requires forall i :: 0 <= i < |blocks| ==> blocks[i] < |f|
  {
    var k := FirstLive(f, blocks);
    if k < |blocks| && FirstData(f[blocks[k]]) < |f[blocks[k]].items| then
      f[blocks[k]].items[FirstData(f[blocks[k]])].link
    else P_NONE
  }

  /** First downlinks lead from this level to the leaf level without a null one. */
  ghost predicate SpineNamed(f: File, start: BlockNumber, level: int)
    decreases level
  {
    level > 0 ==>
      exists blocks :: Chain(f, start, blocks) && FirstDown(f, blocks) != P_NONE
                       && SpineNamed(f, FirstDown(f, blocks), level - 1)
  }

  /** The number of the last level that the verifier looks at. */
  function LastLevel(c: Config, f: File, level: Level, fuel: nat): int
    requires level.leftmost != P_NONE
    decreases level.level + 1
  {
    match CheckLevel(c, f, level, fuel)
    case Failure(_) => level.level
    case Success(down) =>
      if down.leftmost == P_NONE || down.leftmost == INVALID_BLOCK then level.level
      else
        WalkGoesOneDownIfDone(c, f, level, fuel);
        LastLevel(c, f, down, fuel)
  }

  /** How far down an index that passes was looked at: to the leaf level, exactly if no level on
      the way begins with a null downlink. Which pages of those levels were looked at is another
      matter. */
  lemma {:induction false} LeavesReachedExactly(c: Config, f: File, level: Level, fuel: nat)
    requires level.leftmost != P_NONE && level.level >= 0 && CheckEveryLevel(c, f, level, fuel) == Pass
    ensures LastLevel(c, f, level, fuel) == 0 <==> SpineNamed(f, level.leftmost, level.level)
    decreases level.level
  {
    hide CheckLevel, Visited, Chain, LeftmostIgnoringHalfDead;
    EveryLevelChecksThis(c, f, level, fuel);
    var blocks := LevelIsChain(c, f, level, fuel);
    NextLevelStart(c, f, level, fuel, blocks);
    var down := CheckLevel(c, f, level, fuel).value;
    if level.level > 0 {
      assert down.leftmost == FirstDown(f, blocks);
      OnlyChain(f, level.leftmost, blocks);
      if down.leftmost != P_NONE {
        LeavesReachedExactly(c, f, down, fuel);
      }
    }
  }

  lemma OnlyChain(f: File, start: BlockNumber, blocks: seq<BlockNumber>)
    requires Chain(f, start, blocks)
    ensures forall other :: Chain(f, start, other) ==> other == blocks
  {
    forall other | Chain(f, start, other) ensures other == blocks {
      ChainIsOne(f, start, other, blocks);
    }
  }

  /** A root page with two downlinks and three leaves. The middle leaf has no downlink, but
      it carries the root flag. */
  const STRAY: File := [BLANK.(meta := true),
                        BLANK.(leaf := false, root := true, level := 1, items := [Tuple([], 2), Tuple([5], 4)]),
                        BLANK.(next := 3, items := [Tuple([5], 0), Tuple([1, 1], 0)]),
                        BLANK.(root := true, prev := 2, next := 4, items := [Tuple([5], 0), Tuple([3, 1], 0)]),
                        BLANK.(prev := 3, items := [Tuple([7, 1], 0)])]

  lemma StrayParent(fuel: nat)
    requires fuel >= 3
    ensures CheckLevel(ONE_KEY, STRAY, Level(1, 1, true), fuel) == Success(Level(2, 0, false))
  {
    var p := STRAY[1];
    var skey := MakeScanKey(ONE_KEY, [5]);
    assert LeftChain(STRAY, [1]) && LeftChain(STRAY, [2]);
    assert ChildHighKeyCheck(STRAY, p, None, Some(0), FRESH, fuel) == Success(Cursor(3, false));
    assert VisitChild(STRAY, p, None, Some(1), 4, 3, 3, false, true, fuel) == Success(STRAY[3]);
    assert VisitChild(STRAY, p, None, Some(1), 4, 3, 4, false, false, fuel - 1) == Success(STRAY[4]);
    assert HighKeyWalk(STRAY, p, None, Some(1), 4, 3, 4, false, false, fuel - 1) == Success(Cursor(P_NONE, false));
    assert ChildHighKeyCheck(STRAY, p, None, Some(1), Cursor(3, false), fuel) == Success(Cursor(P_NONE, false));
    assert [5][1..] == [] && [7, 1][..1] == [7] && [5][..1] == [5];
    assert LowerBoundFrom(ONE_KEY, skey, STRAY[4], 1) == Pass;
    assert LowerBoundFrom(ONE_KEY, skey, STRAY[4], 0) == Pass;
    assert TargetItems(ONE_KEY, STRAY, p, None, 2, Cursor(P_NONE, false), fuel) == Success(Cursor(P_NONE, false));
    assert TargetItems(ONE_KEY, STRAY, p, None, 1, Cursor(3, false), fuel) == Success(Cursor(P_NONE, false));
    assert TargetItems(ONE_KEY, STRAY, p, None, 0, FRESH, fuel) == Success(Cursor(P_NONE, false));
  }

  lemma StrayLeaves(fuel: nat)
    requires fuel >= 3
    ensures CheckLevel(ONE_KEY, STRAY, Level(2, 0, false), fuel) == Success(Level(P_NONE, -1, false))
  {
    var level := Level(2, 0, false);
    assert LeftChain(STRAY, [2]);
    assert [1, 1][..1] == [1] && [3, 1][..1] == [3] && [7, 1][..1] == [7] && [5][..1] == [5];
    assert TargetItems(ONE_KEY, STRAY, STRAY[2], None, 1, FRESH, fuel) == Success(FRESH);
    var w1 := Walk(3, 2, Level(P_NONE, -1, false), Some(Tuple([5], 0)), FRESH);
    assert VisitPage(ONE_KEY, STRAY, level, StartOf(level), fuel) == Success(w1);
    assert TargetItems(ONE_KEY, STRAY, STRAY[3], w1.lowkey, 1, FRESH, fuel) == Success(FRESH);
    var w2 := Walk(4, 3, Level(P_NONE, -1, false), Some(Tuple([5], 0)), FRESH);
    assert VisitPage(ONE_KEY, STRAY, level, w1, fuel) == Success(w2);
    assert TargetItems(ONE_KEY, STRAY, STRAY[4], w2.lowkey, 0, FRESH, fuel) == Success(FRESH);
    var w3 := Walk(P_NONE, 4, Level(P_NONE, -1, false), None, FRESH);
    assert VisitPage(ONE_KEY, STRAY, level, w2, fuel) == Success(w3);
    hide VisitPage;
    assert LevelWalk(ONE_KEY, STRAY, level, w2, fuel, fuel - 2) == Success(w3.nextdown);
    assert LevelWalk(ONE_KEY, STRAY, level, w1, fuel, fuel - 1) == Success(w3.nextdown);
  }

  lemma StrayShape()
    ensures Chain(STRAY, 1, [1]) && Downlinks(STRAY, [1]) == [2, 4]
    ensures Chain(STRAY, 2, [2, 3, 4]) && forall b :: b in [2, 3, 4] ==> !Ignore(STRAY[b])
    ensures forall i :: 0 <= i < 3 ==> (Free(STRAY, [2, 3, 4], false, i) <==> i == 1)
  {
    ExcusedLeaf(STRAY, 2);
    ExcusedLeaf(STRAY, 3);
    ExcusedLeaf(STRAY, 4);
    hide Excused;
    assert [1][1..] == [];
    assert PageLinks(STRAY[1]) == [2, 4];
  }

  /** Both levels are accepted, yet the chain of leaves is not the list of downlinks. */
  lemma StrayRootAccepted(fuel: nat)
    requires fuel >= 3
    ensures CheckEveryLevel(ONE_KEY, STRAY, Level(1, 1, true), fuel) == Pass
    ensures Chain(STRAY, 1, [1]) && Downlinks(STRAY, [1]) == [2, 4]
    ensures Chain(STRAY, 2, [2, 3, 4]) && forall b :: b in [2, 3, 4] ==> !Ignore(STRAY[b])
    ensures forall i :: 0 <= i < 3 ==> (Free(STRAY, [2, 3, 4], false, i) <==> i == 1)
  {
    hide Chain, Free, Downlinks, CheckLevel;
    StrayShape();
    StrayParent(fuel);
    StrayLeaves(fuel);
  }

  /** A root page with two downlinks and the leaves beneath them. The first leaf is flagged as
      having an incomplete split, although its right sibling has a downlink. */
  const UNSPLIT: File := [BLANK.(meta := true),
                          BLANK.(leaf := false, root := true, level := 1, items := [Tuple([], 2), Tuple([5], 3)]),
                          BLANK.(incompleteSplit := true, next := 3, items := [Tuple([9], 0), Tuple([7, 1], 0)]),
                          BLANK.(prev := 2, items := [Tuple([9, 1], 0)])]

  lemma UnsplitParent(fuel: nat)
    requires fuel >= 2
    ensures CheckLevel(ONE_KEY, UNSPLIT, Level(1, 1, true), fuel) == Success(Level(2, 0, false))
  {
    var p := UNSPLIT[1];
    var skey := MakeScanKey(ONE_KEY, [5]);
    assert LeftChain(UNSPLIT, [1]) && LeftChain(UNSPLIT, [2]);
    assert ChildHighKeyCheck(UNSPLIT, p, None, Some(0), FRESH, fuel) == Success(Cursor(3, true));
    assert ChildHighKeyCheck(UNSPLIT, p, None, Some(1), Cursor(3, true), fuel) == Success(Cursor(P_NONE, false));
    assert [5][1..] == [] && [9, 1][..1] == [9] && [5][..1] == [5];
    assert LowerBoundFrom(ONE_KEY, skey, UNSPLIT[3], 1) == Pass;
    assert LowerBoundFrom(ONE_KEY, skey, UNSPLIT[3], 0) == Pass;
    assert TargetItems(ONE_KEY, UNSPLIT, p, None, 2, Cursor(P_NONE, false), fuel) == Success(Cursor(P_NONE, false));
    assert TargetItems(ONE_KEY, UNSPLIT, p, None, 1, Cursor(3, true), fuel) == Success(Cursor(P_NONE, false));
    assert TargetItems(ONE_KEY, UNSPLIT, p, None, 0, FRESH, fuel) == Success(Cursor(P_NONE, false));
  }

  lemma UnsplitLeaves(fuel: nat)
    requires fuel >= 2
    ensures CheckLevel(ONE_KEY, UNSPLIT, Level(2, 0, false), fuel) == Success(Level(P_NONE, -1, false))
  {
    var level := Level(2, 0, false);
    assert LeftChain(UNSPLIT, [2]);
    assert [7, 1][..1] == [7] && [9, 1][..1] == [9] && [9][..1] == [9];
    assert TargetItems(ONE_KEY, UNSPLIT, UNSPLIT[2], None, 1, FRESH, fuel) == Success(FRESH);
    var w1 := Walk(3, 2, Level(P_NONE, -1, false), Some(Tuple([9], 0)), FRESH);
    assert VisitPage(ONE_KEY, UNSPLIT, level, StartOf(level), fuel) == Success(w1);
    assert TargetItems(ONE_KEY, UNSPLIT, UNSPLIT[3], w1.lowkey, 0, FRESH, fuel) == Success(FRESH);
    var w2 := Walk(P_NONE, 3, Level(P_NONE, -1, false), None, FRESH);
    assert VisitPage(ONE_KEY, UNSPLIT, level, w1, fuel) == Success(w2);
    hide VisitPage;
    assert LevelWalk(ONE_KEY, UNSPLIT, level, w1, fuel, fuel - 1) == Success(w2.nextdown);
  }

  /** The index passes, yet the first leaf has an item beyond the pivot that bounds it: a search
      for that item goes to the second leaf. */
  lemma UnsplitAccepted(fuel: nat)
    requires fuel >= 2
    ensures CheckEveryLevel(ONE_KEY, UNSPLIT, Level(1, 1, true), fuel) == Pass
    ensures Leads(UNSPLIT, 1, [0], 2)
    ensures UpperBound(UNSPLIT[1], 0) == Some([5]) && !Bounds(ONE_KEY, true, UNSPLIT[2].items[1].key, [5])
  {
    assert [0][1..] == [];
    assert Leads(UNSPLIT, 1, [0], 2);
    hide CheckLevel;
    UnsplitParent(fuel);
    UnsplitLeaves(fuel);
  }

  /** An index of three levels, in which the middle leaf is empty: the last child of page 2. */
  const HOLLOW: File := [BLANK.(meta := true),
                         BLANK.(leaf := false, root := true, level := 2, items := [Tuple([], 2), Tuple([7], 3)]),
                         BLANK.(leaf := false, level := 1, next := 3,
                                items := [Tuple([7], 0), Tuple([], 4), Tuple([5], 5)]),
                         BLANK.(leaf := false, level := 1, prev := 2, items := [Tuple([], 6)]),
                         BLANK.(next := 5, items := [Tuple([5], 0), Tuple([4, 1], 0)]),
                         BLANK.(prev := 4, next := 6, items := [Tuple([7], 0)]),
                         BLANK.(prev := 5, items := [Tuple([1, 1], 0)])]

  lemma HollowRoot(fuel: nat)
    requires fuel >= 3
    ensures CheckLevel(ONE_KEY, HOLLOW, Level(1, 2, true), fuel) == Success(Level(2, 1, false))
  {
    var p := HOLLOW[1];
    var skey := MakeScanKey(ONE_KEY, [7]);
    assert LeftChain(HOLLOW, [1]) && LeftChain(HOLLOW, [2]);
    assert ChildHighKeyCheck(HOLLOW, p, None, Some(0), FRESH, fuel) == Success(Cursor(3, false));
    assert ChildHighKeyCheck(HOLLOW, p, None, Some(1), Cursor(3, false), fuel) == Success(Cursor(P_NONE, false));
    assert [7][1..] == [] && [7][..1] == [7];
    assert LowerBoundFrom(ONE_KEY, skey, HOLLOW[3], 0) == Pass;
    assert TargetItems(ONE_KEY, HOLLOW, p, None, 2, Cursor(P_NONE, false), fuel) == Success(Cursor(P_NONE, false));
    assert TargetItems(ONE_KEY, HOLLOW, p, None, 1, Cursor(3, false), fuel) == Success(Cursor(P_NONE, false));
    assert TargetItems(ONE_KEY, HOLLOW, p, None, 0, FRESH, fuel) == Success(Cursor(P_NONE, false));
  }

  const HOLLOW_LEFT := Walk(3, 2, Level(4, 0, false), Some(Tuple([7], 0)), Cursor(6, false))

  lemma HollowLeft(fuel: nat)
    requires fuel >= 3
    ensures VisitPage(ONE_KEY, HOLLOW, Level(2, 1, false), StartOf(Level(2, 1, false)), fuel) == Success(HOLLOW_LEFT)
  {
    var p := HOLLOW[2];
    assert LeftChain(HOLLOW, [2]) && LeftChain(HOLLOW, [4]);
    assert ChildHighKeyCheck(HOLLOW, p, None, Some(1), FRESH, fuel) == Success(Cursor(5, false));
    assert ChildHighKeyCheck(HOLLOW, p, None, Some(2), Cursor(5, false), fuel) == Success(Cursor(6, false));
    assert [7][1..] == [] && [7][..1] == [7] && [5][1..] == [] && [5][..1] == [5];
    assert ItemCheck(ONE_KEY, HOLLOW, p, 2, fuel) == Pass;
    assert TargetItems(ONE_KEY, HOLLOW, p, None, 2, Cursor(5, false), fuel) == Success(Cursor(6, false));
    assert TargetItems(ONE_KEY, HOLLOW, p, None, 1, FRESH, fuel) == Success(Cursor(6, false));
  }

  lemma HollowInner(fuel: nat)
    requires fuel >= 3
    ensures CheckLevel(ONE_KEY, HOLLOW, Level(2, 1, false), fuel) == Success(Level(4, 0, false))
  {
    var level, p := Level(2, 1, false), HOLLOW[3];
    HollowLeft(fuel);
    var lowkey := HOLLOW_LEFT.lowkey;
    assert ChildHighKeyCheck(HOLLOW, p, lowkey, Some(0), Cursor(6, false), fuel) == Success(Cursor(P_NONE, false));
    assert TargetItems(ONE_KEY, HOLLOW, p, lowkey, 0, Cursor(6, false), fuel) == Success(Cursor(P_NONE, false));
    var w := Walk(P_NONE, 3, Level(4, 0, false), None, FRESH);
    assert VisitPage(ONE_KEY, HOLLOW, level, HOLLOW_LEFT, fuel) == Success(w);
    assert LevelWalk(ONE_KEY, HOLLOW, level, HOLLOW_LEFT, fuel, fuel - 1) == Success(w.nextdown);
  }

  lemma HollowLeaves(fuel: nat)
    requires fuel >= 3
    ensures CheckLevel(ONE_KEY, HOLLOW, Level(4, 0, false), fuel) == Success(Level(P_NONE, -1, false))
  {
    var level := Level(4, 0, false);
    assert LeftChain(HOLLOW, [4]);
    assert [4, 1][..1] == [4] && [1, 1][..1] == [1] && [5][..1] == [5] && [7][..1] == [7];
    assert TargetItems(ONE_KEY, HOLLOW, HOLLOW[4], None, 1, FRESH, fuel) == Success(FRESH);
    var w1 := Walk(5, 4, Level(P_NONE, -1, false), Some(Tuple([5], 0)), FRESH);
    assert VisitPage(ONE_KEY, HOLLOW, level, StartOf(level), fuel) == Success(w1);
    var w2 := Walk(6, 5, Level(P_NONE, -1, false), Some(Tuple([7], 0)), FRESH);
    assert VisitPage(ONE_KEY, HOLLOW, level, w1, fuel) == Success(w2);
    assert TargetItems(ONE_KEY, HOLLOW, HOLLOW[6], w2.lowkey, 0, FRESH, fuel) == Success(FRESH);
    var w3 := Walk(P_NONE, 6, Level(P_NONE, -1, false), None, FRESH);
    assert VisitPage(ONE_KEY, HOLLOW, level, w2, fuel) == Success(w3);
    hide VisitPage;
    assert LevelWalk(ONE_KEY, HOLLOW, level, w2, fuel, fuel - 2) == Success(w3.nextdown);
    assert LevelWalk(ONE_KEY, HOLLOW, level, w1, fuel, fuel - 1) == Success(w3.nextdown);
  }

  lemma HollowReals()
    ensures Chain(HOLLOW, 4, [4, 5, 6]) && LiveReals(HOLLOW, [4, 5, 6]) == [[4, 1], [1, 1]]
  {
    assert [4, 5, 6][1..] == [5, 6] && [5, 6][1..] == [6] && [6][1..] == [];
    assert Reals(HOLLOW[4]) == [[4, 1]] && Reals(HOLLOW[5]) == [] && Reals(HOLLOW[6]) == [[1, 1]];
    assert LiveReals(HOLLOW, [6]) == [[1, 1]] + [];
    assert LiveReals(HOLLOW, [5, 6]) == [] + [[1, 1]];
  }

  lemma HollowShape()
    ensures Downlinks(HOLLOW, [1]) == [2, 3] && Downlinks(HOLLOW, [2, 3]) == [4, 5, 6]
    ensures forall b :: b in [1, 2, 3, 4, 5, 6] ==> !Ignore(HOLLOW[b]) && !HOLLOW[b].incompleteSplit
    ensures Leads(HOLLOW, 1, [1, 0], 6) && FirstData(HOLLOW[1]) < 1 && FirstNext(HOLLOW[3], [0])
  {
    assert [1, 0][1..] == [0] && [0][1..] == [];
    assert Leads(HOLLOW, 3, [0], 6);
    assert [1][1..] == [] && [2, 3][1..] == [3] && [3][1..] == [];
    assert PageLinks(HOLLOW[1]) == [2, 3] && PageLinks(HOLLOW[2]) == [4, 5] && PageLinks(HOLLOW[3]) == [6];
  }

  /** The index passes, with nothing half-dead, interrupted or unnamed in it, although the leaf
      to the left of the empty one has a greater item than the leaf to its right; that leaf's item
      also lies below the pivot of the downlink that it is beneath, of which the way to it turns
      to a first downlink. */
  lemma DisorderAccepted(fuel: nat)
    requires fuel >= 3
    ensures CheckEveryLevel(ONE_KEY, HOLLOW, Level(1, 2, true), fuel) == Pass
    ensures Chain(HOLLOW, 4, [4, 5, 6]) && LiveReals(HOLLOW, [4, 5, 6]) == [[4, 1], [1, 1]]
    ensures Downlinks(HOLLOW, [1]) == [2, 3] && Downlinks(HOLLOW, [2, 3]) == [4, 5, 6]
    ensures forall b :: b in [1, 2, 3, 4, 5, 6] ==> !Ignore(HOLLOW[b]) && !HOLLOW[b].incompleteSplit
    ensures !Before(ONE_KEY, [4, 1], [1, 1])
    ensures Leads(HOLLOW, 1, [1, 0], 6) && FirstData(HOLLOW[1]) < 1 && FirstNext(HOLLOW[3], [0])
    ensures HOLLOW[1].items[1].key == [7] && !Before(ONE_KEY, [7], HOLLOW[6].items[0].key)
  {
    hide CheckLevel, Chain, LiveReals, Downlinks, Leads, Ignore;
    HollowReals();
    HollowShape();
    HollowRoot(fuel);
    HollowInner(fuel);
    HollowLeaves(fuel);
    assert CheckEveryLevel(ONE_KEY, HOLLOW, Level(4, 0, false), fuel) == Pass;
    assert CheckEveryLevel(ONE_KEY, HOLLOW, Level(2, 1, false), fuel) == Pass;
  }

  /** An index of three levels, in which a null downlink comes between two others. */
  const CUT_OFF: File := [BLANK.(meta := true),
                          BLANK.(leaf := false, root := true, level := 2, items := [Tuple([], 2), Tuple([7], 3)]),
                          BLANK.(leaf := false, level := 1, next := 3, items := [Tuple([7], 0), Tuple([], 4)]),
                          BLANK.(leaf := false, level := 1, prev := 2, items := [Tuple([], P_NONE), Tuple([8], 5)]),
                          BLANK.(items := [Tuple([9, 1], 0)]),
                          BLANK.(items := [Tuple([9, 5], 0), Tuple([8, 9], 0)])]

  lemma CutOffRoot(fuel: nat)
    requires fuel >= 3
    ensures CheckLevel(ONE_KEY, CUT_OFF, Level(1, 2, true), fuel) == Success(Level(2, 1, false))
  {
    var p := CUT_OFF[1];
    var skey := MakeScanKey(ONE_KEY, [7]);
    assert LeftChain(CUT_OFF, [1]) && LeftChain(CUT_OFF, [2]);
    assert ChildHighKeyCheck(CUT_OFF, p, None, Some(0), FRESH, fuel) == Success(Cursor(3, false));
    assert ChildHighKeyCheck(CUT_OFF, p, None, Some(1), Cursor(3, false), fuel) == Success(Cursor(P_NONE, false));
    assert [7][1..] == [] && [7][..1] == [7] && [8][1..] == [] && [8][..1] == [8];
    assert LowerBoundFrom(ONE_KEY, skey, CUT_OFF[3], 1) == Pass;
    assert LowerBoundFrom(ONE_KEY, skey, CUT_OFF[3], 0) == Pass;
    assert TargetItems(ONE_KEY, CUT_OFF, p, None, 2, Cursor(P_NONE, false), fuel) == Success(Cursor(P_NONE, false));
    assert TargetItems(ONE_KEY, CUT_OFF, p, None, 1, Cursor(3, false), fuel) == Success(Cursor(P_NONE, false));
    assert TargetItems(ONE_KEY, CUT_OFF, p, None, 0, FRESH, fuel) == Success(Cursor(P_NONE, false));
  }

  const CUT_OFF_LEFT := Walk(3, 2, Level(4, 0, false), Some(Tuple([7], 0)), Cursor(P_NONE, false))

  lemma CutOffLeft(fuel: nat)
    requires fuel >= 3
    ensures VisitPage(ONE_KEY, CUT_OFF, Level(2, 1, false), StartOf(Level(2, 1, false)), fuel) == Success(CUT_OFF_LEFT)
  {
    var p := CUT_OFF[2];
    assert LeftChain(CUT_OFF, [2]) && LeftChain(CUT_OFF, [4]);
    assert ChildHighKeyCheck(CUT_OFF, p, None, Some(1), FRESH, fuel) == Success(Cursor(P_NONE, false));
    assert TargetItems(ONE_KEY, CUT_OFF, p, None, 1, FRESH, fuel) == Success(Cursor(P_NONE, false));
  }

  /** The page with the null downlink: the walk along the children ends there, and begins anew at
      the next downlink. */
  lemma CutOffRight(fuel: nat)
    requires fuel >= 3
    ensures TargetPageCheck(ONE_KEY, CUT_OFF, CUT_OFF[3], CUT_OFF_LEFT.lowkey, Cursor(P_NONE, false), fuel)
         == Success(FRESH)
  {
    var p, lowkey := CUT_OFF[3], CUT_OFF_LEFT.lowkey;
    var skey := MakeScanKey(ONE_KEY, [8]);
    assert LeftChain(CUT_OFF, [5]);
    assert ChildHighKeyCheck(CUT_OFF, p, lowkey, Some(0), Cursor(P_NONE, false), fuel) == Success(FRESH);
    assert ChildHighKeyCheck(CUT_OFF, p, lowkey, Some(1), FRESH, fuel) == Success(Cursor(P_NONE, false));
    assert [8][1..] == [] && [8][..1] == [8] && [9, 5][..1] == [9] && [8, 9][..1] == [8];
    assert [9, 5][1..] == [5] && [8, 9][1..] == [9];
    assert LowerBoundFrom(ONE_KEY, skey, CUT_OFF[5], 2) == Pass;
    assert LowerBoundFrom(ONE_KEY, skey, CUT_OFF[5], 1) == Pass;
    assert LowerBoundFrom(ONE_KEY, skey, CUT_OFF[5], 0) == Pass;
    assert TargetItems(ONE_KEY, CUT_OFF, p, lowkey, 2, Cursor(P_NONE, false), fuel) == Success(Cursor(P_NONE, false));
    assert TargetItems(ONE_KEY, CUT_OFF, p, lowkey, 1, FRESH, fuel) == Success(Cursor(P_NONE, false));
    assert TargetItems(ONE_KEY, CUT_OFF, p, lowkey, 0, Cursor(P_NONE, false), fuel) == Success(Cursor(P_NONE, false));
  }

  lemma CutOffInner(fuel: nat)
    requires fuel >= 3
    ensures CheckLevel(ONE_KEY, CUT_OFF, Level(2, 1, false), fuel) == Success(Level(4, 0, false))
  {
    hide TargetPageCheck;
    var level := Level(2, 1, false);
    CutOffLeft(fuel);
    CutOffRight(fuel);
    var w := Walk(P_NONE, 3, Level(4, 0, false), None, FRESH);
    assert VisitPage(ONE_KEY, CUT_OFF, level, CUT_OFF_LEFT, fuel) == Success(w);
    assert LevelWalk(ONE_KEY, CUT_OFF, level, CUT_OFF_LEFT, fuel, fuel - 1) == Success(w.nextdown);
  }

  lemma CutOffLeaf(fuel: nat)
    requires fuel >= 3
    ensures CheckLevel(ONE_KEY, CUT_OFF, Level(4, 0, false), fuel) == Success(Level(P_NONE, -1, false))
  {
    var level := Level(4, 0, false);
    assert LeftChain(CUT_OFF, [4]);
    assert [9, 1][..1] == [9];
    assert TargetItems(ONE_KEY, CUT_OFF, CUT_OFF[4], None, 0, FRESH, fuel) == Success(FRESH);
    var w := Walk(P_NONE, 4, Level(P_NONE, -1, false), None, FRESH);
    assert VisitPage(ONE_KEY, CUT_OFF, level, StartOf(level), fuel) == Success(w);
  }

  lemma CutOffLinks()
    ensures Downlinks(CUT_OFF, [1]) == [2, 3] && Downlinks(CUT_OFF, [2, 3]) == [4, P_NONE, 5]
  {
    assert [1][1..] == [] && [2, 3][1..] == [3] && [3][1..] == [];
    assert PageLinks(CUT_OFF[1]) == [2, 3] && PageLinks(CUT_OFF[2]) == [4] && PageLinks(CUT_OFF[3]) == [P_NONE, 5];
  }

  lemma CutOffPaths()
    ensures Chain(CUT_OFF, 2, [2, 3]) && Chain(CUT_OFF, 4, [4])
    ensures forall b :: b in [1, 2, 3, 4, 5] ==> !Ignore(CUT_OFF[b]) && !CUT_OFF[b].incompleteSplit
    ensures Leads(CUT_OFF, 1, [1, 1], 5) && Leads(CUT_OFF, 1, [0, 1], 4)
  {
    assert [1, 1][1..] == [1] && [0, 1][1..] == [1] && [1][1..] == [];
    assert Leads(CUT_OFF, 3, [1], 5) && Leads(CUT_OFF, 2, [1], 4);
  }

  /** The index passes and is looked at down to its leaf level, with nothing half-dead or flagged in
      it and no level that begins with a null downlink. Yet leaf 5, beneath the downlink that
      comes after the null one, is never looked at, and its items are out of order; and leaf 4,
      which is the rightmost page of its level though its downlink is not the last one, has an item
      beyond the pivot that bounds it. */
  lemma CutOffAccepted(fuel: nat)
    requires fuel >= 3
    ensures CheckEveryLevel(ONE_KEY, CUT_OFF, Level(1, 2, true), fuel) == Pass
    ensures LastLevel(ONE_KEY, CUT_OFF, Level(1, 2, true), fuel) == 0
    ensures Chain(CUT_OFF, 2, [2, 3]) && Chain(CUT_OFF, 4, [4])
    ensures Downlinks(CUT_OFF, [1]) == [2, 3] && Downlinks(CUT_OFF, [2, 3]) == [4, P_NONE, 5]
    ensures !RunsOnChain([4, P_NONE, 5], [4])
    ensures forall b :: b in [1, 2, 3, 4, 5] ==> !Ignore(CUT_OFF[b]) && !CUT_OFF[b].incompleteSplit
    ensures Leads(CUT_OFF, 1, [1, 1], 5) && !Before(ONE_KEY, CUT_OFF[5].items[0].key, CUT_OFF[5].items[1].key)
    ensures Leads(CUT_OFF, 1, [0, 1], 4) && UpperBound(CUT_OFF[1], 0) == Some([7])
    ensures !Bounds(ONE_KEY, true, CUT_OFF[4].items[0].key, [7])
  {
    hide CheckLevel, Chain, Downlinks, Leads, Ignore;
    CutOffLinks();
    CutOffPaths();
    CutOffRoot(fuel);
    CutOffInner(fuel);
    CutOffLeaf(fuel);
    assert CheckEveryLevel(ONE_KEY, CUT_OFF, Level(4, 0, false), fuel) == Pass;
    assert CheckEveryLevel(ONE_KEY, CUT_OFF, Level(2, 1, false), fuel) == Pass;
    assert LastLevel(ONE_KEY, CUT_OFF, Level(4, 0, false), fuel) == 0;
    assert LastLevel(ONE_KEY, CUT_OFF, Level(2, 1, false), fuel) == 0;
    var links: seq<BlockNumber> := [4, P_NONE, 5];
    assert links[2 - 1] == P_NONE && links[2] !in [4];
  }
}
