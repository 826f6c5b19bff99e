/** What the verifier computes, page by page and level by level, as functions of the fixed
    file. Errors are raised in the order in which the program raises them.

    Three loops of the program follow links without any bound of their own, and a corrupt
    file can keep them going forever: the level walk, the search for a live right sibling and
    the walk along the child level. They take `fuel`, the number of iterations allowed, and
    answer `Unfinished` when it runs out. */
module BtreeCheck {
  import opened Outcomes
  import opened BtreeKey
  import opened BtreePage
  import opened BtreeLeftmost

  /** What is remembered of the child level between two downlinks: the right link and the
      incomplete split flag of the last child visited. */
  datatype Cursor = Cursor(prevrightlink: BlockNumber, previncompletesplit: bool)

  const FRESH := Cursor(INVALID_BLOCK, false)

  /** What the level walk passes to the next level down. */
  datatype Level = Level(leftmost: BlockNumber, level: int, istrueroot: bool)

  // ---------------------------------------------------------------- missing downlinks

  /** Descends along first downlinks to a leaf page. */
  function DescendToLeaf(f: File, level: nat, child: BlockNumber, fuel: nat): (r: Result<BlockNumber, Error>)
    ensures r.Success? ==> r.value < |f|
    decreases fuel
  {
    if fuel == 0 then Failure(Unfinished) else
    var page :- ReadPage(f, child);
    if page.leaf then Success(child)
    else
      :- Need((page.level + 1) % 0x1_0000_0000 == level, WrongLevel);
      var first :- Item(page, FirstData(page));
      DescendToLeaf(f, page.level, first.link, fuel - 1)
  }

  /** A live child page without a downlink is an error unless its left sibling has an
      incomplete split, or it tops an interrupted multi-level deletion, or it is a root. */
  function DownlinkMissing(f: File, rightsplit: bool, blkno: BlockNumber, fuel: nat): Check<Error>
    requires blkno < |f|
  {
    var page := f[blkno];
    if page.root || rightsplit then Pass
    else if page.leaf then Fail(MissingDownlink)
    else
      match Item(page, FirstData(page))
      case Failure(e) => Fail(e)
      case Success(first) =>
        match DescendToLeaf(f, page.level, first.link, fuel)
        case Failure(e) => Fail(e)
        case Success(leaf) =>
          if f[leaf].deleted then Fail(DeletedBlock)
          else if f[leaf].halfDead && !Rightmost(f[leaf]) then
            match Item(f[leaf], 0)
            case Failure(e) => Fail(e)
            case Success(hikey) => Need(hikey.link == blkno, MissingDownlink)
          else Fail(MissingDownlink)
  }

  // ---------------------------------------------------------------- the child level

  /** The pivot of the target level that a child's high key has to match. `off` is the
      downlink being processed, if any. */
  function PivotFor(target: Page, lowkey: Option<Tuple>, off: Option<nat>, atDownlink: bool)
    : Result<Tuple, Error>
  {
    if off.None? then Failure(BadLinePointer)
    else
      var o := if atDownlink then off.value + 1 else off.value;
      if NegativeInfinity(target, o) then
        if lowkey.None? then Failure(NoLowKey) else Success(lowkey.value)
      else if o >= |target.items| then
        if Rightmost(target) then Failure(BeyondRightmostPivot) else Item(target, 0)
      else Item(target, o)
  }

  function MatchHighKey(target: Page, lowkey: Option<Tuple>, off: Option<nat>, atDownlink: bool,
        child: Page): Check<Error>
  {
    match Item(child, 0)
    case Failure(e) => Fail(e)
    case Success(hikey) =>
      match PivotFor(target, lowkey, off, atDownlink)
      case Failure(e) => Fail(e)
      case Success(pivot) => Need(hikey.key == pivot.key, PivotMismatch)
  }

  /** The checks made on one page of the child level. */
  function VisitChild(f: File, target: Page, lowkey: Option<Tuple>, off: Option<nat>, downlink: BlockNumber,
                      prev: BlockNumber, blkno: BlockNumber, rightsplit: bool, first: bool, fuel: nat)
    : (r: Result<Page, Error>)
    requires blkno != P_NONE
    ensures r.Success? ==> blkno < |f| && r.value == f[blkno]
  {
    var page :- ReadPage(f, blkno);
    var leftmost :- if first && prev == INVALID_BLOCK then LeftmostIgnoringHalfDead(f, blkno) else Success(true);
    :- Need(leftmost, NotLeftmost);
    :- Need(!(!page.deleted || page.fullXid) || page.level + 1 == target.level, WrongLevel);
    :- Need(!(!first && blkno == prev) && blkno != page.prev, CircularChain);
    :- if blkno != downlink && !Ignore(page) then DownlinkMissing(f, rightsplit, blkno, fuel) else Pass;
    :- if !page.incompleteSplit && !Rightmost(page)
       then MatchHighKey(target, lowkey, off, blkno == downlink, page) else Pass;
    Success(page)
  }

  /** The walk from the last child visited to the child of the current downlink. */
  function HighKeyWalk(f: File, target: Page, lowkey: Option<Tuple>, off: Option<nat>, downlink: BlockNumber,
                       prev: BlockNumber, blkno: BlockNumber, rightsplit: bool, first: bool, fuel: nat)
    : Result<Cursor, Error>
    decreases fuel
  {
    if fuel == 0 then Failure(Unfinished)
    else if blkno == P_NONE && downlink == P_NONE then Success(FRESH)
    else if blkno == P_NONE then Failure(CannotTraverse)
    else
      var page :- VisitChild(f, target, lowkey, off, downlink, prev, blkno, rightsplit, first, fuel);
      if blkno == downlink then Success(Cursor(page.next, page.incompleteSplit))
      else HighKeyWalk(f, target, lowkey, off, downlink, prev, page.next, page.incompleteSplit, false, fuel - 1)
  }

  /** `off` is a downlink of the target, or none for the final call on a level. */
  function ChildHighKeyCheck(f: File, target: Page, lowkey: Option<Tuple>, off: Option<nat>, cur: Cursor, fuel: nat)
    : Result<Cursor, Error>
  {
    var downlink :- if off.Some? then LinkAt(target, off.value) else Success(P_NONE);
    if cur.prevrightlink == INVALID_BLOCK then
      HighKeyWalk(f, target, lowkey, off, downlink, cur.prevrightlink, downlink, false, true, fuel)
    else
      HighKeyWalk(f, target, lowkey, off, downlink, cur.prevrightlink, cur.prevrightlink,
                  cur.previncompletesplit, true, fuel)
  }

  function LinkAt(p: Page, off: nat): Result<BlockNumber, Error> {
    var t :- Item(p, off);
    Success(t.link)
  }

  /** Every real item of the child from offset `off` on lies strictly above the pivot. */
  function LowerBoundFrom(c: Config, key: ScanKey, child: Page, off: nat): Check<Error>
    decreases |child.items| - off
  {
    if off >= |child.items| then Pass
    else if NegativeInfinity(child, off) || InvariantL(c, key, child.items[off].key) then
      LowerBoundFrom(c, key, child, off + 1)
    else Fail(LowerBoundViolated)
  }

  function ChildCheck(c: Config, f: File, target: Page, lowkey: Option<Tuple>, off: nat, cur: Cursor, fuel: nat)
    : Result<Cursor, Error>
    requires off < |target.items|
  {
    var child :- ReadPage(f, target.items[off].link);
    var cur' :- ChildHighKeyCheck(f, target, lowkey, Some(off), cur, fuel);
    :- Need(!child.deleted, DeletedBlock);
    :- LowerBoundFrom(c, MakeScanKey(c, target.items[off].key), child, FirstData(child));
    Success(cur')
  }

  // ---------------------------------------------------------------- one page

  /** The first live page from `next` on, or the rightmost page if none is live. */
  function LiveRight(f: File, next: BlockNumber, fuel: nat): (r: Result<Page, Error>)
    decreases fuel
  {
    if fuel == 0 then Failure(Unfinished) else
    var page :- ReadPage(f, next);
    if !Ignore(page) || Rightmost(page) then Success(page) else LiveRight(f, page.next, fuel - 1)
  }

  /** The key of the first real item to the right of the target, if there is one. */
  function RightKey(f: File, target: Page, fuel: nat): Result<Option<Key>, Error> {
    if Rightmost(target) then Success(None)
    else
      var page :- LiveRight(f, target.next, fuel);
      if FirstReal(page) < |page.items| then Success(Some(page.items[FirstReal(page)].key))
      else Success(None)
  }

  function LastItemCheck(c: Config, f: File, target: Page, off: nat, fuel: nat): Check<Error>
    requires off < |target.items|
  {
    match RightKey(f, target, fuel)
    case Failure(e) => Fail(e)
    case Success(None) => Pass
    case Success(Some(right)) =>
      Need(InvariantG(c, MakeScanKey(c, right), target.items[off].key), CrossPageOrderViolated)
  }

  /** The checks on a real item that look at no child page. */
  function ItemCheck(c: Config, f: File, target: Page, off: nat, fuel: nat): Check<Error>
    requires off < |target.items|
    requires !Rightmost(target) ==> 0 < |target.items|
  {
    var key := target.items[off].key;
    var skey := MakeScanKey(c, key);
    if !CheckNatts(c, !target.leaf, key) then Fail(WrongAttributeCount)
    else if !Rightmost(target) &&
            !(if target.leaf then InvariantLeq(c, skey, target.items[0].key)
              else InvariantL(c, skey, target.items[0].key)) then Fail(HighKeyViolated)
    else if off + 1 < |target.items| then
      Need(InvariantL(c, skey, target.items[off + 1].key), ItemOrderViolated)
    else LastItemCheck(c, f, target, off, fuel)
  }

  function TargetItem(c: Config, f: File, target: Page, lowkey: Option<Tuple>, off: nat, cur: Cursor, fuel: nat)
    : Result<Cursor, Error>
    requires off < |target.items|
    requires !Rightmost(target) ==> 0 < |target.items|
  {
    if NegativeInfinity(target, off) then ChildHighKeyCheck(f, target, lowkey, Some(off), cur, fuel)
    else
      :- ItemCheck(c, f, target, off, fuel);
      if target.leaf then Success(cur) else ChildCheck(c, f, target, lowkey, off, cur, fuel)
  }

  function TargetItems(c: Config, f: File, target: Page, lowkey: Option<Tuple>, off: nat, cur: Cursor, fuel: nat)
    : Result<Cursor, Error>
    requires !Rightmost(target) ==> 0 < |target.items|
    decreases |target.items| - off
  {
    if off >= |target.items| then Success(cur)
    else
      var cur' :- TargetItem(c, f, target, lowkey, off, cur, fuel);
      TargetItems(c, f, target, lowkey, off + 1, cur', fuel)
  }

  function TargetPageCheck(c: Config, f: File, target: Page, lowkey: Option<Tuple>, cur: Cursor, fuel: nat)
    : Result<Cursor, Error>
    requires !Rightmost(target) ==> 0 < |target.items|
  {
    var counted := Rightmost(target) || CheckNatts(c, true, target.items[0].key);
    :- Need(counted, WrongAttributeCount);
    var cur' :- TargetItems(c, f, target, lowkey, FirstData(target), cur, fuel);
    if !target.leaf && Rightmost(target) then ChildHighKeyCheck(f, target, lowkey, None, cur', fuel)
    else Success(cur')
  }

  // ---------------------------------------------------------------- one level

  /** The checks on the first live page of a level. */
  function FirstPageCheck(f: File, level: Level, current: BlockNumber): Check<Error>
    requires current < |f|
  {
    match LeftmostIgnoringHalfDead(f, current)
    case Failure(e) => Fail(e)
    case Success(leftmost) =>
      if !leftmost then Fail(NotLeftmost)
      else Need(!level.istrueroot || f[current].root, NotTrueRoot)
  }

  /** The start of the next level down, read off the first live page. */
  function NextLevelDown(page: Page): Result<Level, Error> {
    if page.leaf then Success(Level(P_NONE, -1, false))
    else
      var link :- LinkAt(page, FirstData(page));
      Success(Level(link, page.level - 1, false))
  }

  const NO_LEVEL := Level(INVALID_BLOCK, -1, false)

  /** The walk's own state: where it is, where it came from, and what it carries along. */
  datatype Walk = Walk(current: BlockNumber, left: BlockNumber, nextdown: Level, lowkey: Option<Tuple>, cur: Cursor)

  /** One iteration of the level walk. */
  function VisitPage(c: Config, f: File, level: Level, w: Walk, fuel: nat): (r: Result<Walk, Error>)
    requires w.current != P_NONE
    ensures r.Success? ==> w.current < |f|
  {
    var page :- ReadPage(f, w.current);
    :- Need(!page.deleted, DeletedBlock);
    :- Need(!(page.halfDead && Rightmost(page)), FellOffEnd);
    var starts := !page.halfDead && w.nextdown.leftmost == INVALID_BLOCK;
    :- if starts then FirstPageCheck(f, level, w.current) else Pass;
    var nextdown :- if starts then NextLevelDown(page) else Success(w.nextdown);
    :- Need(page.halfDead || page.prev == w.left || w.left == P_NONE, SiblingDisagreement);
    :- Need(page.halfDead || page.level == level.level, WrongLevel);
    var cur :- if page.halfDead then Success(w.cur) else TargetPageCheck(c, f, page, w.lowkey, w.cur, fuel);
    :- Need(w.current != w.left && w.current != page.prev, CircularChain);
    Success(Walk(page.next, w.current, nextdown, if Rightmost(page) then None else Some(page.items[0]), cur))
  }

  /** At most `n` iterations of the walk; `fuel` bounds the inner loops of each of them. */
  function LevelWalk(c: Config, f: File, level: Level, w: Walk, fuel: nat, n: nat): Result<Level, Error>
    requires w.current != P_NONE
    decreases n
  {
    if n == 0 then Failure(Unfinished) else
    var w' :- VisitPage(c, f, level, w, fuel);
    if w'.current == P_NONE then Success(w'.nextdown)
    else LevelWalk(c, f, level, w', fuel, n - 1)
  }

  function StartOf(level: Level): Walk {
    Walk(level.leftmost, P_NONE, NO_LEVEL, None, FRESH)
  }

  function CheckLevel(c: Config, f: File, level: Level, fuel: nat): Result<Level, Error>
    requires level.leftmost != P_NONE
  {
    LevelWalk(c, f, level, StartOf(level), fuel, fuel)
  }

  predicate OneDown(level: Level, down: Level) {
    down.leftmost != P_NONE && down.leftmost != INVALID_BLOCK ==> 0 <= down.level == level.level - 1
  }

  lemma {:induction false} WalkGoesOneDown(c: Config, f: File, level: Level, w: Walk, fuel: nat, n: nat)
    requires w.current != P_NONE && OneDown(level, w.nextdown)
    requires LevelWalk(c, f, level, w, fuel, n).Success?
    ensures OneDown(level, LevelWalk(c, f, level, w, fuel, n).value)
    decreases n
  {
    var w' := VisitPage(c, f, level, w, fuel).value;
    if w'.current != P_NONE {
      WalkGoesOneDown(c, f, level, w', fuel, n - 1);
    }
  }

  lemma WalkGoesOneDownIfDone(c: Config, f: File, level: Level, fuel: nat)
    requires level.leftmost != P_NONE
    ensures CheckLevel(c, f, level, fuel).Success? ==> OneDown(level, CheckLevel(c, f, level, fuel).value)
  {
    if CheckLevel(c, f, level, fuel).Success? {
      WalkGoesOneDown(c, f, level, StartOf(level), fuel, fuel);
    }
  }

  /** Every level, from the true root down: levels are numbered downwards, so there are only
      finitely many. */
  function CheckEveryLevel(c: Config, f: File, level: Level, fuel: nat): Check<Error>
    decreases level.level + 1
  {
    if level.leftmost == P_NONE then Pass
    else
      match CheckLevel(c, f, level, fuel)
      case Failure(e) => Fail(e)
      case Success(down) =>
        if down.leftmost == INVALID_BLOCK then Fail(NoValidPage)
        else if down.leftmost == P_NONE then Pass
        else
          WalkGoesOneDownIfDone(c, f, level, fuel);
          CheckEveryLevel(c, f, down, fuel)
  }
}
