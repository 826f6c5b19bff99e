/** The verifier itself: its mutable state and its loops, proved to compute what the functions
    of `BtreeCheck` say. */
module BtreeVerifier {
  import opened Integers
  import opened Outcomes
  import opened BtreeKey
  import opened BtreePage
  import opened BtreeLeftmost
  import B = BtreeCheck

  class BtreeCheckState {
    const c: Config
    const f: File
    const fuel: nat  // bound on the iterations of each loop that has none of its own

    var targetblock: BlockNumber
    var lowkey: Option<Tuple>
    var prevrightlink: BlockNumber
    var previncompletesplit: bool

    constructor (c: Config, f: File, fuel: nat)
      ensures this.c == c && this.f == f && this.fuel == fuel
    {
      this.c, this.f, this.fuel := c, f, fuel;
      targetblock, lowkey := P_NONE, None;
      prevrightlink, previncompletesplit := INVALID_BLOCK, false;
    }

    function Cur(): B.Cursor
      reads this
    {
      B.Cursor(prevrightlink, previncompletesplit)
    }

    /** A check that moves the cursor along the child level came out as specified. */
    predicate Moved(r: Check<Error>, spec: Result<B.Cursor, Error>)
      reads this
    {
      match spec
      case Success(cur) => r == Pass && Cur() == cur
      case Failure(e) => r == Fail(e)
    }

    method LeftmostIgnoringHalfDead(start: BlockNumber) returns (r: Result<bool, Error>)
      requires start < |f|
      ensures r == BtreeLeftmost.LeftmostIgnoringHalfDead(f, start)
    {
      var reached, from, allHalfDead := f[start].prev, start, true;
      ghost var chain := [start];
      while reached != P_NONE && allHalfDead
        invariant LeftChain(f, chain) && chain[0] == start && from == chain[|chain| - 1]
        invariant reached == f[from].prev
        invariant if allHalfDead then LeftWalk(f, [start]) == LeftWalk(f, chain)
                  else LeftWalk(f, [start]) == Success(false)
        decreases |f| - |chain|, allHalfDead
      {
        ChainFits(f, chain);
        var page :- ReadPage(f, reached);
        allHalfDead := page.halfDead && reached != start && reached != from && page.next == from;
        if allHalfDead {
          ExtendChain(f, chain, reached);
          ChainFits(f, chain + [reached]);
          chain := chain + [reached];
          from := reached;
          reached := page.prev;
        }
      }
      return Success(allHalfDead);
    }

    /** Follows the right links of the child level from the previous child to the one under
        the downlink at `off`, or to the end of the level. */
    method ChildHighKeyCheck(off: Option<nat>) returns (r: Check<Error>)
      requires targetblock < |f|
      modifies this`prevrightlink, this`previncompletesplit
      ensures Moved(r, B.ChildHighKeyCheck(f, f[targetblock], lowkey, off, old(Cur()), fuel))
    {
      hide B.VisitChild;
      var target := f[targetblock];
      ghost var spec := B.ChildHighKeyCheck(f, target, lowkey, off, Cur(), fuel);
      var blkno, rightsplit, first := prevrightlink, previncompletesplit, true;
      var downlink := P_NONE;
      if off.Some? {
        if off.value >= |target.items| {
          return Fail(BadLinePointer);
        }
        downlink := target.items[off.value].link;
      }
      if blkno == INVALID_BLOCK {
        blkno, rightsplit := downlink, false;
      }
      var n := fuel;
      while n > 0
        invariant spec == B.HighKeyWalk(f, target, lowkey, off, downlink, prevrightlink, blkno, rightsplit, first, n)
        invariant prevrightlink == old(prevrightlink) && previncompletesplit == old(previncompletesplit)
      {
        if blkno == P_NONE && downlink == P_NONE {
          prevrightlink, previncompletesplit := INVALID_BLOCK, false;
          return Pass;
        }
        if blkno == P_NONE {
          return Fail(CannotTraverse);
        }
        var page := B.VisitChild(f, target, lowkey, off, downlink, prevrightlink, blkno, rightsplit, first, n);
        if page.Failure? {
          return Fail(page.error);
        }
        rightsplit := page.value.incompleteSplit;
        if blkno == downlink {
          prevrightlink, previncompletesplit := page.value.next, rightsplit;
          return Pass;
        }
        blkno, first := page.value.next, false;
        n := n - 1;
      }
      return Fail(Unfinished);
    }

    method ChildCheck(off: nat) returns (r: Check<Error>)
      requires targetblock < |f| && off < |f[targetblock].items|
      modifies this`prevrightlink, this`previncompletesplit
      ensures Moved(r, B.ChildCheck(c, f, f[targetblock], lowkey, off, old(Cur()), fuel))
    {
      var item := f[targetblock].items[off];
      var child := ReadPage(f, item.link);
      if child.Failure? {
        return Fail(child.error);
      }
      r := ChildHighKeyCheck(Some(off));
      if r.Fail? {
        return;
      }
      if child.value.deleted {
        return Fail(DeletedBlock);
      }
      var page, key := child.value, MakeScanKey(c, item.key);
      var o := FirstData(page);
      while o < |page.items|
        invariant FirstData(page) <= o
        invariant B.LowerBoundFrom(c, key, page, FirstData(page)) == B.LowerBoundFrom(c, key, page, o)
      {
        if !NegativeInfinity(page, o) && !InvariantL(c, key, page.items[o].key) {
          return Fail(LowerBoundViolated);
        }
        o := o + 1;
      }
      return Pass;
    }

    /** The first real key to the right of the target, for the check on its last item. */
    method RightPageCheckScankey() returns (r: Result<Option<Key>, Error>)
      requires targetblock < |f|
      ensures r == B.RightKey(f, f[targetblock], fuel)
    {
      var target := f[targetblock];
      if Rightmost(target) {
        return Success(None);
      }
      var targetnext, n := target.next, fuel;
      while n > 0
        invariant B.LiveRight(f, target.next, fuel) == B.LiveRight(f, targetnext, n)
      {
        var page :- ReadPage(f, targetnext);
        if !Ignore(page) || Rightmost(page) {
          return Success(if FirstReal(page) < |page.items| then Some(page.items[FirstReal(page)].key) else None);
        }
        targetnext, n := page.next, n - 1;
      }
      return Failure(Unfinished);
    }

    method TargetPageCheck() returns (r: Check<Error>)
      requires targetblock < |f|
      requires !Rightmost(f[targetblock]) ==> 0 < |f[targetblock].items|
      modifies this`prevrightlink, this`previncompletesplit
      ensures Moved(r, B.TargetPageCheck(c, f, f[targetblock], lowkey, old(Cur()), fuel))
    {
      hide B.TargetItem, B.HighKeyWalk, CheckNatts;
      var target := f[targetblock];
      if !Rightmost(target) && !CheckNatts(c, true, target.items[0].key) {
        return Fail(WrongAttributeCount);
      }
      var off := FirstData(target);
      while off < |target.items|
        invariant targetblock == old(targetblock) && lowkey == old(lowkey)
        invariant B.TargetItems(c, f, target, lowkey, FirstData(target), old(Cur()), fuel)
               == B.TargetItems(c, f, target, lowkey, off, Cur(), fuel)
        decreases |target.items| - off
      {
        r := TargetItem(off);
        if r.Fail? {
          return;
        }
        off := off + 1;
      }
      if !target.leaf && Rightmost(target) {
        r := ChildHighKeyCheck(None);
      } else {
        r := Pass;
      }
    }

    /** The body of the loop over the items of the target. */
    method TargetItem(off: nat) returns (r: Check<Error>)
      requires targetblock < |f| && off < |f[targetblock].items|
      requires !Rightmost(f[targetblock]) ==> 0 < |f[targetblock].items|
      modifies this`prevrightlink, this`previncompletesplit
      ensures Moved(r, B.TargetItem(c, f, f[targetblock], lowkey, off, old(Cur()), fuel))
    {
      var target := f[targetblock];
      if NegativeInfinity(target, off) {
        r := ChildHighKeyCheck(Some(off));
        return;
      }
      var key := target.items[off].key;
      var skey := MakeScanKey(c, key);
      if !CheckNatts(c, !target.leaf, key) {
        return Fail(WrongAttributeCount);
      }
      if !Rightmost(target) &&
         !(if target.leaf then InvariantLeq(c, skey, target.items[0].key)
           else InvariantL(c, skey, target.items[0].key)) {
        return Fail(HighKeyViolated);
      }
      if off + 1 < |target.items| {
        if !InvariantL(c, skey, target.items[off + 1].key) {
          return Fail(ItemOrderViolated);
        }
      } else {
        var right := RightPageCheckScankey();
        if right.Failure? {
          return Fail(right.error);
        }
        if right.value.Some? && !InvariantG(c, MakeScanKey(c, right.value.value), key) {
          return Fail(CrossPageOrderViolated);
        }
      }
      if target.leaf {
        return Pass;
      }
      r := ChildCheck(off);
    }

    /** Verifies one level, moving right from its leftmost block. */
    method CheckLevelFromLeftmost(level: B.Level) returns (r: Result<B.Level, Error>)
      requires level.leftmost != P_NONE
      modifies this
      ensures r == B.CheckLevel(c, f, level, fuel)
    {
      var left, current, down := P_NONE, level.leftmost, B.NO_LEVEL;
      prevrightlink, previncompletesplit, lowkey := INVALID_BLOCK, false, None;
      var n := fuel;
      while n > 0
        invariant current != P_NONE
        invariant B.LevelWalk(c, f, level, B.StartOf(level), fuel, fuel)
               == B.LevelWalk(c, f, level, B.Walk(current, left, down, lowkey, Cur()), fuel, n)
      {
        ghost var w := B.Walk(current, left, down, lowkey, Cur());
        targetblock := current;
        var page :- ReadPage(f, current);
        if page.deleted {
          return Failure(DeletedBlock);
        }
        if page.halfDead {
          if Rightmost(page) {
            return Failure(FellOffEnd);
          }
        } else {
          if down.leftmost == INVALID_BLOCK {
            var leftmost :- LeftmostIgnoringHalfDead(current);
            if !leftmost {
              return Failure(NotLeftmost);
            }
            if level.istrueroot && !page.root {
              return Failure(NotTrueRoot);
            }
            down :- B.NextLevelDown(page);
          }
          if page.prev != left && left != P_NONE {
            return Failure(SiblingDisagreement);
          }
          if page.level != level.level {
            return Failure(WrongLevel);
          }
          var ok := TargetPageCheck();
          if ok.Fail? {
            return Failure(ok.error);
          }
        }
        if current == left || current == page.prev {
          return Failure(CircularChain);
        }
        left, current := current, page.next;
        lowkey := if Rightmost(page) then None else Some(page.items[0]);
        assert B.VisitPage(c, f, level, w, fuel) == Success(B.Walk(current, left, down, lowkey, Cur()));
        if current == P_NONE {
          return Success(down);
        }
        n := n - 1;
      }
      return Failure(Unfinished);
    }

    /** Verifies every level, starting from the true root. */
    method CheckEveryLevel(root: BlockNumber, level: Uint32) returns (r: Check<Error>)
      modifies this
      ensures r == B.CheckEveryLevel(c, f, B.Level(root, level, true), fuel)
    {
      var current := B.Level(root, level, true);
      while current.leftmost != P_NONE
        invariant B.CheckEveryLevel(c, f, B.Level(root, level, true), fuel) == B.CheckEveryLevel(c, f, current, fuel)
        invariant current.leftmost != P_NONE ==> 0 <= current.level
        decreases current.leftmost != P_NONE, current.level
      {
        B.WalkGoesOneDownIfDone(c, f, current, fuel);
        var down := CheckLevelFromLeftmost(current);
        if down.Failure? {
          return Fail(down.error);
        }
        if down.value.leftmost == INVALID_BLOCK {
          return Fail(NoValidPage);
        }
        current := down.value;
      }
      return Pass;
    }
  }
}
