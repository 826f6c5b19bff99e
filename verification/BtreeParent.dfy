/** What the parent/child checks imply: the walk along the children goes from each downlink to
    the next, the right links of a level so visit the downlinks of the level above, and each
    child's high key and lower bound are those that its downlink says. */
module BtreeParent {
  import opened Outcomes
  import opened BtreeKey
  import opened BtreePage
  import opened BtreeLeftmost
  import opened BtreeChain
  import opened BtreeCheck
  import opened BtreeLevel

  /** The blocks of a level that was checked. */
  ghost predicate CheckedLevel(c: Config, f: File, level: Level, fuel: nat, blocks: seq<BlockNumber>) {
    && Chain(f, level.leftmost, blocks)
    && forall b :: b in blocks ==> Visited(c, f, level, fuel, b)
  }

  function At(blocks: seq<BlockNumber>, k: nat): BlockNumber {
    if k < |blocks| then blocks[k] else P_NONE
  }

  /** The key that bounds from above what lies beneath the downlink at offset `o`. */
  function UpperBound(p: Page, o: nat): Option<Key> {
    if o + 1 < |p.items| then Some(p.items[o + 1].key)
    else if Rightmost(p) || p.items == [] then None
    else Some(p.items[0].key)
  }

  function Links(items: seq<Tuple>): (ls: seq<BlockNumber>)
    ensures |ls| == |items| && forall i :: 0 <= i < |ls| ==> ls[i] == items[i].link
  {
    seq(|items|, i requires 0 <= i < |items| => items[i].link)
  }

  function PageLinks(p: Page): seq<BlockNumber> {
    if FirstData(p) <= |p.items| then Links(p.items[FirstData(p)..]) else []
  }

  /** The downlinks of a run of pages, in order; half-dead pages have none. */
  function Downlinks(f: File, blocks: seq<BlockNumber>): seq<BlockNumber>
    requires forall i :: 0 <= i < |blocks| ==> blocks[i] < |f|
  {
    if blocks == [] then []
    else (if f[blocks[0]].halfDead then [] else PageLinks(f[blocks[0]])) + Downlinks(f, blocks[1..])
  }

  // ---------------------------------------------------------------- weaving

  /** A live page may lack a downlink without being reported, if it is flagged as a root or
      tops a multi-level deletion that was interrupted. */
  ghost predicate Excused(f: File, b: BlockNumber) {
    b < |f| && exists fuel: nat :: DownlinkMissing(f, false, b, fuel) == Pass
  }

  /** First downlinks lead along these blocks, which can be read and carry falling level numbers,
      down to a leaf. */
  predicate FirstPath(f: File, level: nat, path: seq<BlockNumber>): (r: bool)
    ensures r ==> path != [] && path[|path| - 1] < |f|
    decreases |path|
  {
    && path != [] && ReadPage(f, path[0]).Success?
    && var p := f[path[0]];
       if |path| == 1 then p.leaf
       else
         && !p.leaf && (p.level + 1) % 0x1_0000_0000 == level && FirstData(p) < |p.items|
         && p.items[FirstData(p)].link == path[1] && FirstPath(f, p.level, path[1..])
  }

  lemma {:induction false} PathIsDescent(f: File, level: nat, path: seq<BlockNumber>)
    requires FirstPath(f, level, path)
    ensures DescendToLeaf(f, level, path[0], |path|) == Success(path[|path| - 1])
    decreases |path|
  {
    if |path| > 1 {
      PathIsDescent(f, f[path[0]].level, path[1..]);
    }
  }

  lemma {:induction false} DescentIsPath(f: File, level: nat, child: BlockNumber, fuel: nat)
    returns (path: seq<BlockNumber>)
    requires DescendToLeaf(f, level, child, fuel).Success?
    ensures FirstPath(f, level, path) && path[0] == child
    ensures path[|path| - 1] == DescendToLeaf(f, level, child, fuel).value
    decreases fuel
  {
    var p := f[child];
    if p.leaf {
      path := [child];
    } else {
      var rest := DescentIsPath(f, p.level, p.items[FirstData(p)].link, fuel - 1);
      path := [child] + rest;
      assert path[1..] == rest;
    }
  }

  /** The page is the top of the subtree that an interrupted deletion has begun to take out: its
      first downlinks lead to a half-dead leaf that names it as its top parent. */
  ghost predicate TopsDeletion(f: File, b: BlockNumber) {
    && b < |f| && !f[b].leaf && FirstData(f[b]) < |f[b].items|
    && exists path ::
         && FirstPath(f, f[b].level, path) && path[0] == f[b].items[FirstData(f[b])].link
         && var leaf := f[path[|path| - 1]];
            && leaf.halfDead && !leaf.deleted && !Rightmost(leaf)
            && 0 < |leaf.items| && leaf.items[0].link == b
  }

  lemma TopIsExcused(f: File, b: BlockNumber)
    requires b < |f| && TopsDeletion(f, b)
    ensures Excused(f, b)
  {
    var p := f[b];
    if p.root {
      assert DownlinkMissing(f, false, b, 0) == Pass;
    } else {
      var path :|
        && FirstPath(f, p.level, path) && path[0] == p.items[FirstData(p)].link
        && var leaf := f[path[|path| - 1]];
           && leaf.halfDead && !leaf.deleted && !Rightmost(leaf)
           && 0 < |leaf.items| && leaf.items[0].link == b;
      PathIsDescent(f, p.level, path);
      assert DownlinkMissing(f, false, b, |path|) == Pass;
    }
  }

  lemma ExcusedIsTop(f: File, b: BlockNumber)
    requires Excused(f, b) && !f[b].root
    ensures TopsDeletion(f, b)
  {
    var p := f[b];
    var fuel: nat :| DownlinkMissing(f, false, b, fuel) == Pass;
    var path := DescentIsPath(f, p.level, p.items[FirstData(p)].link, fuel);
    assert FirstPath(f, p.level, path);
  }

  /** What it means to be excused. */
  lemma ExcusedExactly(f: File, b: BlockNumber)
    requires b < |f|
    ensures Excused(f, b) <==> f[b].root || TopsDeletion(f, b)
  {
    if f[b].root {
      assert DownlinkMissing(f, false, b, 0) == Pass;
    } else {
      if TopsDeletion(f, b) {
        TopIsExcused(f, b);
      }
      if Excused(f, b) {
        ExcusedIsTop(f, b);
      }
    }
  }

  /** A leaf page is excused exactly if it is flagged as a root. */
  lemma ExcusedLeaf(f: File, b: BlockNumber)
    requires b < |f| && f[b].leaf
    ensures Excused(f, b) <==> f[b].root
  {
    ExcusedExactly(f, b);
  }

  /** The page to the left of the i-th one has an incomplete split; `split` says so of the page
      to the left of the first one. */
  predicate SplitAt(f: File, chain: seq<BlockNumber>, split: bool, i: nat)
    requires i <= |chain|
  {
    if i == 0 then split else chain[i - 1] < |f| && f[chain[i - 1]].incompleteSplit
  }

  /** The i-th page of a level need not have a downlink: it is half-dead or deleted, or its left
      sibling has an incomplete split, or it is excused. */
  ghost predicate Free(f: File, chain: seq<BlockNumber>, split: bool, i: nat)
    requires i < |chain|
  {
    chain[i] < |f| && (Ignore(f[chain[i]]) || SplitAt(f, chain, split, i) || Excused(f, chain[i]))
  }

  /** `chain` visits the downlinks in order, and besides them only pages that need not have
      one. */
  ghost predicate Weave(f: File, chain: seq<BlockNumber>, split: bool, downlinks: seq<BlockNumber>) {
    if chain == [] then downlinks == []
    else
      var next := SplitAt(f, chain, split, 1);
      || (downlinks != [] && chain[0] == downlinks[0] && Weave(f, chain[1..], next, downlinks[1..]))
      || (Free(f, chain, split, 0) && Weave(f, chain[1..], next, downlinks))
  }

  lemma {:induction false} WeaveConcat(f: File, c1: seq<BlockNumber>, split: bool, d1: seq<BlockNumber>,
        c2: seq<BlockNumber>, d2: seq<BlockNumber>)
    requires Weave(f, c1, split, d1) && Weave(f, c2, SplitAt(f, c1, split, |c1|), d2)
    ensures Weave(f, c1 + c2, split, d1 + d2)
    decreases |c1|
  {
    hide Excused, Ignore;
    if c1 == [] {
      assert c1 + c2 == c2 && d1 + d2 == d2;
    } else {
      var next := SplitAt(f, c1, split, 1);
      assert (c1 + c2)[1..] == c1[1..] + c2;
      assert SplitAt(f, c1[1..], next, |c1[1..]|) == SplitAt(f, c1, split, |c1|);
      if d1 != [] && c1[0] == d1[0] && Weave(f, c1[1..], next, d1[1..]) {
        assert (d1 + d2)[1..] == d1[1..] + d2;
        WeaveConcat(f, c1[1..], next, d1[1..], c2, d2);
      } else {
        WeaveConcat(f, c1[1..], next, d1, c2, d2);
      }
    }
  }

  lemma WeaveOfNothing(f: File, split: bool)
    ensures Weave(f, [], split, [])
  {
  }

  lemma {:induction false} WovenIn(f: File, chain: seq<BlockNumber>, split: bool, downlinks: seq<BlockNumber>,
        b: BlockNumber)
    requires Weave(f, chain, split, downlinks) && b in downlinks
    ensures b in chain
    decreases |chain|
  {
    hide Free, SplitAt;
    var next := SplitAt(f, chain, split, 1);
    if downlinks != [] && chain[0] == downlinks[0] && Weave(f, chain[1..], next, downlinks[1..]) {
      if b != downlinks[0] {
        WovenIn(f, chain[1..], next, downlinks[1..], b);
      }
    } else {
      WovenIn(f, chain[1..], next, downlinks, b);
    }
  }

  lemma FreeTail(f: File, chain: seq<BlockNumber>, split: bool, i: nat)
    requires i + 1 < |chain|
    ensures Free(f, chain[1..], SplitAt(f, chain, split, 1), i) <==> Free(f, chain, split, i + 1)
  {
    hide Excused, Ignore;
  }

  /** With distinct blocks, the chain is exactly the downlinks when every page that need not
      have one has one. */
  lemma {:induction false} WeaveExact(f: File, chain: seq<BlockNumber>, split: bool, downlinks: seq<BlockNumber>)
    requires Weave(f, chain, split, downlinks) && Distinct(chain)
    requires forall i :: 0 <= i < |chain| && Free(f, chain, split, i) ==> chain[i] in downlinks
    ensures chain == downlinks
    decreases |chain|
  {
    hide Free, SplitAt;
    if chain != [] {
      var rest, next := chain[1..], SplitAt(f, chain, split, 1);
      if downlinks != [] && chain[0] == downlinks[0] && Weave(f, rest, next, downlinks[1..]) {
        forall i | 0 <= i < |rest| && Free(f, rest, next, i) ensures rest[i] in downlinks[1..] {
          FreeTail(f, chain, split, i);
          assert rest[i] == chain[i + 1] && chain[i + 1] != chain[0];
        }
        WeaveExact(f, rest, next, downlinks[1..]);
        assert chain == [chain[0]] + rest && downlinks == [downlinks[0]] + downlinks[1..];
      } else {
        WovenIn(f, rest, next, downlinks, chain[0]);
        assert false;
      }
    }
  }

  lemma WeaveExactly(f: File, chain: seq<BlockNumber>, downlinks: seq<BlockNumber>)
    requires Weave(f, chain, false, downlinks) && Distinct(chain)
    ensures chain == downlinks <==>
            forall i :: 0 <= i < |chain| && Free(f, chain, false, i) ==> chain[i] in downlinks
  {
    hide Weave, Free;
    if forall i :: 0 <= i < |chain| && Free(f, chain, false, i) ==> chain[i] in downlinks {
      WeaveExact(f, chain, false, downlinks);
    }
  }

  // ---------------------------------------------------------------- one walk along the children

  /** The child under the downlink at `o` ends where the parent says it does. */
  predicate HighKeyMatches(target: Page, o: nat, child: Page) {
    !child.incompleteSplit && !Rightmost(child) ==>
      0 < |child.items| && UpperBound(target, o) == Some(child.items[0].key)
  }

  lemma MatchAtDownlink(target: Page, lowkey: Option<Tuple>, o: nat, child: Page)
    requires FirstData(target) <= o
    requires MatchHighKey(target, lowkey, Some(o), true, child) == Pass
    ensures 0 < |child.items| && UpperBound(target, o) == Some(child.items[0].key)
  {
  }

  /** A page that is passed over need not have a downlink; one under the downlink has the high
      key that the parent says, unless its split is incomplete. */
  lemma VisitedChild(f: File, target: Page, lowkey: Option<Tuple>, off: Option<nat>, downlink: BlockNumber,
        prev: BlockNumber, blkno: BlockNumber, split: bool, first: bool, fuel: nat)
    requires 0 < blkno < |f|
    requires VisitChild(f, target, lowkey, off, downlink, prev, blkno, split, first, fuel).Success?
    requires off.Some? ==> FirstData(target) <= off.value
    ensures blkno != downlink ==> Ignore(f[blkno]) || split || Excused(f, blkno)
    ensures blkno == downlink && off.Some? ==> HighKeyMatches(target, off.value, f[blkno])
  {
    if blkno == downlink {
      if off.Some? && !Rightmost(f[blkno]) && !f[blkno].incompleteSplit {
        MatchAtDownlink(target, lowkey, off.value, f[blkno]);
      }
    } else if !Ignore(f[blkno]) && !split {
      assert DownlinkMissing(f, false, blkno, fuel) == Pass;
    }
  }

  /** The right link of a block of a level leads to the next one, and to none at the end. */
  lemma NextInLevel(f: File, start: BlockNumber, blocks: seq<BlockNumber>, i: nat)
    requires Chain(f, start, blocks) && i < |blocks|
    ensures 0 < blocks[i] < |f| && f[blocks[i]].next == At(blocks, i + 1)
    ensures i + 1 < |blocks| <==> f[blocks[i]].next != P_NONE
  {
    assert i + 1 < |blocks| ==> f[blocks[(i + 1) - 1]].next == blocks[i + 1];
  }

  lemma BlockAt(f: File, start: BlockNumber, blocks: seq<BlockNumber>, k: nat)
    requires Chain(f, start, blocks) && k <= |blocks|
    ensures At(blocks, k) != P_NONE <==> k < |blocks|
    ensures At(blocks, k) != P_NONE ==>
              var p := At(blocks, k);
              p == blocks[k] < |f| && f[p].next == At(blocks, k + 1)
              && f[p].incompleteSplit == SplitAt(f, blocks, false, k + 1)
  {
    if k < |blocks| {
      NextInLevel(f, start, blocks, k);
    }
  }

  /** One iteration of the walk. */
  lemma WalkStep(f: File, target: Page, lowkey: Option<Tuple>, off: Option<nat>, downlink: BlockNumber,
        prev: BlockNumber, blkno: BlockNumber, split: bool, first: bool, fuel: nat)
    requires blkno != P_NONE ==> blkno < |f|
    requires off.Some? ==> FirstData(target) <= off.value
    requires HighKeyWalk(f, target, lowkey, off, downlink, prev, blkno, split, first, fuel).Success?
    ensures fuel > 0 && (blkno == P_NONE ==> downlink == P_NONE)
    ensures blkno != P_NONE && blkno == downlink ==>
              && HighKeyWalk(f, target, lowkey, off, downlink, prev, blkno, split, first, fuel)
                   == Success(Cursor(f[blkno].next, f[blkno].incompleteSplit))
              && (off.Some? ==> HighKeyMatches(target, off.value, f[blkno]))
    ensures blkno != P_NONE && blkno != downlink ==>
              && (Ignore(f[blkno]) || split || Excused(f, blkno))
              && HighKeyWalk(f, target, lowkey, off, downlink, prev, blkno, split, first, fuel)
                   == HighKeyWalk(f, target, lowkey, off, downlink, prev, f[blkno].next, f[blkno].incompleteSplit,
                                  false, fuel - 1)
  {
    hide Excused, HighKeyMatches, VisitChild;
    if blkno != P_NONE {
      VisitedChild(f, target, lowkey, off, downlink, prev, blkno, split, first, fuel);
    }
  }

  lemma WeaveFreeFirst(f: File, blocks: seq<BlockNumber>, k: nat, k': nat)
    requires k < k' <= |blocks|
    requires Free(f, blocks, false, k) && Weave(f, blocks[k + 1..k'], SplitAt(f, blocks, false, k + 1), [])
    ensures Weave(f, blocks[k..k'], SplitAt(f, blocks, false, k), [])
  {
    hide Excused, Ignore;
    var chain, split := blocks[k..k'], SplitAt(f, blocks, false, k);
    assert chain[1..] == blocks[k + 1..k'] && chain[0] == blocks[k];
    assert SplitAt(f, chain, split, 1) == SplitAt(f, blocks, false, k + 1);
    assert Free(f, chain, split, 0);
  }

  lemma {:induction false} WalkAlong(f: File, target: Page, lowkey: Option<Tuple>, off: Option<nat>,
        downlink: BlockNumber, prev: BlockNumber, first: bool, fuel: nat, start: BlockNumber,
        blocks: seq<BlockNumber>, k: nat)
    returns (k': nat)
    requires Chain(f, start, blocks) && k <= |blocks|
    requires HighKeyWalk(f, target, lowkey, off, downlink, prev, At(blocks, k), SplitAt(f, blocks, false, k),
                         first, fuel).Success?
    requires off.Some? ==> FirstData(target) <= off.value
    ensures k <= k' <= |blocks|
    ensures downlink == P_NONE ==>
              k' == |blocks| && Weave(f, blocks[k..k'], SplitAt(f, blocks, false, k), [])
    ensures downlink != P_NONE ==>
              && k < k' && blocks[k' - 1] == downlink < |f|
              && HighKeyWalk(f, target, lowkey, off, downlink, prev, At(blocks, k), SplitAt(f, blocks, false, k),
                             first, fuel)
                   == Success(Cursor(At(blocks, k'), SplitAt(f, blocks, false, k')))
              && Weave(f, blocks[k..k' - 1], SplitAt(f, blocks, false, k), [])
              && (off.Some? ==> HighKeyMatches(target, off.value, f[downlink]))
    decreases fuel
  {
    hide Chain, HighKeyWalk, Weave, HighKeyMatches, At, Excused, SplitAt;
    var split := SplitAt(f, blocks, false, k);
    WeaveOfNothing(f, split);
    BlockAt(f, start, blocks, k);
    var blkno := At(blocks, k);
    WalkStep(f, target, lowkey, off, downlink, prev, blkno, split, first, fuel);
    if blkno == P_NONE {
      k' := k;
      assert blocks[k..k'] == [];
    } else {
      if blkno == downlink {
        k' := k + 1;
        assert blocks[k..k] == [];
      } else {
        k' := WalkAlong(f, target, lowkey, off, downlink, prev, false, fuel - 1, start, blocks, k + 1);
        WeaveFreeFirst(f, blocks, k, if downlink == P_NONE then k' else k' - 1);
      }
    }
  }

  // ---------------------------------------------------------------- from one downlink to the next

  /** What is remembered after the child under `prev`: where its right link leads. Nothing is, at
      the start of a level and after a null downlink. */
  predicate CursorAfter(f: File, cur: Cursor, prev: BlockNumber) {
    if prev == P_NONE then cur == FRESH
    else prev < |f| && cur == Cursor(f[prev].next, f[prev].incompleteSplit)
  }

  /** The downlink at this offset; the final check of a level is as for a null one. */
  predicate IsDownlink(target: Page, off: Option<nat>, d: BlockNumber) {
    match off
    case None => d == P_NONE
    case Some(o) => FirstData(target) <= o < |target.items| && target.items[o].link == d
  }

  /** The check of the children went from the one under `prev` to the one under `d`. */
  ghost predicate Walked(f: File, prev: BlockNumber, d: BlockNumber) {
    exists target: Page, lowkey: Option<Tuple>, off: Option<nat>, cur: Cursor, fuel: nat ::
      && CursorAfter(f, cur, prev) && IsDownlink(target, off, d)
      && ChildHighKeyCheck(f, target, lowkey, off, cur, fuel).Success?
  }

  /** Where the walk ends. */
  lemma {:induction false} WalkEnds(f: File, target: Page, lowkey: Option<Tuple>, off: Option<nat>,
        downlink: BlockNumber, prev: BlockNumber, blkno: BlockNumber, split: bool, first: bool, fuel: nat)
    requires HighKeyWalk(f, target, lowkey, off, downlink, prev, blkno, split, first, fuel).Success?
    requires off.Some? ==> FirstData(target) <= off.value
    ensures var w := HighKeyWalk(f, target, lowkey, off, downlink, prev, blkno, split, first, fuel);
            CursorAfter(f, w.value, downlink)
    ensures downlink != P_NONE ==>
              blkno != P_NONE && downlink < |f|
              && (off.Some? ==> HighKeyMatches(target, off.value, f[downlink]))
    decreases fuel
  {
    hide VisitChild, HighKeyMatches, Excused;
    if blkno != P_NONE {
      VisitedChild(f, target, lowkey, off, downlink, prev, blkno, split, first, fuel);
      if blkno != downlink {
        WalkEnds(f, target, lowkey, off, downlink, prev, f[blkno].next, f[blkno].incompleteSplit, false, fuel - 1);
      }
    }
  }

  lemma CheckEnds(f: File, target: Page, lowkey: Option<Tuple>, off: Option<nat>, cur: Cursor, fuel: nat,
        d: BlockNumber)
    requires IsDownlink(target, off, d)
    requires ChildHighKeyCheck(f, target, lowkey, off, cur, fuel).Success?
    ensures CursorAfter(f, ChildHighKeyCheck(f, target, lowkey, off, cur, fuel).value, d)
    ensures d != P_NONE ==> d < |f| && HighKeyMatches(target, off.value, f[d])
  {
    hide HighKeyWalk, HighKeyMatches, CursorAfter;
    var atStart := cur.prevrightlink == INVALID_BLOCK;
    WalkEnds(f, target, lowkey, off, d, cur.prevrightlink, if atStart then d else cur.prevrightlink,
             !atStart && cur.previncompletesplit, true, fuel);
  }

  /** A child whose level goes no further is not followed by the child of another downlink. */
  lemma WalkedOn(f: File, prev: BlockNumber, d: BlockNumber)
    requires Walked(f, prev, d) && prev != P_NONE && d != P_NONE
    ensures prev < |f| && !Rightmost(f[prev])
  {
    hide HighKeyWalk, HighKeyMatches;
    var target: Page, lowkey: Option<Tuple>, off: Option<nat>, cur: Cursor, fuel: nat :|
      && CursorAfter(f, cur, prev) && IsDownlink(target, off, d)
      && ChildHighKeyCheck(f, target, lowkey, off, cur, fuel).Success?;
    if cur.prevrightlink != INVALID_BLOCK {
      WalkEnds(f, target, lowkey, off, d, cur.prevrightlink, cur.prevrightlink, cur.previncompletesplit, true, fuel);
    }
  }

  lemma AtIsABlock(f: File, start: BlockNumber, blocks: seq<BlockNumber>, k: nat)
    requires Chain(f, start, blocks)
    ensures At(blocks, k) != INVALID_BLOCK
  {
  }

  lemma WeaveOne(f: File, blocks: seq<BlockNumber>, split: bool, downlink: BlockNumber)
    requires Weave(f, blocks, split, [])
    ensures Weave(f, blocks + [downlink], split, [downlink])
  {
    hide Free, SplitAt;
    var next := SplitAt(f, blocks, split, |blocks|);
    assert [downlink][1..] == [];
    assert Weave(f, [downlink], next, [downlink]);
    WeaveConcat(f, blocks, split, [], [downlink], [downlink]);
    assert [] + [downlink] == [downlink];
  }

  lemma WeaveSlices(f: File, blocks: seq<BlockNumber>, i: nat, j: nat, k: nat,
        d1: seq<BlockNumber>, d2: seq<BlockNumber>)
    requires i <= j <= k <= |blocks|
    requires Weave(f, blocks[i..j], SplitAt(f, blocks, false, i), d1)
    requires Weave(f, blocks[j..k], SplitAt(f, blocks, false, j), d2)
    ensures Weave(f, blocks[i..k], SplitAt(f, blocks, false, i), d1 + d2)
  {
    hide Weave;
    var split := SplitAt(f, blocks, false, i);
    assert SplitAt(f, blocks[i..j], split, j - i) == SplitAt(f, blocks, false, j);
    WeaveConcat(f, blocks[i..j], split, d1, blocks[j..k], d2);
    assert blocks[i..j] + blocks[j..k] == blocks[i..k];
  }

  /** A place on a chain of children: behind the child under `prev`, or at the start, to which the
      downlink leads. */
  predicate Behind(prev: BlockNumber, d: BlockNumber, start: BlockNumber, blocks: seq<BlockNumber>, k: nat) {
    k <= |blocks| && if k == 0 then prev == P_NONE && d == start else prev == blocks[k - 1]
  }

  /** One step on a chain of children: to the child under the downlink, or for a null one to the
      end, passing only pages that need not have a downlink. */
  lemma CheckAlong(f: File, prev: BlockNumber, d: BlockNumber, start: BlockNumber, blocks: seq<BlockNumber>, k: nat)
    returns (k': nat)
    requires Chain(f, start, blocks) && Walked(f, prev, d) && Behind(prev, d, start, blocks, k)
    ensures k <= k' <= |blocks|
    ensures d == P_NONE ==> k' == |blocks| && Weave(f, blocks[k..], SplitAt(f, blocks, false, k), [])
    ensures d != P_NONE ==>
              k < k' && blocks[k' - 1] == d && Weave(f, blocks[k..k'], SplitAt(f, blocks, false, k), [d])
  {
    hide HighKeyWalk, Weave, HighKeyMatches, FirstData;
    var target: Page, lowkey: Option<Tuple>, off: Option<nat>, cur: Cursor, fuel: nat :|
      && CursorAfter(f, cur, prev) && IsDownlink(target, off, d)
      && ChildHighKeyCheck(f, target, lowkey, off, cur, fuel).Success?;
    AtIsABlock(f, start, blocks, k);
    if k > 0 {
      NextInLevel(f, start, blocks, k - 1);
    }
    k' := WalkAlong(f, target, lowkey, off, d, cur.prevrightlink, true, fuel, start, blocks, k);
    if d == P_NONE {
      assert blocks[k..] == blocks[k..k'];
    } else {
      WeaveOne(f, blocks[k..k' - 1], SplitAt(f, blocks, false, k), d);
      assert blocks[k..k' - 1] + [d] == blocks[k..k'];
    }
  }

  // ---------------------------------------------------------------- all downlinks of a level

  /** The check went from each downlink to the next. */
  ghost predicate Steps(f: File, prev: BlockNumber, links: seq<BlockNumber>)
    decreases |links|
  {
    links != [] ==> Walked(f, prev, links[0]) && Steps(f, links[0], links[1..])
  }

  function Last(prev: BlockNumber, links: seq<BlockNumber>): BlockNumber {
    if links == [] then prev else links[|links| - 1]
  }

  lemma {:induction false} StepsConcat(f: File, prev: BlockNumber, a: seq<BlockNumber>, b: seq<BlockNumber>)
    ensures Steps(f, prev, a + b) <==> Steps(f, prev, a) && Steps(f, Last(prev, a), b)
    decreases |a|
  {
    hide Walked;
    if a == [] {
      assert a + b == b;
    } else {
      assert (a + b)[1..] == a[1..] + b;
      StepsConcat(f, a[0], a[1..], b);
    }
  }

  /** The downlinks before the first null one. */
  function BeforeNull(links: seq<BlockNumber>): (r: seq<BlockNumber>)
    ensures r <= links && P_NONE !in r
    ensures P_NONE !in links ==> r == links
    ensures |r| < |links| ==> links[|r|] == P_NONE
  {
    if links == [] || links[0] == P_NONE then [] else [links[0]] + BeforeNull(links[1..])
  }

  /** From a place on a chain of children on, the chain is woven from the downlinks up to the next
      null one. */
  lemma {:induction false} StepsWeave(f: File, prev: BlockNumber, links: seq<BlockNumber>, start: BlockNumber,
        blocks: seq<BlockNumber>, k: nat)
    requires Chain(f, start, blocks) && Steps(f, prev, links + [P_NONE])
    requires Behind(prev, (links + [P_NONE])[0], start, blocks, k)
    ensures Weave(f, blocks[k..], SplitAt(f, blocks, false, k), BeforeNull(links))
    decreases |links|
  {
    hide Chain, Walked, Weave, SplitAt;
    var k' := CheckAlong(f, prev, (links + [P_NONE])[0], start, blocks, k);
    if links != [] && links[0] != P_NONE {
      assert (links + [P_NONE])[1..] == links[1..] + [P_NONE];
      StepsWeave(f, links[0], links[1..], start, blocks, k');
      assert blocks[k'..] == blocks[k'..|blocks|] && blocks[k..] == blocks[k..|blocks|];
      WeaveSlices(f, blocks, k, k', |blocks|, [links[0]], BeforeNull(links[1..]));
    }
  }

  // ---------------------------------------------------------------- one target page

  /** Everything that is known about the child beneath one downlink. */
  predicate LinkFits(c: Config, f: File, target: Page, o: nat)
    requires o < |target.items|
  {
    && target.items[o].link < |f|
    && var child := f[target.items[o].link];
       && HighKeyMatches(target, o, child)
       && (!NegativeInfinity(target, o) ==>
             && !child.deleted
             && LowerBoundFrom(c, MakeScanKey(c, target.items[o].key), child, FirstData(child)) == Pass)
  }

  /** And beneath all that are not null. */
  predicate LinksFit(c: Config, f: File, target: Page) {
    forall o :: FirstData(target) <= o < |target.items| && target.items[o].link != P_NONE ==> LinkFits(c, f, target, o)
  }

  /** One item of an internal page. */
  lemma ItemStep(c: Config, f: File, target: Page, lowkey: Option<Tuple>, off: nat, cur: Cursor, fuel: nat,
        prev: BlockNumber)
    requires !target.leaf && FirstData(target) <= off < |target.items| && (!Rightmost(target) ==> 0 < |target.items|)
    requires TargetItem(c, f, target, lowkey, off, cur, fuel).Success?
    ensures CursorAfter(f, TargetItem(c, f, target, lowkey, off, cur, fuel).value, target.items[off].link)
    ensures CursorAfter(f, cur, prev) ==> Walked(f, prev, target.items[off].link)
    ensures target.items[off].link != P_NONE ==> LinkFits(c, f, target, off)
  {
    hide ChildHighKeyCheck, LowerBoundFrom, HighKeyMatches, CursorAfter;
    if !NegativeInfinity(target, off) {
      assert ItemCheck(c, f, target, off, fuel) == Pass;
      assert ChildCheck(c, f, target, lowkey, off, cur, fuel).Success?;
    }
    var d := target.items[off].link;
    assert IsDownlink(target, Some(off), d);
    assert ChildHighKeyCheck(f, target, lowkey, Some(off), cur, fuel).Success?;
    CheckEnds(f, target, lowkey, Some(off), cur, fuel, d);
  }

  lemma LinksUnfold(items: seq<Tuple>, off: nat)
    requires off <= |items|
    ensures Links(items[off..]) == if off == |items| then [] else [items[off].link] + Links(items[off + 1..])
  {
  }

  lemma {:induction false} ItemsSteps(c: Config, f: File, target: Page, lowkey: Option<Tuple>, off: nat, cur: Cursor,
        fuel: nat, prev: BlockNumber)
    requires !target.leaf && FirstData(target) <= off <= |target.items| && (!Rightmost(target) ==> 0 < |target.items|)
    requires TargetItems(c, f, target, lowkey, off, cur, fuel).Success?
    ensures forall o :: off <= o < |target.items| && target.items[o].link != P_NONE ==> LinkFits(c, f, target, o)
    ensures var links := Links(target.items[off..]);
            CursorAfter(f, cur, prev) ==>
              && Steps(f, prev, links)
              && CursorAfter(f, TargetItems(c, f, target, lowkey, off, cur, fuel).value, Last(prev, links))
    decreases |target.items| - off
  {
    hide TargetItem, LinkFits, CursorAfter, Walked, Rightmost, Links;
    LinksUnfold(target.items, off);
    if off < |target.items| {
      ItemStep(c, f, target, lowkey, off, cur, fuel, prev);
      var link := target.items[off].link;
      var cur' := TargetItem(c, f, target, lowkey, off, cur, fuel).value;
      ItemsSteps(c, f, target, lowkey, off + 1, cur', fuel, link);
    }
  }

  /** The check of an internal page goes from each of its downlinks to the next; on a rightmost
      page it then goes on to the end of the child level. */
  lemma PageSteps(c: Config, f: File, target: Page, lowkey: Option<Tuple>, cur: Cursor, fuel: nat, prev: BlockNumber)
    requires !target.leaf && FirstData(target) < |target.items|
    requires TargetPageCheck(c, f, target, lowkey, cur, fuel).Success?
    ensures LinksFit(c, f, target)
    ensures CursorAfter(f, cur, prev) ==>
              && Steps(f, prev, PageLinks(target))
              && (if Rightmost(target) then Walked(f, Last(prev, PageLinks(target)), P_NONE)
                  else CursorAfter(f, TargetPageCheck(c, f, target, lowkey, cur, fuel).value,
                                   Last(prev, PageLinks(target))))
  {
    hide TargetItems, LinkFits, CursorAfter, ChildHighKeyCheck, Steps;
    ItemsSteps(c, f, target, lowkey, FirstData(target), cur, fuel, prev);
    var r := TargetItems(c, f, target, lowkey, FirstData(target), cur, fuel);
    if Rightmost(target) {
      assert ChildHighKeyCheck(f, target, lowkey, None, r.value, fuel).Success?;
      assert IsDownlink(target, None, P_NONE);
    }
  }
}
