/** What a successful check of one level implies: its pages form one chain of pairwise distinct
    blocks, none of them deleted, and the items on the live ones are in order from one end of
    the level to the other. */
module BtreeLevel {
  import opened Outcomes
  import opened BtreeKey
  import opened BtreePage
  import opened BtreeLeftmost
  import opened BtreeChain
  import opened BtreeCheck

  /** The page passed all the checks that look at it as the target. */
  ghost predicate Accepted(c: Config, f: File, level: Level, fuel: nat, b: BlockNumber) {
    && b < |f|
    && Sane(f[b])
    && !Ignore(f[b])
    && f[b].level == level.level
    && exists lowkey: Option<Tuple>, cur: Cursor :: TargetPageCheck(c, f, f[b], lowkey, cur, fuel).Success?
  }

  /** What the level walk finds out about a page: half-dead ones it passes over. No page names itself
      as its left sibling. */
  ghost predicate Visited(c: Config, f: File, level: Level, fuel: nat, b: BlockNumber) {
    && (Accepted(c, f, level, fuel, b) || (b < |f| && Sane(f[b]) && f[b].halfDead && !Rightmost(f[b])))
    && f[b].prev != b
  }

  /** Every live page names the page to its left. */
  predicate LeftLinksAgree(f: File, blocks: seq<BlockNumber>)
    requires forall i :: 0 <= i < |blocks| ==> blocks[i] < |f|
  {
    forall i :: 0 < i < |blocks| && !f[blocks[i]].halfDead ==> f[blocks[i]].prev == blocks[i - 1]
  }

  lemma VisitPasses(c: Config, f: File, level: Level, w: Walk, fuel: nat)
    requires w.current != P_NONE && VisitPage(c, f, level, w, fuel).Success?
    ensures var w' := VisitPage(c, f, level, w, fuel).value; var p := f[w.current];
            && Visited(c, f, level, fuel, w.current)
            && w'.left == w.current && w'.current == p.next
            && (p.halfDead || p.prev == w.left || w.left == P_NONE)
  {
    hide TargetPageCheck, FirstPageCheck, NextLevelDown;
    var p := f[w.current];
    if !p.halfDead {
      assert TargetPageCheck(c, f, p, w.lowkey, w.cur, fuel).Success?;
    }
  }

  /** What a successful walk from some page on has visited. */
  lemma {:induction false} WalkSeesChain(c: Config, f: File, level: Level, w: Walk, fuel: nat, n: nat)
    returns (blocks: seq<BlockNumber>)
    requires w.current != P_NONE && LevelWalk(c, f, level, w, fuel, n).Success?
    ensures Chain(f, w.current, blocks) && LeftLinksAgree(f, blocks)
    ensures f[w.current].halfDead || f[w.current].prev == w.left || w.left == P_NONE
    ensures forall i :: 0 <= i < |blocks| ==> Visited(c, f, level, fuel, blocks[i])
    decreases n
  {
    hide VisitPage, Visited;
    VisitPasses(c, f, level, w, fuel);
    var w' := VisitPage(c, f, level, w, fuel).value;
    if w'.current == P_NONE {
      blocks := [w.current];
    } else {
      var rest := WalkSeesChain(c, f, level, w', fuel, n - 1);
      blocks := [w.current] + rest;
      ChainGrows(f, w.current, rest);
      assert LeftLinksAgree(f, blocks) by {
        forall i | 0 < i < |blocks| && !f[blocks[i]].halfDead ensures f[blocks[i]].prev == blocks[i - 1] {
          assert blocks[i] == rest[i - 1];
          assert i > 1 ==> blocks[i - 1] == rest[i - 2];
        }
      }
    }
  }

  /** Every level that was checked successfully is one chain of right links over distinct
      blocks, fewer than the file has. Its pages are not deleted, and all but half-dead ones
      were accepted; the last one was. */
  lemma LevelIsChain(c: Config, f: File, level: Level, fuel: nat) returns (blocks: seq<BlockNumber>)
    requires level.leftmost != P_NONE && CheckLevel(c, f, level, fuel).Success?
    ensures Chain(f, level.leftmost, blocks) && Distinct(blocks) && |blocks| < |f|
    ensures LeftLinksAgree(f, blocks)
    ensures forall i :: 0 <= i < |blocks| ==> Visited(c, f, level, fuel, blocks[i])
    ensures Accepted(c, f, level, fuel, blocks[|blocks| - 1])
    ensures forall i :: 0 <= i < |blocks| ==> f[blocks[i]].prev != blocks[i]
  {
    blocks := WalkSeesChain(c, f, level, StartOf(level), fuel, fuel);
    ChainFitsFile(f, level.leftmost, blocks);
    assert Visited(c, f, level, fuel, blocks[|blocks| - 1]);
  }

  // ---------------------------------------------------------------- order on one page

  function Keys(items: seq<Tuple>): (ks: seq<Key>)
    ensures |ks| == |items| && forall i :: 0 <= i < |ks| ==> ks[i] == items[i].key
  {
    seq(|items|, i requires 0 <= i < |items| => items[i].key)
  }

  /** The keys of the real items of a page, in order. */
  function Reals(p: Page): seq<Key> {
    if FirstReal(p) <= |p.items| then Keys(p.items[FirstReal(p)..]) else []
  }

  /** Every real item passed the checks made on it. */
  predicate ItemsPassed(c: Config, f: File, p: Page, fuel: nat) {
    && (Rightmost(p) || (0 < |p.items| && CheckNatts(c, true, p.items[0].key)))
    && forall o :: FirstReal(p) <= o < |p.items| ==> ItemCheck(c, f, p, o, fuel) == Pass
  }

  lemma TargetItemPasses(c: Config, f: File, p: Page, lowkey: Option<Tuple>, off: nat, cur: Cursor, fuel: nat)
    requires off < |p.items| && !NegativeInfinity(p, off)
    requires TargetItem(c, f, p, lowkey, off, cur, fuel).Success?
    ensures ItemCheck(c, f, p, off, fuel) == Pass
  {
  }

  lemma {:induction false} TargetItemsPass(c: Config, f: File, p: Page, lowkey: Option<Tuple>, off: nat, cur: Cursor,
        fuel: nat)
    requires !Rightmost(p) ==> 0 < |p.items|
    requires FirstData(p) <= off
    requires TargetItems(c, f, p, lowkey, off, cur, fuel).Success?
    ensures forall o :: off <= o < |p.items| && FirstReal(p) <= o ==> ItemCheck(c, f, p, o, fuel) == Pass
    decreases |p.items| - off
  {
    hide TargetItem, ItemCheck;
    if off < |p.items| {
      var r := TargetItem(c, f, p, lowkey, off, cur, fuel);
      if FirstReal(p) <= off {
        TargetItemPasses(c, f, p, lowkey, off, cur, fuel);
      }
      TargetItemsPass(c, f, p, lowkey, off + 1, r.value, fuel);
    }
  }

  lemma AcceptedItemsPass(c: Config, f: File, level: Level, fuel: nat, b: BlockNumber)
    requires Accepted(c, f, level, fuel, b)
    ensures ItemsPassed(c, f, f[b], fuel)
  {
    var lowkey, cur :| TargetPageCheck(c, f, f[b], lowkey, cur, fuel).Success?;
    TargetItemsPass(c, f, f[b], lowkey, FirstData(f[b]), cur, fuel);
  }

  lemma PassedNatts(c: Config, f: File, p: Page, fuel: nat, o: nat)
    requires !Rightmost(p) ==> 0 < |p.items|
    requires ItemsPassed(c, f, p, fuel) && FirstReal(p) <= o < |p.items|
    ensures |p.items[o].key| <= c.nkeyatts + 1
    ensures !c.heapkeyspace ==> |p.items[o].key| == c.nkeyatts
  {
    assert ItemCheck(c, f, p, o, fuel) == Pass;
  }

  predicate Adjacent(c: Config, ks: seq<Key>) {
    forall i :: 0 < i < |ks| ==> Before(c, ks[i - 1], ks[i])
  }

  lemma PageInOrder(c: Config, f: File, p: Page, fuel: nat)
    requires ItemsPassed(c, f, p, fuel)
    ensures Adjacent(c, Reals(p))
  {
    var ks := Reals(p);
    forall i | 0 < i < |ks| ensures Before(c, ks[i - 1], ks[i]) {
      var o := FirstReal(p) + i;
      PassedNatts(c, f, p, fuel, o);
      PassedNatts(c, f, p, fuel, o - 1);
      assert ItemCheck(c, f, p, o - 1, fuel) == Pass;
      InvariantLMeaning(c, p.items[o - 1].key, p.items[o].key);
    }
  }

  /** The high key bounds every real item of its page: strictly on internal pages. */
  predicate Bounds(c: Config, leaf: bool, k: Key, upper: Key) {
    if leaf then Less(k, upper) || k == upper else Before(c, k, upper)
  }

  lemma HighKeyBounds(c: Config, f: File, p: Page, fuel: nat, o: nat)
    requires !Rightmost(p) && 0 < |p.items|
    requires ItemsPassed(c, f, p, fuel) && FirstReal(p) <= o < |p.items|
    ensures Bounds(c, p.leaf, p.items[o].key, p.items[0].key)
  {
    assert ItemCheck(c, f, p, o, fuel) == Pass;
    PassedNatts(c, f, p, fuel, o);
    if p.leaf {
      InvariantLeqMeaning(c, p.items[o].key, p.items[0].key);
    } else {
      InvariantLMeaning(c, p.items[o].key, p.items[0].key);
    }
  }

  // ---------------------------------------------------------------- order across pages

  /** The last item of a page passed its check, so the search to the right ended. */
  lemma RightKeyFound(c: Config, f: File, p: Page, fuel: nat)
    requires ItemsPassed(c, f, p, fuel) && Reals(p) != [] && !Rightmost(p)
    ensures LiveRight(f, p.next, fuel).Success?
  {
    var last := |p.items| - 1;
    assert ItemCheck(c, f, p, last, fuel) == Pass;
    assert LastItemCheck(c, f, p, last, fuel) == Pass;
  }

  /** The last item of a page and the first real one of the next live page. */
  lemma SiblingsInOrder(c: Config, f: File, p: Page, q: Page, fuel: nat)
    requires !Rightmost(p) && LiveRight(f, p.next, fuel) == Success(q)
    requires ItemsPassed(c, f, p, fuel) && ItemsPassed(c, f, q, fuel)
    requires Reals(p) != [] && Reals(q) != []
    ensures Before(c, Reals(p)[|Reals(p)| - 1], Reals(q)[0])
  {
    var last := |p.items| - 1;
    assert Reals(p)[|Reals(p)| - 1] == p.items[last].key;
    assert ItemCheck(c, f, p, last, fuel) == Pass;
    assert LastItemCheck(c, f, p, last, fuel) == Pass;
    var right := q.items[FirstReal(q)].key;
    PassedNatts(c, f, p, fuel, last);
    PassedNatts(c, f, q, fuel, FirstReal(q));
    InvariantGMeaning(c, right, p.items[last].key);
  }

  /** The real items of a run of pages, one page after the other; half-dead ones do not count. */
  function LiveReals(f: File, blocks: seq<BlockNumber>): seq<Key>
    requires forall i :: 0 <= i < |blocks| ==> blocks[i] < |f|
  {
    if blocks == [] then []
    else (if f[blocks[0]].halfDead then [] else Reals(f[blocks[0]])) + LiveReals(f, blocks[1..])
  }

  /** The first page of a run that is not half-dead. */
  function FirstLive(f: File, blocks: seq<BlockNumber>): (k: nat)
    requires forall i :: 0 <= i < |blocks| ==> blocks[i] < |f|
    ensures k <= |blocks| && forall i :: 0 <= i < k ==> f[blocks[i]].halfDead
    ensures k < |blocks| ==> !f[blocks[k]].halfDead
  {
    if blocks == [] || !f[blocks[0]].halfDead then 0 else 1 + FirstLive(f, blocks[1..])
  }

  /** A live page that is not empty. */
  predicate Full(p: Page) {
    !p.halfDead && Reals(p) != []
  }

  /** The first such page of a run. */
  function FirstFull(f: File, blocks: seq<BlockNumber>): (k: nat)
    requires forall i :: 0 <= i < |blocks| ==> blocks[i] < |f|
    ensures k <= |blocks| && forall i :: 0 <= i < k ==> !Full(f[blocks[i]])
    ensures k < |blocks| ==> Full(f[blocks[k]])
  {
    if blocks == [] || Full(f[blocks[0]]) then 0 else 1 + FirstFull(f, blocks[1..])
  }

  /** The real items of a run begin with those of that page. */
  lemma {:induction false} LiveRealsStart(f: File, blocks: seq<BlockNumber>)
    requires forall i :: 0 <= i < |blocks| ==> blocks[i] < |f|
    ensures FirstLive(f, blocks) <= FirstFull(f, blocks)
    ensures var k := FirstFull(f, blocks);
            if k < |blocks| then LiveReals(f, blocks) != [] && LiveReals(f, blocks)[0] == Reals(f[blocks[k]])[0]
            else LiveReals(f, blocks) == []
  {
    hide Reals;
    if blocks != [] && !Full(f[blocks[0]]) {
      LiveRealsStart(f, blocks[1..]);
    }
  }

  /** Two pages that are not empty, with none of that kind between them but some live one: the
      last item of the left page comes before the first one of the right page. Said of the first
      page of a run and the next one that is not empty. */
  predicate GapInOrder(c: Config, f: File, blocks: seq<BlockNumber>)
    requires blocks != [] && forall i :: 0 <= i < |blocks| ==> blocks[i] < |f|
  {
    var p, rest := f[blocks[0]], blocks[1..];
    Full(p) && FirstLive(f, rest) < FirstFull(f, rest) < |rest| ==>
      Before(c, Reals(p)[|Reals(p)| - 1], Reals(f[rest[FirstFull(f, rest)]])[0])
  }

  /** Said of every page of a run. */
  predicate GapsInOrder(c: Config, f: File, blocks: seq<BlockNumber>)
    requires forall i :: 0 <= i < |blocks| ==> blocks[i] < |f|
  {
    blocks != [] ==> GapInOrder(c, f, blocks) && GapsInOrder(c, f, blocks[1..])
  }

  lemma {:induction false} NoGaps(c: Config, f: File, blocks: seq<BlockNumber>)
    requires forall i :: 0 <= i < |blocks| ==> blocks[i] < |f| && (f[blocks[i]].halfDead || Full(f[blocks[i]]))
    ensures GapsInOrder(c, f, blocks)
  {
    hide Full, Before;
    if blocks != [] {
      var rest := blocks[1..];
      assert FirstLive(f, rest) < |rest| ==> Full(f[rest[FirstLive(f, rest)]]);
      NoGaps(c, f, rest);
    }
  }

  /** The order of two sequences put together. */
  lemma AdjacentConcat(c: Config, a: seq<Key>, b: seq<Key>)
    ensures Adjacent(c, a + b) <==>
            && Adjacent(c, a) && Adjacent(c, b)
            && (a != [] && b != [] ==> Before(c, a[|a| - 1], b[0]))
  {
    hide Before;
    var ks := a + b;
    if Adjacent(c, ks) {
      assert a != [] && b != [] ==> Before(c, ks[|a| - 1], ks[|a|]);
      forall i | 0 < i < |a| ensures Before(c, a[i - 1], a[i]) {
        assert Before(c, ks[i - 1], ks[i]);
      }
      forall i | 0 < i < |b| ensures Before(c, b[i - 1], b[i]) {
        assert Before(c, ks[|a| + i - 1], ks[|a| + i]);
      }
    } else {
      var i :| 0 < i < |ks| && !Before(c, ks[i - 1], ks[i]);
      if i > |a| {
        assert ks[i - 1] == b[i - |a| - 1] && ks[i] == b[i - |a|];
      }
    }
  }

  /** The search to the right for a live page, if it ends, finds the next one of the level. */
  lemma {:induction false} LiveRightIsNext(f: File, start: BlockNumber, blocks: seq<BlockNumber>, fuel: nat)
    requires Chain(f, start, blocks) && LiveRight(f, start, fuel).Success?
    requires forall i :: 0 <= i < |blocks| ==> !f[blocks[i]].deleted
    requires !f[blocks[|blocks| - 1]].halfDead
    ensures FirstLive(f, blocks) < |blocks| && LiveRight(f, start, fuel).value == f[blocks[FirstLive(f, blocks)]]
    decreases |blocks|
  {
    if f[start].halfDead {
      ChainTail(f, start, blocks);
      LiveRightIsNext(f, f[start].next, blocks[1..], fuel - 1);
    }
  }

  /** The first live page of a run, if it is among the first m. */
  lemma {:induction false} FirstLiveAmong(f: File, blocks: seq<BlockNumber>, m: nat)
    requires m <= |blocks| && forall i :: 0 <= i < |blocks| ==> blocks[i] < |f|
    ensures FirstLive(f, blocks) < m ==> FirstLive(f, blocks[..m]) == FirstLive(f, blocks)
    ensures FirstLive(f, blocks) >= m ==> FirstLive(f, blocks[..m]) == m
    decreases m
  {
    if m > 0 && f[blocks[0]].halfDead {
      FirstLiveAmong(f, blocks[1..], m - 1);
      assert blocks[..m][1..] == blocks[1..][..m - 1];
    }
  }

  /** The pages of a run to the end of the level were visited. */
  ghost predicate VisitedRun(c: Config, f: File, level: Level, fuel: nat, start: BlockNumber,
        blocks: seq<BlockNumber>)
  {
    Chain(f, start, blocks) && forall i :: 0 <= i < |blocks| ==> Visited(c, f, level, fuel, blocks[i])
  }

  lemma VisitedTail(c: Config, f: File, level: Level, fuel: nat, start: BlockNumber, blocks: seq<BlockNumber>)
    requires VisitedRun(c, f, level, fuel, start, blocks) && |blocks| > 1
    ensures VisitedRun(c, f, level, fuel, f[start].next, blocks[1..])
  {
    hide Visited;
    ChainTail(f, start, blocks);
  }

  lemma VisitedIsLive(c: Config, f: File, level: Level, fuel: nat, start: BlockNumber, blocks: seq<BlockNumber>,
        i: nat)
    requires VisitedRun(c, f, level, fuel, start, blocks) && i < |blocks|
    ensures blocks[i] < |f| && !f[blocks[i]].deleted && (i == |blocks| - 1 ==> !f[blocks[i]].halfDead)
    ensures !f[blocks[i]].halfDead ==>
              Accepted(c, f, level, fuel, blocks[i]) && ItemsPassed(c, f, f[blocks[i]], fuel)
  {
    hide Chain, ItemsPassed, TargetPageCheck;
    assert Chain(f, start, blocks) ==> (i == |blocks| - 1 ==> Rightmost(f[blocks[i]])) by {
      LastIsRightmost(f, start, blocks);
    }
    assert Visited(c, f, level, fuel, blocks[i]);
    if !f[blocks[i]].halfDead {
      AcceptedItemsPass(c, f, level, fuel, blocks[i]);
    }
  }

  lemma LastIsRightmost(f: File, start: BlockNumber, blocks: seq<BlockNumber>)
    requires Chain(f, start, blocks)
    ensures Rightmost(f[blocks[|blocks| - 1]])
  {
  }

  /** The search to the right of a page that is not empty finds the next live one. */
  lemma NextLive(c: Config, f: File, level: Level, fuel: nat, start: BlockNumber, blocks: seq<BlockNumber>)
    requires VisitedRun(c, f, level, fuel, start, blocks) && |blocks| > 1 && Full(f[start])
    ensures var k := FirstLive(f, blocks[1..]);
            !Rightmost(f[start]) && k < |blocks| - 1
            && LiveRight(f, f[start].next, fuel) == Success(f[blocks[k + 1]])
  {
    hide ItemsPassed, Accepted, Visited, LiveRight, FirstLive, Reals;
    var p, rest := f[start], blocks[1..];
    VisitedIsLive(c, f, level, fuel, start, blocks, 0);
    VisitedTail(c, f, level, fuel, start, blocks);
    forall i | 0 <= i < |rest| ensures !f[rest[i]].deleted {
      VisitedIsLive(c, f, level, fuel, p.next, rest, i);
    }
    VisitedIsLive(c, f, level, fuel, p.next, rest, |rest| - 1);
    RightKeyFound(c, f, p, fuel);
    LiveRightIsNext(f, p.next, rest, fuel);
  }

  /** Two pages that are not empty, with only half-dead ones between them, were compared. */
  lemma NeighboursInOrder(c: Config, f: File, level: Level, fuel: nat, start: BlockNumber, blocks: seq<BlockNumber>,
        m: nat)
    requires VisitedRun(c, f, level, fuel, start, blocks) && 0 < m <= |blocks| && Full(f[start])
    requires forall i :: 0 <= i < |blocks| ==> blocks[i] < |f|
    requires var pre := blocks[1..][..m - 1]; FirstLive(f, pre) == FirstFull(f, pre) < |pre|
    ensures Before(c, Reals(f[start])[|Reals(f[start])| - 1],
                   Reals(f[blocks[1..][FirstFull(f, blocks[1..][..m - 1])]])[0])
  {
    hide ItemsPassed, Accepted, Visited, Before, LiveRight, FirstLive, FirstFull, Reals;
    var rest := blocks[1..];
    NextLive(c, f, level, fuel, start, blocks);
    FirstLiveAmong(f, rest, m - 1);
    var k := FirstFull(f, rest[..m - 1]);
    assert rest[..m - 1][k] == rest[k];
    VisitedIsLive(c, f, level, fuel, start, blocks, 0);
    VisitedIsLive(c, f, level, fuel, start, blocks, k + 1);
    SiblingsInOrder(c, f, f[start], f[rest[k]], fuel);
  }

  lemma FirstReals(f: File, blocks: seq<BlockNumber>, m: nat)
    requires 0 < m <= |blocks| && forall i :: 0 <= i < |blocks| ==> blocks[i] < |f|
    ensures LiveReals(f, blocks[..m])
         == (if Full(f[blocks[0]]) then Reals(f[blocks[0]]) else []) + LiveReals(f, blocks[1..][..m - 1])
  {
    hide Reals;
    assert blocks[..m][1..] == blocks[1..][..m - 1];
  }

  /** The first page of a run, after which the others are known to be in order or not. */
  lemma FirstPageExactly(c: Config, f: File, level: Level, fuel: nat, start: BlockNumber, blocks: seq<BlockNumber>,
        m: nat)
    requires VisitedRun(c, f, level, fuel, start, blocks) && 0 < m <= |blocks|
    requires forall i :: 0 <= i < |blocks| ==> blocks[i] < |f|
    ensures Adjacent(c, LiveReals(f, blocks[..m])) <==>
            Adjacent(c, LiveReals(f, blocks[1..][..m - 1])) && GapInOrder(c, f, blocks[..m])
  {
    hide ItemsPassed, Adjacent, Accepted, Visited, VisitedRun, Before, Reals, LiveReals, FirstLive, FirstFull, Chain;
    assert blocks[0] == start by { RunIsChain(c, f, level, fuel, start, blocks); }
    var p, pre := f[start], blocks[1..][..m - 1];
    assert blocks[..m][1..] == pre;
    FirstReals(f, blocks, m);
    if Full(p) {
      AdjacentConcat(c, Reals(p), LiveReals(f, pre));
      VisitedIsLive(c, f, level, fuel, start, blocks, 0);
      PageInOrder(c, f, p, fuel);
      LiveRealsStart(f, pre);
      if FirstLive(f, pre) == FirstFull(f, pre) < |pre| {
        NeighboursInOrder(c, f, level, fuel, start, blocks, m);
      }
    } else {
      assert [] + LiveReals(f, pre) == LiveReals(f, pre);
    }
  }

  lemma {:induction false} PagesInOrder(c: Config, f: File, level: Level, fuel: nat, start: BlockNumber,
        blocks: seq<BlockNumber>, m: nat)
    requires VisitedRun(c, f, level, fuel, start, blocks) && m <= |blocks|
    ensures forall i :: 0 <= i < |blocks| ==> blocks[i] < |f|
    ensures Adjacent(c, LiveReals(f, blocks[..m])) <==> GapsInOrder(c, f, blocks[..m])
    decreases m
  {
    hide ItemsPassed, Adjacent, Accepted, Visited, VisitedRun, Before, Reals, GapInOrder, LiveReals;
    assert Chain(f, start, blocks) by { RunIsChain(c, f, level, fuel, start, blocks); }
    if m == 0 {
      NoReals(c, f);
      assert blocks[..m] == [];
    } else {
      var rest := blocks[1..];
      assert blocks[..m][1..] == rest[..m - 1];
      FirstPageExactly(c, f, level, fuel, start, blocks, m);
      if rest != [] {
        VisitedTail(c, f, level, fuel, start, blocks);
        PagesInOrder(c, f, level, fuel, f[start].next, rest, m - 1);
      } else {
        NoReals(c, f);
        assert rest[..m - 1] == [];
      }
    }
  }

  lemma NoReals(c: Config, f: File)
    ensures LiveReals(f, []) == [] && Adjacent(c, []) && GapsInOrder(c, f, [])
  {
  }

  lemma RunIsChain(c: Config, f: File, level: Level, fuel: nat, start: BlockNumber, blocks: seq<BlockNumber>)
    requires VisitedRun(c, f, level, fuel, start, blocks)
    ensures Chain(f, start, blocks) && blocks != [] && blocks[0] == start
  {
  }

  lemma {:induction false} AdjacentIsSorted(c: Config, ks: seq<Key>, i: nat, j: nat)
    requires Adjacent(c, ks) && i < j < |ks|
    ensures Before(c, ks[i], ks[j])
    decreases j
  {
    if i < j - 1 {
      AdjacentIsSorted(c, ks, i, j - 1);
      BeforeTransitive(c, ks[i], ks[j - 1], ks[j]);
    }
  }

  /** Any two keys are in order, strictly so in a version 4 index. */
  predicate Sorted(c: Config, ks: seq<Key>) {
    forall i, j :: 0 <= i < j < |ks| ==> Before(c, ks[i], ks[j])
  }

  lemma SortedIsAdjacent(c: Config, ks: seq<Key>)
    ensures Sorted(c, ks) <==> Adjacent(c, ks)
  {
    hide Before;
    if Adjacent(c, ks) {
      forall i, j | 0 <= i < j < |ks| ensures Before(c, ks[i], ks[j]) {
        AdjacentIsSorted(c, ks, i, j);
      }
    }
  }

  /** The main result on one level: on any stretch of it, the real items of all live pages, read
      from left to right, are in order if and only if they are across the gaps of empty pages.
      Half-dead pages do not matter. */
  lemma LevelInOrderExactly(c: Config, f: File, level: Level, fuel: nat, blocks: seq<BlockNumber>, from: nat, to: nat)
    requires level.leftmost != P_NONE && CheckLevel(c, f, level, fuel).Success?
    requires Chain(f, level.leftmost, blocks) && from <= to <= |blocks|
    ensures Sorted(c, LiveReals(f, blocks[from..to])) <==> GapsInOrder(c, f, blocks[from..to])
  {
    hide Visited, CheckLevel, Sorted, GapsInOrder, LiveReals;
    var seen := LevelIsChain(c, f, level, fuel);
    ChainIsOne(f, level.leftmost, seen, blocks);
    SortedIsAdjacent(c, LiveReals(f, blocks[from..to]));
    if from < to {
      var rest := blocks[from..];
      ChainFrom(f, level.leftmost, blocks, from);
      assert VisitedRun(c, f, level, fuel, blocks[from], rest);
      PagesInOrder(c, f, level, fuel, blocks[from], rest, to - from);
      assert blocks[from..to] == rest[..to - from];
    } else {
      NoReals(c, f);
      assert blocks[from..to] == [];
    }
  }

  /** In particular, where no live page is empty. */
  lemma LevelInOrder(c: Config, f: File, level: Level, fuel: nat, blocks: seq<BlockNumber>, from: nat, to: nat)
    requires level.leftmost != P_NONE && CheckLevel(c, f, level, fuel).Success?
    requires Chain(f, level.leftmost, blocks) && from <= to <= |blocks|
    requires forall k :: from <= k < to && !f[blocks[k]].halfDead ==> Reals(f[blocks[k]]) != []
    ensures Sorted(c, LiveReals(f, blocks[from..to]))
  {
    hide Reals, CheckLevel, Sorted, GapsInOrder, LiveReals;
    LevelInOrderExactly(c, f, level, fuel, blocks, from, to);
    NoGaps(c, f, blocks[from..to]);
  }
}
