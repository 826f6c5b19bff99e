/** No false alarm: what a healthy index is, said without any of the checks, and that all of them
    pass on it. */
module BtreeHealthy {
  import opened Outcomes
  import opened BtreeKey
  import opened BtreePage
  import opened BtreeLeftmost
  import opened BtreeChain
  import opened BtreeCheck
  import opened BtreeLevel
  import opened BtreeParent
  import opened BtreeBounds

  // ---------------------------------------------------------------- one item

  /** The check of a real item passes if and only if the item is bounded by the high key, if there
      is one, and comes before the next item, or for the last one before the first real item of
      the next live page, if there is one. On leaf pages an item may equal the high key. */
  lemma ItemCheckExactly(c: Config, f: File, p: Page, o: nat, fuel: nat)
    requires FirstReal(p) <= o < |p.items| && (!Rightmost(p) ==> 0 < |p.items|)
    requires forall i :: o <= i < |p.items| ==> CheckNatts(c, !p.leaf, p.items[i].key)
    requires !Rightmost(p) ==> CheckNatts(c, true, p.items[0].key)
    requires RightKey(f, p, fuel).Success?
    requires var right := RightKey(f, p, fuel).value;
             right.Some? ==> |right.value| <= c.nkeyatts + 1 && (!c.heapkeyspace ==> |right.value| == c.nkeyatts)
    ensures var right := RightKey(f, p, fuel).value; var k := p.items[o].key;
            ItemCheck(c, f, p, o, fuel) == Pass <==>
              && (!Rightmost(p) ==> Bounds(c, p.leaf, k, p.items[0].key))
              && (o + 1 < |p.items| ==> Before(c, k, p.items[o + 1].key))
              && (o + 1 == |p.items| && right.Some? ==> Before(c, k, right.value))
  {
    hide InvariantL, InvariantLeq, InvariantG, Before, RightKey;
    var k := p.items[o].key;
    if !Rightmost(p) {
      InvariantLMeaning(c, k, p.items[0].key);
      InvariantLeqMeaning(c, k, p.items[0].key);
    }
    if o + 1 < |p.items| {
      InvariantLMeaning(c, k, p.items[o + 1].key);
    } else if RightKey(f, p, fuel).value.Some? {
      InvariantGMeaning(c, RightKey(f, p, fuel).value.value, k);
    }
  }

  /** Converse of the lower bound: the check passes if all real items come after the pivot. */
  lemma {:induction false} LowerBoundPasses(c: Config, pivot: Key, child: Page, off: nat)
    requires |pivot| <= c.nkeyatts + 1 && (!c.heapkeyspace ==> |pivot| == c.nkeyatts)
    requires FirstData(child) <= off && Above(c, pivot, child)
    requires forall o :: FirstReal(child) <= o < |child.items| ==>
               |child.items[o].key| <= c.nkeyatts + 1 && (!c.heapkeyspace ==> |child.items[o].key| == c.nkeyatts)
    ensures LowerBoundFrom(c, MakeScanKey(c, pivot), child, off) == Pass
    decreases |child.items| - off
  {
    hide InvariantL, Before;
    if off < |child.items| {
      if !NegativeInfinity(child, off) {
        InvariantLMeaning(c, pivot, child.items[off].key);
      }
      LowerBoundPasses(c, pivot, child, off + 1);
    }
  }

  // ---------------------------------------------------------------- healthy files

  /** A row's key has every attribute, and its heap pointer in a version 4 index. */
  predicate RowKey(c: Config, k: Key) {
    |k| == if c.heapkeyspace then c.nkeyatts + 1 else c.nkeyatts
  }

  /** A separator may lack attributes at the end, but not the first, in a version 4 index. */
  predicate SeparatorKey(c: Config, k: Key) {
    if c.heapkeyspace then 1 <= |k| <= c.nkeyatts + 1 else |k| == c.nkeyatts
  }

  /** A page in use, on the level with this number, and its keys. */
  predicate HealthyPage(c: Config, p: Page, number: nat) {
    && !p.meta && !p.deleted && !p.halfDead && !p.fullXid && !p.incompleteSplit && !p.garbage
    && p.level == number && (p.leaf <==> number == 0)
    && (p.next != P_NONE ==> 0 < |p.items| && SeparatorKey(c, p.items[0].key))
    && (!p.leaf ==> FirstData(p) < |p.items|)
    && forall o :: FirstReal(p) <= o < |p.items| ==>
         if p.leaf then RowKey(c, p.items[o].key) else SeparatorKey(c, p.items[o].key)
  }

  /** Nothing lies to the left, except pages that interrupted deletions have left half-dead. */
  ghost predicate FirstOfLevel(f: File, b: BlockNumber)
    requires b < |f|
  {
    exists chain :: LeadsToNone(f, b, chain)
  }

  /** The pages of a level name each other on both sides. */
  ghost predicate LinkedBothWays(f: File, blocks: seq<BlockNumber>) {
    && blocks != [] && Chain(f, blocks[0], blocks) && FirstOfLevel(f, blocks[0])
    && forall i :: 0 < i < |blocks| ==> f[blocks[i]].prev == blocks[i - 1]
  }

  /** One level: linked pages, their items in order from left to right, and on each page bounded
      by its high key. */
  ghost predicate HealthyLevel(c: Config, f: File, blocks: seq<BlockNumber>, number: nat) {
    && LinkedBothWays(f, blocks)
    && (forall i :: 0 <= i < |blocks| ==> HealthyPage(c, f[blocks[i]], number))
    && Sorted(c, LiveReals(f, blocks))
    && forall i, o :: 0 <= i < |blocks| - 1 && FirstReal(f[blocks[i]]) <= o < |f[blocks[i]].items| ==>
         Bounds(c, number == 0, f[blocks[i]].items[o].key, f[blocks[i]].items[0].key)
  }

  /** The child beneath a downlink ends where the next pivot, or the page's high key, says, and its
      items come after the downlink's own pivot. */
  predicate HealthyLink(c: Config, f: File, p: Page, o: nat)
    requires FirstData(p) <= o < |p.items|
  {
    && p.items[o].link < |f|
    && var child := f[p.items[o].link];
       && (child.next != P_NONE ==> 0 < |child.items| && UpperBound(p, o) == Some(child.items[0].key))
       && (FirstData(p) < o ==>
             forall i :: FirstReal(child) <= i < |child.items| ==> Before(c, p.items[o].key, child.items[i].key))
  }

  /** Two levels: the downlinks of the upper one are the pages of the lower one, in order. */
  predicate HealthyPair(c: Config, f: File, blocks: seq<BlockNumber>, kids: seq<BlockNumber>) {
    && (forall i :: 0 <= i < |blocks| ==> blocks[i] < |f|)
    && Downlinks(f, blocks) == kids
    && forall i, o :: 0 <= i < |blocks| && FirstData(f[blocks[i]]) <= o < |f[blocks[i]].items| ==>
         HealthyLink(c, f, f[blocks[i]], o)
  }

  /** Levels that belong together, from the top down to the leaves. */
  ghost predicate HealthyTree(c: Config, f: File, levels: seq<seq<BlockNumber>>) {
    && 0 < |levels| <= 0xFFFF_FFFF
    && (forall k :: 0 <= k < |levels| ==> HealthyLevel(c, f, levels[k], |levels| - 1 - k))
    && (forall k :: 0 < k < |levels| ==> HealthyPair(c, f, levels[k - 1], levels[k]))
    && levels[0] != [] && levels[0][0] < |f|
  }

  /** A healthy index: such a tree, whose first page is flagged as the root. */
  ghost predicate Healthy(c: Config, f: File, levels: seq<seq<BlockNumber>>) {
    HealthyTree(c, f, levels) && f[levels[0][0]].root
  }

  // ---------------------------------------------------------------- one page passes

  /** The page to the right of one of the level. */
  lemma RightOf(c: Config, f: File, blocks: seq<BlockNumber>, number: nat, i: nat)
    requires HealthyLevel(c, f, blocks, number) && i < |blocks|
    ensures 0 < blocks[i] < |f| && f[blocks[i]].next == At(blocks, i + 1)
    ensures i + 1 < |blocks| <==> !Rightmost(f[blocks[i]])
  {
    hide HealthyPage, Sorted, LiveReals, Bounds;
    NextInLevel(f, blocks[0], blocks, i);
  }

  lemma {:induction false} OrderOnPages(c: Config, f: File, blocks: seq<BlockNumber>, i: nat)
    requires forall j :: 0 <= j < |blocks| ==> blocks[j] < |f| && !f[blocks[j]].halfDead
    requires Adjacent(c, LiveReals(f, blocks)) && i < |blocks|
    ensures Adjacent(c, Reals(f[blocks[i]]))
    ensures i + 1 < |blocks| && Reals(f[blocks[i]]) != [] && Reals(f[blocks[i + 1]]) != [] ==>
              Before(c, Reals(f[blocks[i]])[|Reals(f[blocks[i]])| - 1], Reals(f[blocks[i + 1]])[0])
    decreases i
  {
    hide Adjacent, Reals, Before;
    var rest := blocks[1..];
    assert LiveReals(f, blocks) == Reals(f[blocks[0]]) + LiveReals(f, rest);
    AdjacentConcat(c, Reals(f[blocks[0]]), LiveReals(f, rest));
    if i > 0 {
      OrderOnPages(c, f, rest, i - 1);
    } else if |blocks| > 1 {
      assert LiveReals(f, rest) == Reals(f[rest[0]]) + LiveReals(f, rest[1..]);
    }
  }

  lemma RealAt(p: Page, o: nat)
    requires FirstReal(p) <= o < |p.items|
    ensures o - FirstReal(p) < |Reals(p)| && Reals(p)[o - FirstReal(p)] == p.items[o].key
  {
  }

  lemma HealthyCounts(c: Config, p: Page, number: nat)
    requires HealthyPage(c, p, number)
    ensures !Ignore(p) && Sane(p) && (!Rightmost(p) ==> 0 < |p.items| && CheckNatts(c, true, p.items[0].key))
    ensures forall o :: FirstReal(p) <= o < |p.items| ==> CheckNatts(c, !p.leaf, p.items[o].key)
    ensures forall o :: FirstReal(p) <= o < |p.items| ==>
              |p.items[o].key| <= c.nkeyatts + 1 && (!c.heapkeyspace ==> |p.items[o].key| == c.nkeyatts)
  {
  }

  lemma HealthyRightKey(c: Config, f: File, blocks: seq<BlockNumber>, number: nat, i: nat, fuel: nat)
    requires HealthyLevel(c, f, blocks, number) && i < |blocks| && fuel > 0
    ensures 0 < blocks[i] < |f|
    ensures RightKey(f, f[blocks[i]], fuel)
         == Success(if i + 1 < |blocks| && blocks[i + 1] < |f| && Reals(f[blocks[i + 1]]) != []
                    then Some(Reals(f[blocks[i + 1]])[0]) else None)
  {
    hide HealthyPage, Sorted, LiveReals, Bounds;
    RightOf(c, f, blocks, number, i);
    if i + 1 < |blocks| {
      RightOf(c, f, blocks, number, i + 1);
      var q := f[blocks[i + 1]];
      HealthyCounts(c, q, number);
      if FirstReal(q) < |q.items| {
        RealAt(q, FirstReal(q));
      }
    }
  }

  /** Every real item of a healthy level passes. */
  lemma HealthyItem(c: Config, f: File, blocks: seq<BlockNumber>, number: nat, i: nat, o: nat, fuel: nat)
    requires HealthyLevel(c, f, blocks, number) && i < |blocks| && fuel > 0 && blocks[i] < |f|
    requires FirstReal(f[blocks[i]]) <= o < |f[blocks[i]].items|
    requires !Rightmost(f[blocks[i]]) ==> 0 < |f[blocks[i]].items|
    ensures ItemCheck(c, f, f[blocks[i]], o, fuel) == Pass
  {
    hide Bounds, Before, ItemCheck, RightKey, LiveReals, Reals, HealthyPage;
    var p := f[blocks[i]];
    RightOf(c, f, blocks, number, i);
    HealthyRightKey(c, f, blocks, number, i, fuel);
    HealthyCounts(c, p, number);
    AllLive(c, f, blocks, number);
    SortedIsAdjacent(c, LiveReals(f, blocks));
    OrderOnPages(c, f, blocks, i);
    RealAt(p, o);
    if o + 1 < |p.items| {
      RealAt(p, o + 1);
      assert Before(c, Reals(p)[(o + 1 - FirstReal(p)) - 1], Reals(p)[o + 1 - FirstReal(p)]);
    } else {
      LastReal(p);
    }
    if i + 1 < |blocks| && Reals(f[blocks[i + 1]]) != [] {
      FirstRealCount(c, f, blocks, number, i + 1);
    }
    LeafByNumber(c, p, number);
    ItemCheckExactly(c, f, p, o, fuel);
  }

  lemma LeafByNumber(c: Config, p: Page, number: nat)
    requires HealthyPage(c, p, number)
    ensures p.leaf <==> number == 0
  {
  }

  lemma LastReal(p: Page)
    requires FirstReal(p) < |p.items|
    ensures |Reals(p)| == |p.items| - FirstReal(p) && Reals(p)[|Reals(p)| - 1] == p.items[|p.items| - 1].key
  {
  }

  lemma FirstRealCount(c: Config, f: File, blocks: seq<BlockNumber>, number: nat, i: nat)
    requires HealthyLevel(c, f, blocks, number) && i < |blocks| && blocks[i] < |f| && Reals(f[blocks[i]]) != []
    ensures var k := Reals(f[blocks[i]])[0]; |k| <= c.nkeyatts + 1 && (!c.heapkeyspace ==> |k| == c.nkeyatts)
  {
    hide Sorted, LiveReals, Bounds, HealthyPage;
    HealthyCounts(c, f[blocks[i]], number);
    RealAt(f[blocks[i]], FirstReal(f[blocks[i]]));
  }

  lemma AllLive(c: Config, f: File, blocks: seq<BlockNumber>, number: nat)
    requires HealthyLevel(c, f, blocks, number)
    ensures forall j :: 0 <= j < |blocks| ==> 0 < blocks[j] < |f| && !f[blocks[j]].halfDead
  {
    hide Sorted, LiveReals, Bounds;
  }

  // ---------------------------------------------------------------- the children pass

  /** The cursor is at the k-th child; nothing is remembered at the start of the level. */
  predicate AtKid(kids: seq<BlockNumber>, k: nat, cur: Cursor) {
    cur == if k == 0 then FRESH else Cursor(At(kids, k), false)
  }

  /** A healthy level below, unless this is the leaf level. */
  ghost predicate Supported(c: Config, f: File, blocks: seq<BlockNumber>, kids: seq<BlockNumber>, number: nat) {
    number > 0 ==> HealthyLevel(c, f, kids, number - 1) && HealthyPair(c, f, blocks, kids)
  }

  lemma KidPassesVisit(c: Config, f: File, target: Page, lowkey: Option<Tuple>, o: nat, kids: seq<BlockNumber>, k: nat,
        number: nat, cur: Cursor, fuel: nat)
    requires FirstData(target) <= o < |target.items| && HealthyLink(c, f, target, o) && target.level == number + 1
    requires !Rightmost(target) ==> 0 < |target.items|
    requires HealthyLevel(c, f, kids, number) && k < |kids| && kids[k] == target.items[o].link
    ensures var d := kids[k];
            && 0 < d < |f|
            && VisitChild(f, target, lowkey, Some(o), d, if k == 0 then INVALID_BLOCK else d, d, false, true, fuel)
                 == Success(f[d])
  {
    hide LiveReals, Sorted, Bounds, Before, MatchHighKey, DownlinkMissing, FirstOfLevel, LeftmostIgnoringHalfDead;
    RightOf(c, f, kids, number, k);
    HealthyCounts(c, f[kids[k]], number);
    ChainFitsFile(f, kids[0], kids);
    if k == 0 {
      IsLeftmost(f, kids[0]);
    } else {
      assert kids[k - 1] != kids[k];
    }
    if !Rightmost(f[kids[k]]) {
      KidMatches(c, f, target, lowkey, o);
    }
  }

  lemma KidMatches(c: Config, f: File, target: Page, lowkey: Option<Tuple>, o: nat)
    requires FirstData(target) <= o < |target.items| && HealthyLink(c, f, target, o)
    requires !Rightmost(target) ==> 0 < |target.items|
    requires !Rightmost(f[target.items[o].link])
    ensures MatchHighKey(target, lowkey, Some(o), true, f[target.items[o].link]) == Pass
  {
    hide Before;
  }

  /** From one downlink to the next. */
  lemma KidPasses(c: Config, f: File, target: Page, lowkey: Option<Tuple>, o: nat, kids: seq<BlockNumber>, k: nat,
        number: nat, cur: Cursor, fuel: nat)
    requires FirstData(target) <= o < |target.items| && HealthyLink(c, f, target, o) && target.level == number + 1
    requires !Rightmost(target) ==> 0 < |target.items|
    requires HealthyLevel(c, f, kids, number) && k < |kids| && kids[k] == target.items[o].link
    requires AtKid(kids, k, cur) && fuel > 0
    ensures ChildHighKeyCheck(f, target, lowkey, Some(o), cur, fuel) == Success(Cursor(At(kids, k + 1), false))
  {
    hide VisitChild, HealthyLink, HealthyPage, Sorted, LiveReals, Bounds;
    RightOf(c, f, kids, number, k);
    KidPassesVisit(c, f, target, lowkey, o, kids, k, number, cur, fuel);
    HealthyIsWhole(c, f[kids[k]], number);
  }

  lemma HealthyIsWhole(c: Config, p: Page, number: nat)
    requires HealthyPage(c, p, number)
    ensures !p.incompleteSplit && !p.deleted && p.level == number
  {
  }

  /** One item of a page, with the child beneath it. */
  lemma HealthyTargetItem(c: Config, f: File, blocks: seq<BlockNumber>, kids: seq<BlockNumber>, number: nat, i: nat,
        lowkey: Option<Tuple>, o: nat, k: nat, cur: Cursor, fuel: nat)
    requires HealthyLevel(c, f, blocks, number) && Supported(c, f, blocks, kids, number)
    requires i < |blocks| && blocks[i] < |f| && fuel > 0 && FirstData(f[blocks[i]]) <= o < |f[blocks[i]].items|
    requires !Rightmost(f[blocks[i]]) ==> 0 < |f[blocks[i]].items|
    requires number > 0 ==> k < |kids| && kids[k] == f[blocks[i]].items[o].link && AtKid(kids, k, cur)
    ensures TargetItem(c, f, f[blocks[i]], lowkey, o, cur, fuel)
         == Success(if number == 0 then cur else Cursor(At(kids, k + 1), false))
  {
    hide ItemCheck, ChildHighKeyCheck, HealthyPage, Sorted, LiveReals, Bounds, Before, LowerBoundFrom, HealthyLink;
    var p := f[blocks[i]];
    LeafByNumber(c, p, number);
    HealthyIsWhole(c, p, number);
    if !NegativeInfinity(p, o) {
      HealthyItem(c, f, blocks, number, i, o, fuel);
    }
    if number > 0 {
      assert HealthyLink(c, f, p, o);
      KidPasses(c, f, p, lowkey, o, kids, k, number - 1, cur, fuel);
      if !NegativeInfinity(p, o) {
        KidIsAbove(c, f, p, o, kids, k, number);
      }
    }
  }

  lemma KidIsAbove(c: Config, f: File, p: Page, o: nat, kids: seq<BlockNumber>, k: nat, number: nat)
    requires HealthyPage(c, p, number) && number > 0 && FirstData(p) < o < |p.items| && HealthyLink(c, f, p, o)
    requires HealthyLevel(c, f, kids, number - 1) && k < |kids| && kids[k] == p.items[o].link
    ensures var d := kids[k];
            && 0 < d < |f| && Sane(f[d]) && !f[d].deleted
            && LowerBoundFrom(c, MakeScanKey(c, p.items[o].key), f[d], FirstData(f[d])) == Pass
  {
    hide Sorted, LiveReals, Bounds, Before, LowerBoundFrom;
    RightOf(c, f, kids, number - 1, k);
    HealthyCounts(c, p, number);
    HealthyCounts(c, f[kids[k]], number - 1);
    LowerBoundPasses(c, p.items[o].key, f[kids[k]], FirstData(f[kids[k]]));
  }

  lemma {:induction false} HealthyTargetItems(c: Config, f: File, blocks: seq<BlockNumber>, kids: seq<BlockNumber>,
        number: nat, i: nat, lowkey: Option<Tuple>, o: nat, k: nat, cur: Cursor, fuel: nat)
    requires HealthyLevel(c, f, blocks, number) && Supported(c, f, blocks, kids, number)
    requires i < |blocks| && blocks[i] < |f| && fuel > 0 && FirstData(f[blocks[i]]) <= o <= |f[blocks[i]].items|
    requires !Rightmost(f[blocks[i]]) ==> 0 < |f[blocks[i]].items|
    requires number > 0 ==>
               && AtKid(kids, k, cur) && k + (|f[blocks[i]].items| - o) <= |kids|
               && forall j :: o <= j < |f[blocks[i]].items| ==> kids[k + (j - o)] == f[blocks[i]].items[j].link
    ensures var r := TargetItems(c, f, f[blocks[i]], lowkey, o, cur, fuel);
            && r.Success?
            && (number == 0 ==> r.value == cur)
            && (number > 0 ==> AtKid(kids, k + (|f[blocks[i]].items| - o), r.value))
    decreases |f[blocks[i]].items| - o
  {
    hide TargetItem, HealthyLevel, Supported;
    if o < |f[blocks[i]].items| {
      assert number > 0 ==> kids[k + (o - o)] == f[blocks[i]].items[o].link;
      HealthyTargetItem(c, f, blocks, kids, number, i, lowkey, o, k, cur, fuel);
      var cur' := TargetItem(c, f, f[blocks[i]], lowkey, o, cur, fuel).value;
      forall j | number > 0 && o + 1 <= j < |f[blocks[i]].items|
        ensures kids[k + 1 + (j - (o + 1))] == f[blocks[i]].items[j].link
      {
        assert kids[k + (j - o)] == f[blocks[i]].items[j].link;
      }
      HealthyTargetItems(c, f, blocks, kids, number, i, lowkey, o + 1, k + 1, cur', fuel);
    }
  }

  // ---------------------------------------------------------------- a level passes

  /** The downlinks from the i-th page on are the children from the k-th one on. */
  predicate InStep(f: File, blocks: seq<BlockNumber>, kids: seq<BlockNumber>, i: nat, k: nat)
    requires i <= |blocks| && forall j :: 0 <= j < |blocks| ==> blocks[j] < |f|
  {
    k <= |kids| && kids[k..] == Downlinks(f, blocks[i..])
  }

  lemma InStepOnPage(f: File, blocks: seq<BlockNumber>, kids: seq<BlockNumber>, i: nat, k: nat)
    requires i < |blocks| && forall j :: 0 <= j < |blocks| ==> blocks[j] < |f|
    requires InStep(f, blocks, kids, i, k) && !f[blocks[i]].halfDead && FirstData(f[blocks[i]]) <= |f[blocks[i]].items|
    ensures var p := f[blocks[i]]; var n := |p.items| - FirstData(p);
            && k + n <= |kids| && InStep(f, blocks, kids, i + 1, k + n)
            && forall j :: FirstData(p) <= j < |p.items| ==> kids[k + (j - FirstData(p))] == p.items[j].link
  {
    var p := f[blocks[i]];
    var n := |p.items| - FirstData(p);
    assert blocks[i..][0] == blocks[i] && blocks[i..][1..] == blocks[i + 1..];
    var links := PageLinks(p);
    assert kids[k..] == links + Downlinks(f, blocks[i + 1..]);
    assert kids[k + n..] == kids[k..][n..];
    forall j | FirstData(p) <= j < |p.items| ensures kids[k + (j - FirstData(p))] == p.items[j].link {
      assert kids[k..][j - FirstData(p)] == links[j - FirstData(p)];
    }
  }

  /** The level below, or none. */
  function NextOf(kids: seq<BlockNumber>, number: nat): Level {
    if number == 0 then Level(P_NONE, -1, false) else Level(At(kids, 0), number - 1, false)
  }

  /** The state of the level walk before its i-th page. */
  ghost predicate WalkAt(f: File, blocks: seq<BlockNumber>, kids: seq<BlockNumber>, number: nat, i: nat, k: nat,
        w: Walk)
    requires i <= |blocks| && forall j :: 0 <= j < |blocks| ==> blocks[j] < |f|
  {
    && w.current == At(blocks, i)
    && w.left == (if i == 0 then P_NONE else blocks[i - 1])
    && w.nextdown == (if i == 0 then NO_LEVEL
                      else NextOf(kids, number))
    && (if number == 0 then w.cur == FRESH else InStep(f, blocks, kids, i, k))
    && (number > 0 && w.current != P_NONE ==> AtKid(kids, k, w.cur))
    && (number > 0 && i == 0 ==> k == 0)
  }

  lemma HealthyTarget(c: Config, f: File, blocks: seq<BlockNumber>, kids: seq<BlockNumber>, number: nat, i: nat,
        lowkey: Option<Tuple>, k: nat, cur: Cursor, fuel: nat)
    requires HealthyLevel(c, f, blocks, number) && Supported(c, f, blocks, kids, number) && i < |blocks| && fuel > 0
    requires forall j :: 0 <= j < |blocks| ==> blocks[j] < |f|
    requires if number == 0 then cur == FRESH else InStep(f, blocks, kids, i, k) && AtKid(kids, k, cur)
    ensures !Rightmost(f[blocks[i]]) ==> 0 < |f[blocks[i]].items|
    ensures var p := f[blocks[i]];
            var r := TargetPageCheck(c, f, p, lowkey, cur, fuel);
            && r.Success?
            && (number == 0 ==> r.value == FRESH)
            && (number > 0 ==>
                  && FirstData(p) < |p.items| && InStep(f, blocks, kids, i + 1, k + (|p.items| - FirstData(p)))
                  && (i + 1 < |blocks| ==> AtKid(kids, k + (|p.items| - FirstData(p)), r.value)))
  {
    hide TargetItems, InStep, HealthyPair, Sorted, LiveReals, Bounds;
    var p := f[blocks[i]];
    RightOf(c, f, blocks, number, i);
    HealthyCounts(c, p, number);
    LeafByNumber(c, p, number);
    if number > 0 {
      InStepOnPage(f, blocks, kids, i, k);
    }
    HealthyTargetItems(c, f, blocks, kids, number, i, lowkey, FirstData(p), k, cur, fuel);
    if number > 0 && Rightmost(p) {
      AllLinksUsed(f, blocks, kids, k + (|p.items| - FirstData(p)));
    }
  }

  lemma AllLinksUsed(f: File, blocks: seq<BlockNumber>, kids: seq<BlockNumber>, k: nat)
    requires forall j :: 0 <= j < |blocks| ==> blocks[j] < |f|
    requires InStep(f, blocks, kids, |blocks|, k)
    ensures At(kids, k) == P_NONE
  {
    assert blocks[|blocks|..] == [];
  }

  lemma HealthyStart(c: Config, f: File, blocks: seq<BlockNumber>, kids: seq<BlockNumber>, number: nat, level: Level)
    requires HealthyLevel(c, f, blocks, number) && Supported(c, f, blocks, kids, number)
    requires level.level == number && blocks[0] < |f| && (level.istrueroot ==> f[blocks[0]].root)
    ensures FirstPageCheck(f, level, blocks[0]) == Pass
    ensures NextLevelDown(f[blocks[0]]) == Success(NextOf(kids, number))
  {
    hide Sorted, LiveReals, Bounds, HealthyLink, HealthyPage, Chain, LeftmostIgnoringHalfDead, HealthyPair;
    assert HealthyPage(c, f[blocks[0]], number);
    LeafByNumber(c, f[blocks[0]], number);
    HealthyIsWhole(c, f[blocks[0]], number);
    StartIsBlock(c, f, blocks, number);
    IsLeftmost(f, blocks[0]);
    if number > 0 {
      HealthyPairStart(c, f, blocks, kids, number);
    }
  }

  lemma IsLeftmost(f: File, b: BlockNumber)
    requires 0 < b < |f| && FirstOfLevel(f, b)
    ensures LeftmostIgnoringHalfDead(f, b) == Success(true) && f[b].prev != b
  {
    LeftmostExactly(f, b);
    var chain :| LeadsToNone(f, b, chain);
    if |chain| > 1 {
      assert chain[0 + 1] == f[chain[0]].prev;
    }
  }

  lemma HealthyPairStart(c: Config, f: File, blocks: seq<BlockNumber>, kids: seq<BlockNumber>, number: nat)
    requires HealthyLevel(c, f, blocks, number) && HealthyPair(c, f, blocks, kids) && number > 0
    ensures var p := f[blocks[0]]; FirstData(p) < |p.items| && At(kids, 0) == p.items[FirstData(p)].link
  {
    hide Sorted, LiveReals, Bounds, HealthyLink;
    var p := f[blocks[0]];
    assert HealthyPage(c, p, number);
    assert PageLinks(p)[0] == p.items[FirstData(p)].link;
  }

  /** One iteration of the level walk. */
  lemma HealthyVisit(c: Config, f: File, level: Level, blocks: seq<BlockNumber>, kids: seq<BlockNumber>, number: nat,
        i: nat, k: nat, w: Walk, fuel: nat)
    returns (k': nat)
    requires HealthyLevel(c, f, blocks, number) && Supported(c, f, blocks, kids, number) && i < |blocks| && fuel > 0
    requires forall j :: 0 <= j < |blocks| ==> blocks[j] < |f|
    requires level.level == number && (level.istrueroot ==> f[blocks[0]].root)
    requires WalkAt(f, blocks, kids, number, i, k, w)
    ensures w.current != P_NONE && VisitPage(c, f, level, w, fuel).Success?
    ensures WalkAt(f, blocks, kids, number, i + 1, k', VisitPage(c, f, level, w, fuel).value)
  {
    hide TargetPageCheck, InStep, Supported, FirstPageCheck, NextLevelDown, Sorted, LiveReals, Bounds, HealthyPage,
         AtKid;
    var p := f[blocks[i]];
    RightOf(c, f, blocks, number, i);
    HealthyCounts(c, p, number);
    HealthyIsWhole(c, p, number);
    ChainFitsFile(f, blocks[0], blocks);
    HealthyTarget(c, f, blocks, kids, number, i, w.lowkey, k, w.cur, fuel);
    k' := if number == 0 then k else k + (|p.items| - FirstData(p));
    if i == 0 {
      HealthyStart(c, f, blocks, kids, number, level);
      IsLeftmost(f, blocks[0]);
    } else {
      NextIsKnown(c, f, blocks, kids, number);
      assert blocks[i - 1] != blocks[i];
    }
  }

  lemma NextIsKnown(c: Config, f: File, blocks: seq<BlockNumber>, kids: seq<BlockNumber>, number: nat)
    requires Supported(c, f, blocks, kids, number)
    ensures NextOf(kids, number).leftmost != INVALID_BLOCK
    ensures number > 0 ==> NextOf(kids, number).leftmost == kids[0] != P_NONE
  {
    hide Sorted, LiveReals, Bounds, HealthyLink, HealthyPage;
    if number > 0 {
      RightOf(c, f, kids, number - 1, 0);
    }
  }

  lemma {:induction false} HealthyWalk(c: Config, f: File, level: Level, blocks: seq<BlockNumber>,
        kids: seq<BlockNumber>, number: nat, i: nat, k: nat, w: Walk, fuel: nat, n: nat)
    requires HealthyLevel(c, f, blocks, number) && Supported(c, f, blocks, kids, number) && i < |blocks| && fuel > 0
    requires forall j :: 0 <= j < |blocks| ==> blocks[j] < |f|
    requires level.level == number && (level.istrueroot ==> f[blocks[0]].root)
    requires WalkAt(f, blocks, kids, number, i, k, w) && n >= |blocks| - i
    ensures w.current != P_NONE && LevelWalk(c, f, level, w, fuel, n) == Success(NextOf(kids, number))
    decreases |blocks| - i
  {
    hide VisitPage, HealthyLevel, Supported, InStep, AtKid;
    var k' := HealthyVisit(c, f, level, blocks, kids, number, i, k, w, fuel);
    var w' := VisitPage(c, f, level, w, fuel).value;
    if i + 1 < |blocks| {
      RightOf(c, f, blocks, number, i + 1);
      HealthyWalk(c, f, level, blocks, kids, number, i + 1, k', w', fuel, n - 1);
    }
  }

  /** Every check of a healthy level passes, and hands on the level below. */
  lemma HealthyLevelPasses(c: Config, f: File, level: Level, blocks: seq<BlockNumber>, kids: seq<BlockNumber>,
        number: nat, fuel: nat)
    requires HealthyLevel(c, f, blocks, number) && Supported(c, f, blocks, kids, number) && fuel >= |f|
    requires level.leftmost == blocks[0] && level.level == number
    requires level.istrueroot ==> blocks[0] < |f| && f[blocks[0]].root
    ensures level.leftmost != P_NONE && CheckLevel(c, f, level, fuel) == Success(NextOf(kids, number))
  {
    hide HealthyPage, Sorted, LiveReals, Bounds, LevelWalk, HealthyLink, Downlinks, Chain;
    AllLive(c, f, blocks, number);
    ChainFitsFile(f, blocks[0], blocks);
    assert kids[0..] == kids && blocks[0..] == blocks;
    HealthyWalk(c, f, level, blocks, kids, number, 0, 0, StartOf(level), fuel, fuel);
  }

  // ---------------------------------------------------------------- a whole index passes

  lemma {:induction false} HealthyLevelsPass(c: Config, f: File, levels: seq<seq<BlockNumber>>, k: nat, level: Level,
        fuel: nat)
    requires Healthy(c, f, levels) && k < |levels| && fuel >= |f|
    requires level.leftmost == levels[k][0] && level.level == |levels| - 1 - k && (level.istrueroot ==> k == 0)
    ensures CheckEveryLevel(c, f, level, fuel) == Pass
    decreases |levels| - k
  {
    hide HealthyLevel, HealthyPair, CheckLevel;
    var number := |levels| - 1 - k;
    var kids := if number == 0 then [] else levels[k + 1];
    assert HealthyLevel(c, f, levels[k], number);
    if number > 0 {
      assert HealthyPair(c, f, levels[(k + 1) - 1], levels[k + 1]);
      assert HealthyLevel(c, f, levels[k + 1], |levels| - 1 - (k + 1));
    }
    StartIsBlock(c, f, levels[k], number);
    HealthyLevelPasses(c, f, level, levels[k], kids, number, fuel);
    if number > 0 {
      NextIsKnown(c, f, levels[k], kids, number);
      HealthyLevelsPass(c, f, levels, k + 1, NextOf(kids, number), fuel);
    }
  }

  lemma StartIsBlock(c: Config, f: File, blocks: seq<BlockNumber>, number: nat)
    requires HealthyLevel(c, f, blocks, number)
    ensures blocks != [] && 0 < blocks[0] < |f|
  {
    hide HealthyPage, Sorted, LiveReals, Bounds;
  }

  /** The main result on false alarms: a healthy index passes every check, in as many iterations as
      the file has blocks. */
  lemma HealthyIndexPasses(c: Config, f: File, levels: seq<seq<BlockNumber>>, fuel: nat)
    requires Healthy(c, f, levels) && fuel >= |f|
    ensures CheckEveryLevel(c, f, Level(levels[0][0], |levels| - 1, true), fuel) == Pass
  {
    hide HealthyLevel, HealthyPair;
    HealthyLevelsPass(c, f, levels, 0, Level(levels[0][0], |levels| - 1, true), fuel);
  }

  // ---------------------------------------------------------------- an example

  /** Two levels, in which the left leaf ends with a row that is also its high key. */
  const SOUND: File := [BLANK.(meta := true),
                        BLANK.(leaf := false, root := true, level := 1,
                                    items := [Tuple([], 2), Tuple([5, 3], 3)]),
                        BLANK.(next := 3, items := [Tuple([5, 3], 0), Tuple([5, 1], 0), Tuple([5, 3], 0)]),
                        BLANK.(prev := 2, items := [Tuple([5, 4], 0)])]

  lemma SoundReals()
    ensures Reals(SOUND[1]) == [[5, 3]] && Reals(SOUND[2]) == [[5, 1], [5, 3]] && Reals(SOUND[3]) == [[5, 4]]
    ensures PageLinks(SOUND[1]) == [2, 3]
  {
  }

  lemma SoundUpper()
    ensures HealthyLevel(Config(1, true), SOUND, [1], 1)
  {
    hide Reals, Less;
    SoundReals();
    assert LeadsToNone(SOUND, 1, [1]);
    var upper: seq<BlockNumber> := [1];
    assert upper[1..] == [];
    assert LiveReals(SOUND, upper) == [[5, 3]] + [];
  }

  lemma SoundLower()
    ensures HealthyLevel(Config(1, true), SOUND, [2, 3], 0)
  {
    hide Reals, LiveReals;
    SoundLeaves();
    SoundOrder();
    assert LeadsToNone(SOUND, 2, [2]);
    assert SOUND[2].items[1].key == [5, 1] && SOUND[2].items[2].key == [5, 3];
  }

  lemma SoundLeaves()
    ensures LiveReals(SOUND, [2, 3]) == [[5, 1], [5, 3], [5, 4]]
  {
    hide Reals;
    SoundReals();
    assert [2, 3][1..] == [3] && [3][1..] == [];
    assert LiveReals(SOUND, [3]) == [[5, 4]] + [];
    assert LiveReals(SOUND, [2, 3]) == [[5, 1], [5, 3]] + LiveReals(SOUND, [3]);
  }

  lemma SoundOrder()
    ensures Less([5, 1], [5, 3]) && Less([5, 3], [5, 4]) && Less([5, 1], [5, 4])
  {
    assert [5, 1][1..] == [1] && [5, 3][1..] == [3] && [5, 4][1..] == [4];
  }

  lemma SoundPair()
    ensures HealthyPair(Config(1, true), SOUND, [1], [2, 3])
  {
    hide PageLinks;
    SoundReals();
    SoundOrder();
    assert [1][1..] == [];
    assert Downlinks(SOUND, [1]) == [2, 3] + [];
  }

  lemma SoundIsHealthy()
    ensures Healthy(Config(1, true), SOUND, [[1], [2, 3]])
  {
    hide HealthyLevel, HealthyPair;
    SoundUpper();
    SoundLower();
    SoundPair();
  }
}
