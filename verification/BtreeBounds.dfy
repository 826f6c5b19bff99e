/** Keys and pivots: what the checks of single pages say about the items beneath a downlink, at any
    depth, along every path of pages that were looked at. */
module BtreeBounds {
  import opened Outcomes
  import opened BtreeKey
  import opened BtreePage
  import opened BtreeCheck
  import opened BtreeLevel
  import opened BtreeParent
  import opened BtreeTree

  /** Every real item of the page comes after the pivot. */
  ghost predicate Above(c: Config, pivot: Key, p: Page) {
    forall i :: FirstReal(p) <= i < |p.items| ==> Before(c, pivot, p.items[i].key)
  }

  /** Every real item of the page is bounded by the key, if there is one. */
  ghost predicate Within(c: Config, p: Page, upper: Option<Key>) {
    upper.Some? ==> forall i :: FirstReal(p) <= i < |p.items| ==> Bounds(c, p.leaf, p.items[i].key, upper.value)
  }

  // ---------------------------------------------------------------- one downlink

  /** Every real item of a child comes after the pivot of its downlink. */
  lemma {:induction false} LowerBoundHolds(c: Config, f: File, pivot: Key, child: Page, off: nat, fuel: nat, o: nat)
    requires !Rightmost(child) ==> 0 < |child.items|
    requires ItemsPassed(c, f, child, fuel)
    requires |pivot| <= c.nkeyatts + 1 && (!c.heapkeyspace ==> |pivot| == c.nkeyatts)
    requires LowerBoundFrom(c, MakeScanKey(c, pivot), child, off) == Pass
    requires FirstReal(child) <= o < |child.items| && off <= o
    ensures Before(c, pivot, child.items[o].key)
    decreases o - off
  {
    PassedNatts(c, f, child, fuel, o);
    if off == o {
      InvariantLMeaning(c, pivot, child.items[o].key);
    } else {
      LowerBoundHolds(c, f, pivot, child, off + 1, fuel, o);
    }
  }

  lemma BoundsTransitive(c: Config, leaf: bool, k: Key, u: Key, v: Key)
    requires Bounds(c, leaf, k, u) && (u == v || Before(c, u, v))
    ensures Bounds(c, leaf, k, v)
  {
    if Less(k, u) && Less(u, v) {
      LessTransitive(k, u, v);
    }
  }

  lemma ChildAbove(c: Config, f: File, p: Page, o: nat, fuel: nat)
    requires ItemsPassed(c, f, p, fuel) && !p.leaf && FirstData(p) < o < |p.items| && LinkFits(c, f, p, o)
    requires ItemsPassed(c, f, f[p.items[o].link], fuel)
    ensures Above(c, p.items[o].key, f[p.items[o].link])
  {
    hide Before, LowerBoundFrom, HighKeyMatches;
    var ch := f[p.items[o].link];
    PassedNatts(c, f, p, fuel, o);
    forall i | FirstReal(ch) <= i < |ch.items| ensures Before(c, p.items[o].key, ch.items[i].key) {
      LowerBoundHolds(c, f, p.items[o].key, ch, FirstData(ch), fuel, i);
    }
  }

  /** The child's high key was not compared with the parent: its split is flagged as incomplete, or
      it is the rightmost page of its level and has none. */
  predicate Loose(child: Page) {
    child.incompleteSplit || Rightmost(child)
  }

  lemma ChildWithin(c: Config, f: File, p: Page, o: nat, fuel: nat)
    requires o < |p.items| && LinkFits(c, f, p, o) && !Loose(f[p.items[o].link])
    requires ItemsPassed(c, f, f[p.items[o].link], fuel)
    ensures Within(c, f[p.items[o].link], UpperBound(p, o))
  {
    hide LowerBoundFrom, Bounds;
    var ch := f[p.items[o].link];
    forall i | FirstReal(ch) <= i < |ch.items|
      ensures Bounds(c, ch.leaf, ch.items[i].key, UpperBound(p, o).value)
    {
      HighKeyBounds(c, f, ch, fuel, i);
    }
  }

  /** The last item decides about all. */
  lemma LastDecides(c: Config, f: File, p: Page, fuel: nat, upper: Key)
    requires ItemsPassed(c, f, p, fuel) && FirstReal(p) < |p.items|
    requires Bounds(c, p.leaf, p.items[|p.items| - 1].key, upper)
    ensures Within(c, p, Some(upper))
  {
    hide ItemsPassed, Before;
    var ks := Reals(p);
    PageInOrder(c, f, p, fuel);
    forall i | FirstReal(p) <= i < |p.items| ensures Bounds(c, p.leaf, p.items[i].key, upper) {
      if i < |p.items| - 1 {
        AdjacentIsSorted(c, ks, i - FirstReal(p), |ks| - 1);
        EarlierWithin(c, p.leaf, p.items[i].key, p.items[|p.items| - 1].key, upper);
      }
    }
  }

  lemma EarlierWithin(c: Config, leaf: bool, k: Key, last: Key, upper: Key)
    requires Before(c, k, last) && Bounds(c, leaf, last, upper)
    ensures Bounds(c, leaf, k, upper)
  {
    if Less(k, last) && Less(last, upper) {
      LessTransitive(k, last, upper);
    }
  }

  /** The page passed all the checks that look at it as the target, on whatever level. */
  ghost predicate Seen(c: Config, f: File, fuel: nat, b: BlockNumber) {
    exists level: Level :: Accepted(c, f, level, fuel, b)
  }

  lemma SeenPage(c: Config, f: File, fuel: nat, b: BlockNumber)
    requires Seen(c, f, fuel, b)
    ensures b < |f| && ItemsPassed(c, f, f[b], fuel) && (!f[b].leaf ==> LinksFit(c, f, f[b]))
  {
    hide ItemsPassed, LinksFit, TargetPageCheck;
    var level: Level :| Accepted(c, f, level, fuel, b);
    AcceptedItemsPass(c, f, level, fuel, b);
    if !f[b].leaf {
      AcceptedFits(c, f, level, fuel, b);
    }
  }

  /** Two pages that were looked at, one beneath the other: the real items of the child come after
      the pivot of its downlink. They are bounded by the next pivot, or by the high key of the
      parent, if and only if the child's high key was compared, or it is empty, or its last item
      is bounded. */
  lemma ChildBetweenPivots(c: Config, f: File, fuel: nat, b: BlockNumber, o: nat)
    requires Seen(c, f, fuel, b) && b < |f| && !f[b].leaf && FirstData(f[b]) <= o < |f[b].items|
    requires f[b].items[o].link != P_NONE && Seen(c, f, fuel, f[b].items[o].link)
    ensures f[b].items[o].link < |f|
    ensures var ch := f[f[b].items[o].link]; var u := UpperBound(f[b], o);
            && (FirstData(f[b]) < o ==> Above(c, f[b].items[o].key, ch))
            && (u.Some? ==>
                  (Within(c, ch, u) <==>
                     || !Loose(ch) || |ch.items| <= FirstReal(ch)
                     || Bounds(c, ch.leaf, ch.items[|ch.items| - 1].key, u.value)))
  {
    hide Bounds, Above, ItemsPassed, UpperBound, Loose, LinkFits, Seen;
    SeenPage(c, f, fuel, b);
    SeenPage(c, f, fuel, f[b].items[o].link);
    var ch, u := f[f[b].items[o].link], UpperBound(f[b], o);
    assert LinkFits(c, f, f[b], o);
    if FirstData(f[b]) < o {
      ChildAbove(c, f, f[b], o, fuel);
    }
    if !Loose(ch) {
      ChildWithin(c, f, f[b], o, fuel);
    } else if u.Some? && FirstReal(ch) < |ch.items| && Bounds(c, ch.leaf, ch.items[|ch.items| - 1].key, u.value) {
      LastDecides(c, f, ch, fuel, u.value);
    }
  }

  // ---------------------------------------------------------------- paths

  /** The page `q` is reached from `b` by following the downlinks at the given offsets, of which
      none is null. */
  ghost predicate Leads(f: File, b: BlockNumber, offs: seq<nat>, q: BlockNumber)
    decreases |offs|
  {
    b < |f| &&
    if offs == [] then b == q
    else
      && !f[b].leaf
      && FirstData(f[b]) <= offs[0] < |f[b].items|
      && f[b].items[offs[0]].link != P_NONE
      && Leads(f, f[b].items[offs[0]].link, offs[1..], q)
  }

  /** All pages of the path were looked at. */
  ghost predicate PathSeen(c: Config, f: File, fuel: nat, b: BlockNumber, offs: seq<nat>)
    decreases |offs|
  {
    && Seen(c, f, fuel, b)
    && (offs != [] ==>
          b < |f| && offs[0] < |f[b].items| && PathSeen(c, f, fuel, f[b].items[offs[0]].link, offs[1..]))
  }

  lemma {:induction false} LeadsInside(f: File, b: BlockNumber, offs: seq<nat>, q: BlockNumber)
    requires Leads(f, b, offs, q)
    ensures q < |f|
    decreases |offs|
  {
    if offs != [] {
      LeadsInside(f, f[b].items[offs[0]].link, offs[1..], q);
    }
  }

  /** What the first step of such a path says. */
  lemma StepSeen(c: Config, f: File, fuel: nat, b: BlockNumber, offs: seq<nat>, q: BlockNumber)
    requires Leads(f, b, offs, q) && PathSeen(c, f, fuel, b, offs) && offs != []
    ensures var child := f[b].items[offs[0]].link;
            && child < |f|
            && ItemsPassed(c, f, f[b], fuel) && LinkFits(c, f, f[b], offs[0]) && ItemsPassed(c, f, f[child], fuel)
  {
    hide ItemsPassed, LinkFits, Seen;
    SeenPage(c, f, fuel, b);
    SeenPage(c, f, fuel, f[b].items[offs[0]].link);
  }

  /** Every downlink on the path bounds the page at its end from above. */
  ghost predicate AllWithin(c: Config, f: File, b: BlockNumber, offs: seq<nat>, q: BlockNumber)
    requires Leads(f, b, offs, q) && q < |f|
    decreases |offs|
  {
    offs != [] ==>
      && Within(c, f[q], UpperBound(f[b], offs[0]))
      && AllWithin(c, f, f[b].items[offs[0]].link, offs[1..], q)
  }

  /** So does every downlink whose child's high key was not compared. */
  ghost predicate LooseWithin(c: Config, f: File, b: BlockNumber, offs: seq<nat>, q: BlockNumber)
    requires Leads(f, b, offs, q) && q < |f|
    decreases |offs|
  {
    offs != [] ==>
      var child := f[b].items[offs[0]].link;
      assert Leads(f, child, offs[1..], q);
      && (Loose(f[child]) ==> Within(c, f[q], UpperBound(f[b], offs[0])))
      && LooseWithin(c, f, child, offs[1..], q)
  }

  /** There is no such downlink, except for those that nothing bounds. */
  predicate PathTight(f: File, b: BlockNumber, offs: seq<nat>)
    decreases |offs|
  {
    offs != [] ==>
      && b < |f| && offs[0] < |f[b].items|
      && var child := f[b].items[offs[0]].link;
         && child < |f| && (Loose(f[child]) ==> UpperBound(f[b], offs[0]) == None)
         && PathTight(f, child, offs[1..])
  }

  /** A bound inside the child is below the bound of the child. */
  lemma LiftBound(c: Config, f: File, p: Page, o: nat, fuel: nat, o': nat)
    requires o < |p.items| && LinkFits(c, f, p, o) && UpperBound(p, o).Some?
    requires var ch := f[p.items[o].link];
             && !ch.leaf && !Loose(ch) && FirstData(ch) <= o' < |ch.items|
             && ItemsPassed(c, f, ch, fuel)
    ensures var u := UpperBound(f[p.items[o].link], o');
            u.Some? && (u.value == UpperBound(p, o).value || Before(c, u.value, UpperBound(p, o).value))
  {
    var ch := f[p.items[o].link];
    ChildWithin(c, f, p, o, fuel);
    hide LowerBoundFrom, ItemsPassed;
    if o' + 1 < |ch.items| {
      assert FirstReal(ch) <= o' + 1;
    }
  }

  /** One step up the path. */
  lemma WithinLifts(c: Config, f: File, p: Page, o: nat, fuel: nat, o': nat, q: Page)
    requires o < |p.items| && LinkFits(c, f, p, o)
    requires var ch := f[p.items[o].link];
             && !ch.leaf && !Loose(ch) && FirstData(ch) <= o' < |ch.items|
             && ItemsPassed(c, f, ch, fuel)
             && Within(c, q, UpperBound(ch, o'))
    ensures Within(c, q, UpperBound(p, o))
  {
    hide Bounds, ItemsPassed, UpperBound, FirstReal, Loose, HighKeyMatches, LowerBoundFrom;
    if UpperBound(p, o).Some? {
      LiftBound(c, f, p, o, fuel, o');
      var u, v := UpperBound(f[p.items[o].link], o').value, UpperBound(p, o).value;
      forall i | FirstReal(q) <= i < |q.items| ensures Bounds(c, q.leaf, q.items[i].key, v) {
        BoundsTransitive(c, q.leaf, q.items[i].key, u, v);
      }
    }
  }

  /** The main result on keys, from above. Along a path of pages that were looked at, the real
      items of the page at its end are bounded by every downlink (by the next pivot, or by the
      high key of the page that holds the downlink) if and only if they are by those whose child
      is flagged as having an incomplete split or is the rightmost page of its level. */
  lemma {:induction false} UpperBoundsExactly(c: Config, f: File, fuel: nat, b: BlockNumber, offs: seq<nat>,
        q: BlockNumber)
    requires Leads(f, b, offs, q) && PathSeen(c, f, fuel, b, offs)
    ensures q < |f|
    ensures AllWithin(c, f, b, offs, q) <==> LooseWithin(c, f, b, offs, q)
    decreases |offs|
  {
    hide Within, UpperBound, ItemsPassed, LinkFits, Seen, Loose;
    LeadsInside(f, b, offs, q);
    if offs != [] {
      StepSeen(c, f, fuel, b, offs, q);
      var child, rest := f[b].items[offs[0]].link, offs[1..];
      UpperBoundsExactly(c, f, fuel, child, rest, q);
      if !Loose(f[child]) && AllWithin(c, f, child, rest, q) {
        if rest == [] {
          ChildWithin(c, f, f[b], offs[0], fuel);
        } else {
          WithinLifts(c, f, f[b], offs[0], fuel, rest[0], f[q]);
        }
      }
    }
  }

  lemma {:induction false} TightIsNotLoose(c: Config, f: File, b: BlockNumber, offs: seq<nat>, q: BlockNumber)
    requires Leads(f, b, offs, q) && q < |f| && PathTight(f, b, offs)
    ensures LooseWithin(c, f, b, offs, q)
    decreases |offs|
  {
    hide Loose;
    if offs != [] {
      TightIsNotLoose(c, f, f[b].items[offs[0]].link, offs[1..], q);
    }
  }

  /** In particular, if no page on the way is of that kind. */
  lemma UnderUpperBound(c: Config, f: File, fuel: nat, b: BlockNumber, offs: seq<nat>, q: BlockNumber)
    requires Leads(f, b, offs, q) && PathSeen(c, f, fuel, b, offs) && PathTight(f, b, offs) && offs != []
    ensures q < |f| && Within(c, f[q], UpperBound(f[b], offs[0]))
  {
    hide Within, UpperBound, PathSeen;
    UpperBoundsExactly(c, f, fuel, b, offs, q);
    TightIsNotLoose(c, f, b, offs, q);
  }

  // ---------------------------------------------------------------- the same from below

  /** Every pivot on the path bounds the page at its end from below. The first downlink of a
      page has no pivot. */
  ghost predicate AllAbove(c: Config, f: File, b: BlockNumber, offs: seq<nat>, q: BlockNumber)
    requires Leads(f, b, offs, q) && q < |f|
    decreases |offs|
  {
    offs != [] ==>
      && (FirstData(f[b]) < offs[0] ==> Above(c, f[b].items[offs[0]].key, f[q]))
      && AllAbove(c, f, f[b].items[offs[0]].link, offs[1..], q)
  }

  /** The path goes on with the first downlink of the page. */
  predicate FirstNext(p: Page, offs: seq<nat>) {
    offs != [] && offs[0] == FirstData(p)
  }

  /** So does every pivot after which the path goes on with a first downlink. */
  ghost predicate TurningAbove(c: Config, f: File, b: BlockNumber, offs: seq<nat>, q: BlockNumber)
    requires Leads(f, b, offs, q) && q < |f|
    decreases |offs|
  {
    offs != [] ==>
      var child, rest := f[b].items[offs[0]].link, offs[1..];
      assert Leads(f, child, rest, q);
      && (FirstData(f[b]) < offs[0] && FirstNext(f[child], rest) ==> Above(c, f[b].items[offs[0]].key, f[q]))
      && TurningAbove(c, f, child, rest, q)
  }

  /** No downlink of the path is the first one on its page. */
  predicate PastFirst(f: File, b: BlockNumber, offs: seq<nat>)
    decreases |offs|
  {
    offs != [] ==>
      && b < |f| && FirstData(f[b]) < offs[0] < |f[b].items|
      && PastFirst(f, f[b].items[offs[0]].link, offs[1..])
  }

  /** One step up the path: the next pivot is a real item of the child. */
  lemma AboveLifts(c: Config, f: File, p: Page, o: nat, fuel: nat, o': nat, q: Page)
    requires ItemsPassed(c, f, p, fuel) && !p.leaf && FirstData(p) < o < |p.items| && LinkFits(c, f, p, o)
    requires var ch := f[p.items[o].link];
             && !ch.leaf && FirstData(ch) < o' < |ch.items|
             && ItemsPassed(c, f, ch, fuel)
             && Above(c, ch.items[o'].key, q)
    ensures Above(c, p.items[o].key, q)
  {
    hide ItemsPassed, Before, HighKeyMatches, LowerBoundFrom;
    ChildAbove(c, f, p, o, fuel);
    var ch := f[p.items[o].link];
    forall i | FirstReal(q) <= i < |q.items| ensures Before(c, p.items[o].key, q.items[i].key) {
      BeforeTransitive(c, p.items[o].key, ch.items[o'].key, q.items[i].key);
    }
  }

  /** The main result on keys, from below. Along a path of pages that were looked at, the real
      items of the page at its end come after every pivot if and only if they come after those
      pivots at which the way goes on with the first downlink of the child. Splits do not
      matter. */
  lemma {:induction false} LowerBoundsExactly(c: Config, f: File, fuel: nat, b: BlockNumber, offs: seq<nat>,
        q: BlockNumber)
    requires Leads(f, b, offs, q) && PathSeen(c, f, fuel, b, offs)
    ensures q < |f|
    ensures AllAbove(c, f, b, offs, q) <==> TurningAbove(c, f, b, offs, q)
    decreases |offs|
  {
    hide Above, ItemsPassed, LinkFits, Seen;
    LeadsInside(f, b, offs, q);
    if offs != [] {
      StepSeen(c, f, fuel, b, offs, q);
      var child, rest := f[b].items[offs[0]].link, offs[1..];
      LowerBoundsExactly(c, f, fuel, child, rest, q);
      if FirstData(f[b]) < offs[0] && !FirstNext(f[child], rest) && AllAbove(c, f, child, rest, q) {
        if rest == [] {
          ChildAbove(c, f, f[b], offs[0], fuel);
        } else {
          AboveLifts(c, f, f[b], offs[0], fuel, rest[0], f[q]);
        }
      }
    }
  }

  lemma {:induction false} PastFirstDoesNotTurn(c: Config, f: File, b: BlockNumber, offs: seq<nat>, q: BlockNumber)
    requires Leads(f, b, offs, q) && q < |f| && PastFirst(f, b, offs)
    ensures TurningAbove(c, f, b, offs, q)
    decreases |offs|
  {
    if offs != [] {
      PastFirstDoesNotTurn(c, f, f[b].items[offs[0]].link, offs[1..], q);
    }
  }

  /** In particular, along every path that takes no page's first downlink. */
  lemma AboveLowerBound(c: Config, f: File, fuel: nat, b: BlockNumber, offs: seq<nat>, q: BlockNumber)
    requires Leads(f, b, offs, q) && PathSeen(c, f, fuel, b, offs) && PastFirst(f, b, offs) && offs != []
    ensures q < |f| && Above(c, f[b].items[offs[0]].key, f[q])
  {
    hide Above, PathSeen;
    LowerBoundsExactly(c, f, fuel, b, offs, q);
    PastFirstDoesNotTurn(c, f, b, offs, q);
  }

  // ---------------------------------------------------------------- pages under one page

  /** The upper bound of a downlink is at most the pivot of every later one. */
  lemma UpperBeforeLater(c: Config, f: File, p: Page, fuel: nat, o: nat, o': nat)
    requires ItemsPassed(c, f, p, fuel) && !p.leaf && FirstData(p) <= o < o' < |p.items|
    ensures var u := UpperBound(p, o);
            u.Some? && (u.value == p.items[o'].key || Before(c, u.value, p.items[o'].key))
  {
    hide ItemsPassed, Before;
    PageInOrder(c, f, p, fuel);
    if o + 1 < o' {
      AdjacentIsSorted(c, Reals(p), o + 1 - FirstReal(p), o' - FirstReal(p));
    }
  }

  lemma BoundedBefore(c: Config, leaf: bool, k: Key, u: Key, pivot: Key, k': Key)
    requires Bounds(c, leaf, k, u) && (u == pivot || Before(c, u, pivot)) && Before(c, pivot, k')
    ensures Before(c, k, k')
  {
    hide Less;
    BoundsTransitive(c, leaf, k, u, pivot);
    if Less(k, pivot) && Less(pivot, k') {
      LessTransitive(k, pivot, k');
    }
  }

  /** So the level above orders the items of pages beneath two downlinks of one page, empty pages
      between them or not, if the high keys of all pages on the way to the left one were compared
      and the way to the right one meets no first downlink. */
  lemma SubtreesInOrder(c: Config, f: File, fuel: nat, b: BlockNumber, offs: seq<nat>, q: BlockNumber,
        offs': seq<nat>, q': BlockNumber, i: nat, j: nat)
    requires offs != [] && Leads(f, b, offs, q) && PathSeen(c, f, fuel, b, offs) && PathTight(f, b, offs)
    requires offs' != [] && Leads(f, b, offs', q') && PathSeen(c, f, fuel, b, offs') && PastFirst(f, b, offs')
    requires offs[0] < offs'[0]
    requires q < |f| && FirstReal(f[q]) <= i < |f[q].items|
    requires q' < |f| && FirstReal(f[q']) <= j < |f[q'].items|
    ensures Before(c, f[q].items[i].key, f[q'].items[j].key)
  {
    hide Before, Bounds, UpperBound, ItemsPassed, FirstReal, PathTight, PastFirst, LinkFits, Seen;
    StepSeen(c, f, fuel, b, offs, q);
    UnderUpperBound(c, f, fuel, b, offs, q);
    AboveLowerBound(c, f, fuel, b, offs', q');
    UpperBeforeLater(c, f, f[b], fuel, offs[0], offs'[0]);
    var u, pivot := UpperBound(f[b], offs[0]).value, f[b].items[offs'[0]].key;
    BoundedBefore(c, f[q].leaf, f[q].items[i].key, u, pivot, f[q'].items[j].key);
  }
}
