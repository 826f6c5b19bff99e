/** The check of a whole index: which pages it looks at, and what that means for the paths from a
    level down. */
module BtreeWhole {
  import opened Outcomes
  import opened BtreeKey
  import opened BtreePage
  import opened BtreeLeftmost
  import opened BtreeChain
  import opened BtreeCheck
  import opened BtreeLevel
  import opened BtreeParent
  import opened BtreeTree
  import opened BtreeBounds

  /** This level and those below it were checked with success; these are its blocks. */
  ghost predicate Passes(c: Config, f: File, level: Level, fuel: nat, blocks: seq<BlockNumber>) {
    && level.leftmost != P_NONE
    && CheckEveryLevel(c, f, level, fuel) == Pass
    && Chain(f, level.leftmost, blocks)
  }

  function Below(c: Config, f: File, level: Level, fuel: nat): Level
    requires level.leftmost != P_NONE
  {
    match CheckLevel(c, f, level, fuel)
    case Success(down) => down
    case Failure(_) => Level(P_NONE, -1, false)
  }

  /** The level below, unless the first downlink is null. */
  lemma LevelBelow(c: Config, f: File, level: Level, fuel: nat, blocks: seq<BlockNumber>)
    requires Passes(c, f, level, fuel, blocks) && level.level > 0
    ensures var down := Below(c, f, level, fuel);
            && CheckLevel(c, f, level, fuel) == Success(down) && down.level == level.level - 1
            && Downlinks(f, blocks) != [] && Downlinks(f, blocks)[0] == down.leftmost
            && (down.leftmost != P_NONE ==> CheckEveryLevel(c, f, down, fuel) == Pass)
  {
    hide CheckLevel, Visited, LeftmostIgnoringHalfDead, Steps, Downlinks;
    EveryLevelChecksThis(c, f, level, fuel);
    NextLevelStart(c, f, level, fuel, blocks);
    LevelIsStepped(c, f, level, fuel, blocks);
  }

  lemma KidsBelow(c: Config, f: File, level: Level, fuel: nat, blocks: seq<BlockNumber>)
    returns (kids: seq<BlockNumber>)
    requires Passes(c, f, level, fuel, blocks) && level.level > 0 && Below(c, f, level, fuel).leftmost != P_NONE
    ensures Passes(c, f, Below(c, f, level, fuel), fuel, kids)
  {
    hide CheckLevel, Visited, Below;
    LevelBelow(c, f, level, fuel, blocks);
    var down := Below(c, f, level, fuel);
    EveryLevelChecksThis(c, f, down, fuel);
    kids := LevelIsChain(c, f, down, fuel);
  }

  /** On this level and those below it, every page beneath a downlink that is not null is looked
      at. */
  ghost predicate AllLookedAt(c: Config, f: File, level: Level, fuel: nat, blocks: seq<BlockNumber>)
    requires level.leftmost != P_NONE && forall i :: 0 <= i < |blocks| ==> blocks[i] < |f|
    decreases level.level
  {
    level.level > 0 ==>
      var down := Below(c, f, level, fuel);
      if down.leftmost == P_NONE then AllOnChain(Downlinks(f, blocks), [])
      else
        exists kids :: Chain(f, down.leftmost, kids) && AllOnChain(Downlinks(f, blocks), kids)
                       && (down.level == level.level - 1 ==> AllLookedAt(c, f, down, fuel, kids))
  }

  /** On this level and those below it, every downlink that comes right after a null one is null or
      leads to a page of the next level; and where the first one is null, so are all. */
  ghost predicate NothingCutOff(c: Config, f: File, level: Level, fuel: nat, blocks: seq<BlockNumber>)
    requires level.leftmost != P_NONE && forall i :: 0 <= i < |blocks| ==> blocks[i] < |f|
    decreases level.level
  {
    level.level > 0 ==>
      var down := Below(c, f, level, fuel);
      if down.leftmost == P_NONE then RunsOnChain(Downlinks(f, blocks), [])
      else
        exists kids :: Chain(f, down.leftmost, kids) && RunsOnChain(Downlinks(f, blocks), kids)
                       && (down.level == level.level - 1 ==> NothingCutOff(c, f, down, fuel, kids))
  }

  lemma NullFirst(links: seq<BlockNumber>)
    requires links != [] && links[0] == P_NONE
    ensures AllOnChain(links, []) <==> RunsOnChain(links, [])
  {
    if RunsOnChain(links, []) {
      forall j | 0 <= j < |links| ensures links[j] == P_NONE {
        AllNull(links, j);
      }
    }
  }

  lemma {:induction false} AllNull(links: seq<BlockNumber>, j: nat)
    requires j < |links| && links[0] == P_NONE && RunsOnChain(links, [])
    ensures links[j] == P_NONE
  {
    if j > 0 {
      AllNull(links, j - 1);
    }
  }

  lemma OneChain(f: File, start: BlockNumber, kids: seq<BlockNumber>)
    requires Chain(f, start, kids)
    ensures forall other :: Chain(f, start, other) ==> other == kids
  {
    hide Chain;
    forall other | Chain(f, start, other) ensures other == kids {
      ChainIsOne(f, start, other, kids);
    }
  }

  /** What an index that passes was looked at: every page beneath a downlink, exactly if no run of
      downlinks is cut off by a null one. */
  lemma {:induction false} AllLookedAtExactly(c: Config, f: File, level: Level, fuel: nat, blocks: seq<BlockNumber>)
    requires Passes(c, f, level, fuel, blocks)
    ensures AllLookedAt(c, f, level, fuel, blocks) <==> NothingCutOff(c, f, level, fuel, blocks)
    decreases level.level
  {
    hide CheckLevel, Downlinks, AllOnChain, RunsOnChain, CheckEveryLevel, Below;
    if level.level > 0 {
      LevelBelow(c, f, level, fuel, blocks);
      var down := Below(c, f, level, fuel);
      if down.leftmost == P_NONE {
        NullFirst(Downlinks(f, blocks));
      } else {
        var kids := KidsBelow(c, f, level, fuel, blocks);
        OneChain(f, down.leftmost, kids);
        LookedAtExactly(c, f, level, fuel, blocks, kids);
        AllLookedAtExactly(c, f, down, fuel, kids);
      }
    }
  }

  // ---------------------------------------------------------------- paths from a level down

  lemma {:induction false} AmongDownlinks(f: File, blocks: seq<BlockNumber>, b: BlockNumber, o: nat)
    requires forall i :: 0 <= i < |blocks| ==> blocks[i] < |f|
    requires b in blocks && !f[b].halfDead && FirstData(f[b]) <= o < |f[b].items|
    ensures f[b].items[o].link in Downlinks(f, blocks)
  {
    var first, rest := f[blocks[0]], blocks[1..];
    if b == blocks[0] {
      assert PageLinks(first)[o - FirstData(first)] == f[b].items[o].link;
    } else {
      AmongDownlinks(f, rest, b, o);
    }
  }

  /** Then every path of downlinks leads over pages that were looked at. */
  lemma {:induction false} PathsAreSeen(c: Config, f: File, level: Level, fuel: nat, blocks: seq<BlockNumber>,
        b: BlockNumber, offs: seq<nat>, q: BlockNumber)
    requires Passes(c, f, level, fuel, blocks) && NothingCutOff(c, f, level, fuel, blocks)
    requires b in blocks && Leads(f, b, offs, q) && q < |f| && !f[q].halfDead
    ensures PathSeen(c, f, fuel, b, offs)
    decreases |offs|
  {
    hide CheckLevel, Downlinks, Accepted, RunsOnChain, CheckEveryLevel, Below;
    EveryLevelChecksThis(c, f, level, fuel);
    LevelIsChecked(c, f, level, fuel, blocks);
    InternalPage(c, f, level, fuel, blocks, b);
    assert Seen(c, f, fuel, b);
    if offs != [] {
      LevelIsInternal(c, f, level, fuel, blocks, b);
      LevelBelow(c, f, level, fuel, blocks);
      AllLookedAtExactly(c, f, level, fuel, blocks);
      AmongDownlinks(f, blocks, b, offs[0]);
      var down := Below(c, f, level, fuel);
      var kids := KidsBelow(c, f, level, fuel, blocks);
      OneChain(f, down.leftmost, kids);
      PathsAreSeen(c, f, down, fuel, kids, f[b].items[offs[0]].link, offs[1..], q);
    }
  }

  // ---------------------------------------------------------------- without null downlinks

  /** No downlink of this level and of those below it is null. */
  ghost predicate NoneNull(c: Config, f: File, level: Level, fuel: nat, blocks: seq<BlockNumber>)
    requires level.leftmost != P_NONE && forall i :: 0 <= i < |blocks| ==> blocks[i] < |f|
    decreases level.level
  {
    level.level > 0 ==>
      var down := Below(c, f, level, fuel);
      && P_NONE !in Downlinks(f, blocks)
      && exists kids :: Chain(f, down.leftmost, kids)
                        && (down.level == level.level - 1 ==> NoneNull(c, f, down, fuel, kids))
  }

  lemma {:induction false} NoneNullCutsNothingOff(c: Config, f: File, level: Level, fuel: nat,
        blocks: seq<BlockNumber>)
    requires Passes(c, f, level, fuel, blocks) && NoneNull(c, f, level, fuel, blocks)
    ensures NothingCutOff(c, f, level, fuel, blocks)
    decreases level.level
  {
    hide CheckLevel, Downlinks, CheckEveryLevel, Below;
    if level.level > 0 {
      LevelBelow(c, f, level, fuel, blocks);
      var down := Below(c, f, level, fuel);
      var kids := KidsBelow(c, f, level, fuel, blocks);
      OneChain(f, down.leftmost, kids);
      NoneNullCutsNothingOff(c, f, down, fuel, kids);
      assert RunsOnChain(Downlinks(f, blocks), kids);
    }
  }

  /** Every downlink on the path whose child is flagged as having an incomplete split bounds the
      page at its end from above. */
  ghost predicate FlaggedWithin(c: Config, f: File, b: BlockNumber, offs: seq<nat>, q: BlockNumber)
    requires Leads(f, b, offs, q) && q < |f|
    decreases |offs|
  {
    offs != [] ==>
      var child := f[b].items[offs[0]].link;
      assert Leads(f, child, offs[1..], q);
      && (f[child].incompleteSplit ==> Within(c, f[q], UpperBound(f[b], offs[0])))
      && FlaggedWithin(c, f, child, offs[1..], q)
  }

  /** The rightmost page of a level lies beneath a downlink that nothing bounds from above. */
  lemma {:induction false} OnlyFlagsAreLoose(c: Config, f: File, level: Level, fuel: nat, blocks: seq<BlockNumber>,
        b: BlockNumber, offs: seq<nat>, q: BlockNumber)
    requires Passes(c, f, level, fuel, blocks) && NoneNull(c, f, level, fuel, blocks)
    requires b in blocks && Leads(f, b, offs, q) && q < |f| && FlaggedWithin(c, f, b, offs, q)
    ensures LooseWithin(c, f, b, offs, q)
    decreases |offs|
  {
    hide CheckLevel, Downlinks, CheckEveryLevel, Below, UpperBound;
    if offs != [] {
      EveryLevelChecksThis(c, f, level, fuel);
      LevelIsInternal(c, f, level, fuel, blocks, b);
      LevelBelow(c, f, level, fuel, blocks);
      NoneNullCutsNothingOff(c, f, level, fuel, blocks);
      AllLookedAtExactly(c, f, level, fuel, blocks);
      AmongDownlinks(f, blocks, b, offs[0]);
      var down, child := Below(c, f, level, fuel), f[b].items[offs[0]].link;
      var kids := KidsBelow(c, f, level, fuel, blocks);
      OneChain(f, down.leftmost, kids);
      OnlyFlagsAreLoose(c, f, down, fuel, kids, child, offs[1..], q);
      if Rightmost(f[child]) && UpperBound(f[b], offs[0]).Some? {
        RightmostBeforeNull(c, f, level, fuel, blocks, b, offs[0]);
      }
    }
  }

  /** The whole index, if none of its downlinks is null: at any depth, the real items of a live page
      are bounded from above by every downlink on the way if and only if they are by those whose
      child is flagged as having an incomplete split, and from below by every pivot if and only if
      they are by those at which the way turns to a first downlink. */
  lemma WholeIndexExactly(c: Config, f: File, level: Level, fuel: nat, blocks: seq<BlockNumber>, b: BlockNumber,
        offs: seq<nat>, q: BlockNumber)
    requires Passes(c, f, level, fuel, blocks) && NoneNull(c, f, level, fuel, blocks)
    requires b in blocks && Leads(f, b, offs, q)
    ensures q < |f|
    ensures !f[q].halfDead ==>
              && (AllWithin(c, f, b, offs, q) <==> FlaggedWithin(c, f, b, offs, q))
              && (AllAbove(c, f, b, offs, q) <==> TurningAbove(c, f, b, offs, q))
  {
    hide Passes, NoneNull, PathSeen;
    LeadsInside(f, b, offs, q);
    if !f[q].halfDead {
      NoneNullCutsNothingOff(c, f, level, fuel, blocks);
      PathsAreSeen(c, f, level, fuel, blocks, b, offs, q);
      UpperBoundsExactly(c, f, fuel, b, offs, q);
      LowerBoundsExactly(c, f, fuel, b, offs, q);
      if FlaggedWithin(c, f, b, offs, q) {
        OnlyFlagsAreLoose(c, f, level, fuel, blocks, b, offs, q);
      }
      if AllWithin(c, f, b, offs, q) {
        AllIncludesFlagged(c, f, b, offs, q);
      }
    }
  }

  lemma {:induction false} AllIncludesFlagged(c: Config, f: File, b: BlockNumber, offs: seq<nat>, q: BlockNumber)
    requires Leads(f, b, offs, q) && q < |f| && AllWithin(c, f, b, offs, q)
    ensures FlaggedWithin(c, f, b, offs, q)
    decreases |offs|
  {
    hide Within;
    if offs != [] {
      AllIncludesFlagged(c, f, f[b].items[offs[0]].link, offs[1..], q);
    }
  }
}
