/** False alarms: what the first stage of deleting a leaf leaves behind, if a crash then interrupts the
    deletion, is sound, and the next VACUUM completes it; the verifier reports it, unless the leaf is
    the first one of the index. */
module BtreeDeletion {
  import opened Outcomes
  import opened BtreeKey
  import opened BtreePage
  import opened BtreeLeftmost
  import opened BtreeChain
  import opened BtreeCheck
  import opened BtreeLevel
  import opened BtreeParent
  import opened BtreeTree
  import opened BtreeHealthy
  import opened BtreeInterrupted

  // ---------------------------------------------------------------- the first stage

  /** The leaf under the downlink at offset o can be taken out: it has no items, it is not the last one
      of its level, and the next downlink of its parent leads to its right sibling. */
  predicate Deletable(f: File, parent: BlockNumber, o: nat, b: BlockNumber) {
    && parent < |f| && b < |f| && parent != b && f[b].leaf && !Rightmost(f[b]) && |f[b].items| <= 1
    && FirstData(f[parent]) <= o && o + 1 < |f[parent].items|
    && f[parent].items[o].link == b && f[parent].items[o + 1].link == f[b].next
  }

  /** _bt_mark_page_halfdead, the first stage of deletion: the downlink comes to lead to the right
      sibling, whose own one goes, and the leaf's high key is overwritten with an empty one. */
  function MarkHalfDead(f: File, parent: BlockNumber, o: nat, b: BlockNumber): (r: File)
    requires Deletable(f, parent, o, b)
    ensures |r| == |f|
  {
    f[parent := Shrunk(f[parent], o, f[b].next)][b := f[b].(halfDead := true, items := [Tuple([], INVALID_BLOCK)])]
  }

  function Shrunk(p: Page, o: nat, next: BlockNumber): (r: Page)
    requires o + 1 < |p.items|
    ensures r == p.(items := r.items)
  {
    p.(items := p.items[..o] + [Tuple(p.items[o].key, next)] + p.items[o + 2..])
  }

  lemma ShrunkLinks(p: Page, o: nat, next: BlockNumber)
    requires FirstData(p) <= o && o + 1 < |p.items| && p.items[o + 1].link == next
    ensures var j := o - FirstData(p);
            && j < |PageLinks(p)| && PageLinks(p)[j] == p.items[o].link
            && PageLinks(Shrunk(p, o, next)) == PageLinks(p)[..j] + PageLinks(p)[j + 1..]
  {
    var j, q := o - FirstData(p), Shrunk(p, o, next);
    var was, now := PageLinks(p), PageLinks(q);
    assert |now| == |was| - 1 && FirstData(q) == FirstData(p);
    forall i | 0 <= i < |now| ensures now[i] == (was[..j] + was[j + 1..])[i] {
      var n := FirstData(p) + i;
      assert now[i] == q.items[n].link;
      if i < j {
        assert q.items[n] == p.items[n] && was[i] == p.items[n].link;
      } else {
        assert q.items[n].link == p.items[n + 1].link == was[i + 1];
      }
    }
  }

  lemma ShrunkKeys(p: Page, o: nat, next: BlockNumber, k: Key)
    requires FirstData(p) <= o && o + 1 < |p.items| && KeyOfPage(Shrunk(p, o, next), k)
    ensures KeyOfPage(p, k)
  {
    var q := Shrunk(p, o, next);
    var i: nat :| i < |q.items| && i != FirstData(q) && q.items[i].key == k;
    assert p.items[if i <= o then i else i + 1].key == k;
  }

  /** The downlinks of the level above afterwards: that of the leaf is gone. */
  lemma {:induction false} DownlinksAfter(f: File, blocks: seq<BlockNumber>, i: nat, o: nat, b: BlockNumber)
    returns (j: nat)
    requires i < |blocks| && Distinct(blocks) && b !in blocks && Deletable(f, blocks[i], o, b)
    requires forall n :: 0 <= n < |blocks| ==>
               blocks[n] < |f| && !f[blocks[n]].halfDead && FirstData(f[blocks[n]]) < |f[blocks[n]].items|
    ensures j < |Downlinks(f, blocks)| && Downlinks(f, blocks)[j] == b
    ensures j == 0 <==> i == 0 && o == FirstData(f[blocks[0]])
    ensures Downlinks(MarkHalfDead(f, blocks[i], o, b), blocks)
         == Downlinks(f, blocks)[..j] + Downlinks(f, blocks)[j + 1..]
    decreases i
  {
    hide PageLinks, Shrunk, Distinct, MarkHalfDead, Deletable;
    if i == 0 {
      DownlinksAfterFirst(f, blocks, o, b);
      AtOrAfterFirst(f, blocks[0], o, b);
      j := o - FirstData(f[blocks[0]]);
    } else {
      var f', rest := MarkHalfDead(f, blocks[i], o, b), blocks[1..];
      var first := PageLinks(f[blocks[0]]);
      DistinctTail(blocks, i);
      OthersStay(f, blocks[i], o, b, blocks[0]);
      var k := DownlinksAfter(f, rest, i - 1, o, b);
      j := |first| + k;
      Within(first, Downlinks(f, rest), k);
      SomeLink(f[blocks[0]]);
    }
  }

  lemma AtOrAfterFirst(f: File, parent: BlockNumber, o: nat, b: BlockNumber)
    requires Deletable(f, parent, o, b)
    ensures parent < |f| && FirstData(f[parent]) <= o
  {
  }

  lemma OthersStay(f: File, parent: BlockNumber, o: nat, b: BlockNumber, other: BlockNumber)
    requires Deletable(f, parent, o, b) && other < |f| && other != parent && other != b
    ensures MarkHalfDead(f, parent, o, b)[other] == f[other]
  {
  }

  lemma DistinctTail(blocks: seq<BlockNumber>, i: nat)
    requires Distinct(blocks) && 0 < i < |blocks|
    ensures Distinct(blocks[1..]) && blocks[0] != blocks[i] && blocks[1..][i - 1] == blocks[i]
  {
  }

  lemma DownlinksAfterFirst(f: File, blocks: seq<BlockNumber>, o: nat, b: BlockNumber)
    requires blocks != [] && Distinct(blocks) && b !in blocks && Deletable(f, blocks[0], o, b)
    requires forall n :: 0 <= n < |blocks| ==> blocks[n] < |f| && !f[blocks[n]].halfDead
    ensures var j := o - FirstData(f[blocks[0]]);
            && j < |Downlinks(f, blocks)| && Downlinks(f, blocks)[j] == b
            && Downlinks(MarkHalfDead(f, blocks[0], o, b), blocks)
                 == Downlinks(f, blocks)[..j] + Downlinks(f, blocks)[j + 1..]
  {
    hide PageLinks, Shrunk;
    var f', rest := MarkHalfDead(f, blocks[0], o, b), blocks[1..];
    ShrunkLinks(f[blocks[0]], o, f[b].next);
    Untouched(f, f', rest);
    Without(PageLinks(f[blocks[0]]), Downlinks(f, rest), o - FirstData(f[blocks[0]]));
  }

  lemma SomeLink(p: Page)
    requires FirstData(p) < |p.items|
    ensures PageLinks(p) != []
  {
  }

  lemma Without(a: seq<BlockNumber>, b: seq<BlockNumber>, j: nat)
    requires j < |a|
    ensures (a + b)[j] == a[j] && (a[..j] + a[j + 1..]) + b == (a + b)[..j] + (a + b)[j + 1..]
  {
  }

  lemma Within(a: seq<BlockNumber>, b: seq<BlockNumber>, k: nat)
    requires k < |b|
    ensures (a + b)[|a| + k] == b[k]
    ensures a + (b[..k] + b[k + 1..]) == (a + b)[..|a| + k] + (a + b)[|a| + k + 1..]
  {
  }

  lemma {:induction false} Untouched(f: File, f': File, blocks: seq<BlockNumber>)
    requires |f'| == |f| && forall n :: 0 <= n < |blocks| ==> blocks[n] < |f| && f'[blocks[n]] == f[blocks[n]]
    ensures Downlinks(f', blocks) == Downlinks(f, blocks)
  {
    hide PageLinks;
    if blocks != [] {
      Untouched(f, f', blocks[1..]);
    }
  }

  /** Links to the right are left as they are. */
  lemma ChainAfter(f: File, parent: BlockNumber, o: nat, b: BlockNumber, start: BlockNumber, blocks: seq<BlockNumber>)
    requires Deletable(f, parent, o, b) && Chain(f, start, blocks)
    ensures Chain(MarkHalfDead(f, parent, o, b), start, blocks)
  {
    var f' := MarkHalfDead(f, parent, o, b);
    assert forall n :: 0 <= n < |f| ==> f'[n].next == f[n].next;
  }

  /** The keys of a healthy internal level are never empty, and none comes in. */
  lemma NoEmptyKey(c: Config, f: File, blocks: seq<BlockNumber>, number: nat, i: nat, o: nat, b: BlockNumber)
    requires HealthyLevel(c, f, blocks, number) && number > 0 && c.nkeyatts > 0 && i < |blocks|
    requires b !in blocks && blocks[i] < |f| && Deletable(f, blocks[i], o, b)
    requires forall n :: 0 <= n < |blocks| ==> blocks[n] < |f|
    ensures !KeyOfLevel(MarkHalfDead(f, blocks[i], o, b), blocks, [])
  {
    hide Sorted, LiveReals, Bounds, LinkedBothWays, Shrunk;
    var f' := MarkHalfDead(f, blocks[i], o, b);
    forall n: nat | n < |blocks| ensures !KeyOfPage(f'[blocks[n]], []) {
      assert HealthyPage(c, f[blocks[n]], number);
      NoEmptyKeyOnPage(c, f[blocks[n]], number);
      if blocks[n] == blocks[i] && KeyOfPage(f'[blocks[n]], []) {
        ShrunkKeys(f[blocks[i]], o, f[b].next, []);
      }
    }
  }

  lemma NoEmptyKeyOnPage(c: Config, p: Page, number: nat)
    requires HealthyPage(c, p, number) && number > 0 && c.nkeyatts > 0
    ensures !KeyOfPage(p, [])
  {
    forall o: nat | o < |p.items| && o != FirstData(p) ensures p.items[o].key != [] {
      if o > 0 {
        assert FirstReal(p) <= o;
      }
    }
  }

  /** The level above the leaves, and the leaves. */
  function Parents(levels: seq<seq<BlockNumber>>): seq<BlockNumber>
    requires |levels| >= 2
  {
    levels[|levels| - 2]
  }

  function Leaves(levels: seq<seq<BlockNumber>>): seq<BlockNumber>
    requires |levels| >= 2
  {
    levels[|levels| - 1]
  }

  /** A leaf of a healthy index that may be taken out, beneath the downlink at offset o of the i-th
      page of the level above. */
  ghost predicate Candidate(c: Config, f: File, levels: seq<seq<BlockNumber>>, i: nat, o: nat, b: BlockNumber) {
    && Healthy(c, f, levels) && |levels| >= 2 && c.nkeyatts > 0
    && i < |Parents(levels)| && Deletable(f, Parents(levels)[i], o, b)
  }

  /** The index after the first stage of the deletion. */
  ghost function Halfway(c: Config, f: File, levels: seq<seq<BlockNumber>>, i: nat, o: nat, b: BlockNumber): (r: File)
    requires Candidate(c, f, levels, i, o, b)
    ensures |r| == |f|
  {
    MarkHalfDead(f, Parents(levels)[i], o, b)
  }

  lemma CandidateLevels(c: Config, f: File, levels: seq<seq<BlockNumber>>, i: nat, o: nat, b: BlockNumber)
    requires Candidate(c, f, levels, i, o, b)
    ensures HealthyLevel(c, f, Parents(levels), 1) && HealthyLevel(c, f, Leaves(levels), 0)
    ensures HealthyPair(c, f, Parents(levels), Leaves(levels))
  {
    hide HealthyLevel, HealthyPair, Deletable;
    assert HealthyLevel(c, f, levels[|levels| - 2], |levels| - 1 - (|levels| - 2));
    assert HealthyLevel(c, f, levels[|levels| - 1], |levels| - 1 - (|levels| - 1));
    assert HealthyPair(c, f, levels[(|levels| - 1) - 1], levels[|levels| - 1]);
  }

  lemma PagesOf(c: Config, f: File, blocks: seq<BlockNumber>, number: nat)
    requires HealthyLevel(c, f, blocks, number)
    ensures blocks != [] && Chain(f, blocks[0], blocks) && Distinct(blocks)
    ensures forall n :: 0 <= n < |blocks| ==>
              && 0 < blocks[n] < |f| && !f[blocks[n]].halfDead && !f[blocks[n]].incompleteSplit
              && f[blocks[n]].level == number && (f[blocks[n]].leaf <==> number == 0)
              && (number > 0 ==> FirstData(f[blocks[n]]) < |f[blocks[n]].items|)
  {
    hide Sorted, LiveReals, Bounds, FirstOfLevel;
    ChainFitsFile(f, blocks[0], blocks);
  }

  /** The leaf is one of the leaves, and the downlinks that stay are those to the others. */
  lemma LeafTakenOut(c: Config, f: File, levels: seq<seq<BlockNumber>>, i: nat, o: nat, b: BlockNumber)
    returns (j: nat)
    requires Candidate(c, f, levels, i, o, b)
    ensures j < |Leaves(levels)| && Leaves(levels)[j] == b && b !in Parents(levels)
    ensures Parents(levels)[0] < |f| && (j == 0 <==> i == 0 && o == FirstData(f[Parents(levels)[0]]))
    ensures forall n :: 0 <= n < |Parents(levels)| ==> Parents(levels)[n] < |f|
    ensures Downlinks(Halfway(c, f, levels, i, o, b), Parents(levels)) == Leaves(levels)[..j] + Leaves(levels)[j + 1..]
    ensures b !in Leaves(levels)[..j] + Leaves(levels)[j + 1..]
  {
    hide HealthyLevel, Healthy, Downlinks;
    CandidateLevels(c, f, levels, i, o, b);
    PagesOf(c, f, Parents(levels), 1);
    PagesOf(c, f, Leaves(levels), 0);
    j := DownlinksAfter(f, Parents(levels), i, o, b);
  }

  /** Unless it is the first leaf, the level above is found wanting. */
  lemma ParentsFail(c: Config, f: File, levels: seq<seq<BlockNumber>>, i: nat, o: nat, b: BlockNumber, level: Level,
        fuel: nat)
    requires Candidate(c, f, levels, i, o, b) && Leaves(levels) != [] && b != Leaves(levels)[0]
    requires Parents(levels) != [] && level.leftmost == Parents(levels)[0] && level.level == 1
    ensures level.leftmost != P_NONE && !CheckLevel(c, Halfway(c, f, levels, i, o, b), level, fuel).Success?
  {
    hide HealthyLevel, HealthyPair, Healthy, Downlinks, CheckLevel, Chain, KeyOfLevel;
    CandidateLevels(c, f, levels, i, o, b);
    PagesOf(c, f, Parents(levels), 1);
    PagesOf(c, f, Leaves(levels), 0);
    var j := LeafTakenOut(c, f, levels, i, o, b);
    var f', parents, kids := Halfway(c, f, levels, i, o, b), Parents(levels), Leaves(levels);
    ChainAfter(f, parents[i], o, b, parents[0], parents);
    ChainAfter(f, parents[i], o, b, kids[0], kids);
    NoEmptyKey(c, f, parents, 1, i, o, b);
    assert Downlinks(f', parents)[0] == kids[0];
    UnmatchedIsReported(c, f', level, fuel, parents, kids, b);
  }

  /** The levels further up are as they were, and lead down to the level above the leaves. */
  lemma {:induction false} DescendsToParents(c: Config, f: File, levels: seq<seq<BlockNumber>>, i: nat, o: nat,
        b: BlockNumber, k: nat, level: Level, fuel: nat)
    requires Candidate(c, f, levels, i, o, b) && k <= |levels| - 2 && levels[k] != []
    requires level.leftmost == levels[k][0] && level.level == |levels| - 1 - k
    requires Leaves(levels) != [] && b != Leaves(levels)[0]
    ensures CheckEveryLevel(c, Halfway(c, f, levels, i, o, b), level, fuel) != Pass
    decreases |levels| - k
  {
    hide HealthyLevel, HealthyPair, CheckLevel, Deletable, MarkHalfDead, Chain;
    var f' := Halfway(c, f, levels, i, o, b);
    var number := |levels| - 1 - k;
    assert HealthyLevel(c, f, levels[k], number);
    PagesOf(c, f, levels[k], number);
    if CheckEveryLevel(c, f', level, fuel) == Pass {
      EveryLevelChecksThis(c, f', level, fuel);
      if k == |levels| - 2 {
        ParentsFail(c, f, levels, i, o, b, level, fuel);
      } else {
        LevelAbove(c, f, levels, i, o, b, k, level, fuel);
        assert HealthyLevel(c, f, levels[k + 1], |levels| - 1 - (k + 1));
        PagesOf(c, f, levels[k + 1], number - 1);
        var down := CheckLevel(c, f', level, fuel).value;
        DescendsToParents(c, f, levels, i, o, b, k + 1, down, fuel);
      }
    }
  }

  lemma LevelAbove(c: Config, f: File, levels: seq<seq<BlockNumber>>, i: nat, o: nat, b: BlockNumber, k: nat,
        level: Level, fuel: nat)
    requires Candidate(c, f, levels, i, o, b) && k < |levels| - 2 && levels[k] != []
    requires level.leftmost == levels[k][0] && level.level == |levels| - 1 - k
    requires level.leftmost != P_NONE && CheckLevel(c, Halfway(c, f, levels, i, o, b), level, fuel).Success?
    ensures levels[k + 1] != []
    ensures CheckLevel(c, Halfway(c, f, levels, i, o, b), level, fuel).value
         == Level(levels[k + 1][0], level.level - 1, false)
  {
    hide HealthyLevel, HealthyPair, CheckLevel, Chain, LeftmostIgnoringHalfDead;
    var f', parent, number := Halfway(c, f, levels, i, o, b), Parents(levels)[i], |levels| - 1 - k;
    CandidateLevels(c, f, levels, i, o, b);
    PagesOf(c, f, Parents(levels), 1);
    assert HealthyLevel(c, f, levels[k], number) && HealthyPair(c, f, levels[(k + 1) - 1], levels[k + 1]);
    assert HealthyLevel(c, f, levels[k + 1], |levels| - 1 - (k + 1));
    PagesOf(c, f, levels[k], number);
    PagesOf(c, f, levels[k + 1], number - 1);
    HealthyPairStart(c, f, levels[k], levels[k + 1], number);
    ChainAfter(f, parent, o, b, levels[k][0], levels[k]);
    assert f'[levels[k][0]] == f[levels[k][0]];
    NextLevelStart(c, f', level, fuel, levels[k]);
  }

  // ---------------------------------------------------------------- the first leaf

  lemma FirstOfLevelAfter(f: File, parent: BlockNumber, o: nat, b: BlockNumber, start: BlockNumber)
    requires Deletable(f, parent, o, b) && !f[parent].halfDead && !f[b].halfDead
    requires start < |f| && FirstOfLevel(f, start)
    ensures FirstOfLevel(MarkHalfDead(f, parent, o, b), start)
  {
    var f' := MarkHalfDead(f, parent, o, b);
    var chain :| LeadsToNone(f, start, chain);
    assert forall n :: 0 <= n < |f| ==> f'[n].prev == f[n].prev;
    forall i | 0 <= i < |chain| - 1
      ensures chain[i + 1] == f'[chain[i]].prev && AcceptedStep(f', chain[0], chain[i], chain[i + 1])
    {
      assert chain[i + 1] == f[chain[i]].prev && AcceptedStep(f, chain[0], chain[i], chain[i + 1]);
      assert f'[chain[i + 1]] == f[chain[i + 1]];
    }
    assert LeadsToNone(f', start, chain);
  }

  /** The second leaf is the first one afterwards. */
  lemma SecondIsFirst(f: File, parent: BlockNumber, o: nat, b: BlockNumber)
    requires Deletable(f, parent, o, b) && !f[parent].halfDead && !f[b].halfDead && parent != f[b].next
    requires 0 < b && FirstOfLevel(f, b) && Sane(f[b]) && !f[b].deleted
    requires f[b].next < |f| && !f[f[b].next].halfDead && f[f[b].next].prev == b && f[b].next != b
    ensures FirstOfLevel(MarkHalfDead(f, parent, o, b), f[b].next)
  {
    var f', next := MarkHalfDead(f, parent, o, b), f[b].next;
    FirstOfLevelAfter(f, parent, o, b, b);
    var rest :| LeadsToNone(f', b, rest);
    var chain := [next] + rest;
    forall i | 0 <= i < |chain| - 1
      ensures chain[i + 1] == f'[chain[i]].prev && AcceptedStep(f', chain[0], chain[i], chain[i + 1])
    {
      if i > 0 {
        assert rest[(i - 1) + 1] == f'[rest[i - 1]].prev && AcceptedStep(f', rest[0], rest[i - 1], rest[(i - 1) + 1]);
      }
    }
    assert LeadsToNone(f', next, chain);
  }

  lemma {:induction false} RealsUntouched(f: File, f': File, blocks: seq<BlockNumber>)
    requires |f'| == |f| && forall n :: 0 <= n < |blocks| ==> blocks[n] < |f| && f'[blocks[n]] == f[blocks[n]]
    ensures LiveReals(f', blocks) == LiveReals(f, blocks)
  {
    hide Reals;
    if blocks != [] {
      RealsUntouched(f, f', blocks[1..]);
    }
  }

  /** A level that has neither the leaf nor its parent stays healthy. */
  lemma OtherLevelAfter(c: Config, f: File, blocks: seq<BlockNumber>, number: nat, parent: BlockNumber, o: nat,
        b: BlockNumber)
    requires HealthyLevel(c, f, blocks, number) && Deletable(f, parent, o, b) && !f[parent].halfDead && !f[b].halfDead
    requires parent !in blocks && b !in blocks
    ensures HealthyLevel(c, MarkHalfDead(f, parent, o, b), blocks, number)
  {
    hide Sorted, LiveReals, Bounds, FirstOfLevel, HealthyPage, Chain;
    var f' := MarkHalfDead(f, parent, o, b);
    PagesOf(c, f, blocks, number);
    forall n | 0 <= n < |blocks| ensures f'[blocks[n]] == f[blocks[n]] {
      assert blocks[n] in blocks;
    }
    FirstOfLevelAfter(f, parent, o, b, blocks[0]);
    ChainAfter(f, parent, o, b, blocks[0], blocks);
    RealsUntouched(f, f', blocks);
  }

  /** The leaves without the first one. */
  lemma LeavesAfter(c: Config, f: File, kids: seq<BlockNumber>, parent: BlockNumber, o: nat)
    requires HealthyLevel(c, f, kids, 0) && Deletable(f, parent, o, kids[0]) && !f[parent].halfDead && !f[parent].leaf
    ensures |kids| > 1 && HealthyLevel(c, MarkHalfDead(f, parent, o, kids[0]), kids[1..], 0)
  {
    hide Sorted, LiveReals, Bounds, FirstOfLevel, HealthyPage, Chain;
    var b, rest, f' := kids[0], kids[1..], MarkHalfDead(f, parent, o, kids[0]);
    PagesOf(c, f, kids, 0);
    RightOf(c, f, kids, 0, 0);
    HealthyCounts(c, f[b], 0);
    assert f[kids[1]].prev == b && kids[1] != kids[0];
    SecondIsFirst(f, parent, o, b);
    ChainTail(f, b, kids);
    ChainAfter(f, parent, o, b, rest[0], rest);
    forall n | 0 <= n < |rest| ensures f'[rest[n]] == f[rest[n]] {
      assert rest[n] == kids[n + 1];
    }
    RealsUntouched(f, f', rest);
    RealsWithoutFirst(c, f, kids);
    forall i | 0 < i < |rest| ensures f'[rest[i]].prev == rest[i - 1] {
      assert rest[i - 1] == kids[(i + 1) - 1] && f[kids[i + 1]].prev == kids[(i + 1) - 1];
    }
    forall i, o' | 0 <= i < |rest| - 1 && FirstReal(f'[rest[i]]) <= o' < |f'[rest[i]].items|
      ensures Bounds(c, true, f'[rest[i]].items[o'].key, f'[rest[i]].items[0].key)
    {
      assert rest[i] == kids[i + 1];
      assert Bounds(c, true, f[kids[i + 1]].items[o'].key, f[kids[i + 1]].items[0].key);
    }
  }

  lemma RealsWithoutFirst(c: Config, f: File, kids: seq<BlockNumber>)
    requires kids != [] && forall i :: 0 <= i < |kids| ==> kids[i] < |f|
    requires !f[kids[0]].halfDead && Sorted(c, LiveReals(f, kids))
    ensures Sorted(c, LiveReals(f, kids[1..]))
  {
    hide Before, Reals, Sorted;
    assert LiveReals(f, kids) == Reals(f[kids[0]]) + LiveReals(f, kids[1..]);
    SortedEnd(c, Reals(f[kids[0]]), LiveReals(f, kids[1..]));
  }

  lemma SortedEnd(c: Config, a: seq<Key>, b: seq<Key>)
    requires Sorted(c, a + b)
    ensures Sorted(c, b)
  {
    hide Before;
    forall i, j | 0 <= i < j < |b| ensures Before(c, b[i], b[j]) {
      assert (a + b)[|a| + i] == b[i] && (a + b)[|a| + j] == b[j];
    }
  }

  /** The parent has lost its first pivot and its first downlink, and nothing else. */
  lemma ParentAfter(c: Config, p: Page, next: BlockNumber, number: nat)
    requires HealthyPage(c, p, number) && number > 0 && FirstData(p) + 1 < |p.items|
    ensures var q := Shrunk(p, FirstData(p), next);
            && HealthyPage(c, q, number) && Reals(p) != [] && Reals(q) == Reals(p)[1..]
            && |q.items| == |p.items| - 1 && FirstData(q) == FirstData(p)
            && (!Rightmost(p) ==> q.items[0] == p.items[0])
            && q.items[FirstData(q)].link == next
            && forall n :: FirstData(p) < n < |q.items| ==> q.items[n] == p.items[n + 1]
  {
    hide Shrunk, HealthyPage, Reals;
    ParentItems(p, next);
    ParentPageAfter(c, p, next, number);
    LeafByNumber(c, p, number);
    ParentRealsAfter(p, next);
  }

  lemma ParentItems(p: Page, next: BlockNumber)
    requires FirstData(p) + 1 < |p.items|
    ensures var q := Shrunk(p, FirstData(p), next);
            && |q.items| == |p.items| - 1 && FirstData(q) == FirstData(p) && FirstReal(q) == FirstReal(p)
            && (!Rightmost(p) ==> q.items[0] == p.items[0])
            && q.items[FirstData(q)].link == next
            && forall n :: FirstData(p) < n < |q.items| ==> q.items[n] == p.items[n + 1]
  {
  }

  lemma ParentPageAfter(c: Config, p: Page, next: BlockNumber, number: nat)
    requires HealthyPage(c, p, number) && number > 0 && FirstData(p) + 1 < |p.items|
    ensures HealthyPage(c, Shrunk(p, FirstData(p), next), number)
  {
    hide Shrunk;
    ParentItems(p, next);
  }

  lemma ParentRealsAfter(p: Page, next: BlockNumber)
    requires !p.leaf && FirstData(p) + 1 < |p.items|
    ensures Reals(p) != [] && Reals(Shrunk(p, FirstData(p), next)) == Reals(p)[1..]
  {
    hide Shrunk;
    ParentItems(p, next);
    var q := Shrunk(p, FirstData(p), next);
    var was, now := Reals(p), Reals(q);
    assert |now| == |was| - 1;
    forall n | 0 <= n < |now| ensures now[n] == was[1..][n] {
      assert now[n] == q.items[FirstReal(q) + n].key && was[n + 1] == p.items[FirstReal(p) + (n + 1)].key;
    }
  }

  lemma SortedStart(c: Config, a: seq<Key>, b: seq<Key>)
    requires Sorted(c, a + b) && a != []
    ensures Sorted(c, a[1..] + b)
  {
    hide Before;
    assert a[1..] + b == (a + b)[1..];
  }

  /** The level above the leaves. */
  lemma ParentsAfter(c: Config, f: File, blocks: seq<BlockNumber>, number: nat, b: BlockNumber)
    requires HealthyLevel(c, f, blocks, number) && number > 0 && blocks[0] < |f|
    requires Deletable(f, blocks[0], FirstData(f[blocks[0]]), b) && !f[b].halfDead && b !in blocks
    ensures HealthyLevel(c, MarkHalfDead(f, blocks[0], FirstData(f[blocks[0]]), b), blocks, number)
  {
    hide Sorted, Bounds, FirstOfLevel, HealthyPage, Chain, Shrunk, LiveReals, Reals;
    var o, f' := FirstData(f[blocks[0]]), MarkHalfDead(f, blocks[0], FirstData(f[blocks[0]]), b);
    var p, q := f[blocks[0]], f'[blocks[0]];
    PagesOf(c, f, blocks, number);
    ParentAfter(c, p, f[b].next, number);
    FirstOfLevelAfter(f, blocks[0], o, b, blocks[0]);
    ChainAfter(f, blocks[0], o, b, blocks[0], blocks);
    forall n | 0 < n < |blocks| ensures f'[blocks[n]] == f[blocks[n]] {
      assert blocks[n] in blocks && blocks[n] != blocks[0];
    }
    ParentReals(c, f, f', blocks);
    forall i, n | 0 <= i < |blocks| - 1 && FirstReal(f'[blocks[i]]) <= n < |f'[blocks[i]].items|
      ensures Bounds(c, false, f'[blocks[i]].items[n].key, f'[blocks[i]].items[0].key)
    {
      if i == 0 {
        RightOf(c, f, blocks, number, 0);
        assert Bounds(c, false, p.items[n + 1].key, p.items[0].key);
      }
    }
  }

  lemma ParentReals(c: Config, f: File, f': File, blocks: seq<BlockNumber>)
    requires blocks != [] && |f'| == |f| && forall n :: 0 <= n < |blocks| ==> blocks[n] < |f|
    requires forall n :: 0 < n < |blocks| ==> f'[blocks[n]] == f[blocks[n]]
    requires !f[blocks[0]].halfDead && !f'[blocks[0]].halfDead
    requires Reals(f[blocks[0]]) != [] && Reals(f'[blocks[0]]) == Reals(f[blocks[0]])[1..]
    requires Sorted(c, LiveReals(f, blocks))
    ensures Sorted(c, LiveReals(f', blocks))
  {
    hide Sorted, Reals;
    RealsUntouched(f, f', blocks[1..]);
    assert LiveReals(f, blocks) == Reals(f[blocks[0]]) + LiveReals(f, blocks[1..]);
    assert LiveReals(f', blocks) == Reals(f'[blocks[0]]) + LiveReals(f', blocks[1..]);
    SortedStart(c, Reals(f[blocks[0]]), LiveReals(f, blocks[1..]));
  }

  // ---------------------------------------------------------------- its links

  predicate HasReal(p: Page, k: Key) {
    exists m: nat :: FirstReal(p) <= m < |p.items| && p.items[m].key == k
  }

  /** A child that has lost nothing, or only its first items, fits where it did. */
  predicate NoWider(was: Page, now: Page) {
    && now.next == was.next && FirstReal(now) == FirstReal(was)
    && (was.next != P_NONE && 0 < |was.items| ==> 0 < |now.items| && now.items[0].key == was.items[0].key)
    && forall n :: FirstReal(now) <= n < |now.items| ==> HasReal(was, now.items[n].key)
  }

  lemma LinkAfter(c: Config, f: File, f': File, p: Page, o: nat)
    requires |f'| == |f| && FirstData(p) <= o < |p.items| && HealthyLink(c, f, p, o)
    requires NoWider(f[p.items[o].link], f'[p.items[o].link])
    ensures HealthyLink(c, f', p, o)
  {
    hide Before, UpperBound;
    var was, now := f[p.items[o].link], f'[p.items[o].link];
    if FirstData(p) < o {
      forall n | FirstReal(now) <= n < |now.items| ensures Before(c, p.items[o].key, now.items[n].key) {
        assert HasReal(was, now.items[n].key);
      var m: nat :| FirstReal(was) <= m < |was.items| && was.items[m].key == now.items[n].key;
      }
    }
  }

  /** Two levels further up. */
  lemma PairAbove(c: Config, f: File, f': File, blocks: seq<BlockNumber>, kids: seq<BlockNumber>)
    requires HealthyPair(c, f, blocks, kids) && |f'| == |f|
    requires forall n :: 0 <= n < |blocks| ==> blocks[n] < |f| && f'[blocks[n]] == f[blocks[n]]
    requires forall n :: 0 <= n < |blocks| ==> !f[blocks[n]].halfDead
    requires forall n :: 0 <= n < |kids| ==> kids[n] < |f| && NoWider(f[kids[n]], f'[kids[n]])
    ensures HealthyPair(c, f', blocks, kids)
  {
    hide HealthyLink, NoWider, Downlinks;
    Untouched(f, f', blocks);
    forall i, o | 0 <= i < |blocks| && FirstData(f[blocks[i]]) <= o < |f[blocks[i]].items|
      ensures HealthyLink(c, f', f[blocks[i]], o)
    {
      IsADownlink(f, blocks, i, o);
      LinkAfter(c, f, f', f[blocks[i]], o);
    }
  }

  lemma SameIsNoWider(p: Page)
    ensures NoWider(p, p)
  {
    forall n | FirstReal(p) <= n < |p.items| ensures HasReal(p, p.items[n].key) {
    }
  }

  lemma ParentIsNoWider(c: Config, p: Page, next: BlockNumber, number: nat)
    requires HealthyPage(c, p, number) && number > 0 && FirstData(p) + 1 < |p.items|
    ensures NoWider(p, Shrunk(p, FirstData(p), next))
  {
    hide HealthyPage, Shrunk, Reals;
    ParentAfter(c, p, next, number);
    var q := Shrunk(p, FirstData(p), next);
    LeafByNumber(c, p, number);
    forall n | FirstReal(q) <= n < |q.items| ensures HasReal(p, q.items[n].key) {
      assert p.items[n + 1].key == q.items[n].key;
    }
  }

  /** The links of the parent itself. */
  lemma ParentLinkAfter(c: Config, f: File, f': File, p: Page, o: nat, next: BlockNumber)
    requires |f'| == |f| && FirstData(p) + 1 < |p.items| && p.items[FirstData(p) + 1].link == next
    requires var q := Shrunk(p, FirstData(p), next);
             FirstData(q) <= o < |q.items| && o + 1 < |p.items| && HealthyLink(c, f, p, o + 1)
    requires f'[p.items[o + 1].link] == f[p.items[o + 1].link]
    ensures HealthyLink(c, f', Shrunk(p, FirstData(p), next), o)
  {
    hide Before;
    var q := Shrunk(p, FirstData(p), next);
    assert q.items[o].link == p.items[o + 1].link;
    assert o > FirstData(p) ==> q.items[o] == p.items[o + 1];
    assert o + 1 < |q.items| ==> q.items[o + 1] == p.items[o + 2];
    assert !Rightmost(p) ==> q.items[0] == p.items[0];
  }

  /** The first leaf is the one beneath the first downlink. */
  ghost predicate FirstLeaf(c: Config, f: File, levels: seq<seq<BlockNumber>>, b: BlockNumber) {
    && Healthy(c, f, levels) && |levels| >= 2 && Parents(levels) != [] && Leaves(levels) != []
    && b == Leaves(levels)[0] && Parents(levels)[0] < |f|
    && Deletable(f, Parents(levels)[0], FirstData(f[Parents(levels)[0]]), b)
  }

  ghost function WithoutFirst(c: Config, f: File, levels: seq<seq<BlockNumber>>, b: BlockNumber): (r: File)
    requires FirstLeaf(c, f, levels, b)
    ensures |r| == |f|
  {
    MarkHalfDead(f, Parents(levels)[0], FirstData(f[Parents(levels)[0]]), b)
  }

  function LevelsWithoutFirst(levels: seq<seq<BlockNumber>>): (r: seq<seq<BlockNumber>>)
    requires |levels| >= 2 && Leaves(levels) != []
    ensures |r| == |levels| && r[|r| - 1] == Leaves(levels)[1..]
    ensures forall k :: 0 <= k < |r| - 1 ==> r[k] == levels[k]
  {
    levels[..|levels| - 1] + [Leaves(levels)[1..]]
  }

  lemma AllLevels(c: Config, f: File, levels: seq<seq<BlockNumber>>, k: nat)
    requires Healthy(c, f, levels) && k < |levels|
    ensures HealthyLevel(c, f, levels[k], |levels| - 1 - k)
    ensures k > 0 ==> HealthyPair(c, f, levels[k - 1], levels[k])
    ensures levels[k] != [] && Chain(f, levels[k][0], levels[k]) && Distinct(levels[k])
    ensures forall n :: 0 <= n < |levels[k]| ==>
              && 0 < levels[k][n] < |f| && !f[levels[k][n]].halfDead && f[levels[k][n]].level == |levels| - 1 - k
              && (f[levels[k][n]].leaf <==> k == |levels| - 1)
  {
    hide HealthyLevel, HealthyPair;
    PagesOf(c, f, levels[k], |levels| - 1 - k);
  }

  lemma LevelAfter(c: Config, f: File, levels: seq<seq<BlockNumber>>, b: BlockNumber, k: nat)
    requires FirstLeaf(c, f, levels, b) && k < |levels|
    ensures HealthyLevel(c, WithoutFirst(c, f, levels, b), LevelsWithoutFirst(levels)[k], |levels| - 1 - k)
  {
    hide HealthyLevel, HealthyPair, Healthy, MarkHalfDead;
    var parents, kids := Parents(levels), Leaves(levels);
    AllLevels(c, f, levels, k);
    AllLevels(c, f, levels, |levels| - 2);
    AllLevels(c, f, levels, |levels| - 1);
    assert kids[0] == b;
    if k == |levels| - 1 {
      LeavesAfter(c, f, kids, parents[0], FirstData(f[parents[0]]));
    } else if k == |levels| - 2 {
      ParentsAfter(c, f, parents, 1, b);
    } else {
      OtherLevelAfter(c, f, levels[k], |levels| - 1 - k, parents[0], FirstData(f[parents[0]]), b);
    }
  }

  lemma PairAfter(c: Config, f: File, levels: seq<seq<BlockNumber>>, b: BlockNumber, k: nat)
    requires FirstLeaf(c, f, levels, b) && 0 < k < |levels| - 1
    ensures HealthyPair(c, WithoutFirst(c, f, levels, b), levels[k - 1], levels[k])
  {
    hide HealthyLevel, HealthyPair, Healthy, NoWider, Shrunk;
    var parents, f' := Parents(levels), WithoutFirst(c, f, levels, b);
    var parent := parents[0];
    AllLevels(c, f, levels, k - 1);
    AllLevels(c, f, levels, k);
    AllLevels(c, f, levels, |levels| - 2);
    forall n | 0 <= n < |levels[k]| ensures NoWider(f[levels[k][n]], f'[levels[k][n]]) {
      if levels[k][n] == parent {
        ParentPage(c, f, parents);
        ParentIsNoWider(c, f[parent], f[b].next, 1);
      } else {
        SameIsNoWider(f[levels[k][n]]);
      }
    }
    PairAbove(c, f, f', levels[k - 1], levels[k]);
  }

  lemma ParentPage(c: Config, f: File, parents: seq<BlockNumber>)
    requires HealthyLevel(c, f, parents, 1)
    ensures parents != [] && parents[0] < |f| && HealthyPage(c, f[parents[0]], 1)
  {
    hide Sorted, LiveReals, Bounds, FirstOfLevel, HealthyPage;
  }

  lemma LastPairAfter(c: Config, f: File, levels: seq<seq<BlockNumber>>, b: BlockNumber)
    requires FirstLeaf(c, f, levels, b)
    ensures HealthyPair(c, WithoutFirst(c, f, levels, b), Parents(levels), Leaves(levels)[1..])
  {
    hide HealthyLevel, Healthy, HealthyLink, Shrunk, Downlinks, NoWider, Chain;
    var parents, kids, f' := Parents(levels), Leaves(levels), WithoutFirst(c, f, levels, b);
    var p := f[parents[0]];
    AllLevels(c, f, levels, |levels| - 2);
    AllLevels(c, f, levels, |levels| - 1);
    assert kids[0] == b;
    DownlinksAfterFirst(f, parents, FirstData(p), b);
    assert kids[..0] + kids[1..] == kids[1..];
    forall i, o | 0 <= i < |parents| && FirstData(f'[parents[i]]) <= o < |f'[parents[i]].items|
      ensures HealthyLink(c, f', f'[parents[i]], o)
    {
      IsADownlink(f', parents, i, o);
      var d := f'[parents[i]].items[o].link;
      assert d != b && !f[parents[0]].leaf && f[d].leaf && f'[d] == f[d];
      if i == 0 {
        ShrunkItems(p, f[b].next, o);
        ParentLinkAfter(c, f, f', p, o, f[b].next);
      } else {
        assert f'[parents[i]] == f[parents[i]];
        SameIsNoWider(f[d]);
        LinkAfter(c, f, f', f[parents[i]], o);
      }
    }
  }

  lemma ShrunkItems(p: Page, next: BlockNumber, o: nat)
    requires FirstData(p) + 1 < |p.items| && p.items[FirstData(p) + 1].link == next
    requires FirstData(p) <= o < |Shrunk(p, FirstData(p), next).items|
    ensures o + 1 < |p.items| && Shrunk(p, FirstData(p), next).items[o].link == p.items[o + 1].link
  {
  }

  /** Without its first leaf, the index is still a healthy one. */
  lemma FirstLeafLeavesHealthy(c: Config, f: File, levels: seq<seq<BlockNumber>>, b: BlockNumber)
    requires FirstLeaf(c, f, levels, b)
    ensures Healthy(c, WithoutFirst(c, f, levels, b), LevelsWithoutFirst(levels))
  {
    hide HealthyLevel, HealthyPair, Deletable, MarkHalfDead;
    var f', levels' := WithoutFirst(c, f, levels, b), LevelsWithoutFirst(levels);
    forall k | 0 <= k < |levels| ensures HealthyLevel(c, f', levels'[k], |levels| - 1 - k) {
      LevelAfter(c, f, levels, b, k);
    }
    forall k | 0 < k < |levels| ensures HealthyPair(c, f', levels'[k - 1], levels'[k]) {
      if k < |levels| - 1 {
        PairAfter(c, f, levels, b, k);
      } else {
        LastPairAfter(c, f, levels, b);
      }
    }
    RootStays(c, f, levels, b);
  }

  lemma RootStays(c: Config, f: File, levels: seq<seq<BlockNumber>>, b: BlockNumber)
    requires FirstLeaf(c, f, levels, b)
    ensures WithoutFirst(c, f, levels, b)[levels[0][0]].root
  {
    hide HealthyLevel, HealthyPair, Shrunk;
  }

  /** The main result on interrupted deletions. For every healthy index and each of its leaves that may
      be taken out: after the first stage, which leaves a sound index, the verifier passes it if and
      only if the leaf was the first one of all. */
  lemma InterruptedExactly(c: Config, f: File, levels: seq<seq<BlockNumber>>, i: nat, o: nat, b: BlockNumber, fuel: nat)
    requires Candidate(c, f, levels, i, o, b) && fuel >= |f|
    ensures CheckEveryLevel(c, Halfway(c, f, levels, i, o, b), Level(levels[0][0], |levels| - 1, true), fuel) == Pass
       <==> Leaves(levels) != [] && b == Leaves(levels)[0]
  {
    hide HealthyLevel, HealthyPair, CheckEveryLevel, Deletable, MarkHalfDead;
    var start := Level(levels[0][0], |levels| - 1, true);
    AllLevels(c, f, levels, |levels| - 1);
    if b != Leaves(levels)[0] {
      DescendsToParents(c, f, levels, i, o, b, 0, start, fuel);
    } else {
      var j := LeafTakenOut(c, f, levels, i, o, b);
      assert j == 0;
      assert FirstLeaf(c, f, levels, b) && Halfway(c, f, levels, i, o, b) == WithoutFirst(c, f, levels, b);
      FirstLeafLeavesHealthy(c, f, levels, b);
      HealthyIndexPasses(c, WithoutFirst(c, f, levels, b), LevelsWithoutFirst(levels), fuel);
    }
  }

  // ---------------------------------------------------------------- an example

  const C := Config(1, true)

  /** Two levels and three leaves, of which the middle one is empty. */
  const THREE: File := [BLANK.(meta := true),
                        BLANK.(leaf := false, root := true, level := 1,
                               items := [Tuple([], 2), Tuple([3], 3), Tuple([5], 4)]),
                        BLANK.(next := 3, items := [Tuple([3], 0), Tuple([1, 1], 0)]),
                        BLANK.(prev := 2, next := 4, items := [Tuple([5], 0)]),
                        BLANK.(prev := 3, items := [Tuple([7, 1], 0)])]

  lemma ThreeOrder()
    ensures Less([3], [5]) && Less([1, 1], [7, 1]) && Less([1, 1], [3]) && Less([5], [7, 1])
  {
  }

  lemma ThreeReals()
    ensures Reals(THREE[1]) == [[3], [5]] && PageLinks(THREE[1]) == [2, 3, 4]
    ensures Reals(THREE[2]) == [[1, 1]] && Reals(THREE[3]) == [] && Reals(THREE[4]) == [[7, 1]]
  {
  }

  lemma ThreeUpper()
    ensures HealthyLevel(C, THREE, [1], 1)
  {
    hide Reals, Less;
    ThreeReals();
    ThreeOrder();
    assert LeadsToNone(THREE, 1, [1]);
    assert [1][1..] == [];
    assert LiveReals(THREE, [1]) == [[3], [5]] + [];
  }

  lemma ThreeLeaves()
    ensures LiveReals(THREE, [2, 3, 4]) == [[1, 1], [7, 1]]
  {
    hide Reals;
    ThreeReals();
    assert [2, 3, 4][1..] == [3, 4] && [3, 4][1..] == [4] && [4][1..] == [];
    assert LiveReals(THREE, [4]) == [[7, 1]] + [];
    assert LiveReals(THREE, [3, 4]) == [] + LiveReals(THREE, [4]);
    assert LiveReals(THREE, [2, 3, 4]) == [[1, 1]] + LiveReals(THREE, [3, 4]);
  }

  lemma ThreeLower()
    ensures HealthyLevel(C, THREE, [2, 3, 4], 0)
  {
    hide Reals, LiveReals, Less;
    ThreeLeaves();
    ThreeOrder();
    assert LeadsToNone(THREE, 2, [2]);
  }

  lemma ThreePair()
    ensures HealthyPair(C, THREE, [1], [2, 3, 4])
  {
    hide PageLinks, Less;
    ThreeReals();
    ThreeOrder();
    assert [1][1..] == [];
    assert Downlinks(THREE, [1]) == [2, 3, 4] + [];
  }

  /** The index is healthy and passes; when the deletion of its empty leaf has been interrupted, it is
      reported. */
  lemma EmptyLeafReported(fuel: nat)
    requires fuel >= 5
    ensures Candidate(C, THREE, [[1], [2, 3, 4]], 0, 1, 3)
    ensures CheckEveryLevel(C, THREE, Level(1, 1, true), fuel) == Pass
    ensures CheckEveryLevel(C, Halfway(C, THREE, [[1], [2, 3, 4]], 0, 1, 3), Level(1, 1, true), fuel) != Pass
  {
    hide HealthyLevel, HealthyPair, CheckEveryLevel, MarkHalfDead;
    ThreeUpper();
    ThreeLower();
    ThreePair();
    var levels: seq<seq<BlockNumber>> := [[1], [2, 3, 4]];
    assert Healthy(C, THREE, levels);
    assert Deletable(THREE, 1, 1, 3);
    HealthyIndexPasses(C, THREE, levels, fuel);
    InterruptedExactly(C, THREE, levels, 0, 1, 3, fuel);
  }
}
