/** The walk to the left over half-dead pages that decides whether a page is leftmost. */
module BtreeLeftmost {
  import opened Outcomes
  import opened BtreePage

  /** A step to the left is accepted: the page reached is half-dead and agrees that the page
      it was reached from is its right sibling. */
  predicate AcceptedStep(f: File, start: BlockNumber, from: BlockNumber, reached: BlockNumber) {
    && ReadPage(f, reached).Success?
    && f[reached].halfDead
    && reached != start
    && reached != from
    && f[reached].next == from
  }

  /** The blocks visited so far, the starting one first. */
  predicate LeftChain(f: File, chain: seq<BlockNumber>) {
    && chain != []
    && (forall i :: 0 <= i < |chain| ==> chain[i] < |f|)
    && (forall i :: 0 <= i < |chain| - 1 ==>
          chain[i + 1] == f[chain[i]].prev && AcceptedStep(f, chain[0], chain[i], chain[i + 1]))
  }

  predicate Distinct<T(==)>(s: seq<T>) {
    forall i, j :: 0 <= i < j < |s| ==> s[i] != s[j]
  }

  /** No block repeats on a chain of accepted steps, whatever the links say: the right link of
      a repeated block would have to name two different pages. */
  lemma {:induction false} NoRepeat(f: File, chain: seq<BlockNumber>, i: nat, j: nat)
    requires LeftChain(f, chain) && i < j < |chain|
    ensures chain[i] != chain[j]
    decreases i
  {
    assert chain[(j - 1) + 1] == chain[j];
    assert AcceptedStep(f, chain[0], chain[j - 1], chain[j]);
    if i > 0 {
      assert AcceptedStep(f, chain[0], chain[i - 1], chain[(i - 1) + 1]);
      NoRepeat(f, chain, i - 1, j - 1);
    }
  }

  lemma {:induction false} DistinctFit(s: seq<BlockNumber>, n: nat)
    requires Distinct(s) && forall i :: 0 <= i < |s| ==> s[i] < n
    ensures |s| <= n
  {
    if n == 0 {
    } else if exists k :: 0 <= k < |s| && s[k] == n - 1 {
      var k :| 0 <= k < |s| && s[k] == n - 1;
      var rest := s[..k] + s[k + 1..];
      forall i | 0 <= i < |rest| ensures rest[i] < n - 1 {
        assert rest[i] == s[if i < k then i else i + 1];
      }
      assert Distinct(rest) by {
        forall i, j | 0 <= i < j < |rest| ensures rest[i] != rest[j] {
          assert rest[i] == s[if i < k then i else i + 1];
          assert rest[j] == s[if j < k then j else j + 1];
        }
      }
      DistinctFit(rest, n - 1);
    } else {
      DistinctFit(s, n - 1);
    }
  }

  /** So a chain is never longer than the file: the bound on which the walk terminates. */
  lemma ChainFits(f: File, chain: seq<BlockNumber>)
    requires LeftChain(f, chain)
    ensures Distinct(chain) && |chain| <= |f|
  {
    forall i, j | 0 <= i < j < |chain| ensures chain[i] != chain[j] {
      NoRepeat(f, chain, i, j);
    }
    DistinctFit(chain, |f|);
  }

  lemma ExtendChain(f: File, chain: seq<BlockNumber>, reached: BlockNumber)
    requires LeftChain(f, chain) && reached == f[chain[|chain| - 1]].prev
    requires AcceptedStep(f, chain[0], chain[|chain| - 1], reached)
    ensures LeftChain(f, chain + [reached])
  {
    var c := chain + [reached];
    forall i | 0 <= i < |c| - 1
      ensures c[i + 1] == f[c[i]].prev && AcceptedStep(f, c[0], c[i], c[i + 1])
    {
      if i < |chain| - 1 {
        assert chain[i + 1] == f[chain[i]].prev;
      }
    }
  }

  /** The rest of the walk once `chain` has been visited. */
  function LeftWalk(f: File, chain: seq<BlockNumber>): Result<bool, Error>
    requires LeftChain(f, chain)
    decreases |f| - |chain|
  {
    ChainFits(f, chain);
    var from := chain[|chain| - 1];
    var reached := f[from].prev;
    if reached == P_NONE then Success(true)
    else
      var _ :- ReadPage(f, reached);
      if AcceptedStep(f, chain[0], from, reached) then
        ExtendChain(f, chain, reached);
        ChainFits(f, chain + [reached]);
        LeftWalk(f, chain + [reached])
      else Success(false)
  }

  function LeftmostIgnoringHalfDead(f: File, start: BlockNumber): Result<bool, Error>
    requires start < |f|
  {
    LeftWalk(f, [start])
  }

  /** The chain runs from `start` left to the end of the level. */
  ghost predicate LeadsToNone(f: File, start: BlockNumber, chain: seq<BlockNumber>) {
    && LeftChain(f, chain)
    && chain[0] == start
    && f[chain[|chain| - 1]].prev == P_NONE
  }

  lemma {:induction false} WalkFindsChain(f: File, chain: seq<BlockNumber>) returns (full: seq<BlockNumber>)
    requires LeftChain(f, chain) && LeftWalk(f, chain) == Success(true)
    ensures LeadsToNone(f, chain[0], full)
    decreases |f| - |chain|
  {
    ChainFits(f, chain);
    var reached := f[chain[|chain| - 1]].prev;
    if reached == P_NONE {
      full := chain;
    } else {
      ExtendChain(f, chain, reached);
      ChainFits(f, chain + [reached]);
      full := WalkFindsChain(f, chain + [reached]);
    }
  }

  lemma {:induction false} ChainMakesWalkSucceed(f: File, full: seq<BlockNumber>, n: nat)
    requires 0 < n <= |full| && LeftChain(f, full) && LeadsToNone(f, full[0], full)
    ensures LeftChain(f, full[..n]) && LeftWalk(f, full[..n]) == Success(true)
    decreases |full| - n
  {
    var chain := full[..n];
    assert LeftChain(f, chain) by {
      forall i | 0 <= i < |chain| - 1
        ensures chain[i + 1] == f[chain[i]].prev && AcceptedStep(f, chain[0], chain[i], chain[i + 1])
      {
        assert full[i + 1] == f[full[i]].prev;
      }
    }
    if n == |full| {
      assert chain == full;
    } else {
      assert full[(n - 1) + 1] == f[full[n - 1]].prev;
      assert full[..n + 1] == chain + [full[n]];
      ChainMakesWalkSucceed(f, full, n + 1);
      if full[n] == P_NONE {
        assert LeftWalk(f, chain) == Success(true);
      }
    }
  }

  /** The walk answers yes exactly when a chain of agreeing half-dead pages leads left from
      the starting page to the end of the level. */
  lemma LeftmostExactly(f: File, start: BlockNumber)
    requires start < |f|
    ensures LeftmostIgnoringHalfDead(f, start) == Success(true) <==>
            exists chain :: LeadsToNone(f, start, chain)
  {
    if LeftmostIgnoringHalfDead(f, start) == Success(true) {
      var full := WalkFindsChain(f, [start]);
    }
    if exists chain :: LeadsToNone(f, start, chain) {
      var full :| LeadsToNone(f, start, full);
      ChainMakesWalkSucceed(f, full, 1);
      assert full[..1] == [start];
    }
  }
}
