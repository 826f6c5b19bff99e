/** Right links of a B-tree file, followed from one block on: where they end, and that then no
    block repeats. */
module BtreeChain {
  import opened BtreePage
  import opened BtreeLeftmost

  /** Following exactly `n` right links from `b` leads out of the file: to no block, or to one
      that cannot be read. */
  predicate EndsAfter(f: File, b: BlockNumber, n: nat)
    decreases n
  {
    if b == P_NONE || b >= |f| then n == 0 else n > 0 && EndsAfter(f, f[b].next, n - 1)
  }

  ghost predicate Ends(f: File, b: BlockNumber) {
    exists n: nat :: EndsAfter(f, b, n)
  }

  lemma {:induction false} EndsAfterOne(f: File, b: BlockNumber, m: nat, n: nat)
    requires EndsAfter(f, b, m) && EndsAfter(f, b, n)
    ensures m == n
    decreases m
  {
    if m > 0 {
      EndsAfterOne(f, f[b].next, m - 1, n - 1);
    }
  }

  /** The blocks met on the way. */
  function Path(f: File, b: BlockNumber, n: nat): (path: seq<BlockNumber>)
    requires EndsAfter(f, b, n)
    ensures |path| == n
    ensures forall i :: 0 <= i < n ==> path[i] < |f| && EndsAfter(f, path[i], n - i)
    decreases n
  {
    if n == 0 then [] else [b] + Path(f, f[b].next, n - 1)
  }

  /** Right links that end do so within as many steps as the file has blocks: a block's distance
      from the end tells it apart from all others on the way. */
  lemma EndsSoon(f: File, b: BlockNumber, n: nat)
    requires EndsAfter(f, b, n)
    ensures n <= |f| && Distinct(Path(f, b, n))
  {
    hide EndsAfter, Path;
    var path := Path(f, b, n);
    forall i, j | 0 <= i < j < n ensures path[i] != path[j] {
      if path[i] == path[j] {
        EndsAfterOne(f, path[i], n - i, n - j);
      }
    }
    DistinctFit(path, |f|);
  }

  lemma EndsBefore(f: File, b: BlockNumber)
    requires b < |f| && Ends(f, f[b].next)
    ensures Ends(f, b)
  {
    if b == P_NONE {
      assert EndsAfter(f, b, 0);
    } else {
      var n: nat :| EndsAfter(f, f[b].next, n);
      assert EndsAfter(f, b, n + 1);
    }
  }

  lemma EndsAtOnce(f: File, b: BlockNumber)
    requires b == P_NONE || b >= |f|
    ensures Ends(f, b)
  {
    assert EndsAfter(f, b, 0);
  }

  // ---------------------------------------------------------------- the blocks of a level

  /** The blocks of a level, from its first page to its rightmost one. */
  predicate Chain(f: File, start: BlockNumber, blocks: seq<BlockNumber>) {
    && blocks != []
    && blocks[0] == start
    && (forall i :: 0 <= i < |blocks| ==> 0 < blocks[i] < |f|)
    && (forall i :: 0 < i < |blocks| ==> f[blocks[i - 1]].next == blocks[i])
    && f[blocks[|blocks| - 1]].next == P_NONE
  }

  lemma ChainTail(f: File, start: BlockNumber, blocks: seq<BlockNumber>)
    requires Chain(f, start, blocks) && |blocks| > 1
    ensures Chain(f, f[start].next, blocks[1..])
  {
    var rest := blocks[1..];
    assert f[blocks[1 - 1]].next == blocks[1];
    forall i | 0 < i < |rest| ensures f[rest[i - 1]].next == rest[i] {
      assert f[blocks[(i + 1) - 1]].next == blocks[i + 1];
    }
  }

  lemma {:induction false} ChainFrom(f: File, start: BlockNumber, blocks: seq<BlockNumber>, i: nat)
    requires Chain(f, start, blocks) && i < |blocks|
    ensures Chain(f, blocks[i], blocks[i..])
    decreases i
  {
    if i > 0 {
      ChainTail(f, start, blocks);
      ChainFrom(f, f[start].next, blocks[1..], i - 1);
      assert blocks[1..][i - 1..] == blocks[i..];
    } else {
      assert blocks[0..] == blocks;
    }
  }

  lemma ChainGrows(f: File, b: BlockNumber, rest: seq<BlockNumber>)
    requires 0 < b < |f| && Chain(f, f[b].next, rest)
    ensures Chain(f, b, [b] + rest)
  {
  }

  lemma {:induction false} ChainEnds(f: File, start: BlockNumber, blocks: seq<BlockNumber>)
    requires Chain(f, start, blocks)
    ensures EndsAfter(f, start, |blocks|) && Path(f, start, |blocks|) == blocks
    decreases |blocks|
  {
    if |blocks| > 1 {
      ChainTail(f, start, blocks);
      ChainEnds(f, f[start].next, blocks[1..]);
      assert blocks == [start] + blocks[1..];
    } else {
      assert EndsAfter(f, P_NONE, 0);
      assert blocks == [start] + [];
    }
  }

  /** A level has only one list of blocks, no block is on it twice, and the metapage is not on
      it. */
  lemma ChainIsOne(f: File, start: BlockNumber, a: seq<BlockNumber>, b: seq<BlockNumber>)
    requires Chain(f, start, a) && Chain(f, start, b)
    ensures a == b && Distinct(a) && |a| < |f|
  {
    ChainEnds(f, start, a);
    ChainEnds(f, start, b);
    EndsAfterOne(f, start, |a|, |b|);
    EndsSoon(f, start, |a|);
    var withMeta := [P_NONE] + a;
    assert Distinct(withMeta);
    DistinctFit(withMeta, |f|);
  }

  lemma ChainFitsFile(f: File, start: BlockNumber, a: seq<BlockNumber>)
    requires Chain(f, start, a)
    ensures Distinct(a) && |a| < |f|
  {
    ChainIsOne(f, start, a, a);
  }
}
