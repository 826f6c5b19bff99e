/** The heap verifier's check of one transaction id, against a cached range that may be stale. */
module HeapStatus {
  import opened Integers
  import opened Outcomes
  import opened HeapXid

  datatype Bounds = BoundsOk | Invalid | InFuture | PrecedesClusterMin | PrecedesRelMin

  datatype Commit = Committed | IsCurrent | InProgress | Aborted

  /** What the cluster's shared memory says at the time of a call. */
  datatype Cluster = Cluster(next: FullXid, oldest: Xid, oldestClog: Xid, status: Xid -> Commit)

  predicate InRange(f: FullXid, oldest: FullXid, next: FullXid) {
    oldest <= f < next
  }

  function Compare(f: FullXid, oldest: FullXid, next: FullXid, relfrozen: FullXid): Bounds {
    if next <= f then InFuture
    else if f < oldest then PrecedesClusterMin
    else if f < relfrozen then PrecedesRelMin
    else BoundsOk
  }

  /** The outcome for an id, given the cached range and the one that would replace it. */
  function Judged(xid: Xid, oldest: FullXid, next: FullXid,
                  newOldest: FullXid, newNext: FullXid, relfrozen: FullXid): Bounds
    requires Normal(Low(next)) && Normal(Low(newNext))
  {
    if xid == 0 then Invalid
    else if !Normal(xid) then BoundsOk
    else if InRange(Widen(xid, next), oldest, next) then Compare(Widen(xid, next), oldest, next, relfrozen)
    else Compare(Widen(xid, newNext), newOldest, newNext, relfrozen)
  }

  class HeapCheckContext {
    var nextFxid: FullXid
    var nextXid: Xid
    var oldestXid: Xid
    var oldestFxid: FullXid
    var relfrozenFxid: FullXid
    var cachedXid: Xid
    var cachedStatus: Commit

    predicate Valid()
      reads this
    {
      nextXid == Low(nextFxid) && Normal(nextXid)
    }

    /** The part of verify_heapam's set-up that concerns transaction ids. The oldest id becomes
        the table's, but the full id that the range begins with stays the cluster's. */
    constructor (cluster: Cluster, relfrozenxid: Xid)
      requires Normal(Low(cluster.next))
      ensures Valid() && nextFxid == cluster.next && cachedXid == 0
      ensures oldestFxid == Widen(cluster.oldest, cluster.next)
      ensures relfrozenFxid == Widen(relfrozenxid, cluster.next)
      ensures oldestXid == if Normal(relfrozenxid) then relfrozenxid else cluster.oldest
    {
      cachedXid, cachedStatus := 0, Committed;
      new;
      UpdateCachedXidRange(cluster);
      relfrozenFxid := Widen(relfrozenxid, nextFxid);
      if Normal(relfrozenxid) {
        oldestXid := relfrozenxid;
      }
    }

    method UpdateCachedXidRange(cluster: Cluster)
      requires Normal(Low(cluster.next))
      modifies `nextFxid, `oldestXid, `nextXid, `oldestFxid
      ensures Valid() && nextFxid == cluster.next && oldestXid == cluster.oldest
      ensures oldestFxid == Widen(cluster.oldest, cluster.next)
    {
      nextFxid := cluster.next;
      oldestXid := cluster.oldest;
      nextXid := Low(nextFxid);
      oldestFxid := Widen(oldestXid, nextFxid);
    }

    /** get_xid_status. The range is read anew exactly if the id is outside the cached one. The
        commit status, if wanted, is that of the previous call for the same id; otherwise it is
        looked up, except that ids older than the commit log count as committed. */
    method GetXidStatus(xid: Xid, cluster: Cluster, wanted: bool) returns (bounds: Bounds, status: Option<Commit>)
      requires Valid() && Normal(Low(cluster.next))
      modifies this
      ensures Valid() && relfrozenFxid == old(relfrozenFxid)
      ensures bounds == Judged(xid, old(oldestFxid), old(nextFxid),
                               Widen(cluster.oldest, cluster.next), cluster.next, relfrozenFxid)
      ensures if Normal(xid) && !InRange(Widen(xid, old(nextFxid)), old(oldestFxid), old(nextFxid))
              then && nextFxid == cluster.next && oldestXid == cluster.oldest
                   && oldestFxid == Widen(cluster.oldest, cluster.next)
              else nextFxid == old(nextFxid) && oldestXid == old(oldestXid) && oldestFxid == old(oldestFxid)
      ensures status.Some? <==> wanted && bounds.BoundsOk?
      ensures status.Some? ==>
                status.value == if !Normal(xid) then Committed
                                else if xid == old(cachedXid) then old(cachedStatus)
                                else if Widen(cluster.oldestClog, nextFxid) <= Widen(xid, nextFxid) then
                                  cluster.status(xid)
                                else Committed
      ensures if status.Some? && Normal(xid) then cachedXid == xid && cachedStatus == status.value
              else cachedXid == old(cachedXid) && cachedStatus == old(cachedStatus)
    {
      hide Widen;
      if xid == 0 {
        return Invalid, None;
      } else if !Normal(xid) {
        return BoundsOk, if wanted then Some(Committed) else None;
      }
      var fxid := Widen(xid, nextFxid);
      if !InRange(fxid, oldestFxid, nextFxid) {
        UpdateCachedXidRange(cluster);
        fxid := Widen(xid, nextFxid);
      }
      bounds := Compare(fxid, oldestFxid, nextFxid, relfrozenFxid);
      if bounds != BoundsOk || !wanted {
        return bounds, None;
      }
      if xid == cachedXid {
        return BoundsOk, Some(cachedStatus);
      }
      var commit := Committed;
      if Widen(cluster.oldestClog, nextFxid) <= fxid {
        commit := cluster.status(xid);
      }
      cachedXid, cachedStatus := xid, commit;
      return BoundsOk, Some(commit);
    }
  }

  // ---------------------------------------------------------------- what the outcome means

  /** For the low bits of a full id near both next ids, the outcome is that of comparing the
      full id itself with the two ranges and with the table's oldest id. */
  lemma JudgedAsFullId(f: FullXid, oldest: FullXid, next: FullXid,
        newOldest: FullXid, newNext: FullXid, relfrozen: FullXid)
    requires Normal(Low(next)) && Normal(Low(newNext)) && Normal(Low(f))
    requires Near(f, next) && Near(f, newNext)
    ensures Judged(Low(f), oldest, next, newOldest, newNext, relfrozen)
         == if InRange(f, oldest, next) || InRange(f, newOldest, newNext)
            then (if f < relfrozen then PrecedesRelMin else BoundsOk)
            else (if newNext <= f then InFuture else PrecedesClusterMin)
  {
    hide Widen, Low;
    WideningUndoesTruncation(f, next);
    WideningUndoesTruncation(f, newNext);
  }

  /** The ids that are not normal: the invalid one is reported, and the bootstrap and frozen ones
      pass, whatever the ranges are. */
  lemma SpecialIds(oldest: FullXid, next: FullXid, newOldest: FullXid, newNext: FullXid, relfrozen: FullXid)
    requires Normal(Low(next)) && Normal(Low(newNext))
    ensures Judged(0, oldest, next, newOldest, newNext, relfrozen) == Invalid
    ensures Judged(1, oldest, next, newOldest, newNext, relfrozen) == BoundsOk
    ensures Judged(2, oldest, next, newOldest, newNext, relfrozen) == BoundsOk
  {
  }

  /** An id that may occur in the table passes if and only if the stale range, should it take
      the id's low bits for one of its own, does not take them for one too old for the table. */
  lemma ValidIdPassesExactly(f: FullXid, oldest: FullXid, next: FullXid,
        newOldest: FullXid, newNext: FullXid, relfrozen: FullXid)
    requires Normal(Low(next)) && Normal(Low(newNext)) && Normal(Low(f))
    requires newOldest <= f < newNext < newOldest + TWO_31 && relfrozen <= f
    ensures Judged(Low(f), oldest, next, newOldest, newNext, relfrozen) == BoundsOk
       <==> (InRange(Widen(Low(f), next), oldest, next) ==> relfrozen <= Widen(Low(f), next))
  {
    hide Widen, Low;
    WideningUndoesTruncation(f, newNext);
  }

  /** No false alarm: an id that may occur in the table passes, however stale the cached range
      is, as long as fewer than 2^31 ids have been assigned since its oldest one. During a run
      that is so, because the snapshot taken before the range was first read holds the
      cluster's oldest id back. */
  lemma ValidIdPasses(f: FullXid, oldest: FullXid, next: FullXid,
        newOldest: FullXid, newNext: FullXid, relfrozen: FullXid)
    requires Normal(Low(next)) && Normal(Low(newNext)) && Normal(Low(f))
    requires oldest <= next <= newNext < oldest + TWO_31 && oldest <= newOldest
    requires newOldest <= f < newNext && relfrozen <= f
    ensures Judged(Low(f), oldest, next, newOldest, newNext, relfrozen) == BoundsOk
  {
    hide Widen, Low, Judged;
    JudgedAsFullId(f, oldest, next, newOldest, newNext, relfrozen);
  }

  /** No missed alarm: an id that is neither in the cached range nor in the new one, or that
      is older than the table allows, is reported. */
  lemma BadIdIsReported(f: FullXid, oldest: FullXid, next: FullXid,
        newOldest: FullXid, newNext: FullXid, relfrozen: FullXid)
    requires Normal(Low(next)) && Normal(Low(newNext)) && Normal(Low(f))
    requires Near(f, next) && Near(f, newNext)
    requires (!InRange(f, oldest, next) && !InRange(f, newOldest, newNext)) || f < relfrozen
    ensures Judged(Low(f), oldest, next, newOldest, newNext, relfrozen) != BoundsOk
  {
    hide Widen, Low, Judged;
    JudgedAsFullId(f, oldest, next, newOldest, newNext, relfrozen);
  }

  /** The bound on staleness cannot be left out of ValidIdPasses: with a range that is 2^32 ids
      old, older than any run can have, a valid id is taken for one of the cached range and
      reported as too old for the table. */
  lemma VeryStaleRangeFailsValidId()
    ensures var f: FullXid := TWO_32 + 50;
            InRange(f, TWO_32 + 10, TWO_32 + 60)
            && Judged(Low(f), 3, 100, TWO_32 + 10, TWO_32 + 60, 60) == PrecedesRelMin
  {
    WideningUndoesTruncation(50, 100);
  }
}
