/** The heap verifier's transaction ids: widening of 32-bit ids to 64 bits relative to the next
    id, and the check that an id may occur in the table. */
module HeapXid {
  import opened Integers

  type Xid = Uint32

  type FullXid = x: int | 0 <= x < 0x1_0000_0000_0000_0000

  const FIRST_NORMAL := 3  // 0 is invalid, 1 is the bootstrap id, 2 the frozen one

  predicate Normal(x: int) {
    x >= FIRST_NORMAL
  }

  /** XidFromFullTransactionId */
  function Low(f: FullXid): Xid {
    f % TWO_32
  }

  /** Unsigned 32-bit subtraction, then a cast to int32. */
  function Difference(a: Xid, b: Xid): Int32 {
    ToInt32(Wrap32(a - b))
  }

  /** The id lies before the first normal one of epoch 0. */
  predicate Clamped(xid: Xid, next: FullXid)
    requires Normal(Low(next))
  {
    var diff := Difference(Low(next), xid);
    Normal(xid) && diff > 0 && next - FIRST_NORMAL < diff
  }

  /** FullTransactionIdFromXidAndCtx; 64-bit subtraction wraps around. */
  function Widen(xid: Xid, next: FullXid): FullXid
    requires Normal(Low(next))
  {
    if !Normal(xid) then xid
    else if Clamped(xid, next) then FIRST_NORMAL
    else (next - Difference(Low(next), xid)) % TWO_64
  }

  // ---------------------------------------------------------------- what widening means

  /** Full ids that 32 bits tell apart, around `next`. */
  predicate Near(f: int, next: int) {
    next - (TWO_31 - 1) <= f <= next + TWO_31
  }

  lemma DifferenceCases(a: Xid, b: Xid)
    ensures Difference(a, b) == a - b || Difference(a, b) == a - b + TWO_32 || Difference(a, b) == a - b - TWO_32
  {
    assert Wrap32(a - b) == if a < b then a - b + TWO_32 else a - b;
  }

  lemma LowBits(q: int, r: Xid)
    ensures (q * TWO_32 + r) % TWO_32 == r
  {
  }

  /** The difference leads to the one id near `next` that has the low bits given. */
  lemma DifferenceIsNear(xid: Xid, next: FullXid, f: int)
    ensures Near(f, next) && f % TWO_32 == xid <==> f == next - Difference(Low(next), xid)
  {
    hide Difference, Low;
    DifferenceCases(Low(next), xid);
    var g := next - Difference(Low(next), xid);
    var q, r := next / TWO_32, f / TWO_32;
    LowIsRest(next);
    LowBits(q - 1, xid);
    LowBits(q, xid);
    LowBits(q + 1, xid);
    assert g % TWO_32 == xid;
    assert f == r * TWO_32 + f % TWO_32;
  }

  lemma LowIsRest(f: FullXid)
    ensures f == f / TWO_32 * TWO_32 + Low(f)
  {
  }

  lemma SmallMod(x: int)
    ensures 0 <= x < TWO_64 ==> x % TWO_64 == x
    ensures TWO_64 <= x < 2 * TWO_64 ==> x % TWO_64 == x - TWO_64
  {
  }

  lemma LowOfWrapped(x: int)
    requires TWO_64 <= x < 2 * TWO_64
    ensures (x - TWO_64) % TWO_32 == x % TWO_32
  {
    assert x == x / TWO_32 * TWO_32 + x % TWO_32;
    assert x - TWO_64 == (x / TWO_32 - TWO_32) * TWO_32 + x % TWO_32;
  }

  /** The parts of a widened id. */
  lemma WidenCases(xid: Xid, next: FullXid)
    requires Normal(Low(next)) && Normal(xid)
    ensures var g := next - Difference(Low(next), xid);
            && Near(g, next) && g % TWO_32 == xid
            && (Clamped(xid, next) <==> g < 0)
            && (g >= 0 ==> g >= xid)
            && (0 <= g < TWO_64 ==> Widen(xid, next) == g)
            && (g >= TWO_64 ==> Widen(xid, next) == g - TWO_64)
  {
    var g := next - Difference(Low(next), xid);
    DifferenceIsNear(xid, next, g);
    SmallMod(g);
    NotBelowLow(g);
    hide Difference;
  }

  lemma NotBelowLow(g: int)
    ensures g >= 0 ==> g >= g % TWO_32
    ensures g < 0 ==> g < FIRST_NORMAL
  {
  }

  /** Widening undoes truncation for exactly the ids near the next one, where at the end of all
      ids the numbering begins again. */
  lemma WideningUndoesTruncation(f: FullXid, next: FullXid)
    requires Normal(Low(next)) && Normal(Low(f))
    ensures Widen(Low(f), next) == f <==> Near(f, next) || Near(f + TWO_64, next)
  {
    hide Difference, Widen, Clamped;
    WidenCases(Low(f), next);
    DifferenceIsNear(Low(f), next, f);
    DifferenceIsNear(Low(f), next, f + TWO_64);
    LowOfWrapped(f + TWO_64);
    WidenedIsNormal(Low(f), next);
    FirstNormalIsNotClamped(next);
    assert Low(FIRST_NORMAL) == FIRST_NORMAL;
  }

  /** Ids that are clamped lie more than 2^31 above the next one. */
  lemma ClampedIsLarge(xid: Xid, next: FullXid)
    requires Normal(Low(next)) && Clamped(xid, next)
    ensures xid > next + TWO_31 && next < TWO_31
  {
    WidenCases(xid, next);
    var g := next - Difference(Low(next), xid);
    hide Difference, Widen, Clamped;
    assert -TWO_32 < g < 0;
    assert g % TWO_32 == g + TWO_32;
  }

  lemma FirstNormalIsNotClamped(next: FullXid)
    requires Normal(Low(next))
    ensures !Clamped(FIRST_NORMAL, next)
  {
    if Clamped(FIRST_NORMAL, next) {
      ClampedIsLarge(FIRST_NORMAL, next);
    }
  }

  /** A normal id stays normal; it keeps its low bits unless it is clamped, and that happens
      only in epoch 0. */
  lemma WidenedIsNormal(xid: Xid, next: FullXid)
    requires Normal(Low(next)) && Normal(xid)
    ensures Normal(Widen(xid, next))
    ensures if Clamped(xid, next) then Widen(xid, next) == FIRST_NORMAL && next < TWO_32
            else Low(Widen(xid, next)) == xid
  {
    WidenCases(xid, next);
    var g := next - Difference(Low(next), xid);
    if g >= TWO_64 {
      LowOfWrapped(g);
    }
    NotBelowLow(Widen(xid, next));
    if Clamped(xid, next) {
      ClampedIsLarge(xid, next);
    }
    hide Difference;
  }

  // ---------------------------------------------------------------- stale ranges

  /** Under every later next id, less than 2^31 above the oldest one of the range, the id still
      widens to the same value. */
  ghost predicate Stable(xid: Xid, oldest: FullXid, next: FullXid)
    requires Normal(Low(next))
  {
    forall later: FullXid :: next <= later < oldest + TWO_31 && Normal(Low(later)) ==>
      Widen(xid, later) == Widen(xid, next)
  }

  /** An id accepted against a stale range keeps its value, except exactly for ids that have
      been clamped: those turn into others as the next id advances. */
  lemma AcceptedIsStable(xid: Xid, oldest: FullXid, next: FullXid)
    requires Normal(Low(next)) && Normal(xid)
    requires oldest <= Widen(xid, next) < next < oldest + TWO_31
    ensures Stable(xid, oldest, next) <==> !Clamped(xid, next)
  {
    hide Clamped, Widen;
    if Clamped(xid, next) {
      ClampedMoves(xid, oldest, next);
    } else {
      forall later: FullXid | next <= later < oldest + TWO_31 && Normal(Low(later))
        ensures Widen(xid, later) == Widen(xid, next)
      {
        WidenedIsNormal(xid, next);
        WideningUndoesTruncation(Widen(xid, next), later);
      }
    }
  }

  /** Such an id: it stands for one before the first of epoch 0, so it is taken for the first
      normal one, which lies in the range. */
  lemma ClampedIsAccepted()
    ensures Normal(Low(5)) && Clamped(0x8000_000a, 5) && 3 <= Widen(0x8000_000a, 5) < 5
    ensures !Stable(0x8000_000a, 3, 5)
  {
    ClampedMoves(0x8000_000a, 3, 5);
  }

  lemma ClampedMoves(xid: Xid, oldest: FullXid, next: FullXid)
    requires Normal(Low(next)) && Clamped(xid, next)
    requires oldest <= Widen(xid, next) < next < oldest + TWO_31
    ensures !Stable(xid, oldest, next)
  {
    hide Clamped, Widen;
    ClampedIsLarge(xid, next);
    WidenedIsNormal(xid, next);
    var later: FullXid := oldest + TWO_31 - 1;
    assert Low(later) == later;
    if Clamped(xid, later) {
      ClampedIsLarge(xid, later);
    }
    WidenedIsNormal(xid, later);
    assert Low(FIRST_NORMAL) == FIRST_NORMAL;
  }
}
