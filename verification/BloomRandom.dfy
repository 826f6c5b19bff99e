/** The generator that spreads hashed values over a Bloom signature: Schrage's method for
    multiplying modulo 2^31 - 1 in 32-bit signed arithmetic. */
module BloomRandom {
  import opened Integers

  const M := 0x7fff_ffff  // 2^31 - 1

  predicate IsInt32(n: int) {
    -0x8000_0000 <= n <= 0x7fff_ffff
  }

  /** The state that a seed leads to. */
  function Seeded(seed: Uint32): int {
    TruncMod(ToInt32(seed), 0x7fff_fffe) + 1
  }

  /** The state that follows a state. */
  function Following(next: int): int {
    var x := 16807 * TruncMod(next, 127773) - 2836 * TruncDiv(next, 127773);
    if x < 0 then x + M else x
  }

  /** The generator's static variable and the functions that change it. */
  class Generator {
    var next: int

    constructor ()
      ensures next == 0
    {
      next := 0;
    }

    method Srand(seed: Uint32)
      modifies this
      ensures next == Seeded(seed) && -M < next < M
      ensures next == 0 <==> seed == 0xffff_ffff || seed == 0x8000_0001
    {
      SeedRange(seed);
      next := ToInt32(seed);
      next := TruncMod(next, 0x7fff_fffe) + 1;
    }

    /** Every intermediate result fits in 32 bits. */
    method Rand() returns (r: int)
      requires -M < next < M
      modifies this
      ensures next == Following(old(next)) && r == next - 1
    {
      RandInRange(next);
      var hi := TruncDiv(next, 127773);
      var lo := TruncMod(next, 127773);
      assert IsInt32(hi) && IsInt32(lo) && IsInt32(16807 * lo) && IsInt32(2836 * hi);
      var x := 16807 * lo - 2836 * hi;
      assert IsInt32(x);
      if x < 0 {
        x := x + M;
      }
      next := x;
      r := x - 1;
    }
  }

  lemma RandInRange(next: int)
    requires -M < next < M
    ensures var hi, lo := TruncDiv(next, 127773), TruncMod(next, 127773);
            && -127773 < lo < 127773 && -16807 <= hi <= 16807 && next == 127773 * hi + lo
            && -M < 16807 * lo - 2836 * hi < M
  {
  }

  lemma ModUnique(a: int, q: int, r: int)
    requires a == q * M + r && 0 <= r < M
    ensures a % M == r
  {
    assert a / M == q;
  }

  /** From every state but zero, the generator multiplies by 16807 modulo 2^31 - 1, and the new
      state lies in [1, 2^31 - 2], so the number returned lies in [0, 2^31 - 3]. This holds for
      the negative states that seeding can produce, too. */
  lemma FollowingIsProduct(next: int)
    requires -M < next < M && next != 0
    ensures Following(next) == 16807 * next % M
    ensures 1 <= Following(next) <= M - 1
  {
    RandInRange(next);
    var hi, lo := TruncDiv(next, 127773), TruncMod(next, 127773);
    var x := 16807 * lo - 2836 * hi;
    var f := Following(next);
    assert M == 127773 * 16807 + 2836;
    assert 16807 * next == hi * M + x;
    var q := if x < 0 then hi - 1 else hi;
    assert 16807 * next == q * M + f;
    ModUnique(16807 * next, q, f);
    if f == 0 {
      NotAMultiple(next, q);
    }
  }

  /** 16807 has an inverse modulo 2^31 - 1, so a state in range is never mapped to zero. */
  lemma NotAMultiple(next: int, q: int)
    requires -M < next < M && 16807 * next == q * M
    ensures next == 0
  {
    var inv := 1407677000;
    var k := 11017;
    assert inv * 16807 == k * M + 1;
    assert inv * (16807 * next) == (k * M + 1) * next;
    assert inv * (q * M) == (inv * q) * M;
    assert next == (inv * q - k * next) * M;
  }

  /** The two seeds that leave the generator at zero, where it stays. */
  lemma SeedRange(seed: Uint32)
    ensures -M < Seeded(seed) < M
    ensures Seeded(seed) == 0 <==> seed == 0xffff_ffff || seed == 0x8000_0001
  {
  }

  /** What a seed leads to, in arithmetic without signs: seeds from 2^31 up count as negative. */
  lemma SeededMeaning(seed: Uint32)
    ensures seed < TWO_31 ==> Seeded(seed) == seed % (M - 1) + 1
    ensures seed >= TWO_31 ==> Seeded(seed) == 1 - (TWO_32 - seed) % (M - 1)
  {
  }

  /** The range [1, 0x7ffffffe] that the comment on mySrand promises holds for exactly the seeds
      that are not negative as signed numbers, and for one more. */
  lemma PromisedRangeExactly(seed: Uint32)
    ensures 1 <= Seeded(seed) <= 0x7fff_fffe <==> seed < 0x8000_0000 || seed == 0x8000_0002
  {
  }

  /** A seed that leaves the generator at a negative state. */
  lemma NegativeState()
    ensures Seeded(0x8000_0005) < 0
  {
  }

  /** The n-th state after a state. */
  function After(next: int, n: nat): int
    decreases n
  {
    if n == 0 then next else After(Following(next), n - 1)
  }

  lemma {:induction false} AfterInRange(next: int, n: nat)
    requires 1 <= next <= M - 1
    ensures 1 <= After(next, n) <= M - 1
    decreases n
  {
    if n > 0 {
      FollowingIsProduct(next);
      AfterInRange(Following(next), n - 1);
    }
  }
}
