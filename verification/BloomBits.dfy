/** Which bits a Bloom signature has: exactly the positions that the generator gives for the
    columns, so that a tuple passes a scan exactly if every position of the keys is one of its
    own. */
module BloomBits {
  import opened Integers
  import opened BloomRandom
  import opened BloomSignature
  import opened BloomPage
  import opened BloomStore
  import opened BloomScan

  /** Bit i of an array of words, counted from the lowest bit of the first word. */
  predicate Bit(s: Signature, i: nat)
    requires i < |s| * 16
  {
    BitOf(s[i / 16], i % 16)
  }

  predicate BitOf(a: bv16, k: nat)
    requires k < 16
  {
    (a >> k) & 1 == 1
  }

  // ---------------------------------------------------------------- one word

  lemma OrWordBits(a: bv16, k: bv16, m: bv16)
    requires k < 16 && m < 16
    ensures ((a | (1 << k)) >> m) & 1 == 1 <==> m == k || (a >> m) & 1 == 1
  {
  }

  lemma SmallNumbers(k: nat, m: nat)
    requires k < 16 && m < 16
    ensures (k as bv16) < 16 && (m as bv16) < 16
    ensures (k as bv16) == (m as bv16) ==> k == m
  {
  }

  lemma Shifts(a: bv16, k: nat)
    requires k < 16
    ensures (1 as bv16) << k == (1 as bv16) << (k as bv16) && a >> k == a >> (k as bv16)
  {
  }

  lemma OrBits(a: bv16, k: nat, m: nat)
    requires k < 16 && m < 16
    ensures BitOf(a | (1 << k), m) <==> m == k || BitOf(a, m)
  {
    SmallNumbers(k, m);
    Shifts(a, k);
    Shifts(a, m);
    Shifts(a | (1 << k), m);
    OrWordBits(a, k as bv16, m as bv16);
  }

  lemma NoBits(k: nat)
    requires k < 16
    ensures !BitOf(0, k)
  {
  }

  predicate Covers(a: bv16, m: bv16, k: nat)
    requires k < 16
  {
    BitOf(m, k) ==> BitOf(a, k)
  }

  /** A word has all bits of another one exactly if it has each of them. */
  lemma HasExactly(a: bv16, m: bv16)
    ensures Has(a, m) <==> forall k: nat | k < 16 :: Covers(a, m, k)
  {
    if Has(a, m) {
      forall k: nat | k < 16 ensures Covers(a, m, k) {
        HasCovers(a, m, k);
      }
    }
    if forall k: nat | k < 16 :: Covers(a, m, k) {
      assert Covers(a, m, 0) && Covers(a, m, 1) && Covers(a, m, 2) && Covers(a, m, 3);
      assert Covers(a, m, 4) && Covers(a, m, 5) && Covers(a, m, 6) && Covers(a, m, 7);
      assert Covers(a, m, 8) && Covers(a, m, 9) && Covers(a, m, 10) && Covers(a, m, 11);
      assert Covers(a, m, 12) && Covers(a, m, 13) && Covers(a, m, 14) && Covers(a, m, 15);
    }
  }

  lemma HasCovers(a: bv16, m: bv16, k: nat)
    requires k < 16 && Has(a, m)
    ensures Covers(a, m, k)
  {
  }

  // ---------------------------------------------------------------- SETBIT

  /** SETBIT sets the bit that it names, and no other. */
  lemma SetBitExactly(s: Signature, i: nat, j: nat)
    requires i < |s| * 16 && j < |s| * 16
    ensures Bit(SetBit(s, i), j) <==> j == i || Bit(s, j)
  {
    OrBits(s[i / 16], i % 16, j % 16);
    hide BitOf;
    assert Mask(i) == 1 << (i % 16);
    assert Or(s[i / 16], Mask(i)) == s[i / 16] | (1 << (i % 16));
    hide Or, Mask;
    assert i == i / 16 * 16 + i % 16 && j == j / 16 * 16 + j % 16;
  }

  lemma BlankBits(length: nat, i: nat)
    requires i < length * 16
    ensures !Bit(Blank(length), i)
  {
    hide BitOf;
    NoBits(i % 16);
  }

  lemma {:induction false} SetAllExactly(s: Signature, ps: seq<int>, i: nat)
    requires Inside(ps, |s|) && i < |s| * 16
    ensures Bit(SetAll(s, ps), i) <==> Bit(s, i) || i in ps
    decreases |ps|
  {
    hide Bit, SetBit;
    if ps != [] {
      var rest, p := ps[..|ps| - 1], ps[|ps| - 1];
      SetAllExactly(s, rest, i);
      SetBitExactly(SetAll(s, rest), p, i);
      assert ps == rest + [p];
    }
  }

  // ---------------------------------------------------------------- tuples and queries

  /** Position i is one of those of column c, which is not null. */
  predicate OfColumn(length: nat, hashes: Hashes, bits: BitCounts, c: nat, i: int)
    requires length > 0 && c < |hashes| <= |bits| && |hashes| <= 32
  {
    hashes[c].Some? && i in Positions(hashes[c].value, c, length, bits[c])
  }

  /** Position i is one of those of the first n columns. */
  predicate OfRow(length: nat, hashes: Hashes, bits: BitCounts, n: nat, i: int)
    requires length > 0 && n <= |hashes| <= |bits| && |hashes| <= 32
  {
    exists c: nat | c < n :: OfColumn(length, hashes, bits, c, i)
  }

  /** A tuple's signature has the bits of its columns that are not null, and no others. */
  lemma {:induction false} SignColumnsExactly(length: nat, hashes: Hashes, bits: BitCounts, n: nat, i: nat)
    requires length > 0 && Signable(hashes) && n <= |hashes| <= |bits| && i < length * 16
    ensures Bit(SignColumns(length, hashes, bits, n), i) <==> OfRow(length, hashes, bits, n, i)
    decreases n
  {
    hide Bit, SetAll, Stuck, Positions, Inside, Blank;
    if n == 0 {
      BlankBits(length, i);
    } else {
      SignColumnsExactly(length, hashes, bits, n - 1, i);
      assert OfRow(length, hashes, bits, n, i)
        <==> OfRow(length, hashes, bits, n - 1, i) || OfColumn(length, hashes, bits, n - 1, i);
      if hashes[n - 1].Some? {
        PositionsInside(hashes[n - 1].value, n - 1, length, bits[n - 1]);
        SetAllExactly(SignColumns(length, hashes, bits, n - 1),
                      Positions(hashes[n - 1].value, n - 1, length, bits[n - 1]), i);
      }
    }
  }

  /** Position i is one of those of a key. */
  predicate OfKey(length: nat, key: ScanKey, bits: BitCounts, i: int)
    requires length > 0 && key.attno < |bits| && key.attno < 32
  {
    key.hash.Some? && i in Positions(key.hash.value, key.attno, length, bits[key.attno])
  }

  /** Position i is one of those of the first n keys. */
  predicate OfQuery(length: nat, keys: seq<ScanKey>, bits: BitCounts, n: nat, i: int)
    requires length > 0 && n <= |keys|
    requires forall k :: 0 <= k < |keys| ==> keys[k].attno < |bits| && keys[k].attno < 32
  {
    exists k: nat | k < n :: OfKey(length, keys[k], bits, i)
  }

  /** A query has the bits of its keys, and no others. */
  lemma {:induction false} SignKeysExactly(length: nat, keys: seq<ScanKey>, bits: BitCounts, n: nat, i: nat)
    requires length > 0 && Searchable(keys) && n <= |keys| && i < length * 16
    requires forall k :: 0 <= k < |keys| ==> keys[k].attno < |bits|
    ensures Bit(SignKeys(length, keys, bits, n), i) <==> OfQuery(length, keys, bits, n, i)
    decreases n
  {
    hide Bit, SetAll, Stuck, Positions, Inside, Blank;
    if n == 0 {
      BlankBits(length, i);
    } else {
      SignKeysExactly(length, keys, bits, n - 1, i);
      var key := keys[n - 1];
      PositionsInside(key.hash.value, key.attno, length, bits[key.attno]);
      SetAllExactly(SignKeys(length, keys, bits, n - 1),
                    Positions(key.hash.value, key.attno, length, bits[key.attno]), i);
    }
  }

  // ---------------------------------------------------------------- the test of a scan

  /** The test lets a tuple through exactly if it has every bit of the query. */
  lemma MatchesExactly(s: Signature, query: Signature)
    requires |s| == |query|
    ensures Matches(s, query) <==> forall i: nat | i < |s| * 16 && Bit(query, i) :: Bit(s, i)
  {
    hide Has, BitOf;
    if Matches(s, query) {
      forall i: nat | i < |s| * 16 && Bit(query, i) ensures Bit(s, i) {
        HasExactly(s[i / 16], query[i / 16]);
        assert Covers(s[i / 16], query[i / 16], i % 16);
      }
    }
    if forall i: nat | i < |s| * 16 && Bit(query, i) :: Bit(s, i) {
      forall w | 0 <= w < |s| ensures Has(s[w], query[w]) {
        forall k: nat | k < 16 ensures Covers(s[w], query[w], k) {
          BitAgain(s, w, k);
          BitAgain(query, w, k);
        }
        HasExactly(s[w], query[w]);
      }
    }
  }

  lemma BitAgain(s: Signature, w: nat, k: nat)
    requires w < |s| && k < 16
    ensures w * 16 + k < |s| * 16 && Bit(s, w * 16 + k) == BitOf(s[w], k)
  {
    hide BitOf;
    assert (w * 16 + k) / 16 == w && (w * 16 + k) % 16 == k;
  }

  /** A row passes a scan exactly if each position of each key is a position of one of its
      columns: false positives come from shared positions and from nothing else. */
  lemma PassesExactly(length: nat, hashes: Hashes, bits: BitCounts, keys: seq<ScanKey>)
    requires length > 0 && Signable(hashes) && |hashes| <= |bits|
    requires Searchable(keys) && forall k :: 0 <= k < |keys| ==> keys[k].attno < |bits|
    ensures Matches(SignColumns(length, hashes, bits, |hashes|), SignKeys(length, keys, bits, |keys|))
       <==> forall i: nat | i < length * 16 && OfQuery(length, keys, bits, |keys|, i) ::
              OfRow(length, hashes, bits, |hashes|, i)
  {
    hide Matches, Bit, Stuck, OfQuery, OfRow, SignColumns, SignKeys;
    var s, query := SignColumns(length, hashes, bits, |hashes|), SignKeys(length, keys, bits, |keys|);
    MatchesExactly(s, query);
    forall i: nat | i < length * 16
      ensures Bit(s, i) <==> OfRow(length, hashes, bits, |hashes|, i)
      ensures Bit(query, i) <==> OfQuery(length, keys, bits, |keys|, i)
    {
      SignColumnsExactly(length, hashes, bits, |hashes|, i);
      SignKeysExactly(length, keys, bits, |keys|, i);
    }
  }

  /** The tuple has every bit of every key. */
  predicate HasKeys(t: BloomTuple, length: nat, keys: seq<ScanKey>, bits: BitCounts)
    requires length > 0 && forall k :: 0 <= k < |keys| ==> keys[k].attno < |bits| && keys[k].attno < 32
  {
    |t.sign| == length && forall i: nat | i < length * 16 && OfQuery(length, keys, bits, |keys|, i) :: Bit(t.sign, i)
  }

  lemma PassesMeaning(t: BloomTuple, length: nat, keys: seq<ScanKey>, bits: BitCounts)
    requires length > 0 && Searchable(keys) && forall k :: 0 <= k < |keys| ==> keys[k].attno < |bits|
    ensures Passes(t, SignKeys(length, keys, bits, |keys|)) <==> HasKeys(t, length, keys, bits)
  {
    hide Matches, Bit, Stuck, OfQuery, SignKeys;
    var query := SignKeys(length, keys, bits, |keys|);
    if |t.sign| == length {
      MatchesExactly(t.sign, query);
      forall i: nat | i < length * 16 ensures Bit(query, i) <==> OfQuery(length, keys, bits, |keys|, i) {
        SignKeysExactly(length, keys, bits, |keys|, i);
      }
    }
  }

  /** So a scan reports the pointers of exactly those tuples of the index that have every bit of
      every key. */
  lemma ReportedExactly(ps: seq<Page>, length: nat, keys: seq<ScanKey>, bits: BitCounts, tid: Tid)
    requires length > 0 && Searchable(keys) && forall k :: 0 <= k < |keys| ==> keys[k].attno < |bits|
    ensures tid in Found(ps, SignKeys(length, keys, bits, |keys|))
       <==> exists t :: t in All(ps) && t.tid == tid && HasKeys(t, length, keys, bits)
  {
    hide HasKeys, Passes, SignKeys, Found, Stuck;
    FoundExactly(ps, SignKeys(length, keys, bits, |keys|), tid);
    forall t ensures Passes(t, SignKeys(length, keys, bits, |keys|)) <==> HasKeys(t, length, keys, bits) {
      PassesMeaning(t, length, keys, bits);
    }
  }

  // ---------------------------------------------------------------- the positions

  function Power(b: nat, n: nat): nat {
    if n == 0 then 1 else b * Power(b, n - 1)
  }

  /** The n-th state is the first one times the n-th power of 16807, modulo 2^31 - 1. */
  lemma {:induction false} AfterIsPower(s: int, n: nat)
    requires -M < s < M && s != 0 && n > 0
    ensures After(s, n) == Power(16807, n) * s % M
    decreases n
  {
    hide Following;
    FollowingIsProduct(s);
    if n == 1 {
      assert Power(16807, 1) == 16807 && After(s, 1) == Following(s);
    } else {
      var p := Power(16807, n - 1);
      assert After(s, n) == After(Following(s), n - 1);
      AfterIsPower(Following(s), n - 1);
      assert Power(16807, n) == 16807 * p;
      hide After, Power;
      ProductOfRemainder(p, 16807 * s);
      assert p * (16807 * s) == 16807 * p * s;
    }
  }

  lemma ProductOfRemainder(p: int, x: int)
    ensures p * (x % M) % M == p * x % M
  {
    var q, y := x / M, p * (x % M);
    assert x == q * M + x % M;
    assert p * x == (p * q) * M + y;
    ModUnique(p * x, p * q + y / M, y % M);
  }

  /** The number with which a column's hashes are mixed. */
  lemma ColumnNumberIs(attno: nat)
    requires attno < 32
    ensures ColumnNumber(attno) == 16807 * (attno + 1) - 1
  {
    assert Seeded(attno) == attno + 1;
    hide Seeded;
    FollowingIsProduct(attno + 1);
    ModUnique(16807 * (attno + 1), 0, 16807 * (attno + 1));
  }

  /** The j-th position of a value: 16807^(j + 1) times the seeded state, modulo 2^31 - 1, less 1,
      modulo the number of bits. */
  lemma PositionIs(hash: Uint32, attno: nat, length: nat, count: nat, j: nat)
    requires attno < 32 && length > 0 && j < count && !Stuck(hash, attno)
    ensures Positions(hash, attno, length, count)[j]
         == (Power(16807, j + 1) * Seeded(Seed(hash, attno)) % M - 1) % (16 * length)
  {
    hide Seed, Seeded, After, Following, Power;
    var s := Seeded(Seed(hash, attno));
    SeedRange(Seed(hash, attno));
    AfterIsPower(s, j + 1);
    StatePositive(s, j);
    Remainder(After(s, j + 1) - 1, length * 16);
  }

  lemma StatePositive(s: int, j: nat)
    requires -M < s < M && s != 0
    ensures After(s, j + 1) >= 1
  {
    FollowingIsProduct(s);
    AfterInRange(Following(s), j);
    hide Following;
  }

  lemma Remainder(r: nat, n: nat)
    requires n > 0
    ensures TruncMod(r, n) == r % n
  {
  }
}
