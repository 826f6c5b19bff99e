/** Bloom signatures: which bits a value sets, how a tuple's signature is formed, and why a
    search never misses a tuple whose columns equal its keys. */
module BloomSignature {
  import opened Integers
  import opened Outcomes
  import opened BloomRandom

  /** An array of 16-bit words. */
  type Signature = seq<bv16>

  /** The hash of each column, or none where the column is null. */
  type Hashes = seq<Option<Uint32>>

  /** Number of bits generated for each column. */
  type BitCounts = seq<nat>

  /** The word that holds a bit, and the bit's mask within it. */
  function Word(i: nat, words: nat): (w: nat)
    requires i < words * 16
    ensures w < words
  {
    i / 16
  }

  function Mask(i: nat): bv16 {
    1 << (i % 16)
  }

  function Or(a: bv16, m: bv16): bv16 {
    a | m
  }

  predicate Has(a: bv16, m: bv16) {
    a & m == m
  }

  /** SETBIT */
  function SetBit(s: Signature, i: nat): (r: Signature)
    requires i < |s| * 16
    ensures |r| == |s|
  {
    s[Word(i, |s|) := Or(s[Word(i, |s|)], Mask(i))]
  }

  predicate HasBit(s: Signature, i: nat)
    requires i < |s| * 16
  {
    Has(s[Word(i, |s|)], Mask(i))
  }

  /** The test of a scan on one tuple: each word has all the bits of the query's word. */
  predicate Matches(s: Signature, query: Signature)
    requires |s| == |query|
  {
    forall w :: 0 <= w < |s| ==> Has(s[w], query[w])
  }

  // ---------------------------------------------------------------- the bits of a value

  function ToWord(a: Uint32): bv32 {
    a as bv32
  }

  function FromWord(x: bv32): Uint32 {
    x as int
  }

  function XorWords(x: bv32, y: bv32): bv32 {
    x ^ y
  }

  function Xor(a: Uint32, b: Uint32): Uint32 {
    FromWord(XorWords(ToWord(a), ToWord(b)))
  }

  /** The first random number for a column, with which the hash of the value is mixed. */
  function ColumnNumber(attno: nat): (n: Uint32)
    requires attno < 32
    ensures n < M
  {
    FollowingIsProduct(Seeded(attno));
    Following(Seeded(attno)) - 1
  }

  function Seed(hash: Uint32, attno: nat): Uint32
    requires attno < 32
  {
    Xor(hash, ColumnNumber(attno))
  }

  /** The generator gets stuck at zero for this value. */
  predicate Stuck(hash: Uint32, attno: nat)
    requires attno < 32
  {
    Seeded(Seed(hash, attno)) == 0
  }

  /** The j-th bit position of a value, in C's arithmetic. */
  function BitAt(hash: Uint32, attno: nat, length: nat, j: nat): int
    requires attno < 32 && length > 0
  {
    TruncMod(After(Seeded(Seed(hash, attno)), j + 1) - 1, length * 16)
  }

  /** All bits lie inside the signature, except for the two seeds at which the generator gets
      stuck: then every position is -1. */
  lemma BitsInside(hash: Uint32, attno: nat, length: nat, j: nat)
    requires attno < 32 && length > 0
    ensures !Stuck(hash, attno) ==> 0 <= BitAt(hash, attno, length, j) < length * 16
    ensures Stuck(hash, attno) ==> BitAt(hash, attno, length, j) == -1
    ensures Stuck(hash, attno) <==> Seed(hash, attno) == 0xffff_ffff || Seed(hash, attno) == 0x8000_0001
  {
    hide Seed, Seeded, TruncMod, After;
    SeedRange(Seed(hash, attno));
    PositionInside(Seeded(Seed(hash, attno)), length * 16, j);
  }

  lemma BackAgain(x: bv32)
    ensures ToWord(FromWord(x)) == x
  {
  }

  lemma XorCancels(x: bv32, y: bv32)
    ensures XorWords(XorWords(x, y), y) == x
  {
  }

  lemma XorIs(a: Uint32, b: Uint32, c: bv32)
    ensures Xor(a, b) == FromWord(c) <==> ToWord(a) == XorWords(c, ToWord(b))
  {
    hide ToWord, FromWord, XorWords;
    var x, y := ToWord(a), ToWord(b);
    XorCancels(x, y);
    XorCancels(c, y);
    BackAgain(XorWords(x, y));
    BackAgain(c);
  }

  /** The two seeds that leave the generator at zero, as words. */
  lemma SeedWords()
    ensures FromWord(0xffff_ffff) == 0xffff_ffff && FromWord(0x8000_0001) == 0x8000_0001
  {
  }

  /** Every column has exactly two hashes at which the generator gets stuck. */
  lemma StuckExactly(hash: Uint32, attno: nat)
    requires attno < 32
    ensures Stuck(hash, attno) <==>
            || ToWord(hash) == XorWords(0xffff_ffff, ToWord(ColumnNumber(attno)))
            || ToWord(hash) == XorWords(0x8000_0001, ToWord(ColumnNumber(attno)))
  {
    hide Xor, Seeded, ColumnNumber, ToWord, FromWord, XorWords;
    SeedRange(Seed(hash, attno));
    SeedWords();
    XorIs(hash, ColumnNumber(attno), 0xffff_ffff);
    XorIs(hash, ColumnNumber(attno), 0x8000_0001);
  }

  /** A hash for each column, and for each length of signature, with which all bits lie outside
      of it. */
  lemma BitsOutside(attno: nat, length: nat, j: nat) returns (hash: Uint32)
    requires attno < 32 && length > 0
    ensures Stuck(hash, attno) && BitAt(hash, attno, length, j) == -1
  {
    hide BitAt, Stuck, ColumnNumber, ToWord, FromWord, XorWords;
    var x := XorWords(0xffff_ffff, ToWord(ColumnNumber(attno)));
    BackAgain(x);
    hash := FromWord(x);
    StuckExactly(hash, attno);
    BitsInside(hash, attno, length, j);
  }

  /** For the first column such a hash is 0xffffbe59. */
  lemma FirstColumnOutside(length: nat, j: nat)
    requires length > 0
    ensures Stuck(0xffff_be59, 0) && BitAt(0xffff_be59, 0, length, j) == -1
  {
    hide BitAt, Stuck, After, ColumnNumber, ToWord, XorWords;
    FirstColumnNumber();
    FirstHash();
    StuckExactly(0xffff_be59, 0);
    BitsInside(0xffff_be59, 0, length, j);
  }

  lemma FirstColumnNumber()
    ensures ColumnNumber(0) == 16806
  {
    assert Seeded(0) == 1;
    hide Seeded;
  }

  lemma FirstWords()
    ensures FromWord(0xffff_be59) == 0xffff_be59 && FromWord(0x41a6) == 16806
  {
  }

  lemma FirstXor()
    ensures XorWords(0xffff_ffff, 0x41a6) == 0xffff_be59
  {
  }

  lemma FirstHash()
    ensures ToWord(0xffff_be59) == XorWords(0xffff_ffff, ToWord(16806))
  {
    hide ToWord, FromWord, XorWords;
    FirstWords();
    FirstXor();
    BackAgain(0xffff_be59);
    BackAgain(0x41a6);
  }

  lemma PositionInside(s: int, size: nat, j: nat)
    requires -M < s < M && size > 1
    ensures s != 0 ==> 0 <= TruncMod(After(s, j + 1) - 1, size) < size
    ensures s == 0 ==> TruncMod(After(s, j + 1) - 1, size) == -1
  {
    hide TruncMod;
    assert After(s, j + 1) == After(Following(s), j);
    if s == 0 {
      StaysAtZero(j + 1);
      MinusOne(size);
    } else {
      FollowingIsProduct(s);
      AfterInRange(Following(s), j);
      hide Following, After;
      ModInside(After(s, j + 1) - 1, size);
    }
  }

  lemma MinusOne(n: int)
    requires n > 1
    ensures TruncMod(-1, n) == -1
  {
    assert 1 / n == 0;
  }

  lemma ModInside(r: int, n: int)
    requires r >= 0 && n > 0
    ensures 0 <= TruncMod(r, n) < n
  {
  }

  lemma {:induction false} StaysAtZero(n: nat)
    ensures After(0, n) == 0
  {
    if n > 0 {
      StaysAtZero(n - 1);
    }
  }

  /** The bit positions of a value. */
  function Positions(hash: Uint32, attno: nat, length: nat, count: nat): (ps: seq<int>)
    requires attno < 32 && length > 0
    ensures |ps| == count
  {
    seq(count, j requires 0 <= j < count => BitAt(hash, attno, length, j))
  }

  predicate Inside(ps: seq<int>, words: nat) {
    forall j :: 0 <= j < |ps| ==> 0 <= ps[j] < words * 16
  }

  lemma PositionsInside(hash: Uint32, attno: nat, length: nat, count: nat)
    requires attno < 32 && length > 0 && !Stuck(hash, attno)
    ensures Inside(Positions(hash, attno, length, count), length)
  {
    var ps := Positions(hash, attno, length, count);
    forall j | 0 <= j < count ensures 0 <= ps[j] < length * 16 {
      BitsInside(hash, attno, length, j);
      assert ps[j] == BitAt(hash, attno, length, j);
      hide BitAt, Stuck;
    }
  }

  /** The signature after the bits at some positions have been set. */
  function SetAll(s: Signature, ps: seq<int>): (r: Signature)
    requires Inside(ps, |s|)
    ensures |r| == |s|
  {
    if ps == [] then s else SetBit(SetAll(s, ps[..|ps| - 1]), ps[|ps| - 1])
  }

  /** signValue. With a stuck generator the program shifts by a negative number, which C leaves
      undefined; the method reports that instead. */
  method SignValue(gen: Generator, sign: array<bv16>, hash: Uint32, attno: nat, bits: nat)
    returns (defined: bool)
    requires attno < 32 && sign.Length > 0 && bits > 0
    modifies gen, sign
    ensures defined <==> !Stuck(hash, attno)
    ensures defined ==> Inside(Positions(hash, attno, sign.Length, bits), sign.Length)
    ensures defined ==> sign[..] == SetAll(old(sign[..]), Positions(hash, attno, sign.Length, bits))
    ensures !defined ==> sign[..] == old(sign[..])
  {
    hide Xor, Following, Seeded, TruncMod, Mask, Or, Word;
    gen.Srand(attno);
    SeedRange(attno);
    var r := gen.Rand();
    assert r == ColumnNumber(attno);
    gen.Srand(Xor(hash, r));
    var seed := Seed(hash, attno);
    SeedRange(seed);
    ghost var was := sign[..];
    ghost var ps := Positions(hash, attno, sign.Length, bits);
    var j := 0;
    while j < bits
      invariant 0 <= j <= bits
      invariant gen.next == After(Seeded(seed), j)
      invariant -M < gen.next < M
      invariant j > 0 ==> !Stuck(hash, attno)
      invariant Inside(ps[..j], sign.Length) && sign[..] == SetAll(was, ps[..j])
    {
      BitsInside(hash, attno, sign.Length, j);
      AfterStep(Seeded(seed), j);
      StateInRange(gen.next);
      var n := gen.Rand();
      var nBit := TruncMod(n, sign.Length * 16);
      assert nBit == BitAt(hash, attno, sign.Length, j) == ps[j];
      assert ps[..j + 1][..j] == ps[..j];
      if nBit < 0 {
        return false;
      }
      var w := Word(nBit, sign.Length);
      sign[w] := Or(sign[w], Mask(nBit));
      j := j + 1;
    }
    assert ps[..j] == ps;
    return true;
  }

  lemma StateInRange(s: int)
    requires -M < s < M
    ensures -M < Following(s) < M
  {
    if s != 0 {
      FollowingIsProduct(s);
    }
  }

  lemma {:induction false} AfterStep(s: int, j: nat)
    ensures After(s, j + 1) == Following(After(s, j))
    decreases j
  {
    if j > 0 {
      AfterStep(Following(s), j - 1);
    }
  }

  // ---------------------------------------------------------------- tuples and queries

  /** No column of the tuple leaves the generator stuck. */
  predicate Signable(hashes: Hashes) {
    |hashes| <= 32 && forall i :: 0 <= i < |hashes| && hashes[i].Some? ==> !Stuck(hashes[i].value, i)
  }

  function Blank(length: nat): Signature {
    seq(length, _ => 0 as bv16)
  }

  /** The signature after the first `n` columns; null columns are skipped. */
  function SignColumns(length: nat, hashes: Hashes, bits: BitCounts, n: nat): (r: Signature)
    requires length > 0 && Signable(hashes) && n <= |hashes| <= |bits|
    ensures |r| == length
  {
    if n == 0 then Blank(length)
    else if hashes[n - 1].None? then SignColumns(length, hashes, bits, n - 1)
    else
      PositionsInside(hashes[n - 1].value, n - 1, length, bits[n - 1]);
      SetAll(SignColumns(length, hashes, bits, n - 1), Positions(hashes[n - 1].value, n - 1, length, bits[n - 1]))
  }

  /** BloomFormTuple, without the heap pointer. */
  method FormSignature(length: nat, hashes: Hashes, bits: BitCounts) returns (r: Option<Signature>)
    requires length > 0 && |hashes| <= 32 && |hashes| <= |bits|
    requires forall i :: 0 <= i < |bits| ==> bits[i] > 0
    ensures r.Some? <==> Signable(hashes)
    ensures r.Some? ==> r.value == SignColumns(length, hashes, bits, |hashes|)
  {
    hide SetAll, Stuck, Inside, Positions;
    var gen := new Generator();
    var sign := new bv16[length](_ => 0);
    assert sign[..] == Blank(length);
    var i := 0;
    while i < |hashes|
      invariant 0 <= i <= |hashes|
      invariant forall k :: 0 <= k < i && hashes[k].Some? ==> !Stuck(hashes[k].value, k)
      invariant Signable(hashes) ==> sign[..] == SignColumns(length, hashes, bits, i)
    {
      if hashes[i].Some? {
        var defined := SignValue(gen, sign, hashes[i].value, i, bits[i]);
        if !defined {
          return None;
        }
      }
      i := i + 1;
    }
    return Some(sign[..]);
  }

  /** A scan key: a column number and the hash of the value sought, or none for null. */
  datatype ScanKey = ScanKey(attno: nat, hash: Option<Uint32>)

  predicate Searchable(keys: seq<ScanKey>) {
    forall i :: 0 <= i < |keys| ==>
      keys[i].attno < 32 && keys[i].hash.Some? && !Stuck(keys[i].hash.value, keys[i].attno)
  }

  /** The query's signature, formed in the same way from the first `n` keys. */
  function SignKeys(length: nat, keys: seq<ScanKey>, bits: BitCounts, n: nat): (r: Signature)
    requires length > 0 && Searchable(keys) && n <= |keys|
    requires forall i :: 0 <= i < |keys| ==> keys[i].attno < |bits|
    ensures |r| == length
  {
    if n == 0 then Blank(length)
    else
      var key := keys[n - 1];
      PositionsInside(key.hash.value, key.attno, length, bits[key.attno]);
      SetAll(SignKeys(length, keys, bits, n - 1), Positions(key.hash.value, key.attno, length, bits[key.attno]))
  }

  // ---------------------------------------------------------------- no false negatives

  lemma OrHas(a: bv16, m: bv16)
    ensures Has(Or(a, m), m)
  {
  }

  lemma OrKeeps(a: bv16, m: bv16, n: bv16)
    requires Has(a, n)
    ensures Has(Or(a, m), n)
  {
  }

  lemma HasBoth(a: bv16, b: bv16, m: bv16)
    requires Has(a, b) && Has(a, m)
    ensures Has(a, Or(b, m))
  {
  }

  lemma SetBitHas(s: Signature, i: nat)
    requires i < |s| * 16
    ensures HasBit(SetBit(s, i), i)
  {
    hide Mask, Or, Has, Word;
    OrHas(s[Word(i, |s|)], Mask(i));
  }

  lemma SetBitKeeps(s: Signature, i: nat, j: nat)
    requires i < |s| * 16 && j < |s| * 16 && HasBit(s, j)
    ensures HasBit(SetBit(s, i), j)
  {
    hide Mask, Or, Has, Word;
    OrKeeps(s[Word(j, |s|)], Mask(i), Mask(j));
  }

  predicate HasAll(s: Signature, ps: seq<int>)
    requires Inside(ps, |s|)
  {
    forall j :: 0 <= j < |ps| ==> HasBit(s, ps[j])
  }

  /** Setting bits never clears one. */
  lemma {:induction false} SetAllKeeps(s: Signature, ps: seq<int>, i: nat)
    requires Inside(ps, |s|) && i < |s| * 16 && HasBit(s, i)
    ensures HasBit(SetAll(s, ps), i)
    decreases |ps|
  {
    hide HasBit, SetBit;
    if ps != [] {
      SetAllKeeps(s, ps[..|ps| - 1], i);
      SetBitKeeps(SetAll(s, ps[..|ps| - 1]), ps[|ps| - 1], i);
    }
  }

  lemma {:induction false} SetAllHas(s: Signature, ps: seq<int>, j: nat)
    requires Inside(ps, |s|) && j < |ps|
    ensures HasBit(SetAll(s, ps), ps[j])
    decreases |ps|
  {
    hide HasBit, SetBit;
    var before := SetAll(s, ps[..|ps| - 1]);
    if j == |ps| - 1 {
      SetBitHas(before, ps[j]);
    } else {
      SetAllHas(s, ps[..|ps| - 1], j);
      SetBitKeeps(before, ps[|ps| - 1], ps[j]);
    }
  }

  /** A tuple's signature has every bit of every non-null column. */
  lemma {:induction false} ColumnsHave(length: nat, hashes: Hashes, bits: BitCounts, n: nat, c: nat)
    requires length > 0 && Signable(hashes) && c < n <= |hashes| <= |bits| && hashes[c].Some?
    ensures var ps := Positions(hashes[c].value, c, length, bits[c]);
            Inside(ps, length) && HasAll(SignColumns(length, hashes, bits, n), ps)
    decreases n
  {
    hide SetAll, Stuck, HasBit, Positions;
    var ps := Positions(hashes[c].value, c, length, bits[c]);
    PositionsInside(hashes[c].value, c, length, bits[c]);
    if c < n - 1 {
      ColumnsHave(length, hashes, bits, n - 1, c);
    }
    if hashes[n - 1].Some? {
      var last := Positions(hashes[n - 1].value, n - 1, length, bits[n - 1]);
      PositionsInside(hashes[n - 1].value, n - 1, length, bits[n - 1]);
      forall j | 0 <= j < |ps| ensures HasBit(SignColumns(length, hashes, bits, n), ps[j]) {
        if c == n - 1 {
          SetAllHas(SignColumns(length, hashes, bits, n - 1), last, j);
        } else {
          SetAllKeeps(SignColumns(length, hashes, bits, n - 1), last, ps[j]);
        }
      }
    }
  }

  lemma MatchesMore(s: Signature, query: Signature, i: nat)
    requires |s| == |query| && i < |s| * 16 && Matches(s, query) && HasBit(s, i)
    ensures Matches(s, SetBit(query, i))
  {
    hide Mask, Or, Has, Word;
    HasBoth(s[Word(i, |s|)], query[Word(i, |s|)], Mask(i));
  }

  lemma {:induction false} MatchesAll(s: Signature, query: Signature, ps: seq<int>)
    requires |s| == |query| && Inside(ps, |s|) && HasAll(s, ps) && Matches(s, query)
    ensures Matches(s, SetAll(query, ps))
    decreases |ps|
  {
    hide HasBit, Matches, SetBit;
    if ps != [] {
      MatchesAll(s, query, ps[..|ps| - 1]);
      MatchesMore(s, SetAll(query, ps[..|ps| - 1]), ps[|ps| - 1]);
    }
  }

  /** The tuple satisfies every key: the column is not null and has the key's hash. */
  predicate Satisfies(hashes: Hashes, keys: seq<ScanKey>) {
    forall i :: 0 <= i < |keys| ==>
      keys[i].attno < |hashes| && keys[i].hash.Some? && hashes[keys[i].attno] == keys[i].hash
  }

  /** The main result on signatures: a tuple whose columns have the hashes of the keys passes
      the test of the scan. */
  lemma {:induction false} NoFalseNegatives(length: nat, hashes: Hashes, bits: BitCounts, keys: seq<ScanKey>, n: nat)
    requires length > 0 && Signable(hashes) && |hashes| <= |bits| && n <= |keys|
    requires Satisfies(hashes, keys) && Searchable(keys)
    ensures Matches(SignColumns(length, hashes, bits, |hashes|), SignKeys(length, keys, bits, n))
    decreases n
  {
    hide SetAll, HasAll, Matches, Stuck, SignColumns, Positions, Inside;
    var s := SignColumns(length, hashes, bits, |hashes|);
    if n == 0 {
      BlankMatches(s, length);
    } else {
      NoFalseNegatives(length, hashes, bits, keys, n - 1);
      var c := keys[n - 1].attno;
      ColumnsHave(length, hashes, bits, |hashes|, c);
      MatchesAll(s, SignKeys(length, keys, bits, n - 1), Positions(hashes[c].value, c, length, bits[c]));
    }
  }

  lemma ZeroMatches(a: bv16)
    ensures Has(a, 0)
  {
  }

  lemma BlankMatches(s: Signature, length: nat)
    requires |s| == length
    ensures Matches(s, Blank(length))
  {
    forall w | 0 <= w < |s| ensures Has(s[w], Blank(length)[w]) {
      ZeroMatches(s[w]);
    }
  }
}
