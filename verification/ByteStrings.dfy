/** Byte strings under the order of `bytea`: bytes are compared one by one, and a proper
    prefix comes before what it is a prefix of. */
module ByteStrings {

  newtype byte = n: int | 0 <= n <= 255

  type Bytes = seq<byte>

  predicate Leq(a: Bytes, b: Bytes) {
    a == [] || (b != [] && (a[0] < b[0] || (a[0] == b[0] && Leq(a[1..], b[1..]))))
  }

  predicate Lt(a: Bytes, b: Bytes) {
    Leq(a, b) && a != b
  }

  /** byteacmp */
  function Cmp(a: Bytes, b: Bytes): int {
    if a == b then 0 else if Leq(a, b) then -1 else 1
  }

  /** Length of the longest common prefix. */
  function CommonPrefix(a: Bytes, b: Bytes): (n: nat)
    ensures n <= |a| && n <= |b|
    ensures a[..n] == b[..n]
    ensures n < |a| && n < |b| ==> a[n] != b[n]
  {
    if a != [] && b != [] && a[0] == b[0] then 1 + CommonPrefix(a[1..], b[1..]) else 0
  }

  lemma {:induction false} LeqReflexive(a: Bytes)
    ensures Leq(a, a)
  {
    if a != [] {
      LeqReflexive(a[1..]);
    }
  }

  lemma {:induction false} LeqTransitive(a: Bytes, b: Bytes, c: Bytes)
    requires Leq(a, b) && Leq(b, c)
    ensures Leq(a, c)
  {
    if a != [] && a[0] == b[0] == c[0] {
      LeqTransitive(a[1..], b[1..], c[1..]);
    }
  }

  lemma {:induction false} LeqTotal(a: Bytes, b: Bytes)
    ensures Leq(a, b) || Leq(b, a)
  {
    if a != [] && b != [] && a[0] == b[0] {
      LeqTotal(a[1..], b[1..]);
    }
  }

  lemma {:induction false} LeqAntisymmetric(a: Bytes, b: Bytes)
    requires Leq(a, b) && Leq(b, a)
    ensures a == b
  {
    if a != [] {
      LeqAntisymmetric(a[1..], b[1..]);
      assert a == [a[0]] + a[1..] && b == [b[0]] + b[1..];
    }
  }

  /** A prefix is less than or equal to its extensions. */
  lemma {:induction false} PrefixLeq(a: Bytes, b: Bytes)
    requires a <= b
    ensures Leq(a, b)
  {
    if a != [] {
      assert a[0] == b[0] && a[1..] <= b[1..];
      PrefixLeq(a[1..], b[1..]);
    }
  }

  /** Strings that differ at some position are ordered by it. */
  lemma {:induction false} DecidedAt(a: Bytes, b: Bytes, n: nat)
    requires n < |a| && n < |b| && a[..n] == b[..n] && a[n] < b[n]
    ensures Leq(a, b) && !Leq(b, a)
    decreases n
  {
    if n > 0 {
      assert a[0] == a[..n][0] && b[0] == b[..n][0];
      assert a[1..][..n - 1] == a[..n][1..] && b[1..][..n - 1] == b[..n][1..];
      DecidedAt(a[1..], b[1..], n - 1);
    }
  }

  /** What lies between a string and one of its extensions extends it too. */
  lemma {:induction false} BetweenExtends(p: Bytes, v: Bytes, w: Bytes)
    requires Leq(p, v) && Leq(v, w) && p <= w
    ensures p <= v
  {
    if p != [] {
      assert p[0] == w[0] && p[1..] <= w[1..];
      BetweenExtends(p[1..], v[1..], w[1..]);
      assert p == [p[0]] + p[1..] && v == [v[0]] + v[1..];
    }
  }

  /** Moving the lower string down cannot lengthen the common prefix. */
  lemma {:induction false} CommonPrefixShrinks(a: Bytes, b: Bytes, c: Bytes)
    requires Leq(a, b) && Leq(b, c)
    ensures CommonPrefix(a, c) <= CommonPrefix(b, c)
  {
    if a != [] && c != [] && a[0] == c[0] {
      CommonPrefixShrinks(a[1..], b[1..], c[1..]);
    }
  }

  function Cut(a: Bytes, n: nat): (c: Bytes)
    ensures c <= a
  {
    if n <= |a| then a[..n] else a
  }

  /** Cutting beyond the first difference leaves the common prefix as it is. */
  lemma CommonPrefixOfCut(a: Bytes, b: Bytes, n: nat)
    requires n > CommonPrefix(a, b)
    ensures CommonPrefix(Cut(a, n), Cut(b, n)) == CommonPrefix(a, b)
  {
    CommonPrefixUnique(Cut(a, n), Cut(b, n), CommonPrefix(a, b));
  }

  lemma {:induction false} CommonPrefixUnique(a: Bytes, b: Bytes, n: nat)
    requires n <= |a| && n <= |b| && a[..n] == b[..n]
    requires n < |a| && n < |b| ==> a[n] != b[n]
    ensures CommonPrefix(a, b) == n
    decreases n
  {
    if n > 0 {
      assert a[0] == a[..n][0] && b[0] == b[..n][0];
      assert a[1..][..n - 1] == a[..n][1..] && b[1..][..n - 1] == b[..n][1..];
      CommonPrefixUnique(a[1..], b[1..], n - 1);
    }
  }
}
