/** How an interval key is stored in one variable-length datum, and read back. */
module GistVarLayout {
  import opened ByteStrings

  const HEADER := 4  // VARHDRSZ

  /** A value with its length word in front: the length counts the word itself. */
  type Length = n: nat | n < 0x4000_0000

  function LengthWord(n: Length): (w: Bytes)
    ensures |w| == HEADER
  {
    [(n / 0x100_0000) as byte, (n / 0x1_0000 % 0x100) as byte, (n / 0x100 % 0x100) as byte, (n % 0x100) as byte]
  }

  function ReadLength(w: Bytes): nat
    requires |w| == HEADER
  {
    w[0] as nat * 0x100_0000 + w[1] as nat * 0x1_0000 + w[2] as nat * 0x100 + w[3] as nat
  }

  lemma LengthRoundTrip(n: Length)
    ensures ReadLength(LengthWord(n)) == n
  {
  }

  function Datum(v: Bytes): Bytes
    requires |v| + HEADER < 0x4000_0000
  {
    LengthWord(|v| + HEADER) + v
  }

  function IntAlign(n: nat): (m: nat)
    ensures n <= m < n + 4 && m % 4 == 0
  {
    (n + 3) / 4 * 4
  }

  /** gbt_var_key_from_datum: a leaf key wraps one datum. */
  function LeafKey(v: Bytes): Bytes
    requires |v| + 2 * HEADER < 0x4000_0000
  {
    Datum(Datum(v))
  }

  /** gbt_var_key_copy: an interval key holds the lower bound, padding, and the upper bound. */
  function CopyKey(lower: Bytes, upper: Bytes): Bytes
    requires |lower| + |upper| + 4 * HEADER < 0x4000_0000
  {
    var low := |lower| + HEADER;
    Datum(Datum(lower) + seq(IntAlign(low) - low, _ => 0 as byte) + Datum(upper))
  }

  datatype Readable = Leaf(v: Bytes) | Node(lower: Bytes, upper: Bytes) | Garbled

  /** The value of the datum stored at some offset. */
  function ValueAt(k: Bytes, o: nat): Bytes {
    if o + HEADER <= |k| then
      var n := ReadLength(k[o..o + HEADER]);
      if HEADER <= n && o + n <= |k| then k[o + HEADER..o + n] else []
    else []
  }

  /** gbt_var_key_readable: the sizes alone tell a leaf key from an interval key. */
  function Read(k: Bytes): Readable {
    if |k| < 2 * HEADER then Garbled
    else
      var low := ReadLength(k[HEADER..2 * HEADER]);
      var lower := ValueAt(k, HEADER);
      if ReadLength(k[..HEADER]) > HEADER + low then Node(lower, ValueAt(k, HEADER + IntAlign(low)))
      else Leaf(lower)
  }

  lemma ValueAtDatum(k: Bytes, o: nat, v: Bytes)
    requires |v| + HEADER < 0x4000_0000
    requires o + |v| + HEADER <= |k| && k[o..o + HEADER + |v|] == Datum(v)
    ensures ValueAt(k, o) == v && ReadLength(k[o..o + HEADER]) == |v| + HEADER
  {
    LengthRoundTrip(|v| + HEADER);
    assert k[o..o + HEADER] == Datum(v)[..HEADER] == LengthWord(|v| + HEADER);
    assert k[o + HEADER..o + HEADER + |v|] == Datum(v)[HEADER..] == v;
  }

  /** A leaf key reads back as the value it was made from. */
  lemma LeafRoundTrip(v: Bytes)
    requires |v| + 2 * HEADER < 0x4000_0000
    ensures Read(LeafKey(v)) == Leaf(v) && |LeafKey(v)| == |v| + 2 * HEADER
  {
    var k := LeafKey(v);
    assert k[HEADER..HEADER + HEADER + |v|] == Datum(v);
    ValueAtDatum(k, HEADER, v);
    LengthRoundTrip(|v| + 2 * HEADER);
    assert k[..HEADER] == LengthWord(|v| + 2 * HEADER);
  }

  /** An interval key reads back as its bounds, and never as a leaf: not even when the bounds
      are equal or empty. */
  lemma CopyRoundTrip(lower: Bytes, upper: Bytes)
    requires |lower| + |upper| + 4 * HEADER < 0x4000_0000
    ensures Read(CopyKey(lower, upper)) == Node(lower, upper)
    ensures |CopyKey(lower, upper)| == HEADER + IntAlign(|lower| + HEADER) + HEADER + |upper|
  {
    var k := CopyKey(lower, upper);
    var low := |lower| + HEADER;
    var at := HEADER + IntAlign(low);
    assert k[HEADER..HEADER + HEADER + |lower|] == Datum(lower);
    ValueAtDatum(k, HEADER, lower);
    assert k[at..at + HEADER + |upper|] == Datum(upper);
    ValueAtDatum(k, at, upper);
    LengthRoundTrip(|k|);
    assert k[..HEADER] == LengthWord(|k|);
  }
}
