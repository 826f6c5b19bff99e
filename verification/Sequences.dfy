/** Picking elements out of sequences. */
module Sequences {

  function Filter<V>(vs: seq<V>, hit: V -> bool): seq<V> {
    if vs == [] then [] else (if hit(vs[0]) then [vs[0]] else []) + Filter(vs[1..], hit)
  }

  lemma FilterStep<V>(vs: seq<V>, hit: V -> bool)
    ensures Filter(vs, hit) == if vs == [] then [] else (if hit(vs[0]) then [vs[0]] else []) + Filter(vs[1..], hit)
  {
  }

  lemma {:induction false} FilterConcat<V>(a: seq<V>, b: seq<V>, hit: V -> bool)
    ensures Filter(a + b, hit) == Filter(a, hit) + Filter(b, hit)
  {
    hide Filter;
    FilterStep(a, hit);
    if a == [] {
      assert a + b == b;
    } else {
      assert (a + b)[0] == a[0] && (a + b)[1..] == a[1..] + b;
      FilterStep(a + b, hit);
      FilterConcat(a[1..], b, hit);
    }
  }

  lemma {:induction false} FilterNone<V>(vs: seq<V>, hit: V -> bool)
    requires forall v :: v in vs ==> !hit(v)
    ensures Filter(vs, hit) == []
  {
    if vs != [] {
      FilterNone(vs[1..], hit);
    }
  }

  lemma {:induction false} FilterShrinks<V(!new)>(vs: seq<V>, p: V -> bool, q: V -> bool)
    requires forall i :: 0 <= i < |vs| && p(vs[i]) ==> q(vs[i])
    ensures |Filter(vs, p)| <= |Filter(vs, q)|
  {
    if vs != [] {
      FilterShrinks(vs[1..], p, q);
    }
  }

  /** A stronger condition keeps the same elements exactly if it drops none. */
  lemma {:induction false} FilterSame<V(!new)>(vs: seq<V>, p: V -> bool, q: V -> bool)
    requires forall i :: 0 <= i < |vs| && p(vs[i]) ==> q(vs[i])
    ensures Filter(vs, p) == Filter(vs, q) <==> forall i :: 0 <= i < |vs| && q(vs[i]) ==> p(vs[i])
  {
    hide Filter;
    FilterStep(vs, p);
    FilterStep(vs, q);
    if vs != [] {
      var rest := vs[1..];
      FilterSame(rest, p, q);
      FilterShrinks(rest, p, q);
      assert forall i :: 0 <= i < |rest| ==> rest[i] == vs[i + 1];
      if p(vs[0]) == q(vs[0]) {
        SameTail(if p(vs[0]) then [vs[0]] else [], Filter(rest, p), Filter(rest, q));
      }
    }
  }

  lemma SameTail<V>(a: seq<V>, b: seq<V>, c: seq<V>)
    ensures a + b == a + c <==> b == c
  {
    assert (a + b)[|a|..] == b && (a + c)[|a|..] == c;
  }

  predicate InRange(n: nat, which: seq<nat>) {
    forall i :: 0 <= i < |which| ==> which[i] < n
  }

  /** The elements with the given numbers. */
  function Pick<V>(vs: seq<V>, which: seq<nat>): (r: seq<V>)
    requires InRange(|vs|, which)
    ensures |r| == |which| && forall i :: 0 <= i < |r| ==> r[i] == vs[which[i]]
  {
    seq(|which|, i requires 0 <= i < |which| => vs[which[i]])
  }
}
