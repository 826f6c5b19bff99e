/** Index trees over boxes of differing dimension: keys made by unions and splits, again and
    again, and the search that prunes by them. */
module CubeTree {
  import opened Cube
  import opened CubeDistance
  import opened CubeSplit
  import opened Sequences
  import G = GistSearch

  /** How a key came about: from one box, by a union of two such keys, or as the key of the side
      of a split that gets the keys with the given numbers. */
  datatype Derivation =
    | Leaf(b: Box) | Join(left: Derivation, right: Derivation) | Side(parts: seq<Derivation>, which: seq<nat>)

  /** Neither unions nor splits fix how a box stores its corners, so a derivation may have several
      keys, all of the same extent. */
  ghost predicate Makes(d: Derivation, k: Box) {
    Valid(k) &&
    match d
    case Leaf(b) => k == b
    case Join(left, right) =>
      exists a, b :: Valid(a) && Valid(b) && Makes(left, a) && Makes(right, b) && IsUnion(k, a, b)
    case Side(parts, which) =>
      exists keys ::
        && |keys| == |parts| && AllValid(keys)
        && (forall i :: 0 <= i < |parts| ==> Makes(parts[i], keys[i]))
        && Hull(k, keys, which)
  }

  ghost predicate Has(d: Derivation, b: Box) {
    match d
    case Leaf(x) => x == b
    case Join(left, right) => Has(left, b) || Has(right, b)
    case Side(parts, which) => exists p :: 0 <= p < |which| && which[p] < |parts| && Has(parts[which[p]], b)
  }

  lemma JoinEncloses(k: Box, a: Box, b: Box, inner: Box)
    requires Valid(k) && Valid(a) && Valid(b) && Valid(inner) && IsUnion(k, a, b)
    requires Encloses(a, inner) || Encloses(b, inner)
    ensures Encloses(k, inner)
  {
    hide Encloses, IsUnion;
    UnionEncloses(k, a, b);
    EnclosesTransitive(k, if Encloses(a, inner) then a else b, inner);
  }

  lemma SideEncloses(k: Box, keys: seq<Box>, which: seq<nat>, p: nat, inner: Box)
    requires AllValid(keys) && Hull(k, keys, which) && p < |which| && which[p] < |keys|
    requires Valid(inner) && Encloses(keys[which[p]], inner)
    ensures Encloses(k, inner)
  {
    hide Encloses;
    EnclosesTransitive(k, keys[which[p]], inner);
  }

  /** However often keys were united and divided, each encloses every box that it was made from,
      whatever their dimensions. */
  lemma {:induction false} DerivedKeyEncloses(d: Derivation, k: Box, b: Box)
    requires Makes(d, k) && Has(d, b)
    ensures Valid(b) && Encloses(k, b)
  {
    hide IsUnion, Encloses, Valid, Hull;
    match d
    case Leaf(x) =>
      EnclosesItself(b);
    case Join(left, right) =>
      var ka, kb :| Valid(ka) && Valid(kb) && Makes(left, ka) && Makes(right, kb) && IsUnion(k, ka, kb);
      if Has(left, b) {
        DerivedKeyEncloses(left, ka, b);
      } else {
        DerivedKeyEncloses(right, kb, b);
      }
      JoinEncloses(k, ka, kb, b);
    case Side(parts, which) =>
      var keys :| |keys| == |parts| && AllValid(keys)
                  && (forall i :: 0 <= i < |parts| ==> Makes(parts[i], keys[i])) && Hull(k, keys, which);
      var p :| 0 <= p < |which| && which[p] < |parts| && Has(parts[which[p]], b);
      DerivedKeyEncloses(parts[which[p]], keys[which[p]], b);
      SideEncloses(k, keys, which, p, b);
  }

  lemma EnclosesItself(b: Box)
    requires Valid(b)
    ensures Encloses(b, b)
  {
  }

  type ValidBox = b: Box | Valid(b) witness Box(0, true, [])

  /** The key was made from at least this box. */
  ghost predicate DerivedFor(k: ValidBox, b: ValidBox) {
    exists d :: Makes(d, k) && Has(d, b)
  }

  /** In any tree whose internal keys were made from the boxes beneath them, of whatever dimensions,
      the pruned search equals a scan; for "contained by" provided that the query includes zero in
      the dimensions that a matching box of the tree does not have. */
  lemma SearchIsScan(t: G.Index<ValidBox, ValidBox>, query: ValidBox, strategy: Strategy)
    requires G.Covered(t, DerivedFor)
    requires strategy == ContainedByQuery ==>
               forall b :: b in G.Values(t) && LeafConsistent(b, query, strategy) ==> Straddles(query, b.dim)
    ensures G.Search(t, (k: ValidBox) => InnerConsistent(k, query, strategy),
                     (b: ValidBox) => LeafConsistent(b, query, strategy))
         == Filter(G.Values(t), (b: ValidBox) => LeafConsistent(b, query, strategy))
  {
    hide Straddles, Encloses, InnerConsistent, LeafConsistent;
    var enter := (k: ValidBox) => InnerConsistent(k, query, strategy);
    var hit := (b: ValidBox) => LeafConsistent(b, query, strategy);
    forall k: ValidBox, b: ValidBox | b in G.Values(t) && DerivedFor(k, b) && hit(b) ensures enter(k) {
      var d :| Makes(d, k) && Has(d, b);
      DerivedKeyEncloses(d, k, b);
      EnclosingIsConsistent(k, b, query, strategy);
    }
    G.SearchIsScan(t, DerivedFor, enter, hit);
  }

  /** For an ordered search of such a tree: a key is no farther from the query than any box it was
      made from, in all three metrics. */
  lemma DerivedKeyIsNearer(m: Metric, k: ValidBox, b: ValidBox, query: ValidBox)
    requires DerivedFor(k, b)
    ensures Distance(m, k, query, MaxDim(k, query)) <= Distance(m, b, query, MaxDim(b, query))
  {
    hide Encloses, Distance, Makes, Has;
    var d :| Makes(d, k) && Has(d, b);
    DerivedKeyEncloses(d, k, b);
    KeyIsNearer(m, k, b, query);
  }

  /** And it never comes after one in the order by a signed coordinate. */
  lemma DerivedKeyComesFirst(k: ValidBox, b: ValidBox, coord: int)
    requires DerivedFor(k, b) && coord != 0
    ensures CoordDistance(k, coord, false).Some? && CoordDistance(b, coord, true).Some?
    ensures CoordDistance(k, coord, false).value <= CoordDistance(b, coord, true).value
  {
    hide Encloses, CoordDistance, Makes, Has;
    var d :| Makes(d, k) && Has(d, b);
    DerivedKeyEncloses(d, k, b);
    KeyComesFirst(k, b, coord, true);
  }
}
