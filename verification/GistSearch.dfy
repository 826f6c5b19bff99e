/** A generalised search tree, searched by pruning: values on leaf pages, keys above them.
    What one key type and its operations have to guarantee for the pruned search to return
    exactly what a scan of all values returns. */
module GistSearch {
  import opened Sequences

  datatype Index<K, V> = Item(v: V) | Page(entries: seq<Entry<K, V>>)

  datatype Entry<K, V> = Entry(key: K, sub: Index<K, V>)

  /** All values, from left to right. */
  function Values<K, V>(t: Index<K, V>): seq<V>
    decreases t, 0
  {
    match t
    case Item(v) => [v]
    case Page(entries) => EntryValues(entries)
  }

  function EntryValues<K, V>(entries: seq<Entry<K, V>>): seq<V>
    decreases entries, 1
  {
    if entries == [] then [] else Beneath(entries[0]) + EntryValues(entries[1..])
  }

  function Beneath<K, V>(e: Entry<K, V>): seq<V>
    decreases e, 0
  {
    Values(e.sub)
  }

  /** The search: a subtree is entered only if its key is judged consistent. */
  function Search<K, V>(t: Index<K, V>, enter: K -> bool, hit: V -> bool): seq<V>
    decreases t, 0
  {
    match t
    case Item(v) => if hit(v) then [v] else []
    case Page(entries) => SearchEntries(entries, enter, hit)
  }

  function SearchEntries<K, V>(entries: seq<Entry<K, V>>, enter: K -> bool, hit: V -> bool): seq<V>
    decreases entries, 1
  {
    if entries == [] then []
    else SearchEntry(entries[0], enter, hit) + SearchEntries(entries[1..], enter, hit)
  }

  function SearchEntry<K, V>(e: Entry<K, V>, enter: K -> bool, hit: V -> bool): seq<V>
    decreases e, 0
  {
    if enter(e.key) then Search(e.sub, enter, hit) else []
  }

  /** Every key stands in the relation `covers` to each value beneath it. */
  ghost predicate Covered<K, V>(t: Index<K, V>, covers: (K, V) -> bool)
    decreases t, 0
  {
    match t
    case Item(_) => true
    case Page(entries) => forall i :: 0 <= i < |entries| ==> CoveredEntry(entries[i], covers)
  }

  ghost predicate CoveredEntry<K, V>(e: Entry<K, V>, covers: (K, V) -> bool)
    decreases e, 0
  {
    Covered(e.sub, covers) && forall v :: v in Beneath(e) ==> covers(e.key, v)
  }

  /** If a key that covers a hit is always entered, pruning loses nothing: the search returns
      exactly the hits of a scan, in the same order. */
  lemma {:induction false} SearchIsScan<K(!new), V(!new)>(t: Index<K, V>, covers: (K, V) -> bool, enter: K -> bool,
        hit: V -> bool)
    requires Covered(t, covers)
    requires forall k, v :: v in Values(t) && covers(k, v) && hit(v) ==> enter(k)
    ensures Search(t, enter, hit) == Filter(Values(t), hit)
    decreases t, 0
  {
    match t
    case Item(v) =>
      assert [v][1..] == [];
    case Page(entries) =>
      SearchEntriesIsScan(entries, covers, enter, hit);
  }

  lemma {:induction false} SearchEntriesIsScan<K(!new), V(!new)>(entries: seq<Entry<K, V>>, covers: (K, V) -> bool,
        enter: K -> bool, hit: V -> bool)
    requires forall i :: 0 <= i < |entries| ==> CoveredEntry(entries[i], covers)
    requires forall k, v :: v in EntryValues(entries) && covers(k, v) && hit(v) ==> enter(k)
    ensures SearchEntries(entries, enter, hit) == Filter(EntryValues(entries), hit)
    decreases entries, 1
  {
    if entries != [] {
      SearchEntriesIsScan(entries[1..], covers, enter, hit);
      SearchEntryIsScan(entries[0], covers, enter, hit);
      FilterConcat(Beneath(entries[0]), EntryValues(entries[1..]), hit);
    }
  }

  lemma {:induction false} SearchEntryIsScan<K(!new), V(!new)>(e: Entry<K, V>, covers: (K, V) -> bool,
        enter: K -> bool, hit: V -> bool)
    requires CoveredEntry(e, covers)
    requires forall k, v :: v in Beneath(e) && covers(k, v) && hit(v) ==> enter(k)
    ensures SearchEntry(e, enter, hit) == Filter(Beneath(e), hit)
    decreases e, 0
  {
    if enter(e.key) {
      SearchIsScan(e.sub, covers, enter, hit);
    } else {
      FilterNone(Beneath(e), hit);
    }
  }
}
