/**
 * The abstract value of a table: its (key, value) entries in insertion
 * order. Every operation of the table is specified against this view.
 */
module Entries {

  datatype Option<T> = None | Some(value: T)

  /** The keys of a sequence of entries, in the same order. */
  function Keys<K, V>(items: seq<(K, V)>): seq<K>
  {
    seq(|items|, j requires 0 <= j < |items| => items[j].0)
  }

  /** No key occurs twice. */
  ghost predicate DistinctKeys<K, V>(items: seq<(K, V)>)
  {
    forall i, j :: 0 <= i < j < |items| ==> items[i].0 != items[j].0
  }

  /** The value of the first entry with key `k`, if any. */
  function Get<K(==), V>(items: seq<(K, V)>, k: K): (r: Option<V>)
    ensures r.Some? <==> k in Keys(items)
    ensures r.Some? ==> (k, r.value) in items
  {
    if items == [] then None
    else
      assert Keys(items) == [items[0].0] + Keys(items[1..]);
      if items[0].0 == k then Some(items[0].1) else Get(items[1..], k)
  }

  /** Insertion that never overwrites: a present key leaves the entries as they are. */
  function InsertEntry<K(==), V>(items: seq<(K, V)>, pair: (K, V)): seq<(K, V)>
  {
    if pair.0 in Keys(items) then items else items + [pair]
  }

  /** Writing `v` through a reference to the entry of key `k`. */
  function SetEntry<K(==), V>(items: seq<(K, V)>, k: K, v: V): seq<(K, V)>
  {
    seq(|items|, j requires 0 <= j < |items| => if items[j].0 == k then (k, v) else items[j])
  }

  /** Inserting the pairs of a collection one after the other into an empty table. */
  function FoldInsert<K(==), V>(pairs: seq<(K, V)>): seq<(K, V)>
  {
    if pairs == [] then []
    else InsertEntry(FoldInsert(pairs[..|pairs| - 1]), pairs[|pairs| - 1])
  }

  lemma {:induction false} GetSnoc<K, V>(items: seq<(K, V)>, p: (K, V), k: K)
    ensures Get(items + [p], k) ==
            if k in Keys(items) then Get(items, k)
            else if p.0 == k then Some(p.1) else None
  {
    if items == [] {
      assert items + [p] == [p];
    } else {
      assert (items + [p])[1..] == items[1..] + [p];
      assert Keys(items) == [items[0].0] + Keys(items[1..]);
      GetSnoc(items[1..], p, k);
    }
  }

  /** With distinct keys, the lookup of the key at position j yields the value at position j. */
  lemma {:induction false} GetAt<K, V>(items: seq<(K, V)>, j: nat)
    requires DistinctKeys(items) && j < |items|
    ensures Get(items, items[j].0) == Some(items[j].1)
  {
    if j > 0 {
      GetAt(items[1..], j - 1);
    }
  }

  /** Inserting an absent key makes it visible with its value; a present key keeps its first value; no other key changes. */
  lemma InsertEntryLookup<K, V>(items: seq<(K, V)>, pair: (K, V), k: K)
    ensures Get(InsertEntry(items, pair), k) ==
            if k == pair.0 && pair.0 !in Keys(items) then Some(pair.1) else Get(items, k)
  {
    if pair.0 !in Keys(items) {
      GetSnoc(items, pair, k);
    }
  }

  lemma InsertEntryDistinct<K, V>(items: seq<(K, V)>, pair: (K, V))
    requires DistinctKeys(items)
    ensures DistinctKeys(InsertEntry(items, pair))
  {
    if pair.0 !in Keys(items) {
      var r := items + [pair];
      forall i, j | 0 <= i < j < |r| ensures r[i].0 != r[j].0 {
        if j == |items| {
          assert Keys(items)[i] == items[i].0;
        }
      }
    }
  }

  /** Entries inserted with distinct keys come back exactly, in insertion order. */
  lemma {:induction false} FoldInsertKeepsOrder<K, V>(pairs: seq<(K, V)>)
    requires DistinctKeys(pairs)
    ensures FoldInsert(pairs) == pairs
  {
    if pairs != [] {
      var n := |pairs| - 1;
      var init := pairs[..n];
      FoldInsertKeepsOrder(init);
      assert pairs[n].0 !in Keys(init) by {
        forall i | 0 <= i < |init| ensures Keys(init)[i] != pairs[n].0 {
          assert init[i] == pairs[i];
        }
      }
      assert init + [pairs[n]] == pairs;
    }
  }

  /** For a collection with repeated keys, the first occurrence wins. */
  lemma {:induction false} FoldInsertFirstWins<K, V>(pairs: seq<(K, V)>, k: K)
    ensures Get(FoldInsert(pairs), k) == Get(pairs, k)
  {
    if pairs != [] {
      var n := |pairs| - 1;
      var init := pairs[..n];
      assert init + [pairs[n]] == pairs;
      FoldInsertFirstWins(init, k);
      InsertEntryLookup(FoldInsert(init), pairs[n], k);
      GetSnoc(init, pairs[n], k);
      FoldInsertFirstWins(init, pairs[n].0);
    }
  }

  lemma {:induction false} FoldInsertDistinct<K, V>(pairs: seq<(K, V)>)
    ensures DistinctKeys(FoldInsert(pairs))
  {
    if pairs != [] {
      FoldInsertDistinct(pairs[..|pairs| - 1]);
      InsertEntryDistinct(FoldInsert(pairs[..|pairs| - 1]), pairs[|pairs| - 1]);
    }
  }

  /** Writing through a reference changes the value of that key only, and keeps the keys and their order. */
  lemma SetEntryLookup<K, V>(items: seq<(K, V)>, k: K, v: V, k': K)
    requires DistinctKeys(items)
    ensures Keys(SetEntry(items, k, v)) == Keys(items)
    ensures DistinctKeys(SetEntry(items, k, v))
    ensures Get(SetEntry(items, k, v), k') ==
            if k' == k && k in Keys(items) then Some(v) else Get(items, k')
  {
    var r := SetEntry(items, k, v);
    assert Keys(r) == Keys(items);
    if k' in Keys(items) {
      var j :| 0 <= j < |items| && Keys(items)[j] == k';
      GetAt(items, j);
      GetAt(r, j);
    }
  }
}
