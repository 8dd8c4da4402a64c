/**
 * The state of a table as a value: a snapshot of its five fields, the
 * invariant that ties them to the insertion order, and the effect of
 * appending a new slot, of one insertion, and of rebuilding a table by
 * reinserting a sequence of entries.
 */
module Layout {
  import opened Entries
  import opened Probing

  /**
   * The fields elements_, next_element_, first_element_, last_element_ and
   * count_elements_inside_; the capacity is the common length of the two vectors.
   */
  datatype TableState<K, V> = TableState(slots: seq<(K, V)>, succ: seq<nat>, first: nat, last: nat, count: nat)

  /** A table with `cap` free slots: every slot holds the value-initialised pair and has successor cap + 1. */
  function Empty<K, V>(blank: (K, V), cap: nat): TableState<K, V>
  {
    TableState(seq(cap, _ => blank), seq(cap, _ => cap + 1), cap, cap, 0)
  }

  /**
   * `order` lists the occupied slots in insertion order, and the successor
   * chain runs through them from `first` to `last`, whose successor is the
   * capacity.
   */
  ghost predicate Linked<K, V>(s: TableState<K, V>, order: seq<nat>)
  {
    var cap := |s.succ|;
    && |s.slots| == cap
    && |order| == s.count
    && (forall j :: 0 <= j < |order| ==> order[j] < cap)
    && (forall i, j :: 0 <= i < j < |order| ==> order[i] != order[j])
    && (forall i :: 0 <= i < cap ==> (Occupied(s.succ, i) <==> i in order))
    && (forall j :: 0 <= j < |order| - 1 ==> s.succ[order[j]] == order[j + 1])
    && (order != [] ==> s.succ[order[|order| - 1]] == cap)
    && s.first == (if order == [] then cap else order[0])
    && s.last == (if order == [] then cap else order[|order| - 1])
  }

  /** A free slot has successor cap + 1 and holds the value-initialised pair. */
  ghost predicate FreeBlank<K, V>(s: TableState<K, V>, blank: (K, V))
    requires |s.slots| == |s.succ|
  {
    forall i {:trigger Occupied(s.succ, i)} :: 0 <= i < |s.succ| && !Occupied(s.succ, i) ==> s.succ[i] == |s.succ| + 1 && s.slots[i] == blank
  }

  /** Everything a table keeps between operations, except the load-factor bound. */
  ghost predicate Shaped<K, V>(hash: K -> nat, blank: (K, V), s: TableState<K, V>, order: seq<nat>)
  {
    && Linked(s, order)
    && 8 <= |s.succ|
    && FreeBlank(s, blank)
    && KeysUnique(s.slots, s.succ)
    && AllReachable(hash, s.slots, s.succ)
  }

  /** The table invariant: at most a quarter of the slots are occupied. */
  ghost predicate Wf<K, V>(hash: K -> nat, blank: (K, V), s: TableState<K, V>, order: seq<nat>)
  {
    Shaped(hash, blank, s, order) && 4 * s.count <= |s.succ|
  }

  /** The entries of the occupied slots, in insertion order. */
  ghost function EntriesOf<K, V>(s: TableState<K, V>, order: seq<nat>): seq<(K, V)>
    requires Linked(s, order)
  {
    seq(|order|, j requires 0 <= j < |order| => s.slots[order[j]])
  }

  /** Two vectors of the same non-zero length whose last slot, unless the table is empty, is a slot. */
  predicate Anchored<K, V>(s: TableState<K, V>)
  {
    |s.slots| == |s.succ| > 0 && (s.first == |s.succ| || s.last < |s.succ|)
  }

  /**
   * Claiming slot `p` for `pair`: link it after the old last slot (or make
   * it the first when the table is empty), make it the tail and count it.
   */
  function Append<K, V>(s: TableState<K, V>, p: nat, pair: (K, V)): (r: TableState<K, V>)
    requires Anchored(s) && p < |s.succ|
    ensures Anchored(r) && |r.succ| == |s.succ|
  {
    var cap := |s.succ|;
    var succ := if s.first == cap then s.succ else s.succ[s.last := p];
    TableState(s.slots[p := pair], succ[p := cap], if s.first == cap then p else s.first, p, s.count + 1)
  }

  /** One insertion with no growth due: append at the free slot where the probe stops, or leave the table alone. */
  function Place<K(==), V>(hash: K -> nat, s: TableState<K, V>, pair: (K, V)): (r: TableState<K, V>)
    requires Anchored(s)
    ensures Anchored(r) && |r.succ| == |s.succ|
  {
    var p := Probe(hash, s.slots, s.succ, pair.0);
    if p < |s.succ| && !Occupied(s.succ, p) then Append(s, p, pair) else s
  }

  /** The table of capacity `cap` obtained by inserting `items` in order into an empty one. */
  function Rebuild<K(==), V>(hash: K -> nat, blank: (K, V), cap: nat, items: seq<(K, V)>): (r: TableState<K, V>)
    requires 0 < cap
    ensures Anchored(r) && |r.succ| == cap
  {
    if items == [] then Empty(blank, cap)
    else Place(hash, Rebuild(hash, blank, cap, items[..|items| - 1]), items[|items| - 1])
  }

  /** The index reached from `i` after `n` applications of the iterator's increment. */
  ghost function Walk<K, V>(s: TableState<K, V>, i: nat, n: nat): nat
  {
    if n == 0 then i
    else
      var j := Walk(s, i, n - 1);
      if j < |s.succ| then s.succ[j] else j
  }

  lemma EmptyWf<K, V>(hash: K -> nat, blank: (K, V), cap: nat)
    requires 8 <= cap
    ensures Wf(hash, blank, Empty(blank, cap), []) && EntriesOf(Empty(blank, cap), []) == []
  {
  }

  /** A distinct sequence of indices below `n` that is shorter than `n` misses one of them. */
  lemma {:induction false} MissingIndex(order: seq<nat>, n: nat) returns (i: nat)
    requires forall j :: 0 <= j < |order| ==> order[j] < n
    requires forall i, j :: 0 <= i < j < |order| ==> order[i] != order[j]
    requires |order| < n
    ensures i < n && i !in order
  {
    if n - 1 !in order {
      i := n - 1;
    } else {
      var j :| 0 <= j < |order| && order[j] == n - 1;
      var rest := order[..j] + order[j + 1..];
      assert forall m :: 0 <= m < |rest| ==> rest[m] == if m < j then order[m] else order[m + 1];
      i := MissingIndex(rest, n - 1);
      forall m | 0 <= m < |order| ensures order[m] != i {
        if m < j {
          assert rest[m] == order[m];
        } else if m > j {
          assert rest[m - 1] == order[m];
        }
      }
    }
  }

  /** A table with fewer entries than slots has a free slot. */
  lemma FreeSlot<K, V>(s: TableState<K, V>, order: seq<nat>) returns (i: nat)
    requires Linked(s, order) && s.count < |s.succ|
    ensures i < |s.succ| && !Occupied(s.succ, i)
  {
    i := MissingIndex(order, |s.succ|);
  }

  /** Distinct keys in the occupied slots give distinct keys in the entries. */
  lemma EntriesDistinct<K, V>(s: TableState<K, V>, order: seq<nat>)
    requires Linked(s, order) && KeysUnique(s.slots, s.succ)
    ensures DistinctKeys(EntriesOf(s, order))
  {
    var e := EntriesOf(s, order);
    forall i, j | 0 <= i < j < |e| ensures e[i].0 != e[j].0 {
      assert order[i] in order && order[j] in order;
    }
  }

  /**
   * Lookup is correct: the probe for `k` stops inside the table, at an
   * occupied slot exactly when `k` is among the entries, and then that slot
   * holds `k` with its value.
   */
  lemma FindCorrect<K, V>(hash: K -> nat, blank: (K, V), s: TableState<K, V>, order: seq<nat>, k: K)
    requires Shaped(hash, blank, s, order) && s.count < |s.succ|
    ensures Probe(hash, s.slots, s.succ, k) < |s.succ|
    ensures Occupied(s.succ, Probe(hash, s.slots, s.succ, k)) <==> k in Keys(EntriesOf(s, order))
    ensures Occupied(s.succ, Probe(hash, s.slots, s.succ, k)) ==>
      s.slots[Probe(hash, s.slots, s.succ, k)] == (k, Get(EntriesOf(s, order), k).value)
  {
    var free := FreeSlot(s, order);
    ProbeStops(hash, s.slots, s.succ, k, free);
    var p := Probe(hash, s.slots, s.succ, k);
    var e := EntriesOf(s, order);
    EntriesDistinct(s, order);
    if Occupied(s.succ, p) {
      var j :| 0 <= j < |order| && order[j] == p;
      assert Keys(e)[j] == k;
      GetAt(e, j);
    } else {
      ProbeMissesAbsent(hash, s.slots, s.succ, k);
      forall j | 0 <= j < |e| ensures Keys(e)[j] != k {
        assert order[j] in order;
      }
    }
  }

  /** Appending a free slot occupies that slot and no other, and moves no free slot's successor. */
  lemma AppendOccupancy<K, V>(s: TableState<K, V>, order: seq<nat>, p: nat, pair: (K, V))
    requires Linked(s, order) && 0 < |s.succ| && p < |s.succ| && !Occupied(s.succ, p)
    ensures Anchored(s)
    ensures forall i :: 0 <= i < |s.succ| ==>
      (Occupied(Append(s, p, pair).succ, i) <==> Occupied(s.succ, i) || i == p)
    ensures forall i :: 0 <= i < |s.succ| && !Occupied(s.succ, i) && i != p ==>
      Append(s, p, pair).succ[i] == s.succ[i]
  {
    var cap := |s.succ|;
    var r := Append(s, p, pair);
    if order != [] {
      assert s.last == order[|order| - 1] && s.last in order;
      assert r.succ == s.succ[s.last := p][p := cap];
    }
  }

  /** Appending a free slot extends the successor chain and the insertion order by that slot. */
  lemma AppendLinked<K, V>(s: TableState<K, V>, order: seq<nat>, p: nat, pair: (K, V))
    requires Linked(s, order) && 0 < |s.succ| && p < |s.succ| && !Occupied(s.succ, p)
    ensures Anchored(s)
    ensures Linked(Append(s, p, pair), order + [p])
  {
    var cap, n := |s.succ|, |order|;
    var r, o := Append(s, p, pair), order + [p];
    AppendOccupancy(s, order, p, pair);
    assert p !in order;
    assert forall i, j :: 0 <= i < j < |o| ==> o[i] != o[j];
    forall i | 0 <= i < cap ensures Occupied(r.succ, i) <==> i in o {
      assert i in o <==> i in order || i == p;
    }
    if n > 0 {
      assert s.last == order[n - 1] && s.first == order[0] != cap;
      assert r.succ == s.succ[s.last := p][p := cap];
      forall j | 0 <= j < n - 1 ensures r.succ[o[j]] == o[j + 1] {
        assert order[j] != s.last;
      }
      assert r.succ[o[n - 1]] == o[n];
    }
    assert forall j :: 0 <= j < |o| - 1 ==> r.succ[o[j]] == o[j + 1];
  }

  /** Appending a free slot appends its pair to the entries. */
  lemma AppendEntries<K, V>(s: TableState<K, V>, order: seq<nat>, p: nat, pair: (K, V))
    requires Linked(s, order) && 0 < |s.succ| && p < |s.succ| && !Occupied(s.succ, p)
    ensures Anchored(s) && Linked(Append(s, p, pair), order + [p])
    ensures EntriesOf(Append(s, p, pair), order + [p]) == EntriesOf(s, order) + [pair]
  {
    AppendLinked(s, order, p, pair);
    var r, o := Append(s, p, pair), order + [p];
    assert p !in order;
    forall j | 0 <= j < |o| ensures EntriesOf(r, o)[j] == (EntriesOf(s, order) + [pair])[j] {
      if j < |order| {
        assert order[j] != p;
      }
    }
  }

  /**
   * Claiming the free slot where the probe for an absent key stops keeps the
   * table's shape, and appends the new entry to the entries.
   */
  lemma AppendShaped<K, V>(hash: K -> nat, blank: (K, V), s: TableState<K, V>, order: seq<nat>, pair: (K, V))
    requires Shaped(hash, blank, s, order) && s.count < |s.succ|
    requires pair.0 !in Keys(EntriesOf(s, order))
    ensures Probe(hash, s.slots, s.succ, pair.0) < |s.succ|
    ensures !Occupied(s.succ, Probe(hash, s.slots, s.succ, pair.0))
    ensures Shaped(hash, blank, Append(s, Probe(hash, s.slots, s.succ, pair.0), pair),
                   order + [Probe(hash, s.slots, s.succ, pair.0)])
    ensures EntriesOf(Append(s, Probe(hash, s.slots, s.succ, pair.0), pair), order + [Probe(hash, s.slots, s.succ, pair.0)])
            == EntriesOf(s, order) + [pair]
  {
    FindCorrect(hash, blank, s, order, pair.0);
    var p := Probe(hash, s.slots, s.succ, pair.0);
    AppendEntries(s, order, p, pair);
    AppendOccupancy(s, order, p, pair);
    var r := Append(s, p, pair);
    ProbeMissesAbsent(hash, s.slots, s.succ, pair.0);
    ClaimKeepsReachable(hash, s.slots, s.succ, r.succ, pair);
    assert r.slots == s.slots[p := pair];
  }

  /**
   * One insertion with no growth due keeps the table's shape and inserts
   * the pair into the entries without overwriting: a present key leaves the
   * table as it was, an absent one is appended at the slot its probe reaches.
   */
  lemma PlaceShaped<K, V>(hash: K -> nat, blank: (K, V), s: TableState<K, V>, order: seq<nat>, pair: (K, V))
    returns (order': seq<nat>)
    requires Wf(hash, blank, s, order)
    ensures Anchored(s)
    ensures order' == if pair.0 in Keys(EntriesOf(s, order)) then order
                      else order + [Probe(hash, s.slots, s.succ, pair.0)]
    ensures pair.0 in Keys(EntriesOf(s, order)) ==> Place(hash, s, pair) == s
    ensures Shaped(hash, blank, Place(hash, s, pair), order')
    ensures EntriesOf(Place(hash, s, pair), order') == InsertEntry(EntriesOf(s, order), pair)
  {
    FindCorrect(hash, blank, s, order, pair.0);
    if pair.0 in Keys(EntriesOf(s, order)) {
      order' := order;
    } else {
      AppendShaped(hash, blank, s, order, pair);
      order' := order + [Probe(hash, s.slots, s.succ, pair.0)];
    }
  }

  /**
   * Reinserting entries with distinct keys, in order, into an empty table
   * whose capacity is at least four times their number gives a well-formed
   * table with exactly those entries in exactly that order.
   */
  lemma {:induction false} RebuildWf<K, V>(hash: K -> nat, blank: (K, V), cap: nat, items: seq<(K, V)>)
    returns (order: seq<nat>)
    requires 8 <= cap && DistinctKeys(items) && 4 * |items| <= cap
    ensures Wf(hash, blank, Rebuild(hash, blank, cap, items), order)
    ensures EntriesOf(Rebuild(hash, blank, cap, items), order) == items
  {
    if items == [] {
      EmptyWf(hash, blank, cap);
      order := [];
    } else {
      var n := |items| - 1;
      var init := items[..n];
      var order0 := RebuildWf(hash, blank, cap, init);
      var s := Rebuild(hash, blank, cap, init);
      assert items[n].0 !in Keys(init) by {
        forall i | 0 <= i < |init| ensures Keys(init)[i] != items[n].0 {
          assert init[i] == items[i];
        }
      }
      order := PlaceShaped(hash, blank, s, order0, items[n]);
      assert init + [items[n]] == items;
    }
  }

  /**
   * Writing a value into an occupied slot keeps the table's shape and
   * changes the value of that slot's key, and nothing else, in the entries.
   */
  lemma SetValueShaped<K, V>(hash: K -> nat, blank: (K, V), s: TableState<K, V>, order: seq<nat>, p: nat, v: V)
    requires Wf(hash, blank, s, order) && p < |s.succ| && Occupied(s.succ, p)
    ensures Wf(hash, blank, s.(slots := s.slots[p := (s.slots[p].0, v)]), order)
    ensures EntriesOf(s.(slots := s.slots[p := (s.slots[p].0, v)]), order) ==
            SetEntry(EntriesOf(s, order), s.slots[p].0, v)
  {
    var k := s.slots[p].0;
    var r := s.(slots := s.slots[p := (k, v)]);
    forall i | 0 <= i < |s.succ| && Occupied(s.succ, i) ensures Reachable(hash, r.slots, r.succ, i) {
      assert Reachable(hash, s.slots, s.succ, i);
    }
    var e, e' := EntriesOf(s, order), EntriesOf(r, order);
    forall j | 0 <= j < |order| ensures e'[j] == SetEntry(e, k, v)[j] {
      assert order[j] in order;
    }
  }

  /**
   * Iteration: starting at `first` and applying the increment j times
   * reaches the j-th slot in insertion order, and after `count` steps the
   * end index, which is the capacity.
   */
  lemma {:induction false} WalkFollowsOrder<K, V>(s: TableState<K, V>, order: seq<nat>, j: nat)
    requires Linked(s, order) && j <= |order|
    ensures Walk(s, s.first, j) == if j < |order| then order[j] else |s.succ|
  {
    if j > 0 {
      WalkFollowsOrder(s, order, j - 1);
    }
  }
}
