/**
 * HashTable<K, V, Hash, KeyEqual>: open addressing with linear probing, and
 * an intrusive singly-linked list through the slots that records insertion
 * order. The hash functor is the constant `hash`; key equality is Dafny's
 * `==`; `blank` is the value-initialised pair `std::pair<K, V>{}` that the
 * vectors are filled with. An iterator is a slot index, end() being the
 * capacity. The `V&` that operator[] and at return is modelled by the
 * slot index they return, and a write through it by `SetValue`.
 */
module HashTables {
  import opened Entries
  import opened Probing
  import opened Layout

  /** The `std::out_of_range` thrown by `at`. */
  datatype Error = OutOfRange

  datatype Result<T> = Ok(value: T) | Err(error: Error)

  class HashTable<K(==), V> {
    const hash: K -> nat
    const blank: (K, V)

    var elems: array<(K, V)>
    var next: array<nat>
    var first: nat
    var last: nat
    var count: nat

    /** The occupied slots in insertion order. */
    ghost var order: seq<nat>

    /** The current values of the five fields. */
    ghost function Snap(): TableState<K, V>
      reads this, elems, next
    {
      TableState(elems[..], next[..], first, last, count)
    }

    ghost predicate Valid()
      reads this, elems, next
    {
      Wf(hash, blank, Snap(), order)
    }

    /** The entries in insertion order: what iteration yields. */
    ghost function Items(): seq<(K, V)>
      reads this, elems, next
      requires Linked(Snap(), order)
    {
      EntriesOf(Snap(), order)
    }

    /** The default constructor: 8 free slots, each with successor 9; first = last = 8; count 0. */
    constructor (hash: K -> nat, blank: (K, V))
      ensures Valid() && fresh(elems) && fresh(next)
      ensures this.hash == hash && this.blank == blank
      ensures Snap() == Empty(blank, 8) && Items() == []
    {
      this.hash := hash;
      this.blank := blank;
      elems := new (K, V)[8](_ => blank);
      next := new nat[8](_ => 9);
      first, last, count := 8, 8, 0;
      order := [];
      new;
      assert Snap() == Empty(blank, 8);
      EmptyWf(hash, blank, 8);
    }

    /** MakeWithCapacity: an empty table with `size` free slots. */
    constructor WithCapacity(hash: K -> nat, blank: (K, V), size: nat)
      requires 8 <= size
      ensures Valid() && fresh(elems) && fresh(next)
      ensures this.hash == hash && this.blank == blank
      ensures Snap() == Empty(blank, size) && Items() == []
    {
      this.hash := hash;
      this.blank := blank;
      elems := new (K, V)[size](_ => blank);
      next := new nat[size](_ => size + 1);
      first, last, count := size, size, 0;
      order := [];
      new;
      assert Snap() == Empty(blank, size);
      EmptyWf(hash, blank, size);
    }

    /** The copy constructor: an independent table with the same fields. */
    constructor Copy(other: HashTable<K, V>)
      requires other.Valid()
      ensures Valid() && fresh(elems) && fresh(next)
      ensures hash == other.hash && blank == other.blank
      ensures Snap() == other.Snap() && order == other.order
    {
      ghost var s := other.Snap();
      hash := other.hash;
      blank := other.blank;
      var e, x := CopyArrays(other);
      elems, next := e, x;
      first, last, count := other.first, other.last, other.count;
      order := other.order;
      new;
      assert Snap() == s;
    }

    /** Copy assignment: this table takes over the fields of `other`, in storage of its own. */
    method Assign(other: HashTable<K, V>)
      requires other.Valid() && other.hash == hash && other.blank == blank
      modifies this
      ensures Valid() && fresh(elems) && fresh(next)
      ensures Snap() == old(other.Snap()) && order == old(other.order)
    {
      ghost var s, o := other.Snap(), other.order;
      var e, x := CopyArrays(other);
      elems, next := e, x;
      first, last, count, order := other.first, other.last, other.count, other.order;
      assert Snap() == s && order == o;
    }

    /** Fresh copies of the two vectors of `other`. */
    static method CopyArrays(other: HashTable<K, V>) returns (e: array<(K, V)>, x: array<nat>)
      ensures fresh(e) && fresh(x)
      ensures e[..] == other.elems[..] && x[..] == other.next[..]
    {
      var n := other.elems.Length;
      e := new (K, V)[n](_ => other.blank);
      forall i | 0 <= i < n {
        e[i] := other.elems[i];
      }
      var m := other.next.Length;
      x := new nat[m](_ => 0);
      forall i | 0 <= i < m {
        x[i] := other.next[i];
      }
    }

    /**
     * The probe loop shared by every lookup and insertion: scan [home, cap),
     * then [0, ...), and stop at the first free slot or at the first slot
     * that holds `k`.
     */
    method ProbeSlot(k: K) returns (ind: nat)
      requires Valid()
      ensures ind < elems.Length && ind == Probe(hash, elems[..], next[..], k)
    {
      ghost var slots, succ := elems[..], next[..];
      FindCorrect(hash, blank, Snap(), order, k);
      var cap := elems.Length;
      var h := hash(k) % cap;
      ghost var d := StopOffset(slots, succ, k, h, 0);
      assert d < cap;
      ind := h;
      while ind < cap
        invariant h <= ind <= cap && ind - h <= d
      {
        assert Slot(cap, h, ind - h) == ind;
        if next[ind] > cap || elems[ind].0 == k {
          assert Stops(slots, succ, k, ind);
          return;
        }
        ind := ind + 1;
      }
      ind := 0;
      while true
        invariant cap - h + ind <= d
        decreases d - (cap - h + ind)
      {
        assert Slot(cap, h, cap - h + ind) == ind;
        if next[ind] > cap || elems[ind].0 == k {
          assert Stops(slots, succ, k, ind);
          return;
        }
        ind := ind + 1;
      }
    }

    /** find: the slot that holds `k`, or end() when `k` is absent. */
    method Find(k: K) returns (it: nat)
      requires Valid()
      ensures it <= elems.Length
      ensures it == elems.Length <==> k !in Keys(Items())
      ensures it < elems.Length ==> it in order && elems[it] == (k, Get(Items(), k).value)
    {
      FindCorrect(hash, blank, Snap(), order, k);
      it := ProbeSlot(k);
      if next[it] > elems.Length {
        it := elems.Length;
      }
    }

    /**
     * at: the slot of `k`, through which its value is read or written, or
     * `out_of_range` when `k` is absent.
     */
    method At(k: K) returns (r: Result<nat>)
      requires Valid()
      ensures r.Err? <==> k !in Keys(Items())
      ensures r.Ok? ==> r.value in order && elems[r.value] == (k, Get(Items(), k).value)
    {
      FindCorrect(hash, blank, Snap(), order, k);
      var ind := ProbeSlot(k);
      if next[ind] > elems.Length {
        r := Err(OutOfRange);
      } else {
        r := Ok(ind);
      }
    }

    function Size(): (n: nat)
      reads this, elems, next
      requires Valid()
      ensures n == |Items()|
    {
      count
    }

    function IsEmpty(): (b: bool)
      reads this, elems, next
      requires Valid()
      ensures b <==> Items() == []
    {
      Size() == 0
    }

    /** begin(): the slot of the first inserted entry, or end() when there is none. */
    method Begin() returns (it: nat)
      requires Valid()
      ensures it == if order == [] then elems.Length else order[0]
    {
      it := first;
    }

    /** end(): the capacity, which is no entry's slot. */
    method End() returns (it: nat)
      requires Valid()
      ensures it == elems.Length && it !in order
    {
      it := elems.Length;
    }

    /** Iterator::operator++: from an entry's slot to the next entry's slot, or to end() after the last. */
    method Advance(it: nat) returns (it': nat)
      requires Valid() && it in order
      ensures forall j :: 0 <= j < |order| && order[j] == it ==>
        it' == if j + 1 < |order| then order[j + 1] else elems.Length
    {
      it' := next[it];
    }

    /** Iterator::operator*: the entry at the iterator. */
    method Deref(it: nat) returns (e: (K, V))
      requires Valid() && it in order
      ensures forall j :: 0 <= j < |order| && order[j] == it ==> e == Items()[j]
    {
      e := elems[it];
    }

    /** A range-for over the table: begin(), then ++ until end(), collects the entries in insertion order. */
    method Elements() returns (items: seq<(K, V)>)
      requires Valid()
      ensures items == Items()
    {
      var it := Begin();
      var end := End();
      ghost var j := 0;
      items := [];
      while it != end
        invariant j <= |order| && it == if j < |order| then order[j] else elems.Length
        invariant items == Items()[..j]
        decreases |order| - j
      {
        var e := Deref(it);
        items := items + [e];
        it := Advance(it);
        j := j + 1;
      }
    }

    /**
     * The claiming step of insert, emplace and operator[]: link free slot
     * `p` after the last slot (or make it the first), make it the tail,
     * store the pair and count it.
     */
    method Claim(p: nat, pair: (K, V))
      requires Valid() && p < elems.Length && p == Probe(hash, elems[..], next[..], pair.0)
      requires pair.0 !in Keys(Items())
      modifies this, elems, next
      ensures elems == old(elems) && next == old(next)
      ensures Snap() == Append(old(Snap()), p, pair) && order == old(order) + [p]
      ensures Shaped(hash, blank, Snap(), order)
      ensures Items() == old(Items()) + [pair]
    {
      ghost var s := Snap();
      AppendShaped(hash, blank, s, order, pair);
      var cap := elems.Length;
      if first == cap {
        first := p;
      } else {
        next[last] := p;
      }
      last := p;
      next[p] := cap;
      elems[p] := pair;
      count := count + 1;
      order := order + [p];
      assert Snap() == Append(s, p, pair);
    }

    /**
     * Relocate: build a table of twice the capacity by inserting every entry,
     * in insertion order, and take over its fields.
     */
    method Relocate()
      requires Linked(Snap(), order) && DistinctKeys(Items())
      requires 8 <= elems.Length && 2 * count <= elems.Length
      modifies this
      decreases 1, 2
      ensures Valid() && fresh(elems) && fresh(next)
      ensures Items() == old(Items())
      ensures Snap() == Rebuild(hash, blank, 2 * old(elems.Length), old(Items()))
    {
      var t := Doubled();
      Assign(t);
    }

    /** The new table of Relocate: every entry inserted, in insertion order, into one of twice the capacity. */
    method Doubled() returns (t: HashTable<K, V>)
      requires Linked(Snap(), order) && DistinctKeys(Items())
      requires 8 <= elems.Length && 2 * count <= elems.Length
      decreases 1, 1
      ensures fresh(t) && fresh(t.elems) && fresh(t.next)
      ensures t.Valid() && t.hash == hash && t.blank == blank
      ensures t.Items() == Items()
      ensures t.Snap() == Rebuild(hash, blank, 2 * elems.Length, Items())
    {
      t := new HashTable.WithCapacity(hash, blank, 2 * elems.Length);
      ghost var items := Items();
      ghost var te, tn := t.elems, t.next;
      var ind := first;
      ghost var j := 0;
      while ind != elems.Length
        invariant fresh(t) && fresh(te) && fresh(tn) && t.elems == te && t.next == tn
        invariant t.Valid() && t.hash == hash && t.blank == blank
        invariant te.Length == 2 * elems.Length
        invariant j <= |order| && ind == if j < |order| then order[j] else elems.Length
        invariant t.Items() == items[..j]
        invariant t.Snap() == Rebuild(hash, blank, 2 * elems.Length, items[..j])
        decreases |order| - j
      {
        Transfer(t, ind, items, j);
        ind := next[ind];
        j := j + 1;
      }
      assert items[..j] == items;
    }

    /**
     * The growth step of insert, emplace and operator[], taken once the count
     * exceeds a quarter of the capacity: relocate, then find the slot of the
     * key just inserted again.
     */
    method Grow(k: K) returns (pos: nat)
      requires Shaped(hash, blank, Snap(), order) && 2 * count <= elems.Length
      requires k in Keys(Items())
      modifies this
      decreases 2, 0
      ensures Valid() && fresh(elems) && fresh(next)
      ensures Items() == old(Items())
      ensures Snap() == Rebuild(hash, blank, 2 * old(elems.Length), old(Items()))
      ensures k in Keys(Items()) && pos < elems.Length && pos in order && elems[pos] == (k, Get(Items(), k).value)
    {
      EntriesDistinct(Snap(), order);
      Relocate();
      FindCorrect(hash, blank, Snap(), order, k);
      pos := ProbeSlot(k);
    }

    /** One turn of the loop of Doubled: insert the j-th entry, which sits in slot `ind`, into `t`. */
    method Transfer(t: HashTable<K, V>, ind: nat, ghost items: seq<(K, V)>, ghost j: nat)
      requires Linked(Snap(), order) && items == Items() && DistinctKeys(items)
      requires j < |order| && ind == order[j] && 2 * count <= elems.Length
      requires t != this && t.elems != elems
      requires t.Valid() && t.hash == hash && t.blank == blank && t.elems.Length == 2 * elems.Length
      requires t.Items() == items[..j] && t.Snap() == Rebuild(hash, blank, 2 * elems.Length, items[..j])
      modifies t, t.elems, t.next
      decreases 1, 0
      ensures t.Valid() && t.elems == old(t.elems) && t.next == old(t.next)
      ensures t.Items() == items[..j + 1] && t.Snap() == Rebuild(hash, blank, 2 * elems.Length, items[..j + 1])
    {
      assert items[j] == elems[ind];
      assert items[j].0 !in Keys(items[..j]) by {
        forall i | 0 <= i < j ensures Keys(items[..j])[i] != items[j].0 {
          assert items[..j][i] == items[i];
        }
      }
      assert items[..j + 1] == items[..j] + [items[j]];
      var pos, inserted := t.Insert(elems[ind].0, elems[ind].1);
    }

    /**
     * insert: a present key leaves the table unchanged and reports its slot
     * with inserted = false; an absent key is claimed at the slot its probe
     * reaches, and when the count then exceeds a quarter of the capacity the
     * table is relocated and the key is found again.
     */
    method Insert(k: K, v: V) returns (pos: nat, inserted: bool)
      requires Valid()
      modifies this, elems, next
      decreases if 4 * (count + 1) > elems.Length then 3 else 0, 0
      ensures Valid()
      ensures inserted <==> k !in Keys(old(Items()))
      ensures Items() == InsertEntry(old(Items()), (k, v))
      ensures Get(Items(), k) == if inserted then Some(v) else Get(old(Items()), k)
      ensures k in Keys(Items()) && pos < elems.Length && pos in order && elems[pos] == (k, Get(Items(), k).value)
      ensures !inserted ==> Snap() == old(Snap()) && elems == old(elems) && next == old(next)
      ensures 4 * (old(count) + 1) <= old(elems.Length) ==>
        Snap() == Place(hash, old(Snap()), (k, v)) && elems == old(elems) && next == old(next)
      ensures inserted && 4 * (old(count) + 1) > old(elems.Length) ==>
        Snap() == Rebuild(hash, blank, 2 * old(elems.Length), old(Items()) + [(k, v)]) &&
        fresh(elems) && fresh(next)
    {
      FindCorrect(hash, blank, Snap(), order, k);
      pos := ProbeSlot(k);
      if next[pos] <= elems.Length {
        inserted := false;
        return;
      }
      Claim(pos, (k, v));
      inserted := true;
      InsertEntryLookup(old(Items()), (k, v), k);
      if 4 * count > elems.Length {
        pos := Grow(k);
      }
    }

    /** emplace: builds the pair from its arguments and inserts it exactly as insert does. */
    method Emplace(k: K, v: V) returns (pos: nat, inserted: bool)
      requires Valid()
      modifies this, elems, next
      ensures Valid()
      ensures inserted <==> k !in Keys(old(Items()))
      ensures Items() == InsertEntry(old(Items()), (k, v))
      ensures Get(Items(), k) == if inserted then Some(v) else Get(old(Items()), k)
      ensures k in Keys(Items()) && pos < elems.Length && pos in order && elems[pos] == (k, Get(Items(), k).value)
      ensures !inserted ==> Snap() == old(Snap()) && elems == old(elems) && next == old(next)
      ensures 4 * (old(count) + 1) <= old(elems.Length) ==>
        Snap() == Place(hash, old(Snap()), (k, v)) && elems == old(elems) && next == old(next)
      ensures inserted && 4 * (old(count) + 1) > old(elems.Length) ==>
        Snap() == Rebuild(hash, blank, 2 * old(elems.Length), old(Items()) + [(k, v)]) &&
        fresh(elems) && fresh(next)
    {
      pos, inserted := Insert(k, v);
    }

    /**
     * operator[]: the slot of `k`; an absent key is claimed as by insert but
     * only the key is written, so its value is the value-initialised one.
     */
    method Subscript(k: K) returns (pos: nat)
      requires Valid()
      modifies this, elems, next
      ensures Valid()
      ensures Items() == InsertEntry(old(Items()), (k, blank.1))
      ensures Get(Items(), k) == if k in Keys(old(Items())) then Get(old(Items()), k) else Some(blank.1)
      ensures k in Keys(Items()) && pos < elems.Length && pos in order && elems[pos] == (k, Get(Items(), k).value)
      ensures k in Keys(old(Items())) ==> Snap() == old(Snap()) && elems == old(elems) && next == old(next)
      ensures 4 * (old(count) + 1) <= old(elems.Length) ==>
        Snap() == Place(hash, old(Snap()), (k, blank.1)) && elems == old(elems) && next == old(next)
      ensures k !in Keys(old(Items())) && 4 * (old(count) + 1) > old(elems.Length) ==>
        Snap() == Rebuild(hash, blank, 2 * old(elems.Length), old(Items()) + [(k, blank.1)]) &&
        fresh(elems) && fresh(next)
    {
      FindCorrect(hash, blank, Snap(), order, k);
      pos := ProbeSlot(k);
      if next[pos] <= elems.Length {
        return;
      }
      Claim(pos, (k, elems[pos].1));
      InsertEntryLookup(old(Items()), (k, blank.1), k);
      if 4 * count > elems.Length {
        pos := Grow(k);
      }
    }

    /**
     * Writing through the `V&` that operator[] or at returns, or into the
     * value of the pair that an iterator's operator* refers to.
     */
    method SetValue(it: nat, v: V)
      requires Valid() && it < elems.Length && next[it] <= elems.Length
      modifies elems
      ensures Valid()
      ensures elems[..] == old(elems[..])[it := (old(elems[it].0), v)]
      ensures Items() == SetEntry(old(Items()), elems[it].0, v)
    {
      SetValueShaped(hash, blank, Snap(), order, it, v);
      elems[it] := (elems[it].0, v);
      assert Snap() == old(Snap()).(slots := old(Snap()).slots[it := (old(elems[it].0), v)]);
    }

    /** clear: every slot free and value-initialised again, at the same capacity. */
    method Clear()
      requires Valid()
      modifies this, elems, next
      ensures Valid() && elems == old(elems) && next == old(next)
      ensures Snap() == Empty(blank, old(elems.Length)) && Items() == []
    {
      var cap := elems.Length;
      forall i | 0 <= i < cap {
        elems[i] := blank;
      }
      forall i | 0 <= i < cap {
        next[i] := cap + 1;
      }
      first, last, count := cap, cap, 0;
      order := [];
      assert Snap() == Empty(blank, cap);
      EmptyWf(hash, blank, cap);
    }

    /**
     * Construction from a collection: insert its pairs, in order, into a
     * default-constructed table.
     */
    static method FromPairs(hash: K -> nat, blank: (K, V), pairs: seq<(K, V)>) returns (t: HashTable<K, V>)
      ensures fresh(t) && t.Valid() && t.hash == hash && t.blank == blank
      ensures t.Items() == FoldInsert(pairs)
    {
      t := new HashTable(hash, blank);
      for i := 0 to |pairs|
        invariant fresh(t) && fresh(t.elems) && fresh(t.next)
        invariant t.Valid() && t.hash == hash && t.blank == blank
        invariant t.Items() == FoldInsert(pairs[..i])
      {
        assert pairs[..i + 1][..i] == pairs[..i];
        var pos, inserted := t.Insert(pairs[i].0, pairs[i].1);
      }
      assert pairs[..|pairs|] == pairs;
    }
  }
}
