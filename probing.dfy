/**
 * The linear probe shared by lookup and insertion, stated over a snapshot of
 * the two parallel vectors: `slots` (the key/value pairs) and `succ` (the
 * successor indices). The capacity is `|succ|`; a successor of at most the
 * capacity marks an occupied slot, anything larger a free one.
 */
module Probing {

  /** The slot is occupied: its successor is the next slot in insertion order, or the capacity for the tail. */
  predicate Occupied(succ: seq<nat>, i: nat)
    requires i < |succ|
  {
    succ[i] <= |succ|
  }

  /** The home slot of a key. */
  function Home<K>(hash: K -> nat, k: K, cap: nat): (h: nat)
    requires 0 < cap
    ensures h < cap
  {
    hash(k) % cap
  }

  /**
   * The slot visited at step `d` of a probe that starts at `h`: the probe
   * scans [h, cap) first and then [0, h).
   */
  function Slot(cap: nat, h: nat, d: nat): (i: nat)
    requires h < cap && d < cap
    ensures i < cap
    ensures h <= i <==> d < cap - h
  {
    if h + d < cap then h + d else h + d - cap
  }

  /** The step at which a probe that starts at `h` visits slot `i`. */
  function Offset(cap: nat, h: nat, i: nat): (d: nat)
    requires h < cap && i < cap
    ensures d < cap && Slot(cap, h, d) == i
  {
    if h <= i then i - h else i + cap - h
  }

  /** Every step of the probe visits a different slot. */
  lemma OffsetOfSlot(cap: nat, h: nat, d: nat)
    requires h < cap && d < cap
    ensures Offset(cap, h, Slot(cap, h, d)) == d
  {
  }

  /** The probe for `k` stops at slot `i`: the slot is free, or it holds `k`. */
  predicate Stops<K(==), V>(slots: seq<(K, V)>, succ: seq<nat>, k: K, i: nat)
    requires |slots| == |succ| && i < |succ|
  {
    !Occupied(succ, i) || slots[i].0 == k
  }

  /**
   * The first step at or after `t` where the probe for `k` from `h` stops,
   * or the capacity when it never stops.
   */
  function StopOffset<K(==), V>(slots: seq<(K, V)>, succ: seq<nat>, k: K, h: nat, t: nat): (d: nat)
    requires |slots| == |succ| && h < |succ| && t <= |succ|
    ensures t <= d <= |succ|
    ensures d < |succ| ==> Stops(slots, succ, k, Slot(|succ|, h, d))
    ensures forall e :: t <= e < d ==> !Stops(slots, succ, k, Slot(|succ|, h, e))
    decreases |succ| - t
  {
    if t == |succ| then t
    else if Stops(slots, succ, k, Slot(|succ|, h, t)) then t
    else StopOffset(slots, succ, k, h, t + 1)
  }

  /** The slot where the probe for `k` stops, or the capacity when it never stops. */
  function Probe<K(==), V>(hash: K -> nat, slots: seq<(K, V)>, succ: seq<nat>, k: K): (p: nat)
    requires |slots| == |succ| && 0 < |succ|
    ensures p <= |succ|
    ensures p < |succ| ==> Stops(slots, succ, k, p)
  {
    var h := Home(hash, k, |succ|);
    var d := StopOffset(slots, succ, k, h, 0);
    if d < |succ| then Slot(|succ|, h, d) else |succ|
  }

  /** Occupied slots hold pairwise different keys. */
  ghost predicate KeysUnique<K, V>(slots: seq<(K, V)>, succ: seq<nat>)
    requires |slots| == |succ|
  {
    forall i, j {:trigger Occupied(succ, i), Occupied(succ, j)} ::
      0 <= i < |succ| && 0 <= j < |succ| && i != j && Occupied(succ, i) && Occupied(succ, j) ==>
      slots[i].0 != slots[j].0
  }

  /** Every slot the probe for the key in slot `i` visits before reaching `i` is occupied. */
  ghost predicate Reachable<K, V>(hash: K -> nat, slots: seq<(K, V)>, succ: seq<nat>, i: nat)
    requires |slots| == |succ| && i < |succ|
  {
    var h := Home(hash, slots[i].0, |succ|);
    forall e :: 0 <= e < Offset(|succ|, h, i) ==> Occupied(succ, Slot(|succ|, h, e))
  }

  /** The linear-probing invariant: every occupied slot is reachable from its key's home slot. */
  ghost predicate AllReachable<K, V>(hash: K -> nat, slots: seq<(K, V)>, succ: seq<nat>)
    requires |slots| == |succ|
  {
    forall i :: 0 <= i < |succ| && Occupied(succ, i) ==> Reachable(hash, slots, succ, i)
  }

  /** When some slot is free, the probe stops inside the table. */
  lemma ProbeStops<K, V>(hash: K -> nat, slots: seq<(K, V)>, succ: seq<nat>, k: K, free: nat)
    requires |slots| == |succ| && free < |succ| && !Occupied(succ, free)
    ensures StopOffset(slots, succ, k, Home(hash, k, |succ|), 0) < |succ|
    ensures Probe(hash, slots, succ, k) < |succ|
  {
    var h := Home(hash, k, |succ|);
    var e := Offset(|succ|, h, free);
    assert Stops(slots, succ, k, Slot(|succ|, h, e));
  }

  /** The probe for a stored key stops exactly at the slot that holds it. */
  lemma ProbeFindsStored<K, V>(hash: K -> nat, slots: seq<(K, V)>, succ: seq<nat>, i: nat)
    requires |slots| == |succ| && i < |succ| && Occupied(succ, i)
    requires KeysUnique(slots, succ) && AllReachable(hash, slots, succ)
    ensures Probe(hash, slots, succ, slots[i].0) == i
  {
    var cap, k := |succ|, slots[i].0;
    var h := Home(hash, k, cap);
    var e := Offset(cap, h, i);
    var d := StopOffset(slots, succ, k, h, 0);
    assert Stops(slots, succ, k, Slot(cap, h, e));
    assert Reachable(hash, slots, succ, i);
    forall e' | 0 <= e' < e ensures !Stops(slots, succ, k, Slot(cap, h, e')) {
      OffsetOfSlot(cap, h, e');
    }
  }

  /** When the probe for `k` stops at a free slot, no occupied slot holds `k`. */
  lemma ProbeMissesAbsent<K, V>(hash: K -> nat, slots: seq<(K, V)>, succ: seq<nat>, k: K)
    requires |slots| == |succ| && 0 < |succ|
    requires KeysUnique(slots, succ) && AllReachable(hash, slots, succ)
    requires Probe(hash, slots, succ, k) < |succ| && !Occupied(succ, Probe(hash, slots, succ, k))
    ensures forall i :: 0 <= i < |succ| && Occupied(succ, i) ==> slots[i].0 != k
  {
    forall i | 0 <= i < |succ| && Occupied(succ, i) ensures slots[i].0 != k {
      if slots[i].0 == k {
        ProbeFindsStored(hash, slots, succ, i);
      }
    }
  }

  /**
   * Claiming the free slot where the probe for `k` stops keeps every
   * occupied slot reachable, whatever successor the claimed slot and the old
   * tail receive (only which slots are occupied matters).
   */
  lemma ClaimKeepsReachable<K, V>(hash: K -> nat, slots: seq<(K, V)>, succ: seq<nat>, succ': seq<nat>, pair: (K, V))
    requires |slots| == |succ| == |succ'| && 0 < |succ|
    requires AllReachable(hash, slots, succ)
    requires Probe(hash, slots, succ, pair.0) < |succ| && !Occupied(succ, Probe(hash, slots, succ, pair.0))
    requires forall i :: 0 <= i < |succ| ==>
      (Occupied(succ', i) <==> Occupied(succ, i) || i == Probe(hash, slots, succ, pair.0))
    ensures AllReachable(hash, slots[Probe(hash, slots, succ, pair.0) := pair], succ')
  {
    var cap, p := |succ|, Probe(hash, slots, succ, pair.0);
    var slots' := slots[p := pair];
    forall i | 0 <= i < cap && Occupied(succ', i) ensures Reachable(hash, slots', succ', i) {
      var h := Home(hash, slots'[i].0, cap);
      if i == p {
        var d := StopOffset(slots, succ, pair.0, h, 0);
        OffsetOfSlot(cap, h, d);
        forall e | 0 <= e < Offset(cap, h, i) ensures Occupied(succ', Slot(cap, h, e)) {
          assert !Stops(slots, succ, pair.0, Slot(cap, h, e));
        }
      } else {
        assert Reachable(hash, slots, succ, i);
      }
    }
  }
}
