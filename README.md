# hash-map-template in Dafny

A model of `HashTable<K, V, Hash, KeyEqual>` from `hash_table.h`. The table is
an open-addressing hash map with linear probing. On top of the slots it keeps an
intrusive singly-linked list that records insertion order, so iteration returns
the entries in the order in which their keys were first inserted.

The state is modelled as in the source. `HashTables.HashTable` is a class with:

- two arrays, `elems` and `next`, for the vectors `elements_` and `next_element_`;
- three scalar fields, `first`, `last` and `count`;
- a ghost `order`, the occupied slots in insertion order.

The successor value encodes occupancy:

- a value below the capacity means the slot is occupied and links to that slot;
- a value equal to the capacity means the slot is occupied and is the tail;
- capacity + 1 means the slot is free.

The hash functor is the constant field `hash: K -> nat` and key equality is
Dafny's `==`. The value-initialised pair `std::pair<K, V>{}` is the constant
field `blank`.

The project has four modules:

- `Entries` (entries.dfy) is the abstract view of a table: a sequence of
  (key, value) entries in insertion order. It defines lookup (`Get`),
  insertion that never overwrites (`InsertEntry`), writing through a reference
  (`SetEntry`) and inserting a whole collection (`FoldInsert`).
- `Probing` (probing.dfy) is the two-range linear probe:
  - the home slot `hash(k) % cap`;
  - the step-by-step slot sequence `[home, cap)` then `[0, home)`;
  - the slot where the probe stops;
  - the reachability invariant that makes lookups correct.
- `Layout` (layout.dfy) holds the table state as a value: `TableState`, a
  snapshot of the five fields. It defines:
  - the table invariant `Wf`, tied to the insertion order;
  - `Append`, the claiming of a slot;
  - `Place`, one insertion with no growth due;
  - `Rebuild`, re-inserting a sequence of entries into an empty table of a given capacity.

  It also proves the lemmas that the class methods rely on.
- `HashTables` (hash_table.dfy) is the class. Every method is specified
  against the functions of the other three modules:
  - `Snap()` is the current snapshot of the fields;
  - `Items()` is the entries in insertion order;
  - `Valid()` is `Wf` of the snapshot.

`operator[]`, `insert` and `emplace` contain textually identical probe loops in
the source. They all use the one verified `ProbeSlot` method here, and so do
`find` and `at`. The load-factor test `count > capacity * 0.25` is the exact
integer test `4 * count > capacity`.

## Model

| member | source | states |
|---|---|---|
| Entries.InsertEntryLookup | hash_table.h:203-251 | after an insertion an absent key maps to the inserted value; a present key keeps its first value, so a second insertion never overwrites; every other key maps as before |
| Entries.FoldInsertKeepsOrder | hash_table.h:73-78 | inserting a collection with distinct keys, one pair after the other, yields exactly that collection in that order |
| Entries.FoldInsertFirstWins | hash_table.h:73-78 | inserting a collection with repeated keys, each key maps to the value of its first occurrence |
| Entries.FoldInsertDistinct | hash_table.h:73-78 | the entries built by inserting a collection have pairwise distinct keys |
| Entries.SetEntryLookup | hash_table.h:126-130 | writing through the reference returned for a key changes that key's value only, and keeps the keys, their order and their distinctness |
| Probing.Home | hash_table.h:110 | the home slot `hash(k) % cap` lies inside the table |
| Probing.Slot | hash_table.h:110-156 | step d of a probe from home h visits a slot inside the table, and it lies at or after h exactly while the first range `[h, cap)` is not yet exhausted |
| Probing.Offset | hash_table.h:110-156 | every slot is visited at some step below the capacity |
| Probing.StopOffset | hash_table.h:110-156 | the probe stops at the returned step (a free slot or the key) and at no earlier step |
| Probing.Probe | hash_table.h:110-156 | the slot where the probe stops is free or holds the key, unless the probe never stops |
| Probing.ProbeStops | hash_table.h:134-156 | when some slot is free, the probe stops inside the table, so the unbounded second loop terminates |
| Probing.ProbeFindsStored | hash_table.h:305-325 | with distinct keys and reachability, the probe for a stored key stops exactly at its slot |
| Probing.ProbeMissesAbsent | hash_table.h:305-325 | when the probe stops at a free slot, no occupied slot holds the key |
| Probing.ClaimKeepsReachable | hash_table.h:205-214 | storing a pair in the free slot where its probe stops keeps every occupied slot reachable from its home slot |
| Layout.FreeSlot | hash_table.h:122 | a table with fewer entries than slots has a free slot |
| Layout.EntriesDistinct | hash_table.h:223-225 | the entries of a table whose occupied slots hold distinct keys have distinct keys |
| Layout.FindCorrect | hash_table.h:305-325 | the probe stops inside the table at an occupied slot exactly when the key is among the entries, and that slot then holds the key with its value |
| Layout.AppendLinked | hash_table.h:205-215 | claiming a free slot links it after the old last slot (or makes it the first when the table is empty), makes it the tail and counts it, so the chain and the insertion order grow by that slot |
| Layout.AppendEntries | hash_table.h:205-215 | claiming a free slot for a pair appends that pair to the entries |
| Layout.AppendShaped | hash_table.h:205-215 | claiming the slot where the probe of an absent key stops keeps the chain, the free-slot contents, distinct keys and reachability |
| Layout.PlaceShaped | hash_table.h:203-251 | one insertion without growth keeps the table's shape, leaves a table holding the key unchanged, and otherwise appends at the probed slot, with entries `InsertEntry(old, pair)` |
| Layout.RebuildWf | hash_table.h:390-396 | re-inserting distinct-key entries in order into an empty table with at least four slots per entry gives a well-formed table with exactly those entries, in the same order |
| Layout.SetValueShaped | hash_table.h:126-130 | writing a value into an occupied slot keeps the invariant and changes only that key's value in the entries |
| Layout.WalkFollowsOrder | hash_table.h:29-32 | starting at `first` and applying `++` j times reaches the j-th slot in insertion order, and after `count` steps reaches the capacity, which is end() |
| HashTables.HashTable.constructor | hash_table.h:70 | a new table has 8 free slots with successor 9, first = last = 8, count 0 and no entries |
| HashTables.HashTable.WithCapacity | hash_table.h:381-388 | an empty table with `size` free slots, each with successor size + 1 |
| HashTables.HashTable.Copy | hash_table.h:80-83 | an independent table with the same fields and entries |
| HashTables.HashTable.Assign | hash_table.h:91-98 | this table takes the fields of the other, in storage of its own |
| HashTables.HashTable.ProbeSlot | hash_table.h:110-156 | the two loops return exactly the slot where the probe stops, and it lies inside the table |
| HashTables.HashTable.Find | hash_table.h:305-325 | returns end() exactly when the key is absent; otherwise the key's own occupied slot (an entry of the insertion order), which holds the key with its value |
| HashTables.HashTable.At | hash_table.h:159-201 | fails with out_of_range exactly when the key is absent; otherwise returns the key's own occupied slot, whose value is the key's value and through which SetValue writes |
| HashTables.HashTable.Size | hash_table.h:349-351 | the count equals the number of entries |
| HashTables.HashTable.IsEmpty | hash_table.h:353-355 | true exactly when there are no entries |
| HashTables.HashTable.Begin | hash_table.h:364-366 | the slot of the first inserted entry, or end() when there is none |
| HashTables.HashTable.End | hash_table.h:368-370 | the capacity, which is no entry's slot |
| HashTables.HashTable.Advance | hash_table.h:29-32 | from the slot of the j-th entry to that of entry j+1, or to end() after the last entry |
| HashTables.HashTable.Deref | hash_table.h:13-15 | the pair at the slot of the j-th entry is the j-th entry |
| HashTables.HashTable.Elements | hash_table.h:364-370 | a range-for from begin() to end() yields exactly the entries in insertion order |
| HashTables.HashTable.Claim | hash_table.h:205-215 | the new state is `Append` of the old one at the probed slot; the shape is kept and the entries gain the pair |
| HashTables.HashTable.Insert | hash_table.h:203-251 | inserted iff the key was absent; the entries become `InsertEntry(old, (k, v))`; the returned slot is the key's own occupied slot and holds the key with its value; a present key changes nothing; without growth the state is `Place` of the old one; with growth it is `Rebuild` at twice the capacity; the invariant, including 4·count ≤ capacity, holds |
| HashTables.HashTable.Emplace | hash_table.h:253-303 | the same contract as insert for the pair built from its arguments: inserted iff the key was absent, entries `InsertEntry(old, (k, v))`, and the returned slot is the key's own occupied slot holding its value |
| HashTables.HashTable.Subscript | hash_table.h:109-157 | a present key changes nothing; an absent key is appended as by insert with the value-initialised value; either way the returned slot is the key's own occupied slot, holding its value, so SetValue can write through it; the invariant holds |
| HashTables.HashTable.SetValue | hash_table.h:126-130 | writing through the returned reference changes that slot's value only, keeps the invariant and updates that key's value in the entries |
| HashTables.HashTable.Clear | hash_table.h:357-362 | every slot is free and value-initialised again, first = last = capacity, count 0, with the capacity unchanged |
| HashTables.HashTable.Grow | hash_table.h:216-219 | after relocation the entries and their order are unchanged, the state is `Rebuild` at twice the capacity, and the key just inserted is found again at its own occupied slot |
| HashTables.HashTable.Relocate | hash_table.h:390-396 | the table becomes `Rebuild` of its entries at twice the capacity: the same entries in the same order, well-formed |
| HashTables.HashTable.Doubled | hash_table.h:391-394 | inserting every entry, in insertion order, into a table of twice the capacity gives a well-formed table with the same entries |
| HashTables.HashTable.Transfer | hash_table.h:392-393 | one turn of that loop extends the new table's entries by the next entry of the old table |
| HashTables.HashTable.FromPairs | hash_table.h:73-78 | a default-constructed table into which the pairs are inserted in order holds `FoldInsert(pairs)` |

## Left out

- Move construction and move assignment (hash_table.h:85-107) are not modelled. They swap the vectors but copy the scalars, which leaves the moved-from table inconsistent.
- The collection constructor (hash_table.h:73-78) never initialises the fields, so its first insertion computes `hash % 0`. `HashTables.HashTable.FromPairs` models the evident intent instead: insertion of the pairs into a default-constructed table.
- The `double` constant `MAX_LOAD_FACTOR` is replaced by the exact integer test `4 * count > capacity`. No floating point is modelled.
- Iterator objects are not modelled. An iterator is its slot index, without the owner reference. `operator->` and `operator!=` are left out, because `operator!=` compares owner addresses, which is pointer identity.
- The `const` overloads are the same code as their non-const counterparts and are modelled once. These are `ConstIterator`, `at`, `find`, `begin` and `end`.
- The `V&` that operator[] and at return is modelled as the returned slot index, and writing through it as `SetValue`.
- HashTables.HashTable.Deref: returns a copy of the pair. Writing through the `std::pair<K, V>&` of `Iterator::operator*` is modelled only for the value, by `SetValue`; overwriting the key through it is not modelled, because it can break distinct keys and reachability.
- `std::hash` and `std::equal_to` are kept abstract: `hash` is an arbitrary function and key equality is `==`.
- The `out_of_range` exception of `at` is modelled as an `Err(OutOfRange)` result.
- Allocation failure is left out.
- `size_t` wrap-around is left out. Capacities and counts are unbounded, so doubling a capacity never overflows.
- `emplace` constructs its pair from variadic arguments; here it takes the key and the value.
- HashTables.HashTable.WithCapacity: requires at least 8 slots. Its only caller, Relocate, passes twice a capacity that is at least 8.
- HashTables.HashTable.Relocate, Doubled and Transfer require the insertion-order chain, distinct keys and a count of at most half the capacity. These hold at their only call site, right after an insertion.
