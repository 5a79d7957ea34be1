# propmap in Dafny

A model of `propmap`, a C++11 container that maps a fixed-arity tuple of property values
(the coordinates of a sparse N-dimensional space) to a payload. Each property dimension also
keeps the deduplicated list of the values it has seen, and that list can be enumerated and sorted.
The repository holds two revisions of the container, and both are modelled here with the arity
fixed at two (both drivers use two properties):

- `propmap_old.hh`, the value-keyed revision (`ValueKeyedMap`). Each dimension is a list of
  distinct values. `insert` interns both values with a linear scan that appends at the tail,
  then `emplace`s the payload under the value pair, so the first write wins. `get` copies
  the stored payload out or answers false. `sort<I>` reorders one list.
- `propmap.hh`, the interning revision (`InterningMap`). A dimension is an append-only arena
  of distinct values, and a canonical handle is a slot index into it. The arena's enumeration
  order is a separate permutation of its slots, and `sort<I>` rewrites only that permutation.
  `insert` interns each value, builds the key from the returned handles and emplaces under
  that handle pair. `get` resolves each value to its handle without interning it, then probes
  the table.

Shared pieces: `Dimension` (interning, read-only resolution, slot orders, enumeration),
`PayloadTable` (`emplace`/`find` on a map), `Sorting` (comparator sort as insertion sort,
proved to sort and to permute), and `KeyHash` (the boost-style combiner on 64-bit words,
folded left to right from seed 0). `CrossRevision` proves that after the same sequence of
inserts both revisions hold the same dimension contents and answer every `get` identically.
`AllocScenario` replays the allocation driver's inserts and sort.

As written, `propmap.hh` would not compile:
- `key_hash` is specialised while `tuple_hash` is declared.
- The recursive `add_prop` call drops `key`.
- `_containers` holds values while `container_insert` produces `shared_ptr`s.
- `get` probes a handle-keyed table with value tuples.

The model follows the evident intent. A dimension is an arena plus an enumeration order. The key
is the handle pair. The table is keyed on handles (propmap.hh:68, 87), so `get` must first resolve each value to its handle, and it does so read-only (propmap.hh:131-137). With a list
of `shared_ptr`s, the default `sort<I>()` would order by address. The model sorts by the values
the handles denote, which is what the allocation driver expects. Both `sort<I>()` and
`sort<I>(comp)` are modelled by one method that takes the comparator. For the default form,
the comparator is `<` of the property type.

The value-keyed `get` probes the table directly with the value pair. It does not first look
the values up in the dimension lists, as the interning revision's lookup does. Every stored
key's values are in the lists (`ValueKeyedMap.PropMap.Valid`), so the answers are the same.

## Model

| member | source | states |
|---|---|---|
| `KeyHash.CombineUpTo` | propmap_old.hh:25-42 | the index recursion of `tuple_hash_impl` (and `key_hash_impl`, propmap.hh:31-44), with `KeyHash.HashCombine` as the 64-bit wrapping mixing step of `hash_combine` (and `ptr_hash_combine`, propmap.hh:26-29), equals the left fold of that step over components 0..index |
| `KeyHash.TupleHash` | propmap_old.hh:44-52 | the tuple hash is the left fold over all components from seed 0 |
| `KeyHash.PairHash` | propmap_old.hh:47-51 | for two properties the hash is `combine(combine(0, h0), h1)` |
| `Dimension.Interned` | propmap_old.hh:80-92 | after interning, `p` is present, the list grew by at most one, earlier entries keep their positions, and no duplicates appear |
| `Dimension.InternedIdempotent` | propmap.hh:90-103 | interning the same value twice changes nothing the second time |
| `Dimension.Find` | propmap.hh:92-100 | read-only resolution gives the first slot holding an equal value, or None exactly when no entry equals it |
| `Dimension.Handle` | propmap.hh:90-103 | the canonical handle of an interned value is a live slot that holds that value |
| `Dimension.HandleUnique` | propmap.hh:94-101 | without duplicates a slot is the handle of its own value, so handles are equal iff values are |
| `Dimension.FindAfterIntern` | propmap.hh:101-102 | interning keeps every earlier value's handle, gives a new value the next slot, and resolves nothing else |
| `Dimension.AppendSlot` | propmap.hh:101 | appending the new slot at the tail keeps the enumeration a permutation of the slots |
| `Dimension.InsertionOrderAfterIntern` | propmap.hh:101 | since a new value's slot is inserted after the last one, an enumeration that was never sorted stays in insertion order |
| `Dimension.EnumerateInInsertionOrder` | propmap.hh:127-129 | until a dimension is sorted, `prop<I>()` lists the values in the order they were first interned |
| `Dimension.EnumerateIsDeduplicated` | propmap.hh:127-129 | the enumeration lists each interned value exactly once |
| `Sorting.SortBy` | propmap_old.hh:147-152 | the comparator sort of a dimension (also propmap.hh:161-166) only reorders: the result is a permutation of the former contents |
| `Sorting.SortBySorted` | propmap_old.hh:150-152 | with a strict weak ordering, no element of the result is less than an earlier one |
| `Sorting.SortByKeepsNoDuplicates` | propmap_old.hh:147-152 | sorting a duplicate-free list leaves it duplicate-free |
| `PayloadTable.Emplace` | propmap_old.hh:110 | emplace adds the key if absent and never changes a stored payload |
| `PayloadTable.EmplaceThenLookup` | propmap_old.hh:108-123 | after an insert, the key answers with the first payload ever written for it |
| `PayloadTable.FirstWriteWins` | propmap_old.hh:110 | a second emplace with the same key is a no-op |
| `PayloadTable.EmplaceKeepsOthers` | propmap_old.hh:110 | an emplace leaves every other key's answer unchanged |
| `ValueKeyedMap.PropMap.constructor` | propmap_old.hh:76-78 | a new map has empty dimensions and an empty table |
| `ValueKeyedMap.PropMap.ContainerInsert` | propmap_old.hh:80-92 | the scan leaves the list unchanged when an equal element exists, and otherwise appends `p` after the last element |
| `ValueKeyedMap.PropMap.AddProp` | propmap_old.hh:94-105 | dimension I is interned with property I, and the table is untouched |
| `ValueKeyedMap.PropMap.Insert` | propmap_old.hh:108-111 | both values are interned, the payload is emplaced (first write wins), other keys keep their answers, and the invariant holds |
| `ValueKeyedMap.PropMap.Prop0` | propmap_old.hh:113-115 | dimension 0 lists distinct values and includes every stored key's first value |
| `ValueKeyedMap.PropMap.Prop1` | propmap_old.hh:113-115 | dimension 1 lists distinct values and includes every stored key's second value |
| `ValueKeyedMap.PropMap.Get` | propmap_old.hh:117-123 | the answer is true with the stored payload exactly when the pair was inserted; otherwise false with `x` untouched; nothing is modified |
| `ValueKeyedMap.PropMap.Sort0` | propmap_old.hh:147-152 | dimension 0 becomes a sorted permutation of itself; dimension 1 and the table are unchanged |
| `ValueKeyedMap.PropMap.Sort1` | propmap_old.hh:147-152 | dimension 1 becomes a sorted permutation of itself; dimension 0 and the table are unchanged |
| `InterningMap.ResolveAndLookup` | propmap.hh:131-137 | get by values answers exactly when some stored key's handles denote the queried values, and then with that key's payload |
| `InterningMap.LookupAfterInsert` | propmap.hh:121-137 | after one insert, the inserted pair answers with its earlier payload or else the new one; every other pair answers as before |
| `InterningMap.SlotLessIsStrictWeakOrder` | propmap.hh:164-166 | comparing handles by the values they denote is a strict weak ordering when the value comparator is |
| `InterningMap.SortedSlotsEnumerateSorted` | propmap.hh:161-166 | a slot order sorted by denoted values enumerates the values sorted |
| `InterningMap.SortedSlotsStayASlotOrder` | propmap.hh:161-166 | sorting the enumeration keeps it a permutation of the same slots |
| `InterningMap.ContainerInsertAsWritten` | propmap.hh:90-103 | as written, when the value is already present the returned handle never denotes it; a match at the head dereferences before-begin |
| `InterningMap.PropMap.constructor` | propmap.hh:86-88 | a new map has empty arenas, empty enumerations and an empty table |
| `InterningMap.PropMap.ContainerInsert` | propmap.hh:90-103 | interning returns the existing handle and changes nothing when the value is present, and otherwise appends one slot at the tail and returns it; arenas stay duplicate-free |
| `InterningMap.PropMap.AddProp` | propmap.hh:105-118 | key component I is the handle obtained from dimension I, and the table is untouched |
| `InterningMap.PropMap.Insert` | propmap.hh:121-125 | both values are interned and the payload is emplaced under their handles; get then answers with the first payload for that pair, and other pairs are unchanged |
| `InterningMap.PropMap.Prop0` | propmap.hh:127-129 | dimension 0's enumeration lists every interned value exactly once |
| `InterningMap.PropMap.Prop1` | propmap.hh:127-129 | dimension 1's enumeration lists every interned value exactly once |
| `InterningMap.PropMap.Get` | propmap.hh:131-137 | the answer is true with the payload of the key whose handles denote the values; otherwise false with `x` untouched; no dimension grows |
| `InterningMap.PropMap.Sort0` | propmap.hh:161-166 | only dimension 0's enumeration changes, and it becomes sorted; arenas, handles and the table are untouched, so every get answer is kept |
| `InterningMap.PropMap.Sort1` | propmap.hh:161-166 | only dimension 1's enumeration changes, and it becomes sorted; arenas, handles and the table are untouched, so every get answer is kept |
| `InterningMap.PropMap.KeyHash` | propmap.hh:26-53 | the key hash folds the combiner over the denoted values, so it equals the value-keyed hash of those values whatever the handles |
| `CrossRevision.SameAnswers` | propmap.hh:121-137 | after the same inserts, both revisions hold the same dimension lists and answer every get identically |
| `CrossRevision.AdvanceValueKeyed` | propmap_old.hh:108-111 | one insert on the value-keyed container advances its replay by that insert |
| `CrossRevision.AdvanceInterning` | propmap.hh:121-125 | one insert on the interning container advances its replay by that insert and keeps unsorted enumerations in insertion order |
| `CrossRevision.InsertAllIntoBoth` | test.cc:19-22 | feeding the same records to both containers yields equal `prop<0>()` and `prop<1>()` lists, element by element and in order, and equal get answers |
| `AllocScenario.SortExample` | test_alloc.cc:43 | sorting [1, 3, 2] ascending gives [1, 2, 3] |
| `AllocScenario.SlotSortExample` | test_alloc.cc:43-47 | sorting slots [0, 1, 2] by values [1, 3, 2] gives [0, 2, 1], which enumerates [1, 2, 3] |
| `AllocScenario.BuildAllocMap` | test_alloc.cc:37-40 | the three inserts leave dimension 0 with 3 entries and dimension 1 with 2, because `2` is deduplicated |
| `AllocScenario.InterningRun` | test_alloc.cc:35-48 | after `sort<0>` the enumerations are [1, 2, 3] and [2, 3]; an inserted pair is found and an absent one is not |
| `AllocScenario.ValueKeyedRun` | test_alloc.cc:35-48 | the value-keyed revision gives the same enumerations, and a repeated insert does not overwrite |

## Findings

| source | as written | input that shows it | evidently intended | confidence | as-written member | corrected member |
|---|---|---|---|---|---|---|
| propmap.hh:91-102 | `it` trails the element under examination by one, so on a match `return *it` yields the previous entry, or dereferences `before_begin` when the match is the first entry | dimension 1 holds `[b]` and `insert(4, c, b)` interns `b` again (test_alloc.cc:37-39): the match is at the head and `*before_begin` is dereferenced. With `[a, b]`, interning `b` returns `a`'s handle | return the handle of the matching entry | high (not executed) | `InterningMap.ContainerInsertAsWritten` | `InterningMap.PropMap.ContainerInsert` |

## Left out

- The `test` debug-print macro and all console output: output only.
- File reading in test.cc: I/O harness. Its insert loop is `CrossRevision.InsertAllIntoBoth`.
- The constructor/destructor logging in test_alloc.cc and the `shared_ptr` / `new P(p)` lifetime management: handles are slot indices, with no allocation or reference counting.
- The `Mapped*` and `Mapped const*` `get` overloads, which return a pointer into the table: only the by-copy `get` is modelled.
- `std::hash` of each property type: it is a function parameter (`hash0`, `hash1`).
- `unordered_map` bucket layout and rehashing: the payload table is a Dafny `map`, so the key hash is modelled beside it and does not drive it.
- The variadic arity: fixed at two properties. `KeyHash.CombineUpTo` stays generic over the number of components.
- The commented-out `optimize` stub.
- Concurrency: the container is single-threaded.
- Allocation failure, which the container treats as fatal.
- ValueKeyedMap.PropMap.Sort0: the result is stated as a sorted permutation. The stability of `forward_list::sort` (equal elements keep their order) is not stated.
- ValueKeyedMap.PropMap.Sort1: stability is not stated either.
- InterningMap.PropMap.Sort0: stability of the enumeration order among equal values is not stated.
- InterningMap.PropMap.Sort1: stability of the enumeration order among equal values is not stated.
- InterningMap.ContainerInsertAsWritten: models only the handle returned by the code as written; its container update is the same as the corrected one.
