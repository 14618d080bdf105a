# nanomap in Dafny

A model of `gdc::nanomap`, a fixed-capacity key/value map. It scans linearly and keeps
its entries in two parallel backing arrays. The model has three parts:

- **Container** (`nanomap`): a capacity, a size and a row of storage slots.
  - Slots `[0, size)` hold live key/value pairs. The rest are raw memory.
  - Operations: insert, emplace, find, erase (swap-remove), the subscript operator
    (upsert), `at`, clear, and the begin/end iterators.
- **Iterator** (`nanomap_iterator`): a (map identity, slot index) pair.
  - `end()` is the fixed index `capacity`.
  - Increment snaps to `end()` once the index reaches the size.
  - Equality requires a non-null map.
- **Factory** (`nanomap_factory`): owns the storage and the map bound to it.
  - Copy duplicates the live entries.
  - Move hands them over and leaves the source empty, with the same capacity.

Files and modules:

| file | module | contents |
|---|---|---|
| `outcomes.dfy` | `Outcomes` | `Option`, `Result`, and `MapError` (overflow, out of range, abort) |
| `iterators.dfy` | `Iterators` | `size_type` bound, map identities, the iterator, `==` and `!=` |
| `nanomap.dfy` | `NanoMaps` | slots, the map and its invariant, every container operation |
| `traversal.dfy` | `Traversal` | `operator++`, dereference, the begin-to-end walk |
| `factory.dfy` | `Factories` | the factory: default construction, `get`, copy, move |
| `scenarios.dfy` | `Scenarios` | the unit tests' situations, stated for all identities and capacities |

How the C++ is represented:

- **Slots.** Placement construction and explicit destruction become a `Slot`: either `Vacant` or
  `Live(key, value)`. One slot holds both halves of an entry, so a key and its value
  are always constructed and destroyed together.
- **Invariant.** `NanoMap.Valid()` says: `size <= capacity`, there is one slot per
  unit of capacity, and a slot is live exactly when its index is below `size`.
- **Abstract value.** `Entries(m)` is the sequence of live pairs in slot order. Contracts are stated
  against it.
- **Map identity.** The C++ `this` pointer is a `MapId` token. A null map pointer is `None`.
- **Integer widths.** Capacity, size and iterator indices are `SizeType`, the 16-bit `size_type`, bounded by
  65535. The iterator's increment wraps modulo 65536, as the source's does.
- **Key equality.** `key_equal` is Dafny's `==` on a key type `K`.
- **Errors.** Exceptions and `std::abort` become `Failure` values of a `Result`.
- **Queries.** The queries `size()`, `count()` and `max_size()` are the fields `size`, `size` and
  `capacity`.

Three points of the code's behaviour that a reader might expect otherwise:

- **Full-map test.** `insert`/`emplace` refuse when `size >= capacity`, not only when `size == capacity`. The
  two agree under the invariant.
- **`!=` on null iterators.** `operator!=` has its own test for a null right-hand map. The asymmetry one might
  expect from it does not exist: `NotEqual` is exactly the negation of `Equal`, and
  `Iterators.NotEqual` proves this. The relation is still not reflexive, because an
  unbound iterator equals nothing, itself included.
- **Incrementing `end()`.** Incrementing `end()` stays at `end()` except at capacity 65535. There the 16-bit
  index wraps to 0, which is a live slot of any non-empty map.

## Model

| member | source | states |
|---|---|---|
| Iterators.Equal | include/gdc/nanomap.hpp:150-159 | two iterators are equal exactly when they are the same iterator and it is bound to a map |
| Iterators.NotEqual | include/gdc/nanomap.hpp:162-171 | `!=` is the exact negation of `==`, and holds whenever either map is null |
| Iterators.EqualIsPartialEquivalence | include/gdc/nanomap.hpp:150-171 | `==` is symmetric and transitive, and reflexive only on bound iterators; the default iterator is unequal to itself |
| NanoMaps.New | include/gdc/nanomap.hpp:215-223 | a freshly bound map satisfies the slot invariant and has no entries |
| NanoMaps.EntriesDetermineMap | include/gdc/nanomap.hpp:449-470 | two valid maps with equal identity, capacity and live entries are equal, so nothing beyond `size` is observable |
| NanoMaps.IsEmpty | include/gdc/nanomap.hpp:245-248 | `empty()` holds exactly when there are no live entries |
| NanoMaps.End | include/gdc/nanomap.hpp:419-434 | `end()` is bound to the map at exactly index `capacity` (`max_size()`), which is never a live slot |
| NanoMaps.EndSurvivesSizeChanges | include/gdc/nanomap.hpp:419-434 | an `end()` taken before an insert, an erase or a subscript still equals the map's `end()` afterwards, whatever the size became |
| NanoMaps.Begin | include/gdc/nanomap.hpp:413-428 | `begin()` equals `end()` exactly when the map is empty, and is slot 0 otherwise |
| NanoMaps.Clear | include/gdc/nanomap.hpp:263-276 | after `clear()` no entry is live and `empty()` holds, while identity, capacity and `end()` are kept |
| NanoMaps.Insert | include/gdc/nanomap.hpp:279-289 | on a full map the result is (`end()`, false) and nothing changes; otherwise the pair is appended at slot `size`, the result is (iterator at the old size, true), and the invariant holds |
| NanoMaps.InsertAllFillsToCapacity | include/gdc/nanomap.hpp:279-289 | over any run of inserts, items are accepted in order until the map is full and refused afterwards, so the size never exceeds the capacity |
| NanoMaps.Emplace | include/gdc/nanomap.hpp:292-303 | `emplace` is `insert` of the value built from the constructor arguments, and succeeds exactly when there is room |
| NanoMaps.FindFrom | include/gdc/nanomap.hpp:457-470 | the scan yields the first live slot from `i` whose key matches, or `capacity` when none matches |
| NanoMaps.Find | include/gdc/nanomap.hpp:400-410 | `find` equals `end()` exactly when no live key matches; otherwise it is at the first live slot holding the key |
| NanoMaps.ScanFind | include/gdc/nanomap.hpp:457-470 | the `_find` loop over slots below `size` returns the iterator `Find` specifies |
| NanoMaps.FindFromDependsOnLiveKeys | include/gdc/nanomap.hpp:457-470 | the scan reads only the keys of live slots: maps with the same live keys find the same slot |
| NanoMaps.FindAfterInsert | include/gdc/nanomap.hpp:279-289 | after a successful insert, a key that was present is found where it was, so a duplicate stays shadowed; the inserted key, if new, is found in the new slot; any other key stays at `end()` |
| NanoMaps.Erase | include/gdc/nanomap.hpp:306-329 | erasing at `end()` aborts; otherwise the size drops by one and every other live slot is kept. If the slot was not the last, it now holds the former last entry and the result is the same iterator; otherwise the result is `end()` |
| NanoMaps.EraseRemovesOne | include/gdc/nanomap.hpp:306-329 | the entries after an erase, plus the erased entry, are exactly the entries before it, as a multiset |
| NanoMaps.Index | include/gdc/nanomap.hpp:332-371 | for a present key, the subscript yields that key's slot and leaves the map unchanged. For an absent key with room, it appends (key, default value) and yields the new slot. For an absent key on a full map, it fails with the overflow error |
| NanoMaps.Store | include/gdc/nanomap.hpp:343-349 | writing through the returned reference changes only that slot's value |
| NanoMaps.Assign | include/gdc/nanomap.hpp:332-350 | `m[key] = value` fails exactly when the key is absent and the map is full |
| NanoMaps.At | include/gdc/nanomap.hpp:374-384 | `at` fails with out-of-range exactly when no live key matches; otherwise it yields the value of the first matching live slot |
| NanoMaps.AtDependsOnEntries | include/gdc/nanomap.hpp:374-384 | `at` reads only the live entries, so maps with equal entries answer alike |
| NanoMaps.AtAfterAssign | include/gdc/nanomap.hpp:332-384 | after `m[key] = value` succeeds, `at(key)` yields `value` and every other key reads as before |
| Traversal.Next | include/gdc/nanomap.hpp:131-139 | from a live slot below `size - 1`, `++` steps to the next slot; from the last live slot it yields `end()`; below the largest capacity, `end()` stays at `end()` |
| Traversal.NextOfEndWrapsAtMaxCapacity | include/gdc/nanomap.hpp:131-139 | at capacity 65535, `++` of `end()` wraps to slot 0 |
| Traversal.Deref | include/gdc/nanomap.hpp:174-177 | dereferencing an iterator at a live slot yields that slot's entry |
| Traversal.Key | include/gdc/nanomap.hpp:180-183 | `key()` is the key of the entry at the iterator |
| Traversal.Value | include/gdc/nanomap.hpp:186-189 | `value()` is the value of the entry at the iterator |
| Traversal.Walk | unit_tests/unit_tests.cpp:416-432 | the loop from `begin()` while `!= end()` with `++` visits exactly the live entries, in slot order, and terminates |
| Factories.NewFactory | include/gdc/nanomap.hpp:485-487 | a new factory binds an empty, valid map of the given capacity |
| Factories.Get | include/gdc/nanomap.hpp:526-529 | `get()` is the bound map itself: the factory's map identity, capacity and entries |
| Factories.ConstructLiveSlots | include/gdc/nanomap.hpp:490-513 | constructing the live slots one by one into fresh storage gives a valid map with the same capacity, size and entries |
| Factories.Copy | include/gdc/nanomap.hpp:490-501 | the copy, a different object, has the original's size, capacity and live entries under its own identity, so its `end()` never equals the original's |
| Factories.Move | include/gdc/nanomap.hpp:504-517 | the new factory, a different object, holds the source's entries; the source is left empty with its identity and capacity, and the two `end()`s differ |
| Scenarios.Fill | unit_tests/unit_tests.cpp:394-397 | inserting (i, i) for i below k into an empty map yields exactly those entries, in order |
| Scenarios.SumOfFilled | unit_tests/unit_tests.cpp:425-431 | the values 0 to k-1 sum to k(k-1)/2 |
| Scenarios.FullMap | unit_tests/unit_tests.cpp:389-470 | on a full map, insert is refused without effect, the subscript of a new key overflows, and the walk sums to n(n-1)/2. Erasing `begin()` leaves n-1 entries with the last one moved to slot 0 |
| Scenarios.FullMapOf32Sums496 | unit_tests/unit_tests.cpp:416-432 | the full map of capacity 32 sums to 496 |
| Scenarios.TwoInserts | unit_tests/unit_tests.cpp:161-258 | after inserting (1,2) and (2,3), both inserts succeed and the first is at `begin()`. `find(1)` has value 2, `at(2)` is 3, and key 3 is absent from `find` and `at` |

## Left out

- `init` and the constructor that binds caller-owned arrays with an initial size: rebinding onto storage owned elsewhere is aliasing and lifetime, which a value model cannot meaningfully check. Only the default binding, an empty map over fresh slots, is modelled.
- Object lifetime: destructor calls, the destructor of `nanomap` calling `clear()`, and the order in which the factory's embedded arrays and map are destroyed. The entry type that marks itself on destruction tests these, and Dafny values have no such lifetime.
- The move constructor and move assignment of the iterator, which null the source iterator. This is move plumbing with no observable map behaviour.
- The const/non-const iterator split, `cbegin`/`cend`, and the const overloads of `find`, `begin` and `end`. They behave as their non-const forms.
- The const overload of `at` (include/gdc/nanomap.hpp:387-391). Inside that const member the call `at(key)` can only resolve to the const overload itself, and its `const mapped_type&` result cannot bind to the `mapped_type&` it is assigned to. So the overload does not compile once used, and there is no behaviour to model. `NanoMaps.At` models the non-const `at`.
- Post-increment `operator++(int)` (include/gdc/nanomap.hpp:142-147). It should yield the old position, but it returns a reference to its local copy `tmp`, which dangles once the function returns. Only pre-increment is modelled (`Traversal.Next`).
- Factories.Copy: the source's copy loop runs over all `capacity` slots, not just the live ones. The model constructs only the live prefix, because slots at or beyond `size` are unobservable (`NanoMaps.EntriesDetermineMap`).
- Factories.Move: the same holds for the move loop.
- Iterator-map binding: identities are passed in as parameters, since the model has no addresses. Copy and move take the new factory's identity as an argument, which must differ from the original's.
- NanoMaps.Erase: a stale iterator, at an index in `[size, capacity)`, makes the source destroy an object that is not live; the requires clause excludes it.
- NanoMaps.Erase: a foreign iterator is misuse, not undefined behaviour. With an index below `size`, the source erases this map's slot of that index and returns an iterator bound to the other map. The requires clause excludes this misuse, so it is not modelled.
- Traversal.Next: incrementing an iterator with a null map dereferences null in the source. It is excluded by the requires clause.
- The value references returned by the subscript operator and `at` are modelled as a slot index (`Indexed.slot`) and as the value read. Writing through them is `NanoMaps.Store`.
- Copy independence after copying: the model's values are immutable, so a change to the copy cannot reach the original. This holds by construction and is not stated as a separate lemma.
