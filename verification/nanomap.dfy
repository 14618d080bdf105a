/** The container: a fixed-capacity map scanned linearly, viewing a row of storage
    slots of which the first `size` hold constructed key/value pairs.

    The source keeps keys and values in two parallel arrays and constructs or destroys
    the two halves of an entry together; here one `Slot` holds both halves, so they can
    never be live independently. */
module NanoMaps {
  import opened Outcomes
  import opened Iterators

  /** One storage position: raw memory, or a constructed key/value pair. */
  datatype Slot<K, V> = Vacant | Live(key: K, value: V)

  /** A map of identity `id` over `capacity` slots, the first `size` of them live. */
  datatype NanoMap<K, V> = NanoMap(id: MapId, capacity: SizeType, size: SizeType, slots: seq<Slot<K, V>>)
  {
    /** The storage discipline: one slot per unit of capacity, live exactly below `size`. */
    ghost predicate Valid() {
      && size <= capacity
      && |slots| == capacity
      && forall i :: 0 <= i < |slots| ==> (slots[i].Live? <==> i < size)
    }
  }

  /** The live entries in slot order: the abstract value of the map. */
  function Entries<K, V>(m: NanoMap<K, V>): (es: seq<(K, V)>)
    requires m.Valid()
    ensures |es| == m.size
  {
    seq(m.size, i requires 0 <= i < m.size => (m.slots[i].key, m.slots[i].value))
  }

  /** True if some live entry has key `key`. */
  ghost predicate Contains<K, V>(m: NanoMap<K, V>, key: K)
    requires m.Valid()
  {
    exists i :: 0 <= i < m.size && Entries(m)[i].0 == key
  }

  /** A map over `capacity` freshly bound slots, none of them live: the default-constructed
      map (capacity 0) and the map a default-constructed factory binds. */
  function New<K, V>(id: MapId, capacity: SizeType): (m: NanoMap<K, V>)
    ensures m.Valid() && m.id == id && m.capacity == capacity && m.size == 0
  {
    NanoMap(id, capacity, 0, seq(capacity, _ => Vacant))
  }

  /** Two valid maps with the same identity, capacity and live entries are the same map:
      nothing at or beyond `size` is observable. */
  lemma EntriesDetermineMap<K, V>(m1: NanoMap<K, V>, m2: NanoMap<K, V>)
    requires m1.Valid() && m2.Valid()
    requires m1.id == m2.id && m1.capacity == m2.capacity
    requires Entries(m1) == Entries(m2)
    ensures m1 == m2
  {
    forall i | 0 <= i < m1.capacity
      ensures m1.slots[i] == m2.slots[i]
    {
      if i < m1.size {
        assert Entries(m1)[i] == Entries(m2)[i];
      }
    }
  }

  /** `empty()`: no entry is live. */
  predicate IsEmpty<K, V>(m: NanoMap<K, V>)
    requires m.Valid()
    ensures IsEmpty(m) <==> Entries(m) == []
  {
    m.size == 0
  }

  /** `end()`: the fixed sentinel index `capacity`, whatever the current size. */
  function End<K, V>(m: NanoMap<K, V>): (it: Iterator)
    requires m.Valid()
    ensures it.owner == Some(m.id)
    ensures it.index == m.capacity && it.index >= m.size
  {
    Iterator(Some(m.id), m.capacity)
  }

  /** `begin()`: slot 0 of a non-empty map, `end()` of an empty one. */
  function Begin<K, V>(m: NanoMap<K, V>): (it: Iterator)
    requires m.Valid()
    ensures it.owner == Some(m.id)
    ensures Equal(it, End(m)) <==> Entries(m) == []
    ensures Entries(m) != [] ==> it.index == 0
  {
    if IsEmpty(m) then End(m) else Iterator(Some(m.id), 0)
  }

  /** `clear()`: destroys every live slot, front to back, and resets the size; the
      capacity and the binding to storage stay. */
  method Clear<K, V>(m: NanoMap<K, V>) returns (r: NanoMap<K, V>)
    requires m.Valid()
    ensures r.Valid() && r.id == m.id && r.capacity == m.capacity
    ensures Entries(r) == [] && IsEmpty(r)
    ensures End(r) == End(m)
  {
    var slots := m.slots;
    var i := 0;
    while i < m.size
      invariant i <= m.size
      invariant |slots| == m.capacity
      invariant forall j :: 0 <= j < |slots| ==> (slots[j].Live? <==> i <= j < m.size)
    {
      slots := slots[i := Vacant];
      i := i + 1;
    }
    r := m.(size := 0, slots := slots);
  }

  /** What `insert` and `emplace` return: the map afterwards, an iterator and whether the
      pair went in. */
  datatype Inserted<K, V> = Inserted(after: NanoMap<K, V>, pos: Iterator, inserted: bool)

  /** `insert`: on a full map nothing changes and the result is (`end()`, false); otherwise
      the pair is constructed in slot `size`, which becomes live, and the result is (an
      iterator at that slot, true). Duplicate keys are not checked. */
  function Insert<K, V>(m: NanoMap<K, V>, item: (K, V)): (r: Inserted<K, V>)
    requires m.Valid()
    ensures r.after.Valid() && r.after.id == m.id && r.after.capacity == m.capacity
    ensures m.size >= m.capacity ==> r == Inserted(m, End(m), false)
    ensures m.size < m.capacity ==>
      && r.inserted
      && r.pos == Iterator(Some(m.id), m.size)
      && Entries(r.after) == Entries(m) + [item]
  {
    if m.size >= m.capacity then
      Inserted(m, End(m), false)
    else
      var after := m.(size := m.size + 1, slots := m.slots[m.size := Live(item.0, item.1)]);
      assert Entries(after) == Entries(m) + [item];
      Inserted(after, Iterator(Some(m.id), m.size), true)
  }

  /** A run of `insert` calls, one per item, each on the map the previous one left. */
  function InsertAll<K, V>(m: NanoMap<K, V>, items: seq<(K, V)>): (r: NanoMap<K, V>)
    requires m.Valid()
    ensures r.Valid() && r.id == m.id && r.capacity == m.capacity
    decreases |items|
  {
    if items == [] then m else InsertAll(Insert(m, items[0]).after, items[1..])
  }

  /** The capacity invariant over any run of inserts: items are accepted in order while
      there is room and every later one is refused without effect, so the size ends at
      the smaller of capacity and old size plus the number of items. */
  lemma {:induction false} InsertAllFillsToCapacity<K, V>(m: NanoMap<K, V>, items: seq<(K, V)>)
    requires m.Valid()
    ensures var accepted := if |items| <= m.capacity - m.size then |items| else m.capacity - m.size;
      && InsertAll(m, items).size == m.size + accepted
      && Entries(InsertAll(m, items)) == Entries(m) + items[..accepted]
    decreases |items|
  {
    if items != [] {
      var first := Insert(m, items[0]);
      InsertAllFillsToCapacity(first.after, items[1..]);
      if m.size < m.capacity {
        var accepted := if |items| <= m.capacity - m.size then |items| else m.capacity - m.size;
        assert items[1..][..accepted - 1] == items[1..accepted];
        assert Entries(m) + items[..accepted] == Entries(m) + [items[0]] + items[1..accepted];
      }
    }
  }

  /** `emplace`: as `insert`, but the value is built in its slot by `construct` from the
      constructor arguments `args`. */
  function Emplace<K, V, A>(m: NanoMap<K, V>, key: K, args: A, construct: A -> V): (r: Inserted<K, V>)
    requires m.Valid()
    ensures r.after.Valid() && r.after.id == m.id && r.after.capacity == m.capacity
    ensures r.inserted <==> m.size < m.capacity
    ensures !r.inserted ==> r == Inserted(m, End(m), false)
    ensures r.inserted ==>
      && r.pos == Iterator(Some(m.id), m.size)
      && Entries(r.after) == Entries(m) + [(key, construct(args))]
  {
    Insert(m, (key, construct(args)))
  }

  /** The scan of `_find` from slot `i`: the first live slot at or after `i` whose key
      equals `key`, or `capacity` if there is none. */
  function FindFrom<K(==), V>(m: NanoMap<K, V>, key: K, i: nat): (r: nat)
    requires m.Valid() && i <= m.size
    ensures r == m.capacity || (i <= r < m.size && Entries(m)[r].0 == key)
    ensures forall j :: i <= j < m.size && j < r ==> Entries(m)[j].0 != key
    decreases m.size - i
  {
    if i == m.size then m.capacity
    else if m.slots[i].key == key then i
    else FindFrom(m, key, i + 1)
  }

  /** `find`: an iterator at the first live slot holding `key`, or `end()` when no live
      key matches. */
  function Find<K(==), V>(m: NanoMap<K, V>, key: K): (it: Iterator)
    requires m.Valid()
    ensures it.owner == Some(m.id)
    ensures Equal(it, End(m)) <==> !Contains(m, key)
    ensures !Equal(it, End(m)) ==>
      && it.index < m.size
      && Entries(m)[it.index].0 == key
      && forall j :: 0 <= j < it.index ==> Entries(m)[j].0 != key
  {
    Iterator(Some(m.id), FindFrom(m, key, 0))
  }

  /** The loop of `_find`, written as the source writes it; it agrees with `Find`. */
  method ScanFind<K(==), V>(m: NanoMap<K, V>, key: K) returns (it: Iterator)
    requires m.Valid()
    ensures it == Find(m, key)
    ensures it.index < m.size ==> Entries(m)[it.index].0 == key
  {
    var i := 0;
    while i < m.size
      invariant i <= m.size
      invariant FindFrom(m, key, i) == FindFrom(m, key, 0)
    {
      if m.slots[i].key == key {
        return Iterator(Some(m.id), i);
      }
      i := i + 1;
    }
    return Iterator(Some(m.id), m.capacity);
  }

  /** `find` reads keys only, and only those of live slots: maps whose live keys agree
      find the same slot. */
  lemma FindFromDependsOnLiveKeys<K, V>(m1: NanoMap<K, V>, m2: NanoMap<K, V>, key: K, i: nat)
    requires m1.Valid() && m2.Valid() && m1.capacity == m2.capacity && m1.size == m2.size
    requires i <= m1.size
    requires forall j :: 0 <= j < m1.size ==> Entries(m1)[j].0 == Entries(m2)[j].0
    ensures FindFrom(m1, key, i) == FindFrom(m2, key, i)
  {
    // FindFrom's contract pins its result down as the first match at or after i.
  }

  /** After a successful insert, `find` still reaches the slot it reached before (a second
      entry with an existing key stays shadowed), and a key that was absent is found in the
      new slot if it is the inserted one. */
  lemma FindAfterInsert<K, V>(m: NanoMap<K, V>, item: (K, V), key: K)
    requires m.Valid() && m.size < m.capacity
    ensures var after := Insert(m, item).after;
      Find(after, key) ==
        if Contains(m, key) then Find(m, key)
        else if item.0 == key then Iterator(Some(m.id), m.size)
        else End(after)
  {
    var after := Insert(m, item).after;
    assert forall j :: 0 <= j < m.size ==> Entries(after)[j] == Entries(m)[j];
    if Contains(m, key) {
      assert Entries(after)[Find(m, key).index].0 == key;
    } else if item.0 == key {
      assert Entries(after)[m.size] == item;
    }
  }

  /** What `erase` returns: the map afterwards and the iterator to continue from. */
  datatype Erased<K, V> = Erased(after: NanoMap<K, V>, next: Iterator)

  /** `erase`: aborts when handed `end()`; otherwise destroys the entry at the iterator's
      slot, moves the last live entry into that slot when it is not the last one (swap-remove),
      shrinks the size by one and returns an iterator at the same slot, or `end()` when the
      erased entry was the last. Other live entries keep their slots. */
  function Erase<K, V>(m: NanoMap<K, V>, it: Iterator): (r: Result<Erased<K, V>>)
    requires m.Valid()
    requires it.owner == Some(m.id)
    requires it.index < m.size || it.index == m.capacity
    ensures it.index == m.capacity ==> r == Failure(Aborted)
    ensures it.index < m.size ==>
      && r.Success?
      && r.value.after.Valid() && r.value.after.id == m.id && r.value.after.capacity == m.capacity
      && var es, es' := Entries(m), Entries(r.value.after);
      && |es'| == |es| - 1
      && (forall j :: 0 <= j < |es'| && j != it.index ==> es'[j] == es[j])
      && (if it.index < |es'| then es'[it.index] == es[|es| - 1] && r.value.next == it
          else r.value.next == End(m))
  {
    if it.index == m.capacity then
      Failure(Aborted)
    else
      var last := m.size - 1;
      if it.index < last then
        var after := m.(size := last, slots := m.slots[it.index := m.slots[last]][last := Vacant]);
        Success(Erased(after, Iterator(it.owner, it.index)))
      else
        var after := m.(size := last, slots := m.slots[last := Vacant]);
        Success(Erased(after, End(after)))
  }

  /** Erasing removes exactly the addressed entry: the live entries afterwards, together
      with the erased one, are the live entries before. */
  lemma EraseRemovesOne<K, V>(m: NanoMap<K, V>, it: Iterator)
    requires m.Valid() && it.owner == Some(m.id) && it.index < m.size
    ensures var es := Entries(m);
      multiset(Entries(Erase(m, it).value.after)) + multiset{es[it.index]} == multiset(es)
  {
    var es := Entries(m);
    var es' := Entries(Erase(m, it).value.after);
    var i, n := it.index, |es|;
    if i < n - 1 {
      assert es' == es[..i] + [es[n - 1]] + es[i + 1..n - 1];
      assert es == es[..i] + [es[i]] + es[i + 1..n - 1] + [es[n - 1]];
    } else {
      assert es' == es[..n - 1];
      assert es == es[..n - 1] + [es[n - 1]];
    }
  }

  /** What the subscript operator returns: the map afterwards and the slot whose value the
      returned reference designates. */
  datatype Indexed<K, V> = Indexed(after: NanoMap<K, V>, slot: nat)

  /** `operator[]`: the slot of `key` if it is live, leaving the map as it is; otherwise, if
      there is room, a new entry (`key`, `initial`) appended at slot `size`, `initial` being the
      default-constructed value; otherwise the overflow error and no change. */
  function Index<K(==), V>(m: NanoMap<K, V>, key: K, initial: V): (r: Result<Indexed<K, V>>)
    requires m.Valid()
    ensures Contains(m, key) ==> r == Success(Indexed(m, Find(m, key).index))
    ensures r.Success? ==>
      && r.value.after.Valid() && r.value.after.id == m.id && r.value.after.capacity == m.capacity
      && r.value.slot < r.value.after.size
      && Entries(r.value.after)[r.value.slot].0 == key
    ensures !Contains(m, key) && m.size < m.capacity ==>
      && r.Success?
      && r.value.slot == m.size
      && Entries(r.value.after) == Entries(m) + [(key, initial)]
    ensures !Contains(m, key) && m.size >= m.capacity ==> r == Failure(Overflow)
  {
    var it := Find(m, key);
    if Equal(it, End(m)) then
      if m.size >= m.capacity then
        Failure(Overflow)
      else
        Success(Indexed(Insert(m, (key, initial)).after, m.size))
    else
      Success(Indexed(m, it.index))
  }

  /** Writing `value` through the reference to live slot `slot`. */
  function Store<K, V>(m: NanoMap<K, V>, slot: nat, value: V): (r: NanoMap<K, V>)
    requires m.Valid() && slot < m.size
    ensures r.Valid() && r.id == m.id && r.capacity == m.capacity
    ensures Entries(r) == Entries(m)[slot := (Entries(m)[slot].0, value)]
  {
    var after := m.(slots := m.slots[slot := Live(m.slots[slot].key, value)]);
    assert Entries(after) == Entries(m)[slot := (Entries(m)[slot].0, value)];
    after
  }

  /** `that[key] = value`: the upsert the subscript operator offers. */
  function Assign<K(==), V>(m: NanoMap<K, V>, key: K, value: V, initial: V): (r: Result<NanoMap<K, V>>)
    requires m.Valid()
    ensures r.Failure? <==> !Contains(m, key) && m.size >= m.capacity
    ensures r.Success? ==> r.value.Valid() && r.value.id == m.id && r.value.capacity == m.capacity
  {
    match Index(m, key, initial)
    case Failure(e) => Failure(e)
    case Success(ix) => Success(Store(ix.after, ix.slot, value))
  }

  /** `at`: the value of the first live entry with key `key`, or the not-found error. The map
      itself is not an output: `at` never changes size or contents. */
  function At<K(==), V>(m: NanoMap<K, V>, key: K): (r: Result<V>)
    requires m.Valid()
    ensures r.Failure? <==> !Contains(m, key)
    ensures r.Failure? ==> r.error == OutOfRange
    ensures r.Success? ==>
      Find(m, key).index < m.size && Entries(m)[Find(m, key).index] == (key, r.value)
  {
    var it := Find(m, key);
    if Equal(it, End(m)) then Failure(OutOfRange) else Success(m.slots[it.index].value)
  }

  /** `at` reads only the live entries: maps of equal identity, capacity and entries agree
      on every key, so a factory copy answers `at` as its original does. */
  lemma AtDependsOnEntries<K, V>(m1: NanoMap<K, V>, m2: NanoMap<K, V>, key: K)
    requires m1.Valid() && m2.Valid() && m1.capacity == m2.capacity
    requires Entries(m1) == Entries(m2)
    ensures At(m1, key) == At(m2, key)
  {
    assert forall j :: 0 <= j < m1.size ==> Entries(m1)[j].0 == Entries(m2)[j].0;
    FindFromDependsOnLiveKeys(m1, m2, key, 0);
  }

  /** `end()` is the fixed index `capacity`, so an `end()` taken before an insert, an erase
      or a subscript still equals the `end()` of the map afterwards, whatever the size did. */
  lemma EndSurvivesSizeChanges<K, V>(m: NanoMap<K, V>, item: (K, V), it: Iterator, key: K, initial: V)
    requires m.Valid()
    ensures Equal(End(Insert(m, item).after), End(m))
    ensures it.owner == Some(m.id) && it.index < m.size ==>
      Equal(End(Erase(m, it).value.after), End(m))
    ensures Index(m, key, initial).Success? ==>
      Equal(End(Index(m, key, initial).value.after), End(m))
  {
  }

  /** After `that[key] = value` succeeds, `at(key)` yields `value`, and every other key
      reads as before. */
  lemma AtAfterAssign<K, V>(m: NanoMap<K, V>, key: K, value: V, initial: V, other: K)
    requires m.Valid() && Assign(m, key, value, initial).Success?
    ensures At(Assign(m, key, value, initial).value, key) == Success(value)
    ensures other != key ==> At(Assign(m, key, value, initial).value, other) == At(m, other)
  {
    var ix := Index(m, key, initial).value;
    var after := Assign(m, key, value, initial).value;
    assert forall j :: 0 <= j < after.size ==> Entries(after)[j].0 == Entries(ix.after)[j].0;
    FindFromDependsOnLiveKeys(after, ix.after, key, 0);
    FindFromDependsOnLiveKeys(after, ix.after, other, 0);
    if Contains(m, key) {
      assert ix.after == m;
    } else {
      FindAfterInsert(m, (key, initial), key);
      FindAfterInsert(m, (key, initial), other);
    }
    assert Find(after, key).index == ix.slot;
  }
}

