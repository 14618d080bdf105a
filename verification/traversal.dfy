/** The iterator operations that consult the map: increment and dereference, and the
    begin-to-end walk they make up. */
module Traversal {
  import opened Outcomes
  import opened Iterators
  import opened NanoMaps

  /** `operator++`: the 16-bit index is bumped and snaps to `end()` (index `capacity`) as
      soon as it reaches the current size. The bump wraps modulo 2^16, as `size_type` does. */
  function Next<K, V>(m: NanoMap<K, V>, it: Iterator): (r: Iterator)
    requires m.Valid() && it.owner == Some(m.id)
    ensures r.owner == it.owner
    ensures it.index + 1 < m.size ==> r.index == it.index + 1
    ensures it.index < m.size <= it.index + 1 ==> r == End(m)
    ensures m.capacity < MaxCapacity && Equal(it, End(m)) ==> r == End(m)
  {
    var bumped: SizeType := (it.index + 1) % (MaxCapacity + 1);
    if bumped >= m.size then Iterator(it.owner, m.capacity) else Iterator(it.owner, bumped)
  }

  /** The one case where `end()` is not a fixed point of `++`: at the largest capacity the
      bump wraps round to slot 0, which is live in any non-empty map. */
  lemma NextOfEndWrapsAtMaxCapacity<K, V>(m: NanoMap<K, V>)
    requires m.Valid() && m.capacity == MaxCapacity && m.size > 0
    ensures Next(m, End(m)).index == 0
  {
  }

  /** `operator*`: the live entry the iterator is at. */
  function Deref<K, V>(m: NanoMap<K, V>, it: Iterator): (e: (K, V))
    requires m.Valid() && it.owner == Some(m.id) && it.index < m.size
    ensures e == Entries(m)[it.index]
  {
    (m.slots[it.index].key, m.slots[it.index].value)
  }

  /** `key()`: the key of the live entry the iterator is at. */
  function Key<K, V>(m: NanoMap<K, V>, it: Iterator): (k: K)
    requires m.Valid() && it.owner == Some(m.id) && it.index < m.size
    ensures k == Entries(m)[it.index].0
  {
    m.slots[it.index].key
  }

  /** `value()`: the value of the live entry the iterator is at. */
  function Value<K, V>(m: NanoMap<K, V>, it: Iterator): (v: V)
    requires m.Valid() && it.owner == Some(m.id) && it.index < m.size
    ensures v == Entries(m)[it.index].1
  {
    m.slots[it.index].value
  }

  /** The loop `for (it = begin(); it != end(); ++it)`: it visits every live entry exactly
      once, in slot order, and stops. */
  method Walk<K, V>(m: NanoMap<K, V>) returns (visited: seq<(K, V)>)
    requires m.Valid()
    ensures visited == Entries(m)
  {
    var it := Begin(m);
    visited := [];
    while NotEqual(it, End(m))
      invariant it.owner == Some(m.id)
      invariant (it.index < m.size && |visited| == it.index) || (it == End(m) && |visited| == m.size)
      invariant visited == Entries(m)[..|visited|]
      decreases m.size - |visited|
    {
      visited := visited + [Deref(m, it)];
      it := Next(m, it);
    }
  }
}
