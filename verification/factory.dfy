/** The factory: owns the two backing arrays and the map bound to them, and gives the
    bundle the copy and move the bare map refuses. */
module Factories {
  import opened Iterators
  import opened NanoMaps

  /** A factory: its embedded storage is the slot row of the map it binds. */
  datatype Factory<K, V> = Factory(bound: NanoMap<K, V>)
  {
    ghost predicate Valid() {
      bound.Valid()
    }
  }

  /** The default constructor: an empty map over `capacity` embedded slots. The factory's
      object identity is `id`. */
  function NewFactory<K, V>(id: MapId, capacity: SizeType): (f: Factory<K, V>)
    ensures f.Valid() && f.bound.id == id && f.bound.capacity == capacity && f.bound.size == 0
  {
    Factory(New(id, capacity))
  }

  /** `get()`: the map the factory binds. */
  function Get<K, V>(f: Factory<K, V>): (m: NanoMap<K, V>)
    requires f.Valid()
    ensures m.Valid() && m.id == f.bound.id && m.capacity == f.bound.capacity
    ensures Entries(m) == Entries(f.bound)
  {
    f.bound
  }

  /** Constructs, one by one, the live slots of `from` into fresh storage of the same
      capacity, giving the map of identity `id` with the same entries. */
  method ConstructLiveSlots<K, V>(from: NanoMap<K, V>, id: MapId) returns (m: NanoMap<K, V>)
    requires from.Valid()
    ensures m.Valid() && m.id == id && m.capacity == from.capacity
    ensures Entries(m) == Entries(from)
  {
    var slots: seq<Slot<K, V>> := seq(from.capacity, _ => Vacant);
    var i := 0;
    while i < from.size
      invariant i <= from.size
      invariant |slots| == from.capacity
      invariant forall j :: 0 <= j < |slots| ==> slots[j] == (if j < i then from.slots[j] else Vacant)
    {
      slots := slots[i := from.slots[i]];
      i := i + 1;
    }
    m := NanoMap(id, from.capacity, from.size, slots);
    assert Entries(m) == Entries(from);
  }

  /** The copy constructor: the new factory `g`, a different object of identity `id`, has
      the size, capacity and live entries of `f`; `f` is a value and is left as it was. */
  method Copy<K, V>(f: Factory<K, V>, id: MapId) returns (g: Factory<K, V>)
    requires f.Valid() && id != f.bound.id
    ensures g.Valid() && g.bound.id == id
    ensures g.bound.capacity == f.bound.capacity && g.bound.size == f.bound.size
    ensures Entries(g.bound) == Entries(f.bound)
    ensures !Equal(End(g.bound), End(f.bound))
  {
    var m := ConstructLiveSlots(f.bound, id);
    g := Factory(m);
  }

  /** The move constructor: the new factory `g`, a different object of identity `id`, takes
      the entries of `f`, and `f` is returned as `source`: cleared, with its identity and
      capacity kept. */
  method Move<K, V>(f: Factory<K, V>, id: MapId) returns (g: Factory<K, V>, source: Factory<K, V>)
    requires f.Valid() && id != f.bound.id
    ensures g.Valid() && g.bound.id == id && g.bound.capacity == f.bound.capacity
    ensures Entries(g.bound) == Entries(f.bound)
    ensures source.Valid() && source.bound.id == f.bound.id && source.bound.capacity == f.bound.capacity
    ensures Entries(source.bound) == []
    ensures !Equal(End(g.bound), End(source.bound))
  {
    var m := ConstructLiveSlots(f.bound, id);
    g := Factory(m);
    var emptied := Clear(f.bound);
    source := Factory(emptied);
  }
}
