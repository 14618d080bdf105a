/** The iterator of the container: a non-owning (map identity, slot index) pair.
    The operations that need the map itself (increment, dereference) live in `Traversal`. */
module Iterators {
  import opened Outcomes

  /** Capacity and size are 16-bit fields, so neither exceeds this bound. */
  const MaxCapacity: nat := 0xFFFF

  /** The container's `size_type`, an unsigned 16-bit integer. */
  type SizeType = i: int | 0 <= i <= MaxCapacity

  /** The identity of a map object (its address in the source). */
  type MapId = nat

  /** An iterator: the map it is bound to (None for a null map pointer) and a slot index. */
  datatype Iterator = Iterator(owner: Option<MapId>, index: SizeType)

  /** The default-constructed iterator: bound to no map, at index 0. */
  const Unbound: Iterator := Iterator(None, 0)

  /** `operator==`: true only for two iterators of the same non-null map at the same index. */
  predicate Equal(a: Iterator, b: Iterator)
    ensures Equal(a, b) <==> a.owner.Some? && a == b
  {
    a.owner != None && a.owner == b.owner && a.index == b.index
  }

  /** `operator!=`: written in the source as its own disjunction, which includes a separate
      test for a null right-hand map; it is nevertheless exactly the negation of `Equal`. */
  predicate NotEqual(a: Iterator, b: Iterator)
    ensures NotEqual(a, b) <==> !Equal(a, b)
    ensures a.owner.None? || b.owner.None? ==> NotEqual(a, b)
  {
    a.owner == None || b.owner == None || a.owner != b.owner || a.index != b.index
  }

  /** `Equal` is symmetric and transitive, and reflexive exactly on bound iterators:
      an unbound iterator is not even equal to itself. */
  lemma EqualIsPartialEquivalence(a: Iterator, b: Iterator, c: Iterator)
    ensures Equal(a, a) <==> a.owner.Some?
    ensures Equal(a, b) ==> Equal(b, a)
    ensures Equal(a, b) && Equal(b, c) ==> Equal(a, c)
    ensures !Equal(Unbound, Unbound) && NotEqual(Unbound, Unbound)
  {
  }
}
