/** The situations the unit tests set up, stated for every identity and, where the tests
    fix the capacity at 32, for every capacity. */
module Scenarios {
  import opened Outcomes
  import opened Iterators
  import opened NanoMaps
  import opened Traversal

  /** Inserting (i, i) for i = 0, 1, ..., k - 1 into an empty map, as the tests fill a map. */
  function Fill(m: NanoMap<int, int>, k: nat): (r: NanoMap<int, int>)
    requires m.Valid() && m.size == 0 && k <= m.capacity
    ensures r.Valid() && r.id == m.id && r.capacity == m.capacity
    ensures Entries(r) == seq(k, i => (i, i))
    decreases k
  {
    if k == 0 then m
    else
      var before := Fill(m, k - 1);
      var r := Insert(before, (k - 1, k - 1)).after;
      assert Entries(r) == seq(k - 1, i => (i, i)) + [(k - 1, k - 1)];
      r
  }

  /** The sum of the values of a sequence of entries, as the iteration tests accumulate it. */
  function SumOfValues<K>(es: seq<(K, int)>): int
  {
    if es == [] then 0 else SumOfValues(es[..|es| - 1]) + es[|es| - 1].1
  }

  /** The values 0 .. k-1 add up to k(k-1)/2. */
  lemma {:induction false} SumOfFilled(k: nat)
    ensures 2 * SumOfValues(seq(k, i => (i, i))) == k * (k - 1)
  {
    if k > 0 {
      var es := seq(k, i => (i, i));
      assert es[..k - 1] == seq(k - 1, i => (i, i));
      SumOfFilled(k - 1);
    }
  }

  /** A full map (the tests use capacity 32): `insert` is refused and changes nothing,
      the subscript operator overflows on a new key, walking it sums the values to
      n(n-1)/2 (496 for 32), and erasing `begin()` leaves n-1 entries with the last
      inserted one moved to slot 0. */
  lemma FullMap(id: MapId, n: SizeType)
    requires n > 1
    ensures var m := Fill(New(id, n), n);
      && Insert(m, (n, n)) == Inserted(m, End(m), false)
      && Index(m, n, 0) == Failure(Overflow)
      && 2 * SumOfValues(Entries(m)) == n * (n - 1)
      && Erase(m, Begin(m)).Success?
      && var after := Erase(m, Begin(m)).value.after;
         after.size == n - 1 && Entries(after)[0] == (n - 1, n - 1)
  {
    var m := Fill(New(id, n), n);
    SumOfFilled(n);
    assert forall j :: 0 <= j < n ==> Entries(m)[j].0 == j;
    assert !Contains(m, n);
  }

  /** With capacity 32 the walk of a full map sums to 496. */
  lemma FullMapOf32Sums496(id: MapId)
    ensures SumOfValues(Entries(Fill(New(id, 32), 32))) == 496
  {
    SumOfFilled(32);
  }

  /** Two inserts, (1, 2) then (2, 3), into an empty map: both succeed, the first lands at
      `begin()`, `find(1)` reaches value 2, and key 3 is neither found nor readable by `at`. */
  lemma TwoInserts(id: MapId, capacity: SizeType)
    requires capacity >= 2
    ensures var first := Insert(New(id, capacity), (1, 2));
      var second := Insert(first.after, (2, 3));
      var m := second.after;
      && first.inserted && second.inserted
      && m.size == 2
      && first.pos == Begin(m)
      && Value(m, Find(m, 1)) == 2
      && Equal(Find(m, 3), End(m))
      && At(m, 3) == Failure(OutOfRange)
      && At(m, 2) == Success(3)
  {
    var m := Insert(Insert(New(id, capacity), (1, 2)).after, (2, 3)).after;
    assert Entries(m) == [(1, 2), (2, 3)];
    assert Entries(m)[0].0 == 1 && Entries(m)[1].0 == 2;
    assert Contains(m, 1) && Contains(m, 2);
  }
}
