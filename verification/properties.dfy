/**
  Properties of single operations of hashtable.cpp that hold for every valid
  table, with no assumption about how the table was built.
 */
module Properties {
  import opened Hashing
  import opened Slots
  import opened HashTable

  /**
    The two probe loops differ only at tombstones: `insert` stops wherever a
    lookup stops, and also at a tombstone, where a lookup never stops.
   */
  lemma StopsByPurpose(s: Slot, key: Key)
    ensures Stops(s, key, ForInsert) <==> Stops(s, key, ForLookup) || s.Deleted?
    ensures Stops(s, key, ForLookup) <==> Stops(s, key, ForInsert) && !s.Deleted?
  {
  }

  /** When `find` succeeds, the attempt it stopped at holds the key and the value it returned. */
  lemma LookupWitness(t: Table, key: Key) returns (i: nat)
    requires t.Valid()
    requires Find(t, key).Some?
    ensures IsFirstStop(t.slots, key, ForLookup, i)
    ensures At(t.slots, key, i) == Occupied(key, Find(t, key).value)
  {
    i := Walk(t.slots, key, ForLookup).value;
  }

  /** Round trip at the probe level: once the entry is placed, `find` returns its value. */
  lemma PlaceThenFind(t: Table, key: Key, value: int)
    requires t.Valid()
    requires !NeverStops(t.slots, key, ForInsert)
    ensures Find(Place(t, key, value), key) == Some(value)
  {
    var i := Walk(t.slots, key, ForInsert).value;
    var id := SlotIndex(t.capacity, key, i);
    var r := Place(t, key, value);
    assert r.slots == t.slots[id := Occupied(key, value)];
    forall j | 0 <= j < i
      ensures !Stops(At(r.slots, key, j), key, ForLookup)
    {
      assert !Stops(At(t.slots, key, j), key, ForInsert);
      assert SlotIndex(t.capacity, key, j) != id;
    }
    assert IsFirstStop(r.slots, key, ForLookup, i);
  }

  /**
    Round trip: unless the probe walk of `insert` gives up, an immediately
    following `find` of the key returns the value just inserted.
   */
  lemma InsertThenFind(t: Table, key: Key, value: int)
    requires t.Valid()
    requires !NeverStops(Grown(t).slots, key, ForInsert)
    ensures Find(Insert(t, key, value), key) == Some(value)
  {
    PlaceThenFind(Grown(t), key, value);
  }

  /** `insert` below the growth trigger, when its probe walk first stops at attempt `i`. */
  lemma InsertAt(t: Table, key: Key, value: int, i: nat)
    requires t.Valid() && !LoadExceeded(t)
    requires IsFirstStop(t.slots, key, ForInsert, i)
    ensures var id := SlotIndex(t.capacity, key, i);
            Insert(t, key, value)
            == Table(t.slots[id := Occupied(key, value)], t.capacity,
                     t.numElements + (if t.slots[id].Occupied? then 0 else 1))
  {
  }

  /** A probe walk that gives up leaves the (possibly grown) table as it was. */
  lemma InsertExhausted(t: Table, key: Key, value: int)
    requires t.Valid()
    requires NeverStops(Grown(t).slots, key, ForInsert)
    ensures Insert(t, key, value) == Grown(t)
    ensures Insert(t, key, value).numElements == Grown(t).numElements
  {
  }

  /** A fresh table finds nothing. */
  lemma CreateFindsNothing(initialCapacity: nat, key: Key)
    requires initialCapacity > 0
    ensures Find(Create(initialCapacity), key) == None
    ensures IsEmpty(Create(initialCapacity))
  {
    var t := Create(initialCapacity);
    assert IsFirstStop(t.slots, key, ForLookup, 0);
  }

  /** After `clear()` nothing is found, the size is 0, and the capacity is kept. */
  lemma ClearForgetsAll(t: Table, key: Key)
    requires t.Valid()
    ensures Find(Clear(t), key) == None
    ensures Size(Clear(t)) == 0 && IsEmpty(Clear(t))
    ensures Clear(t).capacity == t.capacity
  {
    CreateFindsNothing(t.capacity, key);
  }

  /** `clear()` is idempotent. */
  lemma ClearIdempotent(t: Table)
    requires t.Valid()
    ensures Clear(Clear(t)) == Clear(t)
  {
  }

  /** A slot that stops neither walk for `key`: it holds another key. */
  predicate Blocked(s: Slot, key: Key) {
    s.Occupied? && s.key != key
  }

  /** The six slots quadratic probing reaches at the default capacity, all blocked, block every attempt. */
  lemma BlockedEverywhere(slots: seq<Slot>, key: Key)
    requires |slots| == DefaultCapacity
    requires var h := Hash(key, DefaultCapacity);
             && Blocked(slots[h], key)
             && Blocked(slots[(h + 1) % 10], key)
             && Blocked(slots[(h + 4) % 10], key)
             && Blocked(slots[(h + 5) % 10], key)
             && Blocked(slots[(h + 6) % 10], key)
             && Blocked(slots[(h + 9) % 10], key)
    ensures forall j :: 0 <= j < |slots| ==> Blocked(At(slots, key, j), key)
  {
    forall j | 0 <= j < |slots|
      ensures Blocked(At(slots, key, j), key)
    {
      DefaultCapacityProbeGap(Hash(key, DefaultCapacity), j);
    }
  }

  /**
    The probe-coverage gap at the default capacity. If the six slots that
    quadratic probing can reach from the key's base index hold other keys,
    `insert` silently drops the entry and `find` reports it absent, although
    the table is below the growth trigger (at most 7 of its 10 slots are
    occupied), so slots base+2, base+3, base+7 or base+8 may well be empty.
   */
  lemma DefaultCapacityDropsEntry(t: Table, key: Key, value: int)
    requires t.Valid() && t.capacity == DefaultCapacity && !LoadExceeded(t)
    requires var h := Hash(key, DefaultCapacity);
             && Blocked(t.slots[h], key)
             && Blocked(t.slots[(h + 1) % 10], key)
             && Blocked(t.slots[(h + 4) % 10], key)
             && Blocked(t.slots[(h + 5) % 10], key)
             && Blocked(t.slots[(h + 6) % 10], key)
             && Blocked(t.slots[(h + 9) % 10], key)
    ensures Insert(t, key, value) == t
    ensures Find(t, key) == None
  {
    BlockedEverywhere(t.slots, key);
    assert NeverStops(t.slots, key, ForInsert);
    assert NeverStops(t.slots, key, ForLookup);
  }
}
