/**
  The loops of hashtable.cpp as the C++ writes them: `insert`, `find` and
  `remove` probe with `while (true)` and give up once the attempt counter
  reaches `capacity`; `rehash` walks the old slots with a `for` loop. Each
  method is proved to compute exactly the functional definition in module
  HashTable, so every property proved there holds of the loops too.
 */
module Loops {
  import opened Hashing
  import opened Slots
  import opened HashTable

  /** The probe loop of `insert`, after the load check. */
  method PlaceLoop(t: Table, key: Key, value: int) returns (r: Table)
    requires t.Valid()
    ensures r == Place(t, key, value)
  {
    var hashValue := Hash(key, t.capacity);
    var i := 0;
    while true
      invariant 0 <= i < t.capacity
      invariant forall j :: 0 <= j < i ==> !Stops(At(t.slots, key, j), key, ForInsert)
      decreases t.capacity - i
    {
      var id := Probe(hashValue, i, t.capacity);
      assert id == SlotIndex(t.capacity, key, i);
      if t.slots[id].Empty? || t.slots[id].Deleted? {
        assert IsFirstStop(t.slots, key, ForInsert, i);
        return Table(t.slots[id := Occupied(key, value)], t.capacity, t.numElements + 1);
      }
      if t.slots[id].Occupied? && t.slots[id].key == key {
        assert IsFirstStop(t.slots, key, ForInsert, i);
        return Table(t.slots[id := Occupied(key, value)], t.capacity, t.numElements);
      }
      i := i + 1;
      if i >= t.capacity {
        assert NeverStops(t.slots, key, ForInsert);
        return t;
      }
    }
  }

  /**
    `rehash()`. The C++ re-inserts through `insert`; below the growth trigger
    that is the probe loop alone, and the load bound kept as an invariant
    shows the table stays below the trigger throughout.
   */
  method RehashLoop(t: Table) returns (r: Table)
    requires t.Valid()
    ensures r == Rehash(t)
  {
    var oldCapacity := t.capacity;
    var src := t.slots;
    r := Create(2 * t.capacity);
    assert src[0..] == src;
    var i := 0;
    while i < oldCapacity
      invariant 0 <= i <= oldCapacity == |src|
      invariant r.Valid()
      invariant 2 * (r.numElements + CountOccupied(src[i..])) <= r.capacity
      invariant ReinsertFrom(r, src, i) == Rehash(t)
    {
      CountOccupiedSuffix(src, i);
      if src[i].Occupied? {
        r := PlaceLoop(r, src[i].key, src[i].value);
      }
      i := i + 1;
    }
  }

  /** `insert(key, value)`: rehash when the load factor is reached, then probe. */
  method InsertLoop(t: Table, key: Key, value: int) returns (r: Table)
    requires t.Valid()
    ensures r == Insert(t, key, value)
  {
    var g := t;
    if 4 * t.numElements >= 3 * t.capacity {
      g := RehashLoop(t);
    }
    r := PlaceLoop(g, key, value);
  }

  /**
    `find(key, value)`: the flag it returns, and the out-parameter, which
    keeps the caller's `value` when the key is not found.
   */
  method FindLoop(t: Table, key: Key, value: int) returns (found: bool, result: int)
    requires t.Valid()
    ensures found <==> Find(t, key).Some?
    ensures result == if found then Find(t, key).value else value
  {
    var hashValue := Hash(key, t.capacity);
    var i := 0;
    while true
      invariant 0 <= i < t.capacity
      invariant forall j :: 0 <= j < i ==> !Stops(At(t.slots, key, j), key, ForLookup)
      decreases t.capacity - i
    {
      var id := Probe(hashValue, i, t.capacity);
      assert id == SlotIndex(t.capacity, key, i);
      if t.slots[id].Empty? {
        assert IsFirstStop(t.slots, key, ForLookup, i);
        return false, value;
      }
      if t.slots[id].Occupied? && t.slots[id].key == key {
        assert IsFirstStop(t.slots, key, ForLookup, i);
        return true, t.slots[id].value;
      }
      i := i + 1;
      if i >= t.capacity {
        assert NeverStops(t.slots, key, ForLookup);
        return false, value;
      }
    }
  }

  /** `remove(key)`: the table after the call and the flag it returns. */
  method RemoveLoop(t: Table, key: Key) returns (r: Table, removed: bool)
    requires t.Valid()
    ensures (r, removed) == Remove(t, key)
  {
    var hashValue := Hash(key, t.capacity);
    var i := 0;
    while true
      invariant 0 <= i < t.capacity
      invariant forall j :: 0 <= j < i ==> !Stops(At(t.slots, key, j), key, ForLookup)
      decreases t.capacity - i
    {
      var id := Probe(hashValue, i, t.capacity);
      assert id == SlotIndex(t.capacity, key, i);
      if t.slots[id].Empty? {
        assert IsFirstStop(t.slots, key, ForLookup, i);
        return t, false;
      }
      if t.slots[id].Occupied? && t.slots[id].key == key {
        assert IsFirstStop(t.slots, key, ForLookup, i);
        return Table(t.slots[id := Deleted], t.capacity, t.numElements - 1), true;
      }
      i := i + 1;
      if i >= t.capacity {
        assert NeverStops(t.slots, key, ForLookup);
        return t, false;
      }
    }
  }
}
