/**
  The `HashTable` class of hashtable.cpp (lines 34-174) as a value: the slot
  vector, `capacity` and `numElements`, with every operation a pure function
  from the table before the call to the table after it.
 */
module HashTable {
  import opened Hashing
  import opened Slots

  /** The answer of a lookup that may fail. */
  datatype Option<T> = None | Some(value: T)

  /** The capacity of a default-constructed table. */
  const DefaultCapacity: nat := 10

  datatype Table = Table(slots: seq<Slot>, capacity: nat, numElements: nat) {
    /** The class invariant: a positive capacity, one slot per unit of it, and an exact live count. */
    predicate Valid() {
      && capacity > 0
      && |slots| == capacity
      && numElements == CountOccupied(slots)
    }
  }

  /**
    The growth trigger `numElements >= capacity * 0.75`, in exact integer
    arithmetic; it is the comparison of the two counts as exact reals.
   */
  predicate LoadExceeded(t: Table): (r: bool)
    ensures r <==> t.numElements as real >= t.capacity as real * 0.75
  {
    4 * t.numElements >= 3 * t.capacity
  }

  /*
    The probe walk. `insert` stops at the first slot that is empty, a
    tombstone, or holds the key; `find` and `remove` stop at the first slot
    that is empty or holds the key, and walk over tombstones.
   */

  datatype Purpose = ForInsert | ForLookup

  predicate Stops(s: Slot, key: Key, p: Purpose) {
    match s
    case Empty => true
    case Deleted => p == ForInsert
    case Occupied(k, _) => k == key
  }

  /** The slot index of the `i`-th probe attempt for `key`. */
  function SlotIndex(capacity: nat, key: Key, i: nat): (r: nat)
    requires capacity > 0
    ensures r < capacity
  {
    Probe(Hash(key, capacity), i, capacity)
  }

  /** The slot seen by the `i`-th probe attempt for `key`. */
  function At(slots: seq<Slot>, key: Key, i: nat): Slot
    requires |slots| > 0
  {
    slots[SlotIndex(|slots|, key, i)]
  }

  /** Attempt `i` is within the `capacity` attempts allowed, stops, and no earlier attempt stops. */
  predicate IsFirstStop(slots: seq<Slot>, key: Key, p: Purpose, i: nat)
    requires |slots| > 0
  {
    && i < |slots|
    && Stops(At(slots, key, i), key, p)
    && forall j :: 0 <= j < i ==> !Stops(At(slots, key, j), key, p)
  }

  /** None of the `capacity` attempts stops: the walk gives up. */
  predicate NeverStops(slots: seq<Slot>, key: Key, p: Purpose)
    requires |slots| > 0
  {
    forall j :: 0 <= j < |slots| ==> !Stops(At(slots, key, j), key, p)
  }

  /** The first attempt at or after `from` that stops, if one below `|slots|` does. */
  function FirstStop(slots: seq<Slot>, key: Key, p: Purpose, from: nat): (r: Option<nat>)
    requires |slots| > 0
    ensures r.Some? ==> from <= r.value < |slots| && Stops(At(slots, key, r.value), key, p)
    ensures r.Some? ==> forall j :: from <= j < r.value ==> !Stops(At(slots, key, j), key, p)
    ensures r.None? ==> forall j :: from <= j < |slots| ==> !Stops(At(slots, key, j), key, p)
    decreases |slots| - from
  {
    if from >= |slots| then None
    else if Stops(At(slots, key, from), key, p) then Some(from)
    else FirstStop(slots, key, p, from + 1)
  }

  /** The probe loop of `insert`, `find` and `remove`: the attempt at which it stops, if any. */
  function Walk(slots: seq<Slot>, key: Key, p: Purpose): (r: Option<nat>)
    requires |slots| > 0
    ensures r.Some? ==> IsFirstStop(slots, key, p, r.value)
    ensures r.None? ==> NeverStops(slots, key, p)
    ensures forall i: nat :: IsFirstStop(slots, key, p, i) ==> r == Some(i)
  {
    FirstStop(slots, key, p, 0)
  }

  /** The constructor, `HashTable(initialCapacity)`. */
  function Create(initialCapacity: nat): (t: Table)
    requires initialCapacity > 0
    ensures t.Valid()
    ensures t.capacity == initialCapacity && t.numElements == 0
    ensures forall i :: 0 <= i < |t.slots| ==> t.slots[i] == Empty
  {
    Table(EmptySlots(initialCapacity), initialCapacity, 0)
  }

  /**
    The probe loop of `insert` after the load check: the first slot that is
    empty, a tombstone or holds `key` receives the entry. Nothing changes when
    all `capacity` attempts fail.
   */
  function Place(t: Table, key: Key, value: int): (r: Table)
    requires t.Valid()
    ensures r.Valid() && r.capacity == t.capacity
    ensures t.numElements <= r.numElements <= t.numElements + 1
    ensures NeverStops(t.slots, key, ForInsert) ==> r == t
    ensures forall i :: IsFirstStop(t.slots, key, ForInsert, i) ==>
              var id := SlotIndex(t.capacity, key, i);
              && r.slots == t.slots[id := Occupied(key, value)]
              && r.numElements == t.numElements + (if t.slots[id].Occupied? then 0 else 1)
  {
    match Walk(t.slots, key, ForInsert)
    case None => t
    case Some(i) =>
      var id := SlotIndex(t.capacity, key, i);
      CountOccupiedUpdate(t.slots, id, Occupied(key, value));
      Table(t.slots[id := Occupied(key, value)], t.capacity,
            t.numElements + (if t.slots[id].Occupied? then 0 else 1))
  }

  /** The table `insert` probes: `t` itself, or `t` rehashed when the load factor is reached. */
  function Grown(t: Table): (g: Table)
    requires t.Valid()
    ensures g.Valid() && !LoadExceeded(g)
    ensures !LoadExceeded(t) ==> g == t
    ensures LoadExceeded(t) ==> g.capacity == 2 * t.capacity && g.numElements <= t.numElements
    decreases if LoadExceeded(t) then 2 else 0, 1
  {
    if LoadExceeded(t) then Rehash(t) else t
  }

  /** `insert(key, value)`: grow if the load factor is reached, then place the entry. */
  function Insert(t: Table, key: Key, value: int): (r: Table)
    requires t.Valid()
    ensures r.Valid()
    ensures r.capacity == if LoadExceeded(t) then 2 * t.capacity else t.capacity
    ensures r.numElements <= t.numElements + 1
    ensures !LoadExceeded(t) ==> r == Place(t, key, value)
    decreases if LoadExceeded(t) then 2 else 0, 2
  {
    Place(Grown(t), key, value)
  }

  /**
    `rehash()`: double the capacity, start from all-empty slots, and re-insert
    every occupied slot of the old table in slot order through `Insert`.
   */
  function Rehash(t: Table): (r: Table)
    requires t.Valid()
    ensures r.Valid()
    ensures r.capacity == 2 * t.capacity
    ensures r.numElements <= t.numElements
    decreases 1, |t.slots| + 1
  {
    assert t.slots[0..] == t.slots;
    ReinsertFrom(Create(2 * t.capacity), t.slots, 0)
  }

  /**
    The loop of `rehash()` from slot `i` of the old slots `src` on. The precondition bounds the
    load so that each nested `Insert` stays below the growth trigger: a rehash
    never starts a second one, which is also why the recursion terminates.
   */
  function ReinsertFrom(acc: Table, src: seq<Slot>, i: nat): (r: Table)
    requires acc.Valid() && i <= |src|
    requires 2 * (acc.numElements + CountOccupied(src[i..])) <= acc.capacity
    ensures r.Valid() && r.capacity == acc.capacity
    ensures r.numElements <= acc.numElements + CountOccupied(src[i..])
    decreases 1, |src| - i
  {
    if i == |src| then acc
    else
      CountOccupiedSuffix(src, i);
      var acc' := if src[i].Occupied? then Insert(acc, src[i].key, src[i].value) else acc;
      ReinsertFrom(acc', src, i + 1)
  }

  /** `find(key, value)`: the value of the first slot on the probe path holding `key`, unless an empty slot comes first. */
  function Find(t: Table, key: Key): (r: Option<int>)
    requires t.Valid()
    ensures NeverStops(t.slots, key, ForLookup) ==> r == None
    ensures forall i :: IsFirstStop(t.slots, key, ForLookup, i) ==>
              && (At(t.slots, key, i).Empty? ==> r == None)
              && (At(t.slots, key, i).Occupied? ==> r == Some(At(t.slots, key, i).value))
    ensures r.Some? ==> Occupied(key, r.value) in t.slots
  {
    match Walk(t.slots, key, ForLookup)
    case None => None
    case Some(i) =>
      var s := At(t.slots, key, i);
      if s.Occupied? then Some(s.value) else None
  }

  /**
    `remove(key)`: turn the slot `find` would read into a tombstone. The
    result pairs the new table with the returned flag.
   */
  function Remove(t: Table, key: Key): (r: (Table, bool))
    requires t.Valid()
    ensures r.0.Valid() && r.0.capacity == t.capacity
    ensures r.1 <==> Find(t, key).Some?
    ensures !r.1 ==> r.0 == t
    ensures forall i :: IsFirstStop(t.slots, key, ForLookup, i) && At(t.slots, key, i).Occupied? ==>
              && r.0.slots == t.slots[SlotIndex(t.capacity, key, i) := Deleted]
              && r.0.numElements == t.numElements - 1
  {
    match Walk(t.slots, key, ForLookup)
    case None => (t, false)
    case Some(i) =>
      var id := SlotIndex(t.capacity, key, i);
      if t.slots[id].Occupied? then
        CountOccupiedUpdate(t.slots, id, Deleted);
        (Table(t.slots[id := Deleted], t.capacity, t.numElements - 1), true)
      else (t, false)
  }

  /** `clear()`: every slot empty, no elements, the capacity kept. */
  function Clear(t: Table): (r: Table)
    requires t.Valid()
    ensures r.Valid()
    ensures r.capacity == t.capacity && r.numElements == 0
    ensures forall i :: 0 <= i < |r.slots| ==> r.slots[i] == Empty
  {
    Create(t.capacity)
  }

  /** `size()`: the number of live entries. */
  function Size(t: Table): (n: nat)
    requires t.Valid()
    ensures n == CountOccupied(t.slots)
    ensures n <= t.capacity
  {
    t.numElements
  }

  /** `isEmpty()`. */
  function IsEmpty(t: Table): (b: bool)
    requires t.Valid()
    ensures b <==> Size(t) == 0
    ensures b <==> forall i :: 0 <= i < |t.slots| ==> !t.slots[i].Occupied?
  {
    t.numElements == 0
  }
}
