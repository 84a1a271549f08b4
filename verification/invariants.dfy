/**
  The map invariant that hashtable.cpp does not enforce:
  keys are unique among occupied slots, and every stored entry is the one
  `find` returns for its key. Under it the table is a finite map from keys to
  values: `remove` acts on that map as a deletion, and `insert` as an update
  under the hypotheses its lemmas state. The lemmas below say exactly which
  operations keep the invariant and under what hypothesis; the last one shows
  how a tombstone lets `insert` break it.
 */
module Invariants {
  import opened Hashing
  import opened Slots
  import opened HashTable
  import opened Properties

  /** At most one occupied slot holds any given key. */
  predicate KeysUnique(slots: seq<Slot>) {
    forall a, b ::
      (0 <= a < |slots| && 0 <= b < |slots| && slots[a].Occupied? && slots[b].Occupied?
       && slots[a].key == slots[b].key) ==> a == b
  }

  /** No slot is a tombstone. */
  predicate NoTombstones(slots: seq<Slot>) {
    forall a :: 0 <= a < |slots| ==> !slots[a].Deleted?
  }

  /** Every occupied slot is the one `find` reads for its key. */
  predicate Reachable(t: Table)
    requires t.Valid()
  {
    forall a :: 0 <= a < |t.slots| && t.slots[a].Occupied? ==> Find(t, t.slots[a].key) == Some(t.slots[a].value)
  }

  predicate WellFormed(t: Table) {
    t.Valid() && KeysUnique(t.slots) && Reachable(t)
  }

  /** In a well-formed table `find` reports exactly the stored entries. */
  lemma WellFormedFind(t: Table, key: Key, v: int)
    requires WellFormed(t)
    ensures Find(t, key) == Some(v) <==> Occupied(key, v) in t.slots
  {
    if Occupied(key, v) in t.slots {
      var a :| 0 <= a < |t.slots| && t.slots[a] == Occupied(key, v);
    }
  }

  /** Two well-formed tables storing the same entries for `key` answer `find(key)` alike. */
  lemma SameEntriesSameFind(t1: Table, t2: Table, key: Key)
    requires WellFormed(t1) && WellFormed(t2)
    requires forall v :: Occupied(key, v) in t1.slots <==> Occupied(key, v) in t2.slots
    ensures Find(t1, key) == Find(t2, key)
  {
    if Find(t1, key).Some? {
      WellFormedFind(t1, key, Find(t1, key).value);
      WellFormedFind(t2, key, Find(t1, key).value);
    } else if Find(t2, key).Some? {
      WellFormedFind(t1, key, Find(t2, key).value);
      WellFormedFind(t2, key, Find(t2, key).value);
    }
  }

  /** Overwriting a slot that neither held nor receives an entry for `k` keeps the entries for `k`. */
  lemma UpdateKeepsEntries(s: seq<Slot>, id: nat, x: Slot, k: Key, v: int)
    requires id < |s|
    requires !(s[id].Occupied? && s[id].key == k) && !(x.Occupied? && x.key == k)
    ensures Occupied(k, v) in s <==> Occupied(k, v) in s[id := x]
  {
    if Occupied(k, v) in s {
      var a :| 0 <= a < |s| && s[a] == Occupied(k, v);
      assert s[id := x][a] == s[a];
    }
    if Occupied(k, v) in s[id := x] {
      var a :| 0 <= a < |s[id := x]| && s[id := x][a] == Occupied(k, v);
      assert s[a] == s[id := x][a];
    }
  }

  /** The constructor establishes the invariant. */
  lemma CreateWellFormed(initialCapacity: nat)
    requires initialCapacity > 0
    ensures WellFormed(Create(initialCapacity)) && NoTombstones(Create(initialCapacity).slots)
  {
  }

  /** Which slots the probe loop of `insert` can change. */
  lemma PlaceEntries(t: Table, key: Key, value: int)
    requires t.Valid()
    ensures var r := Place(t, key, value);
            forall a :: 0 <= a < |r.slots| ==> r.slots[a] == t.slots[a] || r.slots[a] == Occupied(key, value)
    ensures var r := Place(t, key, value);
            forall a :: 0 <= a < |t.slots| && t.slots[a].Occupied? && t.slots[a].key != key ==> r.slots[a] == t.slots[a]
    ensures var r := Place(t, key, value);
            r.numElements == t.numElements + 1 ==>
              && Occupied(key, value) in r.slots
              && forall a :: 0 <= a < |t.slots| && t.slots[a].Occupied? ==> r.slots[a] == t.slots[a]
  {
    var r := Place(t, key, value);
    match Walk(t.slots, key, ForInsert)
    case None =>
    case Some(i) =>
      var id := SlotIndex(t.capacity, key, i);
      assert r.slots[id] == Occupied(key, value);
  }

  /** Placing `key` never hides the entry `find` returns for another key. */
  lemma PlaceKeepsOtherLookup(t: Table, key: Key, value: int, k: Key, w: int)
    requires t.Valid() && k != key
    requires Find(t, k) == Some(w)
    ensures Find(Place(t, key, value), k) == Some(w)
  {
    var r := Place(t, key, value);
    match Walk(t.slots, key, ForInsert)
    case None =>
    case Some(i) =>
      var id := SlotIndex(t.capacity, key, i);
      assert r.slots == t.slots[id := Occupied(key, value)];
      var iq := LookupWitness(t, k);
      forall j | 0 <= j < iq
        ensures !Stops(At(r.slots, k, j), k, ForLookup)
      {
        assert !Stops(At(t.slots, k, j), k, ForLookup);
      }
      assert At(r.slots, k, iq) == At(t.slots, k, iq);
      assert IsFirstStop(r.slots, k, ForLookup, iq);
  }

  /**
    The probe loop of `insert` keeps keys unique when the key is absent or the
    table has no tombstones: a stored copy of the key is then the first slot
    the walk stops at, so it is updated in place.
   */
  lemma PlaceKeepsKeysUnique(t: Table, key: Key, value: int)
    requires WellFormed(t)
    requires Find(t, key).None? || NoTombstones(t.slots)
    ensures KeysUnique(Place(t, key, value).slots)
  {
    var r := Place(t, key, value);
    match Walk(t.slots, key, ForInsert)
    case None =>
    case Some(i) =>
      var id := SlotIndex(t.capacity, key, i);
      assert r.slots == t.slots[id := Occupied(key, value)];
      if Find(t, key).Some? {
        var iq := LookupWitness(t, key);
        forall j | 0 <= j < iq
          ensures !Stops(At(t.slots, key, j), key, ForInsert)
        {
          assert !Stops(At(t.slots, key, j), key, ForLookup);
        }
        assert IsFirstStop(t.slots, key, ForInsert, iq);
        assert t.slots[id].Occupied? && t.slots[id].key == key;
      } else {
        assert forall a :: 0 <= a < |t.slots| && t.slots[a].Occupied? ==> t.slots[a].key != key;
      }
  }

  /**
    The probe loop of `insert` keeps the invariant when the key is absent or
    the table has no tombstones; it never creates a tombstone.
   */
  lemma PlacePreservesWellFormed(t: Table, key: Key, value: int)
    requires WellFormed(t)
    requires Find(t, key).None? || NoTombstones(t.slots)
    ensures WellFormed(Place(t, key, value))
    ensures NoTombstones(t.slots) ==> NoTombstones(Place(t, key, value).slots)
  {
    var r := Place(t, key, value);
    PlaceKeepsKeysUnique(t, key, value);
    PlaceEntries(t, key, value);
    if !NeverStops(t.slots, key, ForInsert) {
      PlaceThenFind(t, key, value);
    }
    forall a | 0 <= a < |r.slots| && r.slots[a].Occupied?
      ensures Find(r, r.slots[a].key) == Some(r.slots[a].value)
    {
      if r.slots[a] != t.slots[a] {
        assert r.slots[a] == Occupied(key, value);
      } else if r.slots[a].key == key {
        assert r == t;
      } else {
        PlaceKeepsOtherLookup(t, key, value, r.slots[a].key, r.slots[a].value);
      }
    }
  }

  /**
    Under the invariant, an `insert` that does not give up acts on the stored
    map as an update of `key` to `value`, and on nothing else.
   */
  lemma PlaceUpdatesLookups(t: Table, key: Key, value: int)
    requires WellFormed(t)
    requires Find(t, key).None? || NoTombstones(t.slots)
    requires !NeverStops(t.slots, key, ForInsert)
    ensures forall k :: Find(Place(t, key, value), k) == if k == key then Some(value) else Find(t, k)
  {
    var r := Place(t, key, value);
    PlacePreservesWellFormed(t, key, value);
    PlaceThenFind(t, key, value);
    var i := Walk(t.slots, key, ForInsert).value;
    var id := SlotIndex(t.capacity, key, i);
    assert r.slots == t.slots[id := Occupied(key, value)];
    forall k | k != key
      ensures Find(r, k) == Find(t, k)
    {
      forall v
        ensures Occupied(k, v) in t.slots <==> Occupied(k, v) in r.slots
      {
        UpdateKeepsEntries(t.slots, id, Occupied(key, value), k, v);
      }
      SameEntriesSameFind(t, r, k);
    }
  }

  /** `remove` keeps the invariant. */
  lemma {:induction false} RemovePreservesWellFormed(t: Table, key: Key)
    requires WellFormed(t)
    ensures WellFormed(Remove(t, key).0)
  {
    var r := Remove(t, key).0;
    if Remove(t, key).1 {
      var iq := LookupWitness(t, key);
      var id := SlotIndex(t.capacity, key, iq);
      assert r.slots == t.slots[id := Deleted];
      forall a | 0 <= a < |r.slots| && r.slots[a].Occupied?
        ensures Find(r, r.slots[a].key) == Some(r.slots[a].value)
      {
        var k, w := t.slots[a].key, t.slots[a].value;
        assert Find(t, k) == Some(w);
        var jq := LookupWitness(t, k);
        forall j | 0 <= j < jq
          ensures !Stops(At(r.slots, k, j), k, ForLookup)
        {
          assert !Stops(At(t.slots, k, j), k, ForLookup);
        }
        assert At(r.slots, k, jq) == At(t.slots, k, jq);
        assert IsFirstStop(r.slots, k, ForLookup, jq);
      }
    }
  }

  /**
    With unique keys, after `remove(key)` the key is no longer found and a
    second `remove(key)` fails, whether or not the first one succeeded.
   */
  lemma RemoveThenFind(t: Table, key: Key)
    requires t.Valid() && KeysUnique(t.slots)
    ensures Find(Remove(t, key).0, key) == None
    ensures !Remove(Remove(t, key).0, key).1
  {
    var r := Remove(t, key).0;
    if Remove(t, key).1 {
      var iq := LookupWitness(t, key);
      var id := SlotIndex(t.capacity, key, iq);
      assert r.slots == t.slots[id := Deleted];
      forall a | 0 <= a < |r.slots| && r.slots[a].Occupied?
        ensures r.slots[a].key != key
      {
        assert a != id;
      }
    }
  }

  /** Under the invariant, `remove` acts on the stored map as deletion of `key`, and on nothing else. */
  lemma RemoveUpdatesLookups(t: Table, key: Key)
    requires WellFormed(t)
    ensures forall k :: Find(Remove(t, key).0, k) == if k == key then None else Find(t, k)
  {
    var r := Remove(t, key).0;
    RemovePreservesWellFormed(t, key);
    RemoveThenFind(t, key);
    if Remove(t, key).1 {
      var iq := LookupWitness(t, key);
      var id := SlotIndex(t.capacity, key, iq);
      assert r.slots == t.slots[id := Deleted];
      forall k | k != key
        ensures Find(r, k) == Find(t, k)
      {
        forall v
          ensures Occupied(k, v) in t.slots <==> Occupied(k, v) in r.slots
        {
          UpdateKeepsEntries(t.slots, id, Deleted, k, v);
        }
        SameEntriesSameFind(t, r, k);
      }
    }
  }

  /** Every occupied slot of `t` holds one of the `src` slots. */
  predicate StoredFrom(t: Table, src: seq<Slot>) {
    forall a :: 0 <= a < |t.slots| && t.slots[a].Occupied? ==> t.slots[a] in src
  }

  /** Placing an entry taken from `src` keeps every stored entry one of `src`. */
  lemma PlaceStoredFrom(t: Table, src: seq<Slot>, i: nat)
    requires t.Valid() && i < |src| && src[i].Occupied?
    requires StoredFrom(t, src)
    ensures StoredFrom(Place(t, src[i].key, src[i].value), src)
  {
    var r := Place(t, src[i].key, src[i].value);
    PlaceEntries(t, src[i].key, src[i].value);
    forall a | 0 <= a < |r.slots| && r.slots[a].Occupied?
      ensures r.slots[a] in src
    {
      if r.slots[a] != t.slots[a] {
        assert r.slots[a] == src[i];
      }
    }
  }

  /** The re-inserts of `rehash` only store entries taken from the old slots. */
  lemma {:induction false} ReinsertSound(acc: Table, src: seq<Slot>, i: nat)
    requires acc.Valid() && i <= |src|
    requires 2 * (acc.numElements + CountOccupied(src[i..])) <= acc.capacity
    requires StoredFrom(acc, src)
    ensures StoredFrom(ReinsertFrom(acc, src, i), src)
    decreases |src| - i
  {
    if i < |src| {
      CountOccupiedSuffix(src, i);
      var acc' := if src[i].Occupied? then Insert(acc, src[i].key, src[i].value) else acc;
      if src[i].Occupied? {
        PlaceStoredFrom(acc, src, i);
      }
      ReinsertSound(acc', src, i + 1);
    }
  }

  /**
    If no re-insert of `rehash` is lost (the count comes out exact), every
    entry already placed and every remaining old entry ends up stored.
   */
  lemma {:induction false} ReinsertComplete(acc: Table, src: seq<Slot>, i: nat)
    requires acc.Valid() && i <= |src|
    requires 2 * (acc.numElements + CountOccupied(src[i..])) <= acc.capacity
    ensures var r := ReinsertFrom(acc, src, i);
            r.numElements == acc.numElements + CountOccupied(src[i..]) ==>
              && (forall b :: 0 <= b < |acc.slots| && acc.slots[b].Occupied? ==> acc.slots[b] in r.slots)
              && (forall j :: i <= j < |src| && src[j].Occupied? ==> src[j] in r.slots)
    decreases |src| - i
  {
    if i < |src| {
      CountOccupiedSuffix(src, i);
      if src[i].Occupied? {
        PlaceEntries(acc, src[i].key, src[i].value);
      }
      var acc' := if src[i].Occupied? then Insert(acc, src[i].key, src[i].value) else acc;
      ReinsertComplete(acc', src, i + 1);
    }
  }

  /** Re-inserting into a tombstone-free well-formed table keeps it so. */
  lemma {:induction false} ReinsertWellFormed(acc: Table, src: seq<Slot>, i: nat)
    requires acc.Valid() && i <= |src|
    requires 2 * (acc.numElements + CountOccupied(src[i..])) <= acc.capacity
    requires WellFormed(acc) && NoTombstones(acc.slots)
    ensures WellFormed(ReinsertFrom(acc, src, i)) && NoTombstones(ReinsertFrom(acc, src, i).slots)
    decreases |src| - i
  {
    if i < |src| {
      CountOccupiedSuffix(src, i);
      if src[i].Occupied? {
        PlacePreservesWellFormed(acc, src[i].key, src[i].value);
      }
      var acc' := if src[i].Occupied? then Insert(acc, src[i].key, src[i].value) else acc;
      ReinsertWellFormed(acc', src, i + 1);
    }
  }

  /**
    `rehash` always yields a well-formed, tombstone-free table whose entries
    all come from the old one; when its count equals the old count, every old
    entry is kept.
   */
  lemma RehashEntries(t: Table)
    requires t.Valid()
    ensures WellFormed(Rehash(t)) && NoTombstones(Rehash(t).slots)
    ensures forall a :: 0 <= a < |Rehash(t).slots| && Rehash(t).slots[a].Occupied? ==> Rehash(t).slots[a] in t.slots
    ensures Rehash(t).numElements == t.numElements ==>
              forall b :: 0 <= b < |t.slots| && t.slots[b].Occupied? ==> t.slots[b] in Rehash(t).slots
  {
    var start := Create(2 * t.capacity);
    assert t.slots[0..] == t.slots;
    CreateWellFormed(2 * t.capacity);
    ReinsertWellFormed(start, t.slots, 0);
    ReinsertSound(start, t.slots, 0);
    ReinsertComplete(start, t.slots, 0);
  }

  /** A `rehash` that keeps the count answers every `find` as the old table did. */
  lemma RehashKeepsLookups(t: Table)
    requires WellFormed(t)
    requires Rehash(t).numElements == t.numElements
    ensures forall k :: Find(Rehash(t), k) == Find(t, k)
  {
    var r := Rehash(t);
    RehashEntries(t);
    forall k
      ensures Find(r, k) == Find(t, k)
    {
      forall v
        ensures Occupied(k, v) in t.slots <==> Occupied(k, v) in r.slots
      {
        if Occupied(k, v) in t.slots {
          var b :| 0 <= b < |t.slots| && t.slots[b] == Occupied(k, v);
        }
        if Occupied(k, v) in r.slots {
          var a :| 0 <= a < |r.slots| && r.slots[a] == Occupied(k, v);
        }
      }
      SameEntriesSameFind(t, r, k);
    }
  }

  /**
    `insert` keeps the invariant when it grows the table, when the key is
    absent, or when the table has no tombstones.
   */
  lemma InsertPreservesWellFormed(t: Table, key: Key, value: int)
    requires WellFormed(t)
    requires LoadExceeded(t) || Find(t, key).None? || NoTombstones(t.slots)
    ensures WellFormed(Insert(t, key, value))
  {
    if LoadExceeded(t) {
      RehashEntries(t);
    }
    PlacePreservesWellFormed(Grown(t), key, value);
  }

  /**
    Map semantics of `insert`: if growth loses no entry, the key is absent or
    the table has no tombstones, and the probe walk does not give up, then
    afterwards `find(key)` returns `value` and every other key is found as before.
   */
  lemma InsertUpdatesLookups(t: Table, key: Key, value: int)
    requires WellFormed(t)
    requires LoadExceeded(t) ==> Rehash(t).numElements == t.numElements
    requires !LoadExceeded(t) ==> Find(t, key).None? || NoTombstones(t.slots)
    requires !NeverStops(Grown(t).slots, key, ForInsert)
    ensures WellFormed(Insert(t, key, value))
    ensures forall k :: Find(Insert(t, key, value), k) == if k == key then Some(value) else Find(t, k)
  {
    if LoadExceeded(t) {
      RehashEntries(t);
      RehashKeepsLookups(t);
    }
    PlacePreservesWellFormed(Grown(t), key, value);
    PlaceUpdatesLookups(Grown(t), key, value);
  }

  /**
    Re-inserting a stored key into a table without tombstones updates its
    value in place: the count is unchanged and `find` returns the new value.
   */
  lemma UpdateInPlace(t: Table, key: Key, value: int)
    requires t.Valid() && !LoadExceeded(t) && NoTombstones(t.slots)
    requires Find(t, key).Some?
    ensures Insert(t, key, value).numElements == t.numElements
    ensures Find(Insert(t, key, value), key) == Some(value)
  {
    var iq := LookupWitness(t, key);
    forall j | 0 <= j < iq
      ensures !Stops(At(t.slots, key, j), key, ForInsert)
    {
      assert !Stops(At(t.slots, key, j), key, ForLookup);
    }
    assert IsFirstStop(t.slots, key, ForInsert, iq);
    InsertAt(t, key, value, iq);
    PlaceThenFind(t, key, value);
  }

  /**
    A table whose first two probe attempts for `key` both hold `key` stores
    the key twice: `find` returns the first copy, and after `remove` deletes
    it, the second copy is found again.
   */
  lemma TwoCopiesOnPath(r: Table, key: Key, v: int, w: int)
    requires r.Valid()
    requires At(r.slots, key, 0) == Occupied(key, v)
    requires At(r.slots, key, 1) == Occupied(key, w)
    requires SlotIndex(r.capacity, key, 0) != SlotIndex(r.capacity, key, 1)
    ensures !KeysUnique(r.slots)
    ensures Find(r, key) == Some(v)
    ensures Remove(r, key).1
    ensures Find(Remove(r, key).0, key) == Some(w)
  {
    var id0, id1 := SlotIndex(r.capacity, key, 0), SlotIndex(r.capacity, key, 1);
    assert r.slots[id0].key == r.slots[id1].key;
    assert IsFirstStop(r.slots, key, ForLookup, 0);
    var r2 := Remove(r, key).0;
    assert r2.slots == r.slots[id0 := Deleted];
    assert IsFirstStop(r2.slots, key, ForLookup, 1);
  }

  /**
    Keys are not unique in general. A tombstone on the probe path before the
    stored copy of the key makes `insert` write a second copy there, counted
    as a new element; `find` then returns the new value, and after a
    successful `remove` it still finds the old one.
   */
  lemma TombstoneShadowsKey(t: Table, key: Key, v: int, w: int)
    requires WellFormed(t) && !LoadExceeded(t)
    requires At(t.slots, key, 0) == Deleted
    requires At(t.slots, key, 1) == Occupied(key, w)
    ensures !KeysUnique(Insert(t, key, v).slots)
    ensures Insert(t, key, v).numElements == t.numElements + 1
    ensures Find(Insert(t, key, v), key) == Some(v)
    ensures Remove(Insert(t, key, v), key).1
    ensures Find(Remove(Insert(t, key, v), key).0, key) == Some(w)
  {
    var id0, id1 := SlotIndex(t.capacity, key, 0), SlotIndex(t.capacity, key, 1);
    assert IsFirstStop(t.slots, key, ForInsert, 0);
    assert t.slots[id0] == Deleted;
    InsertAt(t, key, v, 0);
    var r := Table(t.slots[id0 := Occupied(key, v)], t.capacity, t.numElements + 1);
    assert Insert(t, key, v) == r;
    TwoCopiesOnPath(r, key, v, w);
  }
}
