/**
  A `rehash` that drops an entry, in a run the program can make.

  `HashTable(8)` takes six inserts without losing any. The seventh insert
  finds the table at the growth trigger (6 >= 8 * 0.75) and rehashes into 16
  slots, re-inserting the old slots in order. The squares modulo 16 are 0, 1,
  4 and 9, so a key whose base slot is 15 can only reach slots 15, 0, 3 and 8.
  The re-inserts before it have filled all four, so its entry is lost: after
  the seventh insert the table answers `find` for that key with "not found".

  As in the driver replay, the run is stated for any six distinct keys with
  the right base indices, and module LossyKeys instantiates it with one-byte
  keys.
 */
module LossyRehash {
  import opened Hashing
  import opened Slots
  import opened HashTable
  import opened Properties
  import opened Invariants

  /** Six distinct keys with base slots 0, 3, 0, 6, 7, 6 at capacity 8 and 0, 3, 8, 14, 15, 14 at capacity 16. */
  predicate LossyLike(a: Key, b: Key, c: Key, d: Key, e: Key, f: Key) {
    && a != b && a != c && a != d && a != e && a != f
    && b != c && b != d && b != e && b != f
    && c != d && c != e && c != f
    && d != e && d != f
    && e != f
    && Hash(a, 8) == 0 && Hash(b, 8) == 3 && Hash(c, 8) == 0
    && Hash(d, 8) == 6 && Hash(e, 8) == 7 && Hash(f, 8) == 6
    && Hash(a, 16) == 0 && Hash(b, 16) == 3 && Hash(c, 16) == 8
    && Hash(d, 16) == 14 && Hash(e, 16) == 15 && Hash(f, 16) == 14
  }

  /** A freshly constructed table of `capacity` slots. */
  predicate Fresh(t: Table, capacity: nat) {
    && t.Valid() && t.capacity == capacity && t.numElements == 0
    && forall i :: 0 <= i < |t.slots| ==> t.slots[i] == Empty
  }

  /** The first three inserts, with values 1 to 3. */
  function FirstInserts(t0: Table, a: Key, b: Key, c: Key): (t: Table)
    requires t0.Valid()
    ensures t.Valid()
  {
    Insert(Insert(Insert(t0, a, 1), b, 2), c, 3)
  }

  /** The last three inserts, with values 4 to 6. */
  function LastInserts(t3: Table, d: Key, e: Key, f: Key): (t: Table)
    requires t3.Valid()
    ensures t.Valid()
  {
    Insert(Insert(Insert(t3, d, 4), e, 5), f, 6)
  }

  /** The six inserts. */
  function SixInserts(t0: Table, a: Key, b: Key, c: Key, d: Key, e: Key, f: Key): (t: Table)
    requires t0.Valid()
    ensures t.Valid()
  {
    LastInserts(FirstInserts(t0, a, b, c), d, e, f)
  }

  /** Below the trigger, an `insert` whose first attempt finds an empty slot writes it. */
  lemma FirstTry(t: Table, key: Key, v: int, id: nat)
    requires t.Valid() && !LoadExceeded(t)
    requires SlotIndex(t.capacity, key, 0) == id && t.slots[id] == Empty
    ensures Insert(t, key, v) == Table(t.slots[id := Occupied(key, v)], t.capacity, t.numElements + 1)
  {
    assert IsFirstStop(t.slots, key, ForInsert, 0);
    InsertAt(t, key, v, 0);
  }

  /** Below the trigger, an `insert` whose first attempt meets another key and whose second finds an empty slot writes that one. */
  lemma SecondTry(t: Table, key: Key, v: int, id0: nat, id: nat)
    requires t.Valid() && !LoadExceeded(t)
    requires SlotIndex(t.capacity, key, 0) == id0 && Blocked(t.slots[id0], key)
    requires SlotIndex(t.capacity, key, 1) == id && t.slots[id] == Empty
    ensures Insert(t, key, v) == Table(t.slots[id := Occupied(key, v)], t.capacity, t.numElements + 1)
  {
    assert IsFirstStop(t.slots, key, ForInsert, 1);
    InsertAt(t, key, v, 1);
  }

  /** Below the trigger, an `insert` blocked at attempts 0 and 1 and free at attempt 2 writes that slot. */
  lemma ThirdTry(t: Table, key: Key, v: int, id0: nat, id1: nat, id: nat)
    requires t.Valid() && !LoadExceeded(t) && t.capacity > 2
    requires SlotIndex(t.capacity, key, 0) == id0 && Blocked(t.slots[id0], key)
    requires SlotIndex(t.capacity, key, 1) == id1 && Blocked(t.slots[id1], key)
    requires SlotIndex(t.capacity, key, 2) == id && t.slots[id] == Empty
    ensures Insert(t, key, v) == Table(t.slots[id := Occupied(key, v)], t.capacity, t.numElements + 1)
  {
    assert At(t.slots, key, 0) == t.slots[id0] && At(t.slots, key, 1) == t.slots[id1];
    forall j | 0 <= j < 2
      ensures !Stops(At(t.slots, key, j), key, ForInsert)
    {
      assert j == 0 || j == 1;
    }
    assert IsFirstStop(t.slots, key, ForInsert, 2);
    InsertAt(t, key, v, 2);
  }

  /** At 16 slots, a walk whose four reachable slots hold other keys never stops. */
  lemma SixteenSlotWalkBlocked(slots: seq<Slot>, key: Key, h: nat)
    requires |slots| == 16 && Hash(key, 16) == h
    requires Blocked(slots[h % 16], key) && Blocked(slots[(h + 1) % 16], key)
    requires Blocked(slots[(h + 4) % 16], key) && Blocked(slots[(h + 9) % 16], key)
    ensures NeverStops(slots, key, ForInsert) && NeverStops(slots, key, ForLookup)
  {
    forall j | 0 <= j < |slots|
      ensures Blocked(At(slots, key, j), key)
    {
      assert SlotIndex(16, key, j) == Probe(h, j, 16);
      SixteenSlotProbeGap(h, j);
    }
  }

  /** At 16 slots, four reachable slots that hold other keys make `insert` a no-op and `find` fail. */
  lemma SixteenSlotsBlocked(t: Table, key: Key, v: int)
    requires t.Valid() && t.capacity == 16 && !LoadExceeded(t)
    requires var h := Hash(key, 16);
             && Blocked(t.slots[h], key)
             && Blocked(t.slots[(h + 1) % 16], key)
             && Blocked(t.slots[(h + 4) % 16], key)
             && Blocked(t.slots[(h + 9) % 16], key)
    ensures Insert(t, key, v) == t
    ensures NeverStops(t.slots, key, ForLookup) && Find(t, key) == None
  {
    var h := Hash(key, 16);
    SixteenSlotWalkBlocked(t.slots, key, h);
  }

  /** The slot of attempt `i` for a key with base slot `h`. */
  lemma AttemptSlot(capacity: nat, key: Key, i: nat, h: nat)
    requires capacity > 0 && Hash(key, capacity) == h
    ensures SlotIndex(capacity, key, i) == (h + i * i) % capacity
  {
  }

  /** Room for re-inserting the rest of `src` from slot `i` without reaching the trigger. */
  predicate RoomFor(acc: Table, src: seq<Slot>, i: nat)
    requires i <= |src|
  {
    2 * (acc.numElements + CountOccupied(src[i..])) <= acc.capacity
  }

  /** One iteration of the `rehash` loop: re-inserting slot `i` of `src` into `acc` gives `next`. */
  lemma ReinsertStep(acc: Table, src: seq<Slot>, i: nat, next: Table)
    requires acc.Valid() && i < |src| && RoomFor(acc, src, i)
    requires src[i].Occupied? ==> Insert(acc, src[i].key, src[i].value) == next
    requires !src[i].Occupied? ==> next == acc
    ensures next.Valid() && RoomFor(next, src, i + 1)
    ensures ReinsertFrom(acc, src, i) == ReinsertFrom(next, src, i + 1)
  {
    CountOccupiedSuffix(src, i);
  }

  /** A `rehash` iteration whose re-insert finds an empty slot at its first attempt. */
  lemma ReinsertFirstTry(acc: Table, src: seq<Slot>, i: nat, id: nat)
    requires acc.Valid() && i < |src| && RoomFor(acc, src, i) && src[i].Occupied?
    requires SlotIndex(acc.capacity, src[i].key, 0) == id && acc.slots[id] == Empty
    ensures var next := Table(acc.slots[id := src[i]], acc.capacity, acc.numElements + 1);
            && next.Valid() && RoomFor(next, src, i + 1)
            && ReinsertFrom(acc, src, i) == ReinsertFrom(next, src, i + 1)
  {
    CountOccupiedSuffix(src, i);
    FirstTry(acc, src[i].key, src[i].value, id);
    ReinsertStep(acc, src, i, Table(acc.slots[id := src[i]], acc.capacity, acc.numElements + 1));
  }

  /** A `rehash` iteration whose re-insert meets another key first and then an empty slot. */
  lemma ReinsertSecondTry(acc: Table, src: seq<Slot>, i: nat, id0: nat, id: nat)
    requires acc.Valid() && i < |src| && RoomFor(acc, src, i) && src[i].Occupied?
    requires SlotIndex(acc.capacity, src[i].key, 0) == id0 && Blocked(acc.slots[id0], src[i].key)
    requires SlotIndex(acc.capacity, src[i].key, 1) == id && acc.slots[id] == Empty
    ensures var next := Table(acc.slots[id := src[i]], acc.capacity, acc.numElements + 1);
            && next.Valid() && RoomFor(next, src, i + 1)
            && ReinsertFrom(acc, src, i) == ReinsertFrom(next, src, i + 1)
  {
    CountOccupiedSuffix(src, i);
    SecondTry(acc, src[i].key, src[i].value, id0, id);
    ReinsertStep(acc, src, i, Table(acc.slots[id := src[i]], acc.capacity, acc.numElements + 1));
  }

  /** A `rehash` iteration over an empty slot re-inserts nothing. */
  lemma ReinsertSkip(acc: Table, src: seq<Slot>, i: nat)
    requires acc.Valid() && i < |src| && RoomFor(acc, src, i) && src[i] == Empty
    ensures RoomFor(acc, src, i + 1)
    ensures ReinsertFrom(acc, src, i) == ReinsertFrom(acc, src, i + 1)
  {
    ReinsertStep(acc, src, i, acc);
  }

  /** A `rehash` iteration whose re-insert gives up drops the entry. */
  lemma ReinsertLost(acc: Table, src: seq<Slot>, i: nat)
    requires acc.Valid() && i < |src| && RoomFor(acc, src, i) && src[i].Occupied?
    requires NeverStops(acc.slots, src[i].key, ForInsert)
    ensures RoomFor(acc, src, i + 1)
    ensures ReinsertFrom(acc, src, i) == ReinsertFrom(acc, src, i + 1)
  {
    CountOccupiedSuffix(src, i);
    InsertExhausted(acc, src[i].key, src[i].value);
    ReinsertStep(acc, src, i, acc);
  }

  /** The first insert lands in its base slot 0. */
  lemma Fill1(t: Table, a: Key)
    requires t.Valid() && t.capacity == 8 && t.numElements == 0
    requires t.slots[0] == Empty && Hash(a, 8) == 0
    ensures Insert(t, a, 1) == Table(t.slots[0 := Occupied(a, 1)], 8, 1)
  {
    AttemptSlot(8, a, 0, 0);
    FirstTry(t, a, 1, 0);
  }

  /** The second insert lands in its base slot 3. */
  lemma Fill2(t: Table, b: Key)
    requires t.Valid() && t.capacity == 8 && t.numElements == 1
    requires t.slots[3] == Empty && Hash(b, 8) == 3
    ensures Insert(t, b, 2) == Table(t.slots[3 := Occupied(b, 2)], 8, 2)
  {
    AttemptSlot(8, b, 0, 3);
    FirstTry(t, b, 2, 3);
  }

  /** The third insert collides with the first at slot 0 and takes slot 1. */
  lemma Fill3(t: Table, a: Key, c: Key)
    requires t.Valid() && t.capacity == 8 && t.numElements == 2
    requires t.slots[0] == Occupied(a, 1) && t.slots[1] == Empty
    requires Hash(c, 8) == 0 && a != c
    ensures Insert(t, c, 3) == Table(t.slots[1 := Occupied(c, 3)], 8, 3)
  {
    AttemptSlot(8, c, 0, 0);
    AttemptSlot(8, c, 1, 0);
    SecondTry(t, c, 3, 0, 1);
  }

  /** The fourth insert lands in its base slot 6. */
  lemma Fill4(t: Table, d: Key)
    requires t.Valid() && t.capacity == 8 && t.numElements == 3
    requires t.slots[6] == Empty && Hash(d, 8) == 6
    ensures Insert(t, d, 4) == Table(t.slots[6 := Occupied(d, 4)], 8, 4)
  {
    AttemptSlot(8, d, 0, 6);
    FirstTry(t, d, 4, 6);
  }

  /** The fifth insert lands in its base slot 7. */
  lemma Fill5(t: Table, e: Key)
    requires t.Valid() && t.capacity == 8 && t.numElements == 4
    requires t.slots[7] == Empty && Hash(e, 8) == 7
    ensures Insert(t, e, 5) == Table(t.slots[7 := Occupied(e, 5)], 8, 5)
  {
    AttemptSlot(8, e, 0, 7);
    FirstTry(t, e, 5, 7);
  }

  /** The sixth insert meets the fourth and fifth keys at slots 6 and 7 and takes slot 2 (6 + 4 mod 8). */
  lemma Fill6(t: Table, d: Key, e: Key, f: Key)
    requires t.Valid() && t.capacity == 8 && t.numElements == 5
    requires t.slots[6] == Occupied(d, 4) && t.slots[7] == Occupied(e, 5) && t.slots[2] == Empty
    requires Hash(f, 8) == 6 && d != f && e != f
    ensures Insert(t, f, 6) == Table(t.slots[2 := Occupied(f, 6)], 8, 6)
  {
    AttemptSlot(8, f, 0, 6);
    AttemptSlot(8, f, 1, 6);
    AttemptSlot(8, f, 2, 6);
    ThirdTry(t, f, 6, 6, 7, 2);
  }

  /** The slots after the first three inserts. */
  function FirstSlots(a: Key, b: Key, c: Key): seq<Slot> {
    [Occupied(a, 1), Occupied(c, 3), Empty, Occupied(b, 2), Empty, Empty, Empty, Empty]
  }

  /** The slots after all six inserts: no insert was lost. */
  function Filled(a: Key, b: Key, c: Key, d: Key, e: Key, f: Key): seq<Slot> {
    [Occupied(a, 1), Occupied(c, 3), Occupied(f, 6), Occupied(b, 2), Empty, Empty, Occupied(d, 4), Occupied(e, 5)]
  }

  /** The first three writes, applied to empty slots, give `FirstSlots`. */
  lemma FirstLayout(s0: seq<Slot>, a: Key, b: Key, c: Key)
    requires |s0| == 8 && forall i :: 0 <= i < |s0| ==> s0[i] == Empty
    ensures s0[0 := Occupied(a, 1)][3 := Occupied(b, 2)][1 := Occupied(c, 3)] == FirstSlots(a, b, c)
  {
  }

  /** The last three writes turn `FirstSlots` into `Filled`. */
  lemma LastLayout(a: Key, b: Key, c: Key, d: Key, e: Key, f: Key)
    ensures FirstSlots(a, b, c)[6 := Occupied(d, 4)][7 := Occupied(e, 5)][2 := Occupied(f, 6)] == Filled(a, b, c, d, e, f)
  {
  }

  /** The first three inserts, as the slot writes of `Fill1` to `Fill3`. */
  lemma FirstWrites(t0: Table, a: Key, b: Key, c: Key)
    requires t0.Valid() && t0.capacity == 8 && t0.numElements == 0
    requires t0.slots[0] == Empty && t0.slots[1] == Empty && t0.slots[3] == Empty
    requires Hash(a, 8) == 0 && Hash(b, 8) == 3 && Hash(c, 8) == 0 && a != c
    ensures FirstInserts(t0, a, b, c)
            == Table(t0.slots[0 := Occupied(a, 1)][3 := Occupied(b, 2)][1 := Occupied(c, 3)], 8, 3)
  {
    var t1 := Table(t0.slots[0 := Occupied(a, 1)], 8, 1);
    Fill1(t0, a);
    var t2 := Table(t1.slots[3 := Occupied(b, 2)], 8, 2);
    Fill2(t1, b);
    Fill3(t2, a, c);
  }

  /** The last three inserts, as the slot writes of `Fill4` to `Fill6`. */
  lemma LastWrites(t3: Table, d: Key, e: Key, f: Key)
    requires t3.Valid() && t3.capacity == 8 && t3.numElements == 3
    requires t3.slots[2] == Empty && t3.slots[6] == Empty && t3.slots[7] == Empty
    requires Hash(d, 8) == 6 && Hash(e, 8) == 7 && Hash(f, 8) == 6 && d != f && e != f
    ensures LastInserts(t3, d, e, f)
            == Table(t3.slots[6 := Occupied(d, 4)][7 := Occupied(e, 5)][2 := Occupied(f, 6)], 8, 6)
  {
    var t4 := Table(t3.slots[6 := Occupied(d, 4)], 8, 4);
    Fill4(t3, d);
    var t5 := Table(t4.slots[7 := Occupied(e, 5)], 8, 5);
    Fill5(t4, e);
    Fill6(t5, d, e, f);
  }

  /** No insert is lost: after the six inserts the table holds all six, at the growth trigger. */
  lemma SixInsertsLayout(t0: Table, a: Key, b: Key, c: Key, d: Key, e: Key, f: Key)
    requires Fresh(t0, 8) && LossyLike(a, b, c, d, e, f)
    ensures var t := SixInserts(t0, a, b, c, d, e, f);
            && t.capacity == 8 && t.numElements == 6 && LoadExceeded(t)
            && t.slots == Filled(a, b, c, d, e, f)
  {
    FirstWrites(t0, a, b, c);
    FirstLayout(t0.slots, a, b, c);
    var t3 := FirstInserts(t0, a, b, c);
    assert t3 == Table(FirstSlots(a, b, c), 8, 3);
    LastWrites(t3, d, e, f);
    LastLayout(a, b, c, d, e, f);
  }

  /** `rehash` of an 8-slot table starts the loop on 16 empty slots. */
  lemma RehashStart(t: Table)
    requires t.Valid() && t.capacity == 8
    ensures Fresh(Create(16), 16) && RoomFor(Create(16), t.slots, 0)
    ensures Rehash(t) == ReinsertFrom(Create(16), t.slots, 0)
  {
    assert t.slots[0..] == t.slots;
  }

  /** The slot writes of the first four re-inserts: slots 0, 8, 14 and 3 of the 16-slot table. */
  function RehashWrites(s0: seq<Slot>, a: Key, b: Key, c: Key, f: Key): (s: seq<Slot>)
    requires |s0| == 16
    ensures |s| == 16
  {
    s0[0 := Occupied(a, 1)][8 := Occupied(c, 3)][14 := Occupied(f, 6)][3 := Occupied(b, 2)]
  }

  /** The probe slots the re-inserts use in the 16-slot table. */
  lemma RehashIndices(a: Key, b: Key, c: Key, d: Key, f: Key)
    requires Hash(a, 16) == 0 && Hash(b, 16) == 3 && Hash(c, 16) == 8
    requires Hash(d, 16) == 14 && Hash(f, 16) == 14
    ensures SlotIndex(16, a, 0) == 0 && SlotIndex(16, c, 0) == 8
    ensures SlotIndex(16, f, 0) == 14 && SlotIndex(16, b, 0) == 3
    ensures SlotIndex(16, d, 0) == 14 && SlotIndex(16, d, 1) == 15
  {
    AttemptSlot(16, a, 0, 0);
    AttemptSlot(16, c, 0, 8);
    AttemptSlot(16, f, 0, 14);
    AttemptSlot(16, b, 0, 3);
    AttemptSlot(16, d, 0, 14);
    AttemptSlot(16, d, 1, 14);
  }

  /** A key with base slot 15 of 16 reaches only slots 15, 0, 3 and 8. */
  lemma BaseFifteenBlocked(t: Table, key: Key, v: int)
    requires t.Valid() && t.capacity == 16 && !LoadExceeded(t) && Hash(key, 16) == 15
    requires Blocked(t.slots[15], key) && Blocked(t.slots[0], key)
    requires Blocked(t.slots[3], key) && Blocked(t.slots[8], key)
    ensures NeverStops(t.slots, key, ForInsert) && NeverStops(t.slots, key, ForLookup)
  {
    SixteenSlotsBlocked(t, key, v);
    InsertExhausted(t, key, v);
  }

  /** The first two re-inserts land in their base slots 0 and 8. */
  lemma RehashFirstTwo(src: seq<Slot>, a0: Table, a: Key, c: Key)
    requires |src| == 8
    requires src[0] == Occupied(a, 1) && src[1] == Occupied(c, 3)
    requires SlotIndex(16, a, 0) == 0 && SlotIndex(16, c, 0) == 8
    requires Fresh(a0, 16) && RoomFor(a0, src, 0)
    ensures var a2 := Table(a0.slots[0 := Occupied(a, 1)][8 := Occupied(c, 3)], 16, 2);
            && a2.Valid() && RoomFor(a2, src, 2)
            && a2.slots[14] == Empty && a2.slots[3] == Empty
            && ReinsertFrom(a0, src, 0) == ReinsertFrom(a2, src, 2)
  {
    ReinsertFirstTry(a0, src, 0, 0);
    var a1 := Table(a0.slots[0 := Occupied(a, 1)], 16, 1);
    ReinsertFirstTry(a1, src, 1, 8);
  }

  /** The next two re-inserts land in their base slots 14 and 3. */
  lemma RehashNextTwo(src: seq<Slot>, a2: Table, b: Key, f: Key)
    requires |src| == 8
    requires src[2] == Occupied(f, 6) && src[3] == Occupied(b, 2)
    requires SlotIndex(16, f, 0) == 14 && SlotIndex(16, b, 0) == 3
    requires a2.Valid() && a2.capacity == 16 && a2.numElements == 2 && RoomFor(a2, src, 2)
    requires a2.slots[14] == Empty && a2.slots[3] == Empty
    ensures var a4 := Table(a2.slots[14 := Occupied(f, 6)][3 := Occupied(b, 2)], 16, 4);
            && a4.Valid() && RoomFor(a4, src, 4)
            && ReinsertFrom(a2, src, 2) == ReinsertFrom(a4, src, 4)
  {
    ReinsertFirstTry(a2, src, 2, 14);
    var a3 := Table(a2.slots[14 := Occupied(f, 6)], 16, 3);
    ReinsertFirstTry(a3, src, 3, 3);
  }

  /** The first four re-inserts land in their base slots. */
  lemma RehashFirstFour(src: seq<Slot>, a0: Table, a: Key, b: Key, c: Key, f: Key)
    requires |src| == 8
    requires src[0] == Occupied(a, 1) && src[1] == Occupied(c, 3)
    requires src[2] == Occupied(f, 6) && src[3] == Occupied(b, 2)
    requires SlotIndex(16, a, 0) == 0 && SlotIndex(16, c, 0) == 8
    requires SlotIndex(16, f, 0) == 14 && SlotIndex(16, b, 0) == 3
    requires Fresh(a0, 16) && RoomFor(a0, src, 0)
    ensures var a4 := Table(RehashWrites(a0.slots, a, b, c, f), 16, 4);
            && a4.Valid() && RoomFor(a4, src, 4)
            && ReinsertFrom(a0, src, 0) == ReinsertFrom(a4, src, 4)
  {
    RehashFirstTwo(src, a0, a, c);
    var a2 := Table(a0.slots[0 := Occupied(a, 1)][8 := Occupied(c, 3)], 16, 2);
    RehashNextTwo(src, a2, b, f);
  }

  /**
    The rest of the loop: two empty slots are skipped, the fourth key collides
    at 14 and takes slot 15, and the fifth key, with base slot 15, finds 15,
    0, 3 and 8 taken and is dropped.
   */
  lemma RehashLastFour(src: seq<Slot>, a4: Table, a: Key, b: Key, c: Key, d: Key, e: Key, f: Key)
    requires |src| == 8
    requires src[4] == Empty && src[5] == Empty
    requires src[6] == Occupied(d, 4) && src[7] == Occupied(e, 5)
    requires SlotIndex(16, d, 0) == 14 && SlotIndex(16, d, 1) == 15 && Hash(e, 16) == 15
    requires d != f && e != a && e != b && e != c && e != d
    requires a4.Valid() && a4.capacity == 16 && a4.numElements == 4 && RoomFor(a4, src, 4)
    requires a4.slots[0] == Occupied(a, 1) && a4.slots[3] == Occupied(b, 2)
    requires a4.slots[8] == Occupied(c, 3) && a4.slots[14] == Occupied(f, 6)
    requires a4.slots[15] == Empty
    ensures var r := ReinsertFrom(a4, src, 4);
            && r.numElements == 5
            && NeverStops(r.slots, e, ForInsert) && NeverStops(r.slots, e, ForLookup)
  {
    ReinsertSkip(a4, src, 4);
    ReinsertSkip(a4, src, 5);
    ReinsertSecondTry(a4, src, 6, 14, 15);
    var a5 := Table(a4.slots[15 := Occupied(d, 4)], 16, 5);
    BaseFifteenBlocked(a5, e, 5);
    ReinsertLost(a5, src, 7);
  }

  /** Before the seventh insert the fifth key is found in its base slot 7. */
  lemma FoundBefore(t: Table, e: Key)
    requires t.Valid() && t.capacity == 8 && t.slots[7] == Occupied(e, 5) && Hash(e, 8) == 7
    ensures Find(t, e) == Some(5)
  {
    AttemptSlot(8, e, 0, 7);
    assert IsFirstStop(t.slots, e, ForLookup, 0);
  }

  /** What the first four re-inserts leave in the slots the rest of the loop reads. */
  lemma RehashWritesLayout(s0: seq<Slot>, a: Key, b: Key, c: Key, f: Key)
    requires |s0| == 16 && s0[15] == Empty
    ensures var s := RehashWrites(s0, a, b, c, f);
            && s[0] == Occupied(a, 1) && s[3] == Occupied(b, 2)
            && s[8] == Occupied(c, 3) && s[14] == Occupied(f, 6)
            && s[15] == Empty
  {
  }

  /** The whole `rehash` loop over the filled 8-slot layout, starting from a fresh 16-slot table. */
  lemma RehashFromFresh(src: seq<Slot>, a0: Table, a: Key, b: Key, c: Key, d: Key, e: Key, f: Key)
    requires |src| == 8
    requires src[0] == Occupied(a, 1) && src[1] == Occupied(c, 3)
    requires src[2] == Occupied(f, 6) && src[3] == Occupied(b, 2)
    requires src[4] == Empty && src[5] == Empty
    requires src[6] == Occupied(d, 4) && src[7] == Occupied(e, 5)
    requires SlotIndex(16, a, 0) == 0 && SlotIndex(16, c, 0) == 8
    requires SlotIndex(16, f, 0) == 14 && SlotIndex(16, b, 0) == 3
    requires SlotIndex(16, d, 0) == 14 && SlotIndex(16, d, 1) == 15 && Hash(e, 16) == 15
    requires d != f && e != a && e != b && e != c && e != d
    requires Fresh(a0, 16) && RoomFor(a0, src, 0)
    ensures var r := ReinsertFrom(a0, src, 0);
            && r.numElements == 5
            && NeverStops(r.slots, e, ForInsert) && NeverStops(r.slots, e, ForLookup)
  {
    RehashFirstFour(src, a0, a, b, c, f);
    RehashWritesLayout(a0.slots, a, b, c, f);
    RehashLastFour(src, Table(RehashWrites(a0.slots, a, b, c, f), 16, 4), a, b, c, d, e, f);
  }

  /** `rehash` of the filled 8-slot table keeps five of its six entries and loses the fifth key. */
  lemma RehashLoses(t: Table, a: Key, b: Key, c: Key, d: Key, e: Key, f: Key)
    requires t.Valid() && t.capacity == 8 && t.slots == Filled(a, b, c, d, e, f)
    requires LossyLike(a, b, c, d, e, f)
    ensures Find(t, e) == Some(5)
    ensures Rehash(t).numElements == 5
    ensures NeverStops(Rehash(t).slots, e, ForInsert) && NeverStops(Rehash(t).slots, e, ForLookup)
  {
    FoundBefore(t, e);
    RehashIndices(a, b, c, d, f);
    RehashStart(t);
    RehashFromFresh(t.slots, Create(16), a, b, c, d, e, f);
  }

  /**
    The run end to end: after six inserts into `HashTable(8)` the fifth key
    is found; the seventh insert, of any other key, rehashes, and the fifth
    key is no longer found, although it was never removed.
   */
  lemma SeventhInsertLosesEntry(t0: Table, a: Key, b: Key, c: Key, d: Key, e: Key, f: Key, g: Key, v: int)
    requires Fresh(t0, 8) && LossyLike(a, b, c, d, e, f) && g != e
    ensures var t := SixInserts(t0, a, b, c, d, e, f);
            && Size(t) == 6 && Find(t, e) == Some(5)
            && Insert(t, g, v).capacity == 16
            && Size(Insert(t, g, v)) <= 6
            && Find(Insert(t, g, v), e) == None
  {
    SixInsertsLayout(t0, a, b, c, d, e, f);
    var t := SixInserts(t0, a, b, c, d, e, f);
    RehashLoses(t, a, b, c, d, e, f);
    var g16 := Rehash(t);
    assert Grown(t) == g16;
    assert Insert(t, g, v) == Place(g16, g, v);
    PlaceKeepsLookupGivingUp(g16, g, v, e);
  }

  /**
    Updating a stored key at the growth trigger can lose it: the table after
    the six inserts has no tombstone and finds the fifth key, but inserting
    that key again rehashes, the rehash drops it, and the insert's own walk
    gives up, so `size()` falls to 5 and the key is no longer found.
   */
  lemma UpdateAtTriggerLosesKey(t0: Table, a: Key, b: Key, c: Key, d: Key, e: Key, f: Key, v: int)
    requires Fresh(t0, 8) && LossyLike(a, b, c, d, e, f)
    ensures var t := SixInserts(t0, a, b, c, d, e, f);
            && NoTombstones(t.slots) && Size(t) == 6 && Find(t, e) == Some(5)
            && Size(Insert(t, e, v)) == 5
            && Find(Insert(t, e, v), e) == None
  {
    SixInsertsLayout(t0, a, b, c, d, e, f);
    var t := SixInserts(t0, a, b, c, d, e, f);
    FilledNoTombstones(a, b, c, d, e, f);
    RehashLoses(t, a, b, c, d, e, f);
    LostAtTrigger(t, e, v);
  }

  /** The filled 8-slot layout holds no tombstone. */
  lemma FilledNoTombstones(a: Key, b: Key, c: Key, d: Key, e: Key, f: Key)
    ensures NoTombstones(Filled(a, b, c, d, e, f))
  {
  }

  /** At the trigger, an insert whose walk in the rehashed table gives up leaves exactly that table, where the key is not found. */
  lemma LostAtTrigger(t: Table, key: Key, v: int)
    requires t.Valid() && LoadExceeded(t)
    requires NeverStops(Rehash(t).slots, key, ForInsert) && NeverStops(Rehash(t).slots, key, ForLookup)
    ensures Insert(t, key, v) == Rehash(t)
    ensures Find(Insert(t, key, v), key) == None
  {
    assert Grown(t) == Rehash(t);
    InsertExhausted(t, key, v);
  }

  /**
    A lookup of `k` that gives up still gives up after another key is placed:
    `insert` writes only where `k`'s lookup would not have stopped anyway.
   */
  lemma PlaceKeepsLookupGivingUp(t: Table, key: Key, value: int, k: Key)
    requires t.Valid() && k != key
    requires NeverStops(t.slots, k, ForLookup)
    ensures NeverStops(Place(t, key, value).slots, k, ForLookup)
    ensures Find(Place(t, key, value), k) == None
  {
    match Walk(t.slots, key, ForInsert)
    case None =>
    case Some(i) =>
      var id := SlotIndex(t.capacity, key, i);
      var r := Place(t, key, value);
      assert r.slots == t.slots[id := Occupied(key, value)];
      forall j | 0 <= j < |r.slots|
        ensures !Stops(At(r.slots, k, j), k, ForLookup)
      {
        assert !Stops(At(t.slots, k, j), k, ForLookup);
      }
  }
}

/** The lossy run with one-byte keys: "P", "S", "X", "N", "O" and "n" (byte values 80, 83, 88, 78, 79, 110). */
module LossyKeys {
  import opened Hashing
  import opened HashTable
  import opened LossyRehash

  /** The six keys hash as the run needs, at 8 and at 16 slots. */
  lemma OneByteKeysAreLossy()
    ensures LossyLike("P", "S", "X", "N", "O", "n")
  {
    OneByteHash('P', 8); OneByteHash('P', 16);
    OneByteHash('S', 8); OneByteHash('S', 16);
    OneByteHash('X', 8); OneByteHash('X', 16);
    OneByteHash('N', 8); OneByteHash('N', 16);
    OneByteHash('O', 8); OneByteHash('O', 16);
    OneByteHash('n', 8); OneByteHash('n', 16);
  }

  /**
    `HashTable t(8)`, then `insert` of "P", "S", "X", "N", "O", "n" with
    values 1 to 6, then the insert of any key other than "O": afterwards
    `find("O")` fails.
   */
  lemma LossyScenario(t0: Table, g: Key, v: int)
    requires t0 == Create(8) && g != "O"
    ensures var t := SixInserts(t0, "P", "S", "X", "N", "O", "n");
            && Size(t) == 6 && Find(t, "O") == Some(5)
            && Size(Insert(t, g, v)) <= 6
            && Find(Insert(t, g, v), "O") == None
  {
    OneByteKeysAreLossy();
    SeventhInsertLosesEntry(t0, "P", "S", "X", "N", "O", "n", g, v);
  }

  /**
    The same table, then `insert("O", v)`: the update of the stored key "O"
    rehashes and loses it, so `size()` drops from 6 to 5 and `find("O")` fails.
   */
  lemma LossyUpdate(t0: Table, v: int)
    requires t0 == Create(8)
    ensures var t := SixInserts(t0, "P", "S", "X", "N", "O", "n");
            && Size(t) == 6 && Find(t, "O") == Some(5)
            && Size(Insert(t, "O", v)) == 5
            && Find(Insert(t, "O", v), "O") == None
  {
    OneByteKeysAreLossy();
    UpdateAtTriggerLosesKey(t0, "P", "S", "X", "N", "O", "n", v);
  }
}
