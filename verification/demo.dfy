/**
  The call sequence of the demonstration driver (hashtable.cpp lines 177-220),
  replayed on the model. The driver only prints; here its observable results
  become postconditions, including the slot layout `print` would show.

  The replay is stated for any five distinct keys with the base indices of
  the driver's keys "Dars", "Gretta", "Belka", "Strelka" and "Gaston"
  (0, 7, 7, 4 and 0 at capacity 10); module Demo then instantiates it.
 */
module DriverRun {
  import opened Hashing
  import opened Slots
  import opened HashTable
  import opened Properties

  /** Five distinct keys hashing, at the default capacity, as the driver's keys do. */
  predicate DriverLike(a: Key, b: Key, c: Key, d: Key, e: Key) {
    && a != b && a != c && a != d && a != e
    && b != c && b != d && b != e
    && c != d && c != e
    && d != e
    && Hash(a, DefaultCapacity) == 0
    && Hash(b, DefaultCapacity) == 7
    && Hash(c, DefaultCapacity) == 7
    && Hash(d, DefaultCapacity) == 4
    && Hash(e, DefaultCapacity) == 0
  }

  /** What a default-constructed table is: ten empty slots and no elements. */
  predicate EmptyDefault(t: Table) {
    && t.Valid() && t.capacity == DefaultCapacity && t.numElements == 0
    && forall i :: 0 <= i < |t.slots| ==> t.slots[i] == Empty
  }

  /** The driver's five inserts: Dars 25, Gretta 10, Belka 5, Strelka 6, Gaston 1. */
  function Inserts(t0: Table, a: Key, b: Key, c: Key, d: Key, e: Key): (t: Table)
    requires t0.Valid()
    ensures t.Valid()
  {
    var t1 := Insert(t0, a, 25);
    var t2 := Insert(t1, b, 10);
    var t3 := Insert(t2, c, 5);
    var t4 := Insert(t3, d, 6);
    Insert(t4, e, 1)
  }

  /** The first key lands in its base slot 0. */
  lemma Step1(t: Table, a: Key)
    requires t.Valid() && t.capacity == DefaultCapacity && t.numElements == 0
    requires t.slots[0] == Empty
    requires Hash(a, DefaultCapacity) == 0
    ensures Insert(t, a, 25) == Table(t.slots[0 := Occupied(a, 25)], DefaultCapacity, 1)
  {
    assert SlotIndex(DefaultCapacity, a, 0) == 0;
    assert IsFirstStop(t.slots, a, ForInsert, 0);
    InsertAt(t, a, 25, 0);
  }

  /** The second key lands in its base slot 7. */
  lemma Step2(t: Table, b: Key)
    requires t.Valid() && t.capacity == DefaultCapacity && t.numElements == 1
    requires t.slots[7] == Empty
    requires Hash(b, DefaultCapacity) == 7
    ensures Insert(t, b, 10) == Table(t.slots[7 := Occupied(b, 10)], DefaultCapacity, 2)
  {
    assert SlotIndex(DefaultCapacity, b, 0) == 7;
    assert IsFirstStop(t.slots, b, ForInsert, 0);
    InsertAt(t, b, 10, 0);
  }

  /** The third key collides with the second at slot 7 and takes slot 8 at attempt 1. */
  lemma Step3(t: Table, b: Key, c: Key)
    requires t.Valid() && t.capacity == DefaultCapacity && t.numElements == 2
    requires t.slots[7] == Occupied(b, 10) && t.slots[8] == Empty
    requires Hash(c, DefaultCapacity) == 7 && b != c
    ensures Insert(t, c, 5) == Table(t.slots[8 := Occupied(c, 5)], DefaultCapacity, 3)
  {
    assert SlotIndex(DefaultCapacity, c, 0) == 7;
    assert SlotIndex(DefaultCapacity, c, 1) == 8;
    assert IsFirstStop(t.slots, c, ForInsert, 1);
    InsertAt(t, c, 5, 1);
  }

  /** The fourth key lands in its base slot 4. */
  lemma Step4(t: Table, d: Key)
    requires t.Valid() && t.capacity == DefaultCapacity && t.numElements == 3
    requires t.slots[4] == Empty
    requires Hash(d, DefaultCapacity) == 4
    ensures Insert(t, d, 6) == Table(t.slots[4 := Occupied(d, 6)], DefaultCapacity, 4)
  {
    assert SlotIndex(DefaultCapacity, d, 0) == 4;
    assert IsFirstStop(t.slots, d, ForInsert, 0);
    InsertAt(t, d, 6, 0);
  }

  /** The fifth key collides with the first at slot 0 and takes slot 1 at attempt 1. */
  lemma Step5(t: Table, a: Key, e: Key)
    requires t.Valid() && t.capacity == DefaultCapacity && t.numElements == 4
    requires t.slots[0] == Occupied(a, 25) && t.slots[1] == Empty
    requires Hash(e, DefaultCapacity) == 0 && a != e
    ensures Insert(t, e, 1) == Table(t.slots[1 := Occupied(e, 1)], DefaultCapacity, 5)
  {
    assert SlotIndex(DefaultCapacity, e, 0) == 0;
    assert SlotIndex(DefaultCapacity, e, 1) == 1;
    assert IsFirstStop(t.slots, e, ForInsert, 1);
    InsertAt(t, e, 1, 1);
  }

  /** The slot writes of the five inserts, in order: slots 0, 7, 8, 4 and 1. */
  function DriverWrites(s0: seq<Slot>, a: Key, b: Key, c: Key, d: Key, e: Key): (s: seq<Slot>)
    requires |s0| == DefaultCapacity
    ensures |s| == DefaultCapacity
  {
    s0[0 := Occupied(a, 25)][7 := Occupied(b, 10)][8 := Occupied(c, 5)][4 := Occupied(d, 6)][1 := Occupied(e, 1)]
  }

  /** The five writes, applied to empty slots, give the layout `print` shows. */
  lemma FinalLayout(s0: seq<Slot>, a: Key, b: Key, c: Key, d: Key, e: Key)
    requires |s0| == DefaultCapacity && forall i :: 0 <= i < |s0| ==> s0[i] == Empty
    ensures DriverWrites(s0, a, b, c, d, e)
            == [Occupied(a, 25), Occupied(e, 1), Empty, Empty, Occupied(d, 6), Empty, Empty, Occupied(b, 10), Occupied(c, 5), Empty]
  {
  }

  /** The five inserts, as the five slot writes of `Step1` to `Step5`. */
  lemma InsertsWrites(t0: Table, a: Key, b: Key, c: Key, d: Key, e: Key)
    requires EmptyDefault(t0) && DriverLike(a, b, c, d, e)
    ensures var t := Inserts(t0, a, b, c, d, e);
            t.numElements == 5 && t.slots == DriverWrites(t0.slots, a, b, c, d, e)
  {
    var t1 := Table(t0.slots[0 := Occupied(a, 25)], DefaultCapacity, 1);
    Step1(t0, a);
    var t2 := Table(t1.slots[7 := Occupied(b, 10)], DefaultCapacity, 2);
    Step2(t1, b);
    var t3 := Table(t2.slots[8 := Occupied(c, 5)], DefaultCapacity, 3);
    Step3(t2, b, c);
    var t4 := Table(t3.slots[4 := Occupied(d, 6)], DefaultCapacity, 4);
    Step4(t3, d);
    Step5(t4, a, e);
  }

  /** The layout after the five inserts, the one `print` shows. */
  lemma InsertsLayout(t0: Table, a: Key, b: Key, c: Key, d: Key, e: Key)
    requires EmptyDefault(t0) && DriverLike(a, b, c, d, e)
    ensures var t := Inserts(t0, a, b, c, d, e);
            && t.Valid() && t.capacity == DefaultCapacity && t.numElements == 5
            && t.slots == [Occupied(a, 25), Occupied(e, 1), Empty, Empty, Occupied(d, 6), Empty, Empty, Occupied(b, 10), Occupied(c, 5), Empty]
  {
    InsertsWrites(t0, a, b, c, d, e);
    FinalLayout(t0.slots, a, b, c, d, e);
  }

  /** `find` of the first key and `remove` of the second, on the filled table. */
  lemma Queries(t: Table, a: Key, b: Key)
    requires t.Valid() && t.capacity == DefaultCapacity && t.numElements == 5
    requires t.slots[0] == Occupied(a, 25) && t.slots[7] == Occupied(b, 10)
    requires Hash(a, DefaultCapacity) == 0 && Hash(b, DefaultCapacity) == 7
    ensures Size(t) == 5 && !IsEmpty(t)
    ensures Find(t, a) == Some(25)
    ensures Remove(t, b) == (Table(t.slots[7 := Deleted], DefaultCapacity, 4), true)
  {
    assert SlotIndex(DefaultCapacity, a, 0) == 0;
    assert SlotIndex(DefaultCapacity, b, 0) == 7;
    assert IsFirstStop(t.slots, a, ForLookup, 0);
    assert IsFirstStop(t.slots, b, ForLookup, 0);
  }

  /**
    After the removal the second key is gone: the lookup walks over the
    tombstone at slot 7, past slots 8 and 1, and stops at the empty slot 6.
    `clear()` then empties the table.
   */
  lemma AfterRemoval(t: Table, b: Key, c: Key, e: Key)
    requires t.Valid() && t.capacity == DefaultCapacity && t.numElements == 4
    requires t.slots[7] == Deleted && t.slots[8] == Occupied(c, 5)
    requires t.slots[1] == Occupied(e, 1) && t.slots[6] == Empty
    requires Hash(b, DefaultCapacity) == 7 && b != c && b != e
    ensures Find(t, b) == None
    ensures Size(t) == 4 && !IsEmpty(t)
    ensures Size(Clear(t)) == 0 && IsEmpty(Clear(t))
  {
    assert SlotIndex(DefaultCapacity, b, 0) == 7;
    assert SlotIndex(DefaultCapacity, b, 1) == 8;
    assert SlotIndex(DefaultCapacity, b, 2) == 1;
    assert SlotIndex(DefaultCapacity, b, 3) == 6;
    assert IsFirstStop(t.slots, b, ForLookup, 3);
  }

  /** The driver's calls after the inserts, on the table they produce. */
  lemma FilledRun(t: Table, a: Key, b: Key, c: Key, d: Key, e: Key)
    requires t.Valid() && t.capacity == DefaultCapacity && t.numElements == 5
    requires t.slots == [Occupied(a, 25), Occupied(e, 1), Empty, Empty, Occupied(d, 6), Empty, Empty, Occupied(b, 10), Occupied(c, 5), Empty]
    requires DriverLike(a, b, c, d, e)
    ensures Size(t) == 5 && !IsEmpty(t)
    ensures Find(t, a) == Some(25)
    ensures Remove(t, b).1
    ensures Find(Remove(t, b).0, b) == None
    ensures Size(Remove(t, b).0) == 4
    ensures IsEmpty(Clear(Remove(t, b).0))
    ensures |Clear(Remove(t, b).0).slots| == DefaultCapacity
    ensures forall i :: 0 <= i < |Clear(Remove(t, b).0).slots| ==> Clear(Remove(t, b).0).slots[i] == Empty
  {
    Queries(t, a, b);
    AfterRemoval(Remove(t, b).0, b, c, e);
  }

  /** The driver run end to end, from a default-constructed table to the final `clear()`. */
  lemma Run(t0: Table, a: Key, b: Key, c: Key, d: Key, e: Key)
    requires EmptyDefault(t0) && DriverLike(a, b, c, d, e)
    ensures var t := Inserts(t0, a, b, c, d, e);
            && Size(t) == 5 && !IsEmpty(t)
            && Find(t, a) == Some(25)
            && Remove(t, b).1
            && Find(Remove(t, b).0, b) == None
            && Size(Remove(t, b).0) == 4
            && IsEmpty(Clear(Remove(t, b).0))
            && |Clear(Remove(t, b).0).slots| == DefaultCapacity
            && forall i :: 0 <= i < |Clear(Remove(t, b).0).slots| ==> Clear(Remove(t, b).0).slots[i] == Empty
  {
    InsertsLayout(t0, a, b, c, d, e);
    FilledRun(Inserts(t0, a, b, c, d, e), a, b, c, d, e);
  }
}

/** The driver's keys and their hash values. */
module DriverKeys {
  import opened Hashing
  import opened HashTable

  /** The base index of "Dars" at the default capacity, by the hash loop one byte at a time. */
  lemma HashDars()
    ensures Hash("Dars", DefaultCapacity) == 0
  {
    assert Horner([]) == 0;
    HornerAppend([], 'D'); assert [] + ['D'] == "D";
    assert Horner("D") == 68;
    HornerAppend("D", 'a'); assert "D" + ['a'] == "Da";
    assert Horner("Da") == 1253;
    HornerAppend("Da", 'r'); assert "Da" + ['r'] == "Dar";
    assert Horner("Dar") == 21415;
    HornerAppend("Dar", 's'); assert "Dar" + ['s'] == "Dars";
    assert Horner("Dars") == 364170;
  }

  /** The base index of "Gretta" at the default capacity, by the hash loop one byte at a time. */
  lemma HashGretta()
    ensures Hash("Gretta", DefaultCapacity) == 7
  {
    assert Horner([]) == 0;
    HornerAppend([], 'G'); assert [] + ['G'] == "G";
    assert Horner("G") == 71;
    HornerAppend("G", 'r'); assert "G" + ['r'] == "Gr";
    assert Horner("Gr") == 1321;
    HornerAppend("Gr", 'e'); assert "Gr" + ['e'] == "Gre";
    assert Horner("Gre") == 22558;
    HornerAppend("Gre", 't'); assert "Gre" + ['t'] == "Gret";
    assert Horner("Gret") == 383602;
    HornerAppend("Gret", 't'); assert "Gret" + ['t'] == "Grett";
    assert Horner("Grett") == 6521350;
    HornerAppend("Grett", 'a'); assert "Grett" + ['a'] == "Gretta";
    assert Horner("Gretta") == 110863047;
  }

  /** The base index of "Belka" at the default capacity, by the hash loop one byte at a time. */
  lemma HashBelka()
    ensures Hash("Belka", DefaultCapacity) == 7
  {
    assert Horner([]) == 0;
    HornerAppend([], 'B'); assert [] + ['B'] == "B";
    assert Horner("B") == 66;
    HornerAppend("B", 'e'); assert "B" + ['e'] == "Be";
    assert Horner("Be") == 1223;
    HornerAppend("Be", 'l'); assert "Be" + ['l'] == "Bel";
    assert Horner("Bel") == 20899;
    HornerAppend("Bel", 'k'); assert "Bel" + ['k'] == "Belk";
    assert Horner("Belk") == 355390;
    HornerAppend("Belk", 'a'); assert "Belk" + ['a'] == "Belka";
    assert Horner("Belka") == 6041727;
  }

  /** The base index of "Strelka" at the default capacity, by the hash loop one byte at a time. */
  lemma HashStrelka()
    ensures Hash("Strelka", DefaultCapacity) == 4
  {
    assert Horner([]) == 0;
    HornerAppend([], 'S'); assert [] + ['S'] == "S";
    assert Horner("S") == 83;
    HornerAppend("S", 't'); assert "S" + ['t'] == "St";
    assert Horner("St") == 1527;
    HornerAppend("St", 'r'); assert "St" + ['r'] == "Str";
    assert Horner("Str") == 26073;
    HornerAppend("Str", 'e'); assert "Str" + ['e'] == "Stre";
    assert Horner("Stre") == 443342;
    HornerAppend("Stre", 'l'); assert "Stre" + ['l'] == "Strel";
    assert Horner("Strel") == 7536922;
    HornerAppend("Strel", 'k'); assert "Strel" + ['k'] == "Strelk";
    assert Horner("Strelk") == 128127781;
    HornerAppend("Strelk", 'a'); assert "Strelk" + ['a'] == "Strelka";
    assert Horner("Strelka") == 2178172374;
  }

  /** The base index of "Gaston" at the default capacity, by the hash loop one byte at a time. */
  lemma HashGaston()
    ensures Hash("Gaston", DefaultCapacity) == 0
  {
    assert Horner([]) == 0;
    HornerAppend([], 'G'); assert [] + ['G'] == "G";
    assert Horner("G") == 71;
    HornerAppend("G", 'a'); assert "G" + ['a'] == "Ga";
    assert Horner("Ga") == 1304;
    HornerAppend("Ga", 's'); assert "Ga" + ['s'] == "Gas";
    assert Horner("Gas") == 22283;
    HornerAppend("Gas", 't'); assert "Gas" + ['t'] == "Gast";
    assert Horner("Gast") == 378927;
    HornerAppend("Gast", 'o'); assert "Gast" + ['o'] == "Gasto";
    assert Horner("Gasto") == 6441870;
    HornerAppend("Gasto", 'n'); assert "Gasto" + ['n'] == "Gaston";
    assert Horner("Gaston") == 109511900;
  }

  /** The base indices of the driver's keys in a table of the default capacity. */
  lemma DriverHashes()
    ensures Hash("Dars", DefaultCapacity) == 0
    ensures Hash("Gretta", DefaultCapacity) == 7
    ensures Hash("Belka", DefaultCapacity) == 7
    ensures Hash("Strelka", DefaultCapacity) == 4
    ensures Hash("Gaston", DefaultCapacity) == 0
  {
    HashDars();
    HashGretta();
    HashBelka();
    HashStrelka();
    HashGaston();
  }
}

/** The driver with its own keys. */
module Demo {
  import opened Slots
  import opened HashTable
  import opened DriverKeys
  import opened DriverRun

  /**
    `main()`: the five inserts, `size()`, `find("Dars")`, `remove("Gretta")`
    and `clear()`, plus a lookup of the removed key that the driver does not make.
   */
  lemma DriverScenario(t0: Table)
    requires t0 == Create(DefaultCapacity)
    ensures var t := Inserts(t0, "Dars", "Gretta", "Belka", "Strelka", "Gaston");
            && Size(t) == 5 && !IsEmpty(t)
            && Find(t, "Dars") == Some(25)
            && Remove(t, "Gretta").1
            && Find(Remove(t, "Gretta").0, "Gretta") == None
            && Size(Remove(t, "Gretta").0) == 4
            && IsEmpty(Clear(Remove(t, "Gretta").0))
            && |Clear(Remove(t, "Gretta").0).slots| == DefaultCapacity
            && forall i :: 0 <= i < |Clear(Remove(t, "Gretta").0).slots| ==> Clear(Remove(t, "Gretta").0).slots[i] == Empty
  {
    DriverHashes();
    Run(t0, "Dars", "Gretta", "Belka", "Strelka", "Gaston");
  }
}
