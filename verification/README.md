# Open-addressing hash table with quadratic probing, in Dafny

This project models the `HashTable` class of `hashtable.cpp`. The class is a
map from `std::string` names to `int` weights. It stores entries in a vector
of slots, each `EMPTY`, `OCCUPIED` or `DELETED` (a tombstone). The table:

- finds a key's base slot with a 17-based polynomial hash, wrapping modulo 2^64
  and then reduced modulo `capacity`;
- resolves collisions with quadratic probing, so attempt `i` looks at `(h + i*i) % capacity`;
- gives up after `capacity` attempts;
- deletes by leaving a tombstone;
- doubles and rehashes once `numElements >= 0.75 * capacity`.

The default capacity is 10.

The table is an immutable value `Table(slots, capacity, numElements)`. Every
member function becomes a pure function from the table before the call to the
table after it:

- `insert` becomes `Insert`.
- `remove` becomes `Remove`, which also returns the flag.
- `find` becomes `Find`, which returns an `Option`.

The probe loops are written once, declaratively. `Walk` returns the first probe
attempt that stops. It is characterised by `IsFirstStop` (this attempt stops
and no earlier one does) and by `NeverStops`. The `while (true)` loops of the
C++ are also modelled as methods (module `Loops`), and each is proved equal to
the functional definition.

Modules:

- `Hashing` (`hashing.dfy`): the hash and the probe sequence.
- `Slots` (`slots.dfy`): the slot type and the occupied count.
- `HashTable` (`table.dfy`): the table and its operations.
- `Loops` (`loops.dfy`): the C++ loops as methods.
- `Properties` (`properties.dfy`): round trips and per-operation facts.
- `Invariants` (`invariants.dfy`): the map invariant and which operations keep it.
- `DriverRun`, `DriverKeys`, `Demo` (`demo.dfy`): the demonstration `main`.
- `LossyRehash`, `LossyKeys` (`lossy_rehash.dfy`): a run in which `rehash` loses an entry.

Three behaviours of the code are proved rather than assumed away:

- **Duplicate keys through a tombstone.** `insert` writes into the first
  `EMPTY` or `DELETED` slot on the probe path. If a tombstone comes before a
  stored copy of the key, the key ends up stored twice. `find` then returns
  the new value, and after a successful `remove` the old value reappears.
  `Invariants.TombstoneShadowsKey` shows this.
- **Lost inserts at capacity 10.** With 10 slots, `i*i mod 10` takes only the
  values 0, 1, 4, 5, 6 and 9. So an `insert` can give up while four slots are
  never probed, even below the growth trigger.
  `Properties.DefaultCapacityDropsEntry` shows this.
- **Lossy rehash.** `rehash` re-inserts through the same probe loop, so it can
  lose entries. `HashTable(8)` takes the six one-byte keys "P", "S", "X", "N",
  "O", "n" without loss. The seventh insert reaches the trigger (6 >= 8 * 0.75)
  and rehashes into 16 slots. Squares modulo 16 are only 0, 1, 4 and 9, so "O",
  whose base slot is 15, can reach only slots 15, 0, 3 and 8. The re-inserts
  before it have filled all four, so "O" is dropped and `find("O")` fails
  afterwards. `LossyRehash.SeventhInsertLosesEntry` proves this for any keys
  hashing alike, and `LossyKeys.LossyScenario` for these keys. The general
  guarantees of `rehash` are therefore "at most the old entries", and "all of
  them when the count is kept".

The map invariant `WellFormed` has two parts: keys are unique, and every entry
is the one `find` returns for its key. It is proved preserved by:

- construction;
- `remove`;
- `rehash`;
- `insert`, when the table grows, the key is absent, or there is no tombstone.

Under `WellFormed`, `remove` acts on the lookups exactly as a map deletion
does (`Invariants.RemoveUpdatesLookups`). `insert` acts as a map update only
under further hypotheses (`Invariants.InsertUpdatesLookups`):

- a growth, if one happens, keeps every entry;
- below the trigger, the key is absent or there is no tombstone;
- the probe walk of the insert does not give up.

A map user would expect more than the code gives:

- A map holds each key once. The code breaks this through a tombstone
  (`Invariants.TombstoneShadowsKey`).
- Inserting an existing key should update it in place and keep `size()`.
  This holds below the growth trigger when the table has no tombstone
  (`Invariants.UpdateInPlace`). Below the trigger, a tombstone before the
  stored copy makes `size()` grow by one (`Invariants.TombstoneShadowsKey`).
  At the trigger, a lossy rehash can drop the key itself, so `size()` shrinks
  and the key is no longer found (`LossyRehash.UpdateAtTriggerLosesKey`).
- An insert should never be dropped while the table is below its 0.75 load
  factor. At capacity 10 an insert can give up below the trigger
  (`Properties.DefaultCapacityDropsEntry`). A growth can also drop an entry
  that was already stored (`LossyRehash.SeventhInsertLosesEntry`).

## Model

| member | source | states |
|---|---|---|
| Hashing.HashStep | hashtable.cpp:45 | one iteration of the hash loop, `h * 17 + c` in `size_t`, stays below 2^64; `Hashing.HornerAppend` ties it to the loop |
| Hashing.Horner | hashtable.cpp:42-46 | the accumulator after the whole loop stays below 2^64; `Hashing.HornerIsPolynomial` gives its value as the polynomial modulo 2^64 |
| Hashing.CharCode | hashtable.cpp:44-45 | a byte read as a signed `char` lies in [-128, 128) and is congruent to the byte modulo 256, so the `size_t` cast wraps it |
| Hashing.Hash | hashtable.cpp:41-48 | the base index of a key lies in [0, capacity) |
| Hashing.HornerAppend | hashtable.cpp:44-46 | the hash loop consumes the key left to right: appending a byte applies one wrapping step `h*17 + c` |
| Hashing.HornerIsPolynomial | hashtable.cpp:41-47 | the wrapping accumulator equals the exact polynomial sum of c_i*17^(n-1-i) reduced modulo 2^64 |
| Hashing.HashIsPolynomial | hashtable.cpp:41-48 | the base index is the exact polynomial reduced modulo 2^64 and then modulo the capacity |
| Hashing.Probe | hashtable.cpp:50-53 | the slot of probe attempt i lies in [0, capacity) |
| Hashing.ProbePeriodic | hashtable.cpp:50-53 | the probe sequence repeats with period `capacity`, so the `capacity` attempts allowed see every slot it ever reaches |
| Hashing.DefaultCapacityProbeGap | hashtable.cpp:50-53 | at capacity 10, every probe attempt from base h lands on h, h+1, h+4, h+5, h+6 or h+9 (mod 10) |
| Hashing.SixteenSlotProbeGap | hashtable.cpp:50-53 | at capacity 16, every probe attempt from base h lands on h, h+1, h+4 or h+9 (mod 16) |
| Hashing.OneByteHash | hashtable.cpp:41-48 | a one-byte key whose byte is below 128 has its byte value modulo the capacity as base index |
| Slots.CountOccupied | hashtable.cpp:38 | the live count is at most the number of slots; it is 0 exactly when no slot is occupied and full exactly when all are |
| Slots.EmptySlots | hashtable.cpp:61 | `table.assign(capacity, Slot())` gives `capacity` empty slots with no occupied one |
| Slots.CountOccupiedUpdate | hashtable.cpp:95-97 | overwriting one slot changes the live count by exactly the change of that slot's occupancy |
| HashTable.LoadExceeded | hashtable.cpp:86 | the integer test `4*numElements >= 3*capacity` holds exactly when `numElements >= capacity * 0.75` holds over the reals |
| HashTable.SlotIndex | hashtable.cpp:90-93 | the slot the i-th attempt for a key inspects is inside the table |
| HashTable.FirstStop | hashtable.cpp:92-106 | the attempt returned from `from` on stops and no attempt before it does; when none is returned, no attempt below `capacity` stops |
| HashTable.Walk | hashtable.cpp:92-106 | the probe loop stops at the first attempt meeting its stop condition `Stops` and at no other; when it returns nothing, no attempt within `capacity` stops |
| HashTable.Create | hashtable.cpp:73-77 | the constructor gives a valid table of the requested capacity, with no elements and every slot empty |
| HashTable.Place | hashtable.cpp:90-106 | at the first empty, tombstone or same-key slot the entry is written and nothing else changes; the count grows by one unless that slot held the key; if no attempt stops, the table is unchanged |
| HashTable.Grown | hashtable.cpp:86-88 | below the trigger the table is untouched; at the trigger the capacity doubles, no element is gained, and the result is below the trigger |
| HashTable.Insert | hashtable.cpp:85-107 | the result is valid; the capacity doubles exactly when the load factor was reached; the count grows by at most one; below the trigger `insert` is the probe loop alone |
| HashTable.Rehash | hashtable.cpp:56-69 | the result is valid with double the capacity and at most the old number of elements |
| HashTable.ReinsertFrom | hashtable.cpp:64-68 | re-inserting the rest of the old slots keeps the table valid at the same capacity and adds at most one element per occupied old slot, never starting a second rehash |
| HashTable.Find | hashtable.cpp:110-123 | `find` fails when the walk gives up or first stops at an empty slot, returns the value at the first slot holding the key, and only ever returns a stored entry |
| HashTable.Remove | hashtable.cpp:126-140 | `remove` succeeds exactly when `find` does; on success exactly the found slot becomes a tombstone and the count drops by one; on failure nothing changes |
| HashTable.Clear | hashtable.cpp:160-163 | every slot becomes empty, the count becomes 0, and the capacity is kept |
| HashTable.Size | hashtable.cpp:166-168 | `size()` is the number of occupied slots and at most the capacity |
| HashTable.IsEmpty | hashtable.cpp:171-173 | `isEmpty()` holds exactly when `size() == 0`, that is, when no slot is occupied |
| Loops.PlaceLoop | hashtable.cpp:90-106 | the C++ `while (true)` probe loop of `insert` computes exactly `Place` |
| Loops.RehashLoop | hashtable.cpp:56-69 | the C++ `for` loop of `rehash` computes exactly `Rehash` |
| Loops.InsertLoop | hashtable.cpp:85-107 | the C++ `insert` computes exactly `Insert` |
| Loops.FindLoop | hashtable.cpp:110-123 | the C++ `find` returns true exactly when `Find` succeeds, sets the out-parameter to the found value, and leaves it unchanged otherwise |
| Loops.RemoveLoop | hashtable.cpp:126-140 | the C++ `remove` computes exactly `Remove`: the same table and the same flag |
| Properties.StopsByPurpose | hashtable.cpp:94-116 | the insert loop stops exactly where the lookup loops stop and also at a tombstone; the lookup loops stop exactly where the insert loop does, except at a tombstone |
| Properties.LookupWitness | hashtable.cpp:110-123 | a successful `find` stopped at an attempt holding the key and the returned value |
| Properties.PlaceThenFind | hashtable.cpp:90-123 | once the probe loop of `insert` has placed an entry, `find` returns its value |
| Properties.InsertThenFind | hashtable.cpp:85-123 | unless the probe walk of `insert` gives up, a following `find` of the key returns the value just inserted |
| Properties.InsertAt | hashtable.cpp:85-106 | below the trigger, when the insert walk first stops at attempt i, `insert` writes exactly that slot and counts it unless it held the key |
| Properties.InsertExhausted | hashtable.cpp:104-105 | when every attempt is blocked, `insert` leaves the (possibly grown) table unchanged |
| Properties.CreateFindsNothing | hashtable.cpp:73-77 | a new table finds no key and is empty |
| Properties.ClearForgetsAll | hashtable.cpp:160-173 | after `clear()` no key is found, `size()` is 0, `isEmpty()` holds, and the capacity is kept |
| Properties.ClearIdempotent | hashtable.cpp:160-163 | clearing twice is the same as clearing once |
| Properties.BlockedEverywhere | hashtable.cpp:50-53 | at capacity 10, if the six reachable slots hold other keys then every probe attempt meets another key |
| Properties.DefaultCapacityDropsEntry | hashtable.cpp:85-123 | at capacity 10 and below the trigger, with the six reachable slots holding other keys, `insert` changes nothing and `find` reports the key absent |
| Invariants.WellFormedFind | hashtable.cpp:110-123 | in a well-formed table `find(key)` returns v exactly when the entry (key, v) is stored |
| Invariants.SameEntriesSameFind | hashtable.cpp:110-123 | two well-formed tables storing the same entries for a key answer `find` for it alike |
| Invariants.CreateWellFormed | hashtable.cpp:73-77 | the constructor establishes the map invariant and has no tombstones |
| Invariants.PlaceEntries | hashtable.cpp:90-106 | the probe loop of `insert` only writes the new entry, never touches another key's entry, and when it counts a new element keeps every old entry |
| Invariants.PlaceKeepsOtherLookup | hashtable.cpp:90-123 | placing one key never changes the value `find` returns for another key |
| Invariants.PlaceKeepsKeysUnique | hashtable.cpp:90-106 | with the key absent or no tombstones, `insert` keeps keys unique |
| Invariants.PlacePreservesWellFormed | hashtable.cpp:90-106 | with the key absent or no tombstones, the probe loop of `insert` keeps the map invariant and creates no tombstone |
| Invariants.PlaceUpdatesLookups | hashtable.cpp:90-123 | under the same hypothesis, a placing `insert` makes `find(key)` return the value and leaves every other lookup unchanged |
| Invariants.RemovePreservesWellFormed | hashtable.cpp:126-140 | `remove` keeps the map invariant |
| Invariants.RemoveThenFind | hashtable.cpp:110-140 | with unique keys, after `remove(key)` the key is not found and a second `remove(key)` fails |
| Invariants.RemoveUpdatesLookups | hashtable.cpp:110-140 | under the map invariant, `remove(key)` makes `find(key)` fail and leaves every other lookup unchanged |
| Invariants.UpdateKeepsEntries | hashtable.cpp:95-97 | overwriting a slot that neither held nor receives an entry for key k keeps the stored entries for k |
| Invariants.PlaceStoredFrom | hashtable.cpp:64-68 | re-inserting an old entry keeps every stored entry one of the old slots |
| Invariants.ReinsertSound | hashtable.cpp:64-68 | the re-inserts of `rehash` only ever store entries taken from the old slots |
| Invariants.ReinsertComplete | hashtable.cpp:64-68 | if no re-insert is lost, every entry already placed and every remaining old entry ends up stored |
| Invariants.ReinsertWellFormed | hashtable.cpp:64-68 | re-inserting into a well-formed tombstone-free table keeps it so |
| Invariants.RehashEntries | hashtable.cpp:56-69 | `rehash` yields a well-formed tombstone-free table whose entries all come from the old one, and which holds every old entry when the count is kept |
| Invariants.RehashKeepsLookups | hashtable.cpp:56-69 | a `rehash` that keeps the count answers every `find` as the old table did |
| Invariants.InsertPreservesWellFormed | hashtable.cpp:85-107 | `insert` keeps the map invariant when it grows the table, the key is absent, or there are no tombstones |
| Invariants.InsertUpdatesLookups | hashtable.cpp:85-123 | under those hypotheses, with a lossless growth and a walk that does not give up, `insert` acts on lookups as a map update |
| Invariants.UpdateInPlace | hashtable.cpp:100-103 | below the growth trigger and with no tombstone, inserting a key that `find` already finds keeps the element count and makes `find` return the new value |
| Invariants.TwoCopiesOnPath | hashtable.cpp:110-140 | a key stored at both its first and second probe attempts breaks key uniqueness; `find` returns the first copy, `remove` deletes it, and the second copy is then found |
| Invariants.TombstoneShadowsKey | hashtable.cpp:94-97 | a tombstone before the stored copy of a key makes `insert` store the key twice and count one more element; `find` returns the new value and, after `remove`, the old one again |
| DriverKeys.HashDars | hashtable.cpp:41-48 | "Dars" has base index 0 at capacity 10 |
| DriverKeys.HashGretta | hashtable.cpp:41-48 | "Gretta" has base index 7 at capacity 10 |
| DriverKeys.HashBelka | hashtable.cpp:41-48 | "Belka" has base index 7 at capacity 10 |
| DriverKeys.HashStrelka | hashtable.cpp:41-48 | "Strelka" has base index 4 at capacity 10 |
| DriverKeys.HashGaston | hashtable.cpp:41-48 | "Gaston" has base index 0 at capacity 10 |
| DriverRun.Inserts | hashtable.cpp:180-184 | the five inserts of the driver keep the table valid |
| DriverRun.Step1 | hashtable.cpp:180 | the first insert lands in its base slot 0 |
| DriverRun.Step2 | hashtable.cpp:181 | the second insert lands in its base slot 7 |
| DriverRun.Step3 | hashtable.cpp:182 | the third insert collides at slot 7 and takes slot 8 |
| DriverRun.Step4 | hashtable.cpp:183 | the fourth insert lands in its base slot 4 |
| DriverRun.Step5 | hashtable.cpp:184 | the fifth insert collides at slot 0 and takes slot 1 |
| DriverRun.InsertsWrites | hashtable.cpp:180-184 | the five inserts are the five slot writes 0, 7, 8, 4, 1 with five elements |
| DriverRun.FinalLayout | hashtable.cpp:187-188 | those writes on empty slots give the slot layout `print` shows |
| DriverRun.InsertsLayout | hashtable.cpp:180-188 | the table after the five inserts has that layout, five elements and capacity 10 |
| DriverRun.Queries | hashtable.cpp:189-208 | on the filled table, `size()` is 5, `find("Dars")` gives 25, and `remove("Gretta")` succeeds and leaves a tombstone in slot 7 |
| DriverRun.AfterRemoval | hashtable.cpp:208-217 | after the removal "Gretta" is not found, the size is 4 and the table is not empty; after `clear()` the size is 0 and the table is empty |
| DriverRun.FilledRun | hashtable.cpp:189-217 | the calls after the inserts, on the filled table |
| DriverRun.Run | hashtable.cpp:177-217 | the driver from construction to `clear()`, for any keys hashing like the driver's |
| Demo.DriverScenario | hashtable.cpp:177-217 | the driver with its own keys: five elements and not empty, "Dars" found with 25, "Gretta" removed and no longer found, four elements left, and after `clear()` empty with all ten slots `EMPTY` |
| LossyRehash.FirstTry | hashtable.cpp:85-98 | below the trigger, an insert whose first attempt finds an empty slot writes the entry there, counts it, and changes nothing else |
| LossyRehash.SecondTry | hashtable.cpp:85-104 | below the trigger, an insert that meets another key at attempt 0 and an empty slot at attempt 1 writes that slot and counts it |
| LossyRehash.ThirdTry | hashtable.cpp:85-104 | below the trigger, an insert blocked by other keys at attempts 0 and 1 and free at attempt 2 writes that slot and counts it |
| LossyRehash.SixteenSlotWalkBlocked | hashtable.cpp:92-121 | at 16 slots, if the four reachable slots hold other keys, neither the insert loop nor the lookup loop ever stops |
| LossyRehash.SixteenSlotsBlocked | hashtable.cpp:85-123 | at 16 slots and below the trigger, with the four reachable slots holding other keys, `insert` changes nothing and `find` fails |
| LossyRehash.BaseFifteenBlocked | hashtable.cpp:92-121 | at 16 slots, a key with base slot 15 whose slots 15, 0, 3 and 8 hold other keys is never placed and never found |
| LossyRehash.ReinsertStep | hashtable.cpp:64-68 | one iteration of the `rehash` loop: the rest of the loop from the next table gives the same result, and there is still room below the trigger |
| LossyRehash.ReinsertFirstTry | hashtable.cpp:64-68 | an iteration whose re-insert finds an empty slot at attempt 0 stores the old slot's entry there and counts it |
| LossyRehash.ReinsertSecondTry | hashtable.cpp:64-68 | an iteration whose re-insert meets another key and then an empty slot stores the entry in the second slot and counts it |
| LossyRehash.ReinsertSkip | hashtable.cpp:64-65 | an iteration over an empty old slot re-inserts nothing |
| LossyRehash.ReinsertLost | hashtable.cpp:64-68 | an iteration whose re-insert never stops drops the entry and leaves the new table unchanged |
| LossyRehash.Fill1 | hashtable.cpp:85-98 | into an empty 8-slot table, a key with base slot 0 lands in slot 0 |
| LossyRehash.Fill2 | hashtable.cpp:85-98 | the second key lands in its base slot 3 |
| LossyRehash.Fill3 | hashtable.cpp:85-104 | the third key collides with the first at slot 0 and takes slot 1 |
| LossyRehash.Fill4 | hashtable.cpp:85-98 | the fourth key lands in its base slot 6 |
| LossyRehash.Fill5 | hashtable.cpp:85-98 | the fifth key lands in its base slot 7 |
| LossyRehash.Fill6 | hashtable.cpp:85-104 | the sixth key meets the fourth and fifth at slots 6 and 7 and takes slot 2 (6 + 4 mod 8) |
| LossyRehash.FirstWrites | hashtable.cpp:85-107 | the first three inserts are the slot writes 0, 3, 1 with three elements |
| LossyRehash.LastWrites | hashtable.cpp:85-107 | the last three inserts are the slot writes 6, 7, 2, reaching six elements |
| LossyRehash.SixInsertsLayout | hashtable.cpp:85-107 | six inserts into `HashTable(8)` lose nothing: all six entries are stored, and the table is at the growth trigger |
| LossyRehash.RehashStart | hashtable.cpp:56-63 | `rehash` of an 8-slot table starts from an empty 16-slot table and runs its loop over every old slot |
| LossyRehash.RehashFirstTwo | hashtable.cpp:64-68 | the first two re-inserts land in base slots 0 and 8 of the new table |
| LossyRehash.RehashNextTwo | hashtable.cpp:64-68 | the next two re-inserts land in base slots 14 and 3 |
| LossyRehash.RehashFirstFour | hashtable.cpp:64-68 | the first four old slots are re-inserted into their base slots 0, 8, 14 and 3 |
| LossyRehash.RehashLastFour | hashtable.cpp:64-68 | the loop then skips two empty slots, moves the fourth key to slot 15, and drops the fifth key: five elements remain and both an insert and a lookup of the fifth key give up |
| LossyRehash.RehashFromFresh | hashtable.cpp:56-69 | the whole `rehash` loop over that layout keeps five of the six entries and loses the fifth key |
| LossyRehash.FoundBefore | hashtable.cpp:110-123 | before the seventh insert, `find` returns the fifth key's value from its base slot 7 |
| LossyRehash.RehashLoses | hashtable.cpp:56-69 | `rehash` of the filled 8-slot table leaves five elements and a table in which both an insert and a lookup of the fifth key give up, although `find` found it before |
| LossyRehash.FilledNoTombstones | hashtable.cpp:85-107 | the six inserts leave no `DELETED` slot |
| LossyRehash.LostAtTrigger | hashtable.cpp:85-107 | at the trigger, an insert whose walk in the rehashed table gives up returns exactly the rehashed table, in which the key is not found |
| LossyRehash.UpdateAtTriggerLosesKey | hashtable.cpp:85-123 | in the tombstone-free six-insert table, which finds the fifth key, inserting that key again leaves five elements and the key no longer found |
| LossyRehash.PlaceKeepsLookupGivingUp | hashtable.cpp:90-123 | placing another key never makes a lookup that gave up succeed |
| LossyRehash.SeventhInsertLosesEntry | hashtable.cpp:85-123 | after six inserts into `HashTable(8)`, `find` returns the fifth value; any other seventh insert grows the table to 16 slots, keeps at most six elements, and the fifth key is no longer found |
| LossyKeys.OneByteKeysAreLossy | hashtable.cpp:41-48 | "P", "S", "X", "N", "O", "n" have base indices 0, 3, 0, 6, 7, 6 at capacity 8 and 0, 3, 8, 14, 15, 14 at capacity 16 |
| LossyKeys.LossyUpdate | hashtable.cpp:73-123 | after the same six inserts, `insert("O", v)` drops `size()` from 6 to 5 and `find("O")` then fails |
| LossyKeys.LossyScenario | hashtable.cpp:73-123 | `HashTable(8)`, the inserts of "P", "S", "X", "N", "O", "n", then any other insert: `find("O")` succeeds before and fails after |

## Left out

- `print` (hashtable.cpp:143-157) writes to the console. `DriverRun.FinalLayout` states the slot layout it would show after the inserts.
- The console output of `main` is left out. Its calls are modelled in module `Demo`.
- The destructor only calls `clear`. `std::vector` copying and memory management are left out.
- The `Dog` payload of `EMPTY` and `DELETED` slots is never read, so the tagged `Slot` datatype has none.
- The load test `numElements >= capacity * 0.75` is modelled as the exact integer test `4*numElements >= 3*capacity`. This matches the `double` comparison for every capacity below 2^51, where `capacity * 0.75` is computed exactly.
- `size_t` overflow of `capacity *= 2` and of `i * i` in `probe` is not modelled. Both are unbounded integers here; `i * i` cannot overflow while the capacity stays below 2^32.
- Hashing.CharCode: assumes `char` is signed, as on x86 and x86-64. With an unsigned `char`, bytes 128-255 would add their unsigned value instead.
- Keys are byte strings. No character encoding is modelled.
- HashTable.Create: requires a positive capacity, and `Valid` does too. The constructor at hashtable.cpp:73-77 accepts 0. Then `size()`, `isEmpty()` and `clear()` still work, but `hash` computes `h % 0` at hashtable.cpp:47, which is undefined behaviour, so `find`, `insert` and `remove` have no defined result.
- HashTable.Rehash: states "at most the old count", not equality, because a re-insert can be lost to the probing gap (`LossyRehash.RehashLoses`). Equality and entry preservation are proved only as the conditional statements of `Invariants.RehashEntries` and `Invariants.RehashKeepsLookups`.
- Invariants.RemoveThenFind: requires unique keys, because `Invariants.TombstoneShadowsKey` shows that after a successful `remove` an older copy of the key can still be found.
- Invariants.InsertPreservesWellFormed: requires that the table grows, the key is absent, or there are no tombstones. Otherwise `Invariants.TombstoneShadowsKey` breaks key uniqueness.
- Invariants.InsertUpdatesLookups: also requires a lossless growth and a probe walk that does not give up, since `insert` can silently drop the entry (`Properties.DefaultCapacityDropsEntry`).
- Properties.InsertThenFind: requires that the probe walk of `insert` does not give up, because the code returns without storing anything at hashtable.cpp:105.
