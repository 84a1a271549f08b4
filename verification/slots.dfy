/**
  The slots of the table (hashtable.cpp lines 17-31).

  The C++ slot pairs a `Dog` payload with a three-way `SlotState` tag, and the
  payload is meaningful only when the tag is `OCCUPIED`. Here the tag and the
  payload are one tagged value, so an `Empty` or `Deleted` slot has no payload
  to read.
 */
module Slots {
  import opened Hashing

  /** A slot: never used, holding a live entry, or a tombstone left by a removal. */
  datatype Slot = Empty | Occupied(key: Key, value: int) | Deleted

  /** The number of `Occupied` slots. */
  function CountOccupied(s: seq<Slot>): (n: nat)
    ensures n <= |s|
    ensures n == 0 <==> forall i :: 0 <= i < |s| ==> !s[i].Occupied?
    ensures n == |s| <==> forall i :: 0 <= i < |s| ==> s[i].Occupied?
  {
    if |s| == 0 then 0
    else (if s[0].Occupied? then 1 else 0) + CountOccupied(s[1..])
  }

  /** A sequence of `n` empty slots, as `table.assign(capacity, Slot())` builds. */
  function EmptySlots(n: nat): (s: seq<Slot>)
    ensures |s| == n
    ensures forall i :: 0 <= i < n ==> s[i] == Empty
    ensures CountOccupied(s) == 0
  {
    seq(n, _ => Empty)
  }

  /** Overwriting one slot changes the count only by the change of that slot's tag. */
  lemma {:induction false} CountOccupiedUpdate(s: seq<Slot>, i: nat, x: Slot)
    requires i < |s|
    ensures CountOccupied(s[i := x])
            == CountOccupied(s) - (if s[i].Occupied? then 1 else 0) + (if x.Occupied? then 1 else 0)
    decreases |s|
  {
    if i > 0 {
      assert s[i := x][1..] == s[1..][i - 1 := x];
      CountOccupiedUpdate(s[1..], i - 1, x);
    } else {
      assert s[i := x][1..] == s[1..];
    }
  }

  /** Splitting off the first slot of a suffix. */
  lemma CountOccupiedSuffix(s: seq<Slot>, i: nat)
    requires i < |s|
    ensures CountOccupied(s[i..]) == (if s[i].Occupied? then 1 else 0) + CountOccupied(s[i + 1..])
  {
    assert s[i..][1..] == s[i + 1..];
  }
}
