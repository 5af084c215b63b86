/**
 Linear probing, seen without keys: a table of ids, each with a 32-bit hash that names its home
 slot. The two probing maps differ only in where the hash comes from.
 */
module Probing {
  import opened Words

  /** Marks an empty slot; ids never reach it. */
  const EMPTY := W32 - 1

  /** The slot d steps from home, around the end. */
  function Nth(home: nat, d: nat, capacity: nat): (i: nat)
    requires home < capacity && d < capacity
    ensures i < capacity
  {
    if home + d < capacity then home + d else home + d - capacity
  }

  /** How many steps from home a slot is. */
  function Steps(home: nat, at: nat, capacity: nat): (d: nat)
    requires home < capacity && at < capacity
    ensures d < capacity && Nth(home, d, capacity) == at
  {
    if home <= at then at - home else at + capacity - home
  }

  /** Home of a hash: its low bits, the capacity being a power of two. */
  function Home(hash: nat, capacity: nat): (i: nat)
    requires 0 < capacity
    ensures i < capacity
  {
    hash % capacity
  }

  /** No slot between home and a place is empty. */
  ghost predicate Reaches(slots: seq<nat>, home: nat, at: nat)
    requires home < |slots| && at < |slots|
  {
    forall e :: 0 <= e < Steps(home, at, |slots|) ==> slots[Nth(home, e, |slots|)] != EMPTY
  }

  ghost predicate Placed(slots: seq<nat>, place: map<nat, nat>, hashes: seq<nat>, x: nat)
    requires x in place && 0 < |slots|
  {
    && x < |hashes| && x < EMPTY && place[x] < |slots| && slots[place[x]] == x
    && Reaches(slots, Home(hashes[x], |slots|), place[x])
  }

  /** Every id in the table stands in one slot, reachable from its home; every other slot is empty. */
  ghost predicate Probes(slots: seq<nat>, place: map<nat, nat>, hashes: seq<nat>) {
    && 0 < |slots|
    && (forall x :: x in place ==> Placed(slots, place, hashes, x))
    && (forall i :: 0 <= i < |slots| && slots[i] != EMPTY ==> slots[i] in place && place[slots[i]] == i)
  }

  ghost function Used(slots: seq<nat>, n: nat): set<nat>
    requires n <= |slots|
  {
    set i | 0 <= i < n :: slots[i]
  }

  lemma {:induction false} UsedSize(slots: seq<nat>, place: map<nat, nat>, n: nat)
    requires n <= |slots| && forall i :: 0 <= i < n ==> slots[i] in place && place[slots[i]] == i
    ensures |Used(slots, n)| == n && Used(slots, n) <= place.Keys
  {
    if n == 0 {
      assert Used(slots, 0) == {};
    } else {
      UsedSize(slots, place, n - 1);
      assert Used(slots, n) == Used(slots, n - 1) + {slots[n - 1]};
      assert slots[n - 1] !in Used(slots, n - 1);
    }
  }

  lemma SubsetSize(a: set<nat>, b: set<nat>)
    requires a <= b
    ensures |a| <= |b|
  {
    assert b == a + (b - a);
  }

  /** A walk through a table with fewer ids than slots meets an empty one: every probe loop ends. */
  lemma WalkEnds(slots: seq<nat>, place: map<nat, nat>, hashes: seq<nat>, home: nat)
    requires Probes(slots, place, hashes) && |place| < |slots| && home < |slots|
    ensures exists d :: 0 <= d < |slots| && slots[Nth(home, d, |slots|)] == EMPTY
  {
    assert |place| == |place.Keys|;
    if forall i :: 0 <= i < |slots| ==> slots[i] != EMPTY {
      UsedSize(slots, place, |slots|);
      SubsetSize(Used(slots, |slots|), place.Keys);
      assert false;
    } else {
      var i :| 0 <= i < |slots| && slots[i] == EMPTY;
      var d := Steps(home, i, |slots|);
      assert slots[Nth(home, d, |slots|)] == EMPTY;
    }
  }

  /** A walk that has come to an empty slot has passed the place of every id that shares its home. */
  lemma WalkPasses(slots: seq<nat>, place: map<nat, nat>, hashes: seq<nat>, x: nat, d: nat)
    requires Probes(slots, place, hashes) && x in place && d < |slots| && x < |hashes|
    requires slots[Nth(Home(hashes[x], |slots|), d, |slots|)] == EMPTY
    ensures Steps(Home(hashes[x], |slots|), place[x], |slots|) < d
  {
    assert Placed(slots, place, hashes, x);
  }

  /** An id put where a walk from its home first finds room keeps every other id reachable. */
  lemma IdPlaced(slots: seq<nat>, place: map<nat, nat>, hashes: seq<nat>, x: nat, d: nat)
    requires Probes(slots, place, hashes) && x !in place && x < |hashes| && x < EMPTY && d < |slots|
    requires var home := Home(hashes[x], |slots|);
             slots[Nth(home, d, |slots|)] == EMPTY
             && forall e :: 0 <= e < d ==> slots[Nth(home, e, |slots|)] != EMPTY
    ensures var at := Nth(Home(hashes[x], |slots|), d, |slots|);
            Probes(slots[at := x], place[x := at], hashes)
  {
    hide Home;
    var home := Home(hashes[x], |slots|);
    var at := Nth(home, d, |slots|);
    var slots1, place1 := slots[at := x], place[x := at];
    forall y | y in place1
      ensures Placed(slots1, place1, hashes, y)
    {
      if y == x {
        assert Steps(home, at, |slots|) == d;
      } else {
        assert Placed(slots, place, hashes, y);
      }
    }
  }

  /** More hashes than ids in the table do not matter to it. */
  lemma HashesAppended(slots: seq<nat>, place: map<nat, nat>, hashes: seq<nat>, more: seq<nat>)
    requires Probes(slots, place, hashes) && hashes <= more
    ensures Probes(slots, place, more)
  {
    hide Home, Reaches;
    forall x | x in place ensures Placed(slots, place, more, x) {
      assert Placed(slots, place, hashes, x);
      assert more[x] == hashes[x];
    }
  }

  /** A table of empty slots. */
  lemma EmptyProbes(slots: seq<nat>, hashes: seq<nat>)
    requires 0 < |slots| && forall i :: 0 <= i < |slots| ==> slots[i] == EMPTY
    ensures Probes(slots, map[], hashes)
  {
  }

  /** As long as a walk has met no empty slot it has slots left. */
  lemma WalkGoesOn(slots: seq<nat>, place: map<nat, nat>, hashes: seq<nat>, home: nat, d: nat)
    requires Probes(slots, place, hashes) && |place| < |slots| && home < |slots| && d < |slots|
    requires forall e :: 0 <= e <= d ==> slots[Nth(home, e, |slots|)] != EMPTY
    ensures d + 1 < |slots|
  {
    WalkEnds(slots, place, hashes, home);
  }

  /** The ids moved so far are no more than there are. */
  lemma FewerMoved(place: map<nat, nat>, newPlace: map<nat, nat>)
    requires newPlace.Keys <= place.Keys
    ensures |newPlace| <= |place|
  {
    SubsetSize(newPlace.Keys, place.Keys);
    assert |newPlace| == |newPlace.Keys| && |place| == |place.Keys|;
  }

  /** Once every slot has been looked at, every id has moved. */
  lemma AllMoved(slots: seq<nat>, place: map<nat, nat>, newPlace: map<nat, nat>, hashes: seq<nat>)
    requires Probes(slots, place, hashes)
    requires forall x :: x in newPlace <==> x in place && place[x] < |slots|
    ensures newPlace.Keys == place.Keys && |newPlace| == |place|
  {
    forall x | x in place ensures x in newPlace {
      assert Placed(slots, place, hashes, x);
    }
    assert newPlace.Keys == place.Keys;
    assert |newPlace| == |newPlace.Keys| && |place| == |place.Keys|;
  }

  // ----- tables that keep something beside the id

  /** A slot in use: an id, and what the map keeps beside it to tell the key by. */
  datatype Slot<T> = Slot(part: T, id: nat)

  function IdsIn<T>(slots: seq<Slot<T>>): (r: seq<nat>)
    ensures |r| == |slots|
    ensures forall i :: 0 <= i < |slots| ==> r[i] == slots[i].id
  {
    seq(|slots|, i requires 0 <= i < |slots| => slots[i].id)
  }

  /** The slots hold exactly the ids in place, each beside its own part. */
  ghost predicate Holds<T(!new)>(slots: seq<Slot<T>>, place: map<nat, nat>, hashes: seq<nat>, parts: seq<T>) {
    && Probes(IdsIn(slots), place, hashes)
    && forall i :: 0 <= i < |slots| && slots[i].id != EMPTY ==>
        slots[i].id < |parts| && slots[i].part == parts[slots[i].id]
  }

  lemma SlotTaken<T(!new)>(slots: seq<Slot<T>>, place: map<nat, nat>, hashes: seq<nat>, parts: seq<T>, x: nat, d: nat)
    requires Holds(slots, place, hashes, parts) && x !in place && x < |parts| && x < |hashes| && x < EMPTY
               && d < |slots|
    requires var home := Home(hashes[x], |slots|);
             && slots[Nth(home, d, |slots|)].id == EMPTY
             && forall e :: 0 <= e < d ==> slots[Nth(home, e, |slots|)].id != EMPTY
    ensures var at := Nth(Home(hashes[x], |slots|), d, |slots|);
            Holds(slots[at := Slot(parts[x], x)], place[x := at], hashes, parts)
  {
    hide Probes, Home;
    var at := Nth(Home(hashes[x], |slots|), d, |slots|);
    IdPlaced(IdsIn(slots), place, hashes, x, d);
    assert IdsIn(slots[at := Slot(parts[x], x)]) == IdsIn(slots)[at := x];
  }

  /** More hashes and parts than ids in the table do not matter to it. */
  lemma PartAppended<T(!new)>(slots: seq<Slot<T>>, place: map<nat, nat>, hashes: seq<nat>, parts: seq<T>,
                              more: seq<nat>, part: T)
    requires Holds(slots, place, hashes, parts) && hashes <= more
    ensures Holds(slots, place, more, parts + [part])
  {
    hide Probes;
    HashesAppended(IdsIn(slots), place, hashes, more);
  }

  /** The next id put where a walk from its home first finds room. */
  lemma NextTaken<T(!new)>(slots: seq<Slot<T>>, place: map<nat, nat>, hashes: seq<nat>, parts: seq<T>, hash: nat,
                           part: T, d: nat)
    requires Holds(slots, place, hashes, parts) && |hashes| == |parts| < EMPTY && |parts| !in place && d < |slots|
    requires var home := Home(hash, |slots|);
             && slots[Nth(home, d, |slots|)].id == EMPTY
             && forall e :: 0 <= e < d ==> slots[Nth(home, e, |slots|)].id != EMPTY
    ensures var x, at := |parts|, Nth(Home(hash, |slots|), d, |slots|);
            Holds(slots[at := Slot(part, x)], place[x := at], hashes + [hash], parts + [part])
  {
    hide Holds, Home;
    PartAppended(slots, place, hashes, parts, hashes + [hash], part);
    SlotTaken(slots, place, hashes + [hash], parts + [part], |parts|, d);
  }

  lemma EmptyHolds<T(!new)>(slots: seq<Slot<T>>, hashes: seq<nat>, parts: seq<T>)
    requires 0 < |slots| && forall i :: 0 <= i < |slots| ==> slots[i].id == EMPTY
    ensures Holds(slots, map[], hashes, parts)
  {
    EmptyProbes(IdsIn(slots), hashes);
  }

  lemma SlotIsPlaced<T(!new)>(slots: seq<Slot<T>>, place: map<nat, nat>, hashes: seq<nat>, parts: seq<T>, i: nat)
    requires Holds(slots, place, hashes, parts) && i < |slots|
    ensures slots[i].id != EMPTY ==> slots[i].id in place && place[slots[i].id] == i
    ensures slots[i].id != EMPTY ==> slots[i].id < |hashes| && slots[i].id < EMPTY
                                     && slots[i].id < |parts| && slots[i].part == parts[slots[i].id]
    ensures forall x :: x in place && place[x] == i ==> slots[i].id == x && x != EMPTY
  {
    forall x | x in place ensures place[x] == i ==> slots[i].id == x && x != EMPTY {
      assert Placed(IdsIn(slots), place, hashes, x);
    }
    if slots[i].id != EMPTY {
      assert IdsIn(slots)[i] != EMPTY;
      assert Placed(IdsIn(slots), place, hashes, slots[i].id);
    }
  }

  /** A walk past slots in use has a slot to go to. */
  lemma HoleAhead<T(!new)>(slots: seq<Slot<T>>, place: map<nat, nat>, hashes: seq<nat>, parts: seq<T>, home: nat,
                           d: nat)
    requires Holds(slots, place, hashes, parts) && |place| < |slots| && home < |slots| && d < |slots|
    requires forall e :: 0 <= e <= d ==> slots[Nth(home, e, |slots|)].id != EMPTY
    ensures d + 1 < |slots|
  {
    hide Probes;
    WalkGoesOn(IdsIn(slots), place, hashes, home, d);
  }

  /** Moves every slot in use into an empty table, each to the first hole on its walk. */
  method MoveTo<T(!new)>(slots: array<Slot<T>>, newSlots: array<Slot<T>>, hashOf: T -> nat,
                         ghost place: map<nat, nat>, ghost hashes: seq<nat>, ghost parts: seq<T>)
    returns (ghost newPlace: map<nat, nat>)
    requires if 0 < slots.Length then Holds(slots[..], place, hashes, parts) else place == map[]
    requires |hashes| == |parts| && forall i :: 0 <= i < |parts| ==> hashOf(parts[i]) == hashes[i]
    requires newSlots != slots && |place| < newSlots.Length
    requires forall i :: 0 <= i < newSlots.Length ==> newSlots[i].id == EMPTY
    modifies newSlots
    ensures Holds(newSlots[..], newPlace, hashes, parts)
    ensures newPlace.Keys == place.Keys && |newPlace| == |place|
  {
    hide Home, Probes;
    newPlace := map[];
    EmptyHolds(newSlots[..], hashes, parts);
    for i := 0 to slots.Length
      invariant Holds(newSlots[..], newPlace, hashes, parts)
      invariant forall x :: x in newPlace <==> x in place && place[x] < i
    {
      var slot := slots[i];
      SlotIsPlaced(slots[..], place, hashes, parts, i);
      if slot.id == EMPTY { continue; }
      FewerMoved(place, newPlace);
      newPlace := Rehash(newSlots, slot, hashOf(slot.part), newPlace, hashes, parts);
    }
    if 0 < slots.Length { AllMoved(IdsIn(slots[..]), place, newPlace, hashes); }
  }

  /** One slot moved into the new table, at the first hole from its home. */
  method Rehash<T(!new)>(newSlots: array<Slot<T>>, slot: Slot<T>, hash: nat,
                         ghost newPlace: map<nat, nat>, ghost hashes: seq<nat>, ghost parts: seq<T>)
    returns (ghost place1: map<nat, nat>)
    requires Holds(newSlots[..], newPlace, hashes, parts) && |newPlace| < newSlots.Length
    requires slot.id !in newPlace && slot.id < |parts| && slot.id < |hashes| && slot.id < EMPTY
    requires slot.part == parts[slot.id] && hash == hashes[slot.id]
    modifies newSlots
    ensures Holds(newSlots[..], place1, hashes, parts)
    ensures place1.Keys == newPlace.Keys + {slot.id}
  {
    hide Home, Holds;
    var home := Home(hash, newSlots.Length);
    var index := home;
    ghost var d := 0;
    ghost var view := newSlots[..];
    while newSlots[index].id != EMPTY
      invariant d < newSlots.Length && index == Nth(home, d, newSlots.Length) && newSlots[..] == view
      invariant forall e :: 0 <= e < d ==> view[Nth(home, e, |view|)].id != EMPTY
      decreases newSlots.Length - d
    {
      assert view[index].id != EMPTY;
      HoleAhead(view, newPlace, hashes, parts, home, d);
      index := if index + 1 == newSlots.Length then 0 else index + 1;
      d := d + 1;
    }
    assert view[index].id == EMPTY;
    SlotTaken(view, newPlace, hashes, parts, slot.id, d);
    newSlots[index] := slot;
    assert newSlots[..] == view[index := slot];
    place1 := newPlace[slot.id := index];
  }

  // ----- capacity and load

  ghost predicate PowerOfTwo(n: nat) {
    n == 1 || (n % 2 == 0 && 0 < n && PowerOfTwo(n / 2))
  }

  /** A power of two below 2^29 is at most 2^28. */
  lemma PowerBelow(n: nat)
    requires PowerOfTwo(n) && n < 0x2000_0000
    ensures n <= 0x1000_0000
  {
    assert Twice(7) == 128 && Twice(14) == 128 * 128 && Twice(21) == 128 * 128 * 128;
    assert Twice(28) == 0x1000_0000;
    PowerBelowTwice(n, 28);
  }

  function Twice(k: nat): nat {
    if k == 0 then 1 else 2 * Twice(k - 1)
  }

  lemma {:induction false} PowerBelowTwice(n: nat, k: nat)
    requires PowerOfTwo(n) && n < 2 * Twice(k)
    ensures n <= Twice(k)
  {
    if 0 < k && n != 1 { PowerBelowTwice(n / 2, k - 1); }
  }

  /** The capacity a table grows to, unless its bytes would not fit a 32-bit size. */
  function GrownCapacity(capacity: uint32, slotBytes: nat): (r: Option<nat>)
    requires capacity <= W32 / 2
    ensures r.Some? ==> r.value * slotBytes < W32 && 1 < r.value && capacity < r.value
    ensures r.Some? ==> 0 < capacity ==> r.value == 2 * capacity
    ensures r.Some? ==> (capacity == 0 || PowerOfTwo(capacity)) ==> PowerOfTwo(r.value)
    ensures capacity <= 51_000_000 && slotBytes <= 36 ==> r.Some?
  {
    var grown := if capacity != 0 then (capacity * 2) % W32 else 8;
    assert slotBytes <= 36 ==> grown * slotBytes <= grown * 36;
    if grown == 0 || W32 <= grown * slotBytes then None
    else
      assert PowerOfTwo(2) && PowerOfTwo(4) && PowerOfTwo(8);
      Some(grown)
  }

  /** A table doubles, from 8 slots on, while its new bytes fit 32 bits. */
  lemma GrowsWhen(capacity: uint32, slotBytes: nat)
    requires capacity <= W32 / 2 && 1 <= slotBytes
    ensures var next := if capacity == 0 then 8 else 2 * capacity;
            GrownCapacity(capacity, slotBytes) == if next * slotBytes < 0x1_0000_0000 then Some(next) else None
  {
    var next: nat := if capacity == 0 then 8 else 2 * capacity;
    assert next <= next * slotBytes;
  }

  /** How many ids a table takes before it has to grow: fewer than its slots for any load. */
  function GrowAt(capacity: nat, loadPercent: nat): (r: nat)
    requires 0 < capacity
    ensures r < capacity
  {
    var at := capacity * loadPercent / 100;
    if capacity <= at then capacity - 1 else at
  }

  /** The most that is within the load and leaves a slot empty. */
  lemma GrowAtIsMost(capacity: nat, loadPercent: nat, n: nat)
    requires 0 < capacity
    ensures n <= GrowAt(capacity, loadPercent) <==> n < capacity && 100 * n <= capacity * loadPercent
  {
    var x := capacity * loadPercent;
    assert n <= x / 100 <==> 100 * n <= x;
  }

  /** At an allowed load a table that is asked to grow is at most ten times as large as what it holds. */
  lemma GrownIsFilled(capacity: nat, loadPercent: nat, count: nat)
    requires 0 < capacity && 10 <= loadPercent <= 95 && GrowAt(capacity, loadPercent) <= count
    ensures capacity < 10 * (count + 1)
  {
    assert capacity * loadPercent >= capacity * 10;
  }
}
