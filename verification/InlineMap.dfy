/**
 Open addressing with every key in its slot: a probe compares keys and never leaves the table.
 */
module InlineMap {
  import opened Words
  import opened Arnm
  import opened KeyOrder
  import opened Probing

  const EMPTY_SLOT: Slot<Key> := Slot(0, EMPTY)
  const SLOT_BYTES := 36

  type Hash = Key -> uint64

  function HashOf(hash: Hash, key: Key): uint32 {
    hash(key) % W32
  }

  function HashesOf(hash: Hash, keys: seq<Key>): (r: seq<uint32>)
    ensures |r| == |keys|
    ensures forall i :: 0 <= i < |keys| ==> r[i] == HashOf(hash, keys[i])
  {
    seq(|keys|, i requires 0 <= i < |keys| => HashOf(hash, keys[i]))
  }

  lemma HashAppended(hash: Hash, keys: seq<Key>, key: Key)
    ensures HashesOf(hash, keys + [key]) == HashesOf(hash, keys) + [HashOf(hash, key)]
  {
    hide HashOf;
  }

  /** A walk from the key's home past other keys only. */
  ghost predicate WalkedPast(slots: seq<Slot<Key>>, home: nat, d: nat, key: Key)
    requires home < |slots| && d <= |slots|
  {
    forall e :: 0 <= e < d ==> slots[Nth(home, e, |slots|)].id != EMPTY && slots[Nth(home, e, |slots|)].part != key
  }

  /** An empty slot at the end of such a walk means the key is not there. */
  lemma KeyIsAbsent(slots: seq<Slot<Key>>, place: map<nat, nat>, hash: Hash, keys: seq<Key>, key: Key, d: nat)
    requires Holds(slots, place, HashesOf(hash, keys), keys) && d < |slots|
    requires forall x :: 0 <= x < |keys| ==> x in place
    requires var home := Home(HashOf(hash, key), |slots|);
             WalkedPast(slots, home, d, key) && slots[Nth(home, d, |slots|)].id == EMPTY
    ensures key !in keys
  {
    hide Home, HashOf;
    if key in keys {
      var x := IdOf(keys, key);
      assert Placed(IdsIn(slots), place, HashesOf(hash, keys), x);
      WalkPasses(IdsIn(slots), place, HashesOf(hash, keys), x, d);
      assert false;
    }
  }

  class Map {
    var slots: array<Slot<Key>>
    var capacity: uint32
    var count: uint32
    var growAt: uint32
    const loadPercent: nat
    const hash: Hash

    /** The keys in the order of their first appearance, and the slot each id stands in. */
    ghost var keys: seq<Key>
    ghost var place: map<nat, nat>

    ghost predicate Valid()
      reads this, slots
    {
      && 10 <= loadPercent <= 95
      && slots.Length == capacity && capacity * SLOT_BYTES < W32
      && count == |keys| < EMPTY && Distinct(keys)
      && |place| == |keys| && (forall x :: 0 <= x < |keys| <==> x in place)
      && (capacity == 0 ==> keys == [] && growAt == 0)
      && (0 < capacity ==>
            && PowerOfTwo(capacity) && growAt == GrowAt(capacity, loadPercent) && |keys| < capacity
            && Holds(slots[..], place, HashesOf(hash, keys), keys))
    }

    constructor (loadPercent: nat, hash: Hash)
      requires 10 <= loadPercent <= 95
      ensures Valid() && keys == [] && this.loadPercent == loadPercent && fresh(slots)
    {
      this.loadPercent, this.hash := loadPercent, hash;
      slots := new Slot<Key>[0];
      capacity, count, growAt := 0, 0, 0;
      keys, place := [], map[];
    }

    method Find(key: Key) returns (id: Option<nat>)
      requires Valid()
      ensures id == if key in keys then Some(IdOf(keys, key)) else None
    {
      if capacity == 0 { return None; }
      var index, found := Probe(key);
      if found { id := Some(slots[index].id); } else { id := None; }
    }

    /** The probe loop: the key's slot, or the empty one its walk ends at. */
    method Probe(key: Key) returns (index: nat, found: bool)
      requires Valid() && 0 < capacity
      ensures index < slots.Length
      ensures found <==> key in keys
      ensures found ==> slots[index].id == IdOf(keys, key)
      ensures !found ==> exists d :: IsFree(key, d, index)
    {
      hide Home, HashOf, PowerOfTwo, GrowAt, Distinct;
      var home := Home(HashOf(hash, key), capacity);
      ghost var d := 0;
      ghost var view := slots[..];
      index := home;
      while true
        invariant d < slots.Length && index == Nth(home, d, slots.Length) && WalkedPast(view, home, d, key)
        decreases slots.Length - d
      {
        var slot := slots[index];
        assert slot == view[index];
        if slot.id == EMPTY {
          KeyIsAbsent(view, place, hash, keys, key, d);
          assert IsFree(key, d, index);
          return index, false;
        }
        if slot.part == key {
          SlotIsPlaced(view, place, HashesOf(hash, keys), keys, index);
          IdIs(keys, slot.id);
          return index, true;
        }
        HoleAhead(view, place, HashesOf(hash, keys), keys, home, d);
        index := if index + 1 == capacity then 0 else index + 1;
        d := d + 1;
      }
    }

    /** The first empty slot on the walk from the key's home. */
    ghost predicate IsFree(key: Key, d: nat, index: nat)
      reads this, slots
    {
      && d < slots.Length && index == Nth(Home(HashOf(hash, key), slots.Length), d, slots.Length)
      && slots[index].id == EMPTY
      && WalkedPast(slots[..], Home(HashOf(hash, key), slots.Length), d, key)
    }

    /** Doubles the table and moves every slot into the new one. */
    method Grow(grants: Grants) returns (r: Status)
      requires Valid()
      modifies this`slots, this`capacity, this`growAt, this`place
      ensures Valid() && keys == old(keys)
      ensures r == Ok ==> |keys| + 1 < capacity && fresh(slots)
      ensures r != Ok ==> slots == old(slots) && capacity == old(capacity)
      ensures Generous(grants) ==> (r != Ok <==> GrownCapacity(old(capacity), SLOT_BYTES).None?)
    {
      hide Home, HashOf, GrowAt, Distinct, Holds, PowerOfTwo, GrownCapacity;
      var grown := GrownCapacity(capacity, SLOT_BYTES);
      if grown == None { return Overflow; }
      if !grants(0) { return OutOfMemory; }
      var newCapacity := grown.value;
      var newSlots := new Slot<Key>[newCapacity](_ => EMPTY_SLOT);
      ghost var newPlace := Move(newSlots);
      ghost var view := newSlots[..];
      slots, capacity, growAt, place := newSlots, newCapacity, GrowAt(newCapacity, loadPercent), newPlace;
      assert slots[..] == view;
      r := Ok;
    }

    method Move(newSlots: array<Slot<Key>>) returns (ghost newPlace: map<nat, nat>)
      requires Valid() && newSlots != slots && |keys| < newSlots.Length
      requires forall i :: 0 <= i < newSlots.Length ==> newSlots[i] == EMPTY_SLOT
      modifies newSlots
      ensures Holds(newSlots[..], newPlace, HashesOf(hash, keys), keys)
      ensures newPlace.Keys == place.Keys && |newPlace| == |place|
    {
      hide Home, HashOf, GrowAt, Distinct, Holds, PowerOfTwo;
      newPlace := MoveTo(slots, newSlots, (key: Key) => HashOf(hash, key), place, HashesOf(hash, keys), keys);
    }

    /** A table asked to grow is filled well enough that up to five million keys find room. */
    lemma RoomForMore()
      requires Valid() && growAt <= count <= 5_000_000
      ensures GrownCapacity(capacity, SLOT_BYTES).Some?
    {
      hide Home, HashOf, Distinct, Holds, PowerOfTwo;
      if 0 < capacity { GrownIsFilled(capacity, loadPercent, count); }
    }

    method GetOrInsert(key: Key, grants: Grants) returns (r: Status, id: uint32, inserted: bool)
      requires Valid()
      modifies this, slots
      ensures Valid()
      ensures r == Ok ==> keys == After(old(keys), key) && id == IdOf(keys, key) && inserted == (key !in old(keys))
      ensures r != Ok ==> keys == old(keys)
      ensures slots == old(slots) || fresh(slots)
      // with memory the table's own limits are the only ones: ids below the empty mark, bytes below 2^32
      ensures Generous(grants) ==>
                (r != Ok <==> old(growAt) <= old(count)
                              && (old(count) == EMPTY - 1 || GrownCapacity(old(capacity), SLOT_BYTES).None?))
      ensures Generous(grants) && |old(keys)| <= 5_000_000 ==> r == Ok
    {
      hide Home, HashOf, GrowAt, Distinct, Holds, PowerOfTwo, GrownCapacity;
      r, id, inserted := Ok, 0, false;
      if growAt <= count {
        if count == EMPTY - 1 { return Exhausted, id, inserted; }
        if count <= 5_000_000 { RoomForMore(); }
        r := Grow(grants);
        if r != Ok { return; }
      }
      var index, found := Probe(key);
      if found { return Ok, slots[index].id, false; }
      id := count;
      Insert(key, index);
      inserted := true;
    }

    /** A new key takes the empty slot its walk ended at, and the next id. */
    method Insert(key: Key, index: nat)
      requires Valid() && 0 < capacity && |keys| + 1 < capacity && |keys| + 1 < EMPTY && key !in keys
      requires index < slots.Length && exists d :: IsFree(key, d, index)
      modifies slots, this`count, this`keys, this`place
      ensures Valid() && keys == old(keys) + [key]
      ensures IdOf(keys, key) == |old(keys)|
    {
      hide Home, HashOf, GrowAt, Holds, PowerOfTwo;
      ghost var d :| IsFree(key, d, index);
      ghost var view, x := slots[..], |keys|;
      HashAppended(hash, keys, key);
      NextTaken(view, place, HashesOf(hash, keys), keys, HashOf(hash, key), key, d);
      slots[index] := Slot(key, count);
      count, keys, place := count + 1, keys + [key], place[x := index];
      assert slots[..] == view[index := Slot(key, x)];
      IdIs(keys, x);
    }
  }
}
