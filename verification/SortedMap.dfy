/** A map kept as an ascending array of keys with their ids, searched by halving. */
module SortedMap {
  import opened Words
  import opened Arnm
  import opened KeyOrder

  datatype Entry = Entry(key: Key, id: nat)

  const NO_ENTRY := Entry(0, 0)
  const ENTRY_BYTES := 36
  const CAPACITY_MAX := 0x4000_0000

  ghost predicate Sorted(entries: seq<Entry>) {
    forall i, j :: 0 <= i < j < |entries| ==> entries[i].key < entries[j].key
  }

  /** One entry for every key, with its id. */
  ghost predicate Holds(entries: seq<Entry>, keys: seq<Key>) {
    && |entries| == |keys|
    && (forall i :: 0 <= i < |entries| ==> entries[i].id < |keys| && keys[entries[i].id] == entries[i].key)
    && (forall x :: 0 <= x < |keys| ==> HasEntry(entries, keys[x]))
  }

  ghost predicate HasEntry(entries: seq<Entry>, key: Key) {
    exists i :: 0 <= i < |entries| && entries[i].key == key
  }

  /** Everything before low is smaller than the key, everything from high on is larger. */
  ghost predicate Bounds(entries: seq<Entry>, key: Key, low: nat, high: nat) {
    && low <= high <= |entries|
    && (forall i :: 0 <= i < low ==> entries[i].key < key)
    && (forall i :: high <= i < |entries| ==> key < entries[i].key)
  }

  lemma BoundsMeet(entries: seq<Entry>, keys: seq<Key>, key: Key, low: nat)
    requires Holds(entries, keys) && Bounds(entries, key, low, low)
    ensures key !in keys
  {
    if key in keys {
      ghost var x := IdOf(keys, key);
      assert false;
    }
  }

  function With(entries: seq<Entry>, at: nat, e: Entry): (r: seq<Entry>)
    requires at <= |entries|
    ensures |r| == |entries| + 1
    ensures forall i :: 0 <= i < at ==> r[i] == entries[i]
    ensures r[at] == e
    ensures forall i :: at < i < |r| ==> r[i] == entries[i - 1]
  {
    entries[..at] + [e] + entries[at..]
  }

  lemma WithIsSorted(entries: seq<Entry>, at: nat, e: Entry)
    requires Sorted(entries) && Bounds(entries, e.key, at, at)
    ensures Sorted(With(entries, at, e))
  {
  }

  lemma WithHolds(entries: seq<Entry>, keys: seq<Key>, at: nat, key: Key)
    requires Holds(entries, keys) && at <= |entries|
    ensures Holds(With(entries, at, Entry(key, |keys|)), keys + [key])
  {
    var more := With(entries, at, Entry(key, |keys|));
    forall x | 0 <= x < |keys| + 1 ensures HasEntry(more, (keys + [key])[x]) {
      if x < |keys| {
        assert HasEntry(entries, keys[x]);
        var i :| 0 <= i < |entries| && entries[i].key == keys[x];
        assert more[if i < at then i else i + 1].key == keys[x];
      } else {
        assert more[at].key == key;
      }
    }
  }

  /** The capacity an array grows to. */
  function Doubled(capacity: nat): nat {
    if capacity != 0 then capacity * 2 else 16
  }

  class Map {
    var entries: array<Entry>
    var capacity: uint32
    var count: uint32

    /** The keys in the order of their first appearance. */
    ghost var keys: seq<Key>

    ghost predicate Valid()
      reads this, entries
    {
      && entries.Length == capacity && capacity * ENTRY_BYTES < W32
      && count == |keys| <= capacity && Distinct(keys) && capacity <= 2 * count + 16
      && Sorted(entries[..count]) && Holds(entries[..count], keys)
    }

    constructor ()
      ensures Valid() && keys == [] && fresh(entries)
    {
      entries := new Entry[0];
      capacity, count := 0, 0;
      keys := [];
    }

    /** Where the key stands, or the only place it can be put without breaking the order. */
    method LowerBound(key: Key) returns (position: uint32, found: bool)
      requires Valid()
      ensures position <= count
      ensures found <==> key in keys
      ensures found ==> position < count && entries[position].id == IdOf(keys, key)
      ensures !found ==> Bounds(entries[..count], key, position, position)
    {
      hide Distinct, Holds;
      ghost var view := entries[..count];
      var low, high := 0, count;
      while low < high
        invariant Bounds(view, key, low, high)
      {
        var middle := low + (high - low) / 2;
        var e := entries[middle];
        assert e == view[middle];
        if e.key < key {
          low := middle + 1;
        } else if e.key > key {
          high := middle;
        } else {
          EntryIs(view, keys, middle);
          return middle, true;
        }
      }
      BoundsMeet(view, keys, key, low);
      return low, false;
    }

    method Find(key: Key) returns (id: Option<nat>)
      requires Valid()
      ensures id == if key in keys then Some(IdOf(keys, key)) else None
    {
      var position, found := LowerBound(key);
      if found { id := Some(entries[position].id); } else { id := None; }
    }

    method GetOrInsert(key: Key, grants: Grants) returns (r: Status, id: uint32, inserted: bool)
      requires Valid()
      modifies this, entries
      ensures Valid()
      ensures r == Ok ==> keys == After(old(keys), key) && id == IdOf(keys, key) && inserted == (key !in old(keys))
      ensures r != Ok ==> keys == old(keys)
      ensures entries == old(entries) || fresh(entries)
      // with memory only the array's own limits are left: 2^30 entries, and fewer than 2^32 bytes
      ensures Generous(grants) ==>
                (r != Ok <==> key !in old(keys) && old(count) == old(capacity)
                              && (old(capacity) >= CAPACITY_MAX || W32 <= Doubled(old(capacity)) * ENTRY_BYTES))
      ensures Generous(grants) && |old(keys)| <= 5_000_000 ==> r == Ok
    {
      hide Distinct, Holds, Sorted, Bounds;
      r, id, inserted := Ok, 0, false;
      var position, found := LowerBound(key);
      if found { return Ok, entries[position].id, false; }
      if count == capacity {
        if capacity >= CAPACITY_MAX { return Exhausted, id, inserted; }
        r := Reserve(Doubled(capacity), grants);
        if r != Ok { return; }
      }
      id := count;
      Insert(key, position);
      inserted := true;
    }

    /** A larger array with the same entries at its front. */
    method Reserve(newCapacity: uint32, grants: Grants) returns (r: Status)
      requires Valid() && capacity < newCapacity <= 2 * count + 16
      modifies this`entries, this`capacity
      ensures Valid() && entries[..count] == old(entries[..count])
      ensures r == Ok ==> capacity == newCapacity && fresh(entries)
      ensures r != Ok ==> entries == old(entries) && capacity == old(capacity)
      ensures Generous(grants) ==> (r == Ok <==> newCapacity * ENTRY_BYTES < W32)
    {
      hide Distinct, Holds, Sorted;
      if newCapacity * ENTRY_BYTES >= W32 { return Overflow; }
      if !grants(0) { return OutOfMemory; }
      var memory := new Entry[newCapacity](_ => NO_ENTRY);
      forall i | 0 <= i < count {
        memory[i] := entries[i];
      }
      entries, capacity := memory, newCapacity;
      assert entries[..count] == old(entries[..count]);
      r := Ok;
    }

    /** Everything from the position on moves up by one. */
    method Insert(key: Key, position: nat)
      requires Valid() && count < capacity && key !in keys
      requires position <= count && Bounds(entries[..count], key, position, position)
      modifies entries, this`count, this`keys
      ensures Valid() && keys == old(keys) + [key]
      ensures IdOf(keys, key) == |old(keys)|
    {
      hide Holds, Sorted, Bounds;
      ghost var view := entries[..count];
      forall i | position <= i < count {
        entries[i + 1] := entries[i];
      }
      entries[position] := Entry(key, count);
      assert entries[..count + 1] == With(view, position, Entry(key, count));
      WithIsSorted(view, position, Entry(key, count));
      WithHolds(view, keys, position, key);
      count := count + 1;
      keys := keys + [key];
      IdIs(keys, |keys| - 1);
    }
  }

  lemma EntryIs(entries: seq<Entry>, keys: seq<Key>, i: nat)
    requires Holds(entries, keys) && Distinct(keys) && i < |entries|
    ensures entries[i].key in keys && entries[i].id == IdOf(keys, entries[i].key)
  {
    IdIs(keys, entries[i].id);
  }
}
