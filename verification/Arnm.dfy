/**
 Contracts of the containers the indices are built from. They live in another library; each is
 modelled as the value it holds and the answer it gives.

 Memory is an oracle: the k-th request of a call is granted when grants(k) says so.
 */
module Arnm {
  import opened Words
  import opened Pages

  datatype Status = Ok | InvalidParam | SizeExceed | InvalidEnumType | OutOfMemory | Overflow | Exhausted

  type Grants = nat -> bool

  /** Room for everything. */
  ghost predicate Generous(grants: Grants) {
    forall k: nat :: grants(k)
  }

  // ----- key map: keys to dense ids in the order of their first sight

  ghost predicate Dense(ids: map<nat, nat>) {
    && (forall k :: k in ids ==> ids[k] < |ids|)
    && (forall j, k :: j in ids && k in ids && ids[j] == ids[k] ==> j == k)
  }

  function WithKey(ids: map<nat, nat>, key: nat): (r: map<nat, nat>)
    requires Dense(ids)
    ensures Dense(r) && key in r && |ids| <= |r|
    ensures r.Keys == ids.Keys + {key}
    ensures forall k :: k in ids ==> r[k] == ids[k]
    ensures key !in ids ==> r[key] == |ids|
  {
    if key in ids then ids else ids[key := |ids|]
  }

  // ----- a key map and the bucket vector that holds a value at each id

  datatype Table<V> = Table(ids: map<nat, nat>, slots: seq<V>)

  /** The vector may lag behind the map: a key may have been taken while its slot found no room. */
  ghost predicate TableOk<V>(t: Table<V>) {
    Dense(t.ids) && |t.slots| <= |t.ids|
  }

  ghost function Lookup<V>(t: Table<V>, key: nat, none: V): V {
    if key in t.ids && t.ids[key] < |t.slots| then t.slots[t.ids[key]] else none
  }

  lemma TableOpened<V>(t: Table<V>, key: nat, none: V)
    requires TableOk(t)
    ensures var t1 := t.(ids := WithKey(t.ids, key));
            TableOk(t1) && forall k :: Lookup(t1, k, none) == Lookup(t, k, none)
  {
  }

  lemma TableGrown<V>(t: Table<V>, none: V)
    requires TableOk(t) && |t.slots| < |t.ids|
    ensures var t1 := t.(slots := t.slots + [none]);
            TableOk(t1) && forall k :: Lookup(t1, k, none) == Lookup(t, k, none)
  {
  }

  lemma TableUpdated<V>(t: Table<V>, key: nat, v: V, none: V)
    requires TableOk(t) && key in t.ids && t.ids[key] < |t.slots|
    ensures var t1 := t.(slots := t.slots[t.ids[key] := v]);
            TableOk(t1) && forall k :: Lookup(t1, k, none) == if k == key then v else Lookup(t, k, none)
  {
  }

  // ----- roaring bitmap: a set of offsets that only grows at its upper end

  predicate EndsAt(s: set<nat>, o: nat) {
    o in s && forall x :: x in s ==> x <= o
  }

  /** Adding the maximum again does nothing, and nothing is added below it. */
  function RoaringAdd(s: set<nat>, o: nat, granted: bool): (r: (Status, set<nat>)) {
    if EndsAt(s, o) then (Ok, s)
    else if exists x :: x in s && o < x then (InvalidParam, s)
    else if granted then (Ok, s + {o})
    else (OutOfMemory, s)
  }

  lemma RoaringAddAtEnd(s: set<nat>, o: nat, granted: bool)
    requires forall x :: x in s ==> x <= o
    ensures var r := RoaringAdd(s, o, granted);
            && (r.0 == Ok || (r.0 == OutOfMemory && !granted))
            && r.1 == s + if r.0 == Ok then {o} else {}
  {
    if EndsAt(s, o) {
      assert s == s + {o};
    }
  }

  // ----- roaring query: sets intersected, united and excluded inside a span

  predicate InAll(sets: seq<set<nat>>, o: int) {
    forall i :: 0 <= i < |sets| ==> o in sets[i]
  }

  predicate InAny(sets: seq<set<nat>>, o: int) {
    exists i :: 0 <= i < |sets| && o in sets[i]
  }

  lemma InAllConcat(a: seq<set<nat>>, b: seq<set<nat>>, o: int)
    ensures InAll(a + b, o) <==> InAll(a, o) && InAll(b, o)
  {
    if InAll(a + b, o) {
      assert forall i :: 0 <= i < |a| ==> (a + b)[i] == a[i];
      assert forall i :: 0 <= i < |b| ==> (a + b)[|a| + i] == b[i];
    }
  }

  lemma InAllJoined(a: seq<set<nat>>, b: seq<set<nat>>, c: seq<set<nat>>)
    ensures forall o :: InAll(a + b + c, o) <==> InAll(a, o) && InAll(b, o) && InAll(c, o)
  {
    forall o ensures InAll(a + b + c, o) <==> InAll(a, o) && InAll(b, o) && InAll(c, o) {
      InAllConcat(a, b, o);
      InAllConcat(a + b, c, o);
    }
  }

  lemma InOne(s: set<nat>)
    ensures forall o :: InAll([s], o) <==> o in s
    ensures forall o :: InAny([s], o) <==> o in s
  {
    assert [s][0] == s;
  }

  lemma InNone()
    ensures forall o :: InAll([], o)
    ensures forall o :: !InAny([], o)
  {
  }

  lemma InAnyOfThree(a: set<nat>, b: set<nat>, c: set<nat>, o: int)
    ensures InAny([a, b, c], o) <==> o in a || o in b || o in c
  {
    var sets := [a, b, c];
    assert sets[0] == a && sets[1] == b && sets[2] == c;
  }

  datatype Query = Query(all: seq<set<nat>>, any: seq<set<nat>>, none: seq<set<nat>>, min: nat, max: nat) {
    predicate Excludes(o: int) {
      InAny(none, o)
    }

    predicate Hits(o: int) {
      InAll(all, o) && (any == [] || InAny(any, o)) && !Excludes(o)
    }

    predicate NamesNoSet() {
      all == [] && any == []
    }

    /** What the query matches, ascending: every answer the library gives is read off this. */
    function Matches(): seq<int> {
      Ascending(min, max + 1, Test())
    }

    function Test(): int -> bool {
      o => Hits(o)
    }
  }
}
