/** Keys numbered 0, 1, 2, ... in the order of their first appearance: the one answer every map variant gives. */
module KeyOrder {
  import opened Words
  import opened Arnm

  type Key = nat

  ghost predicate Distinct(keys: seq<Key>) {
    forall i, j :: 0 <= i < j < |keys| ==> keys[i] != keys[j]
  }

  function After(keys: seq<Key>, key: Key): seq<Key> {
    if key in keys then keys else keys + [key]
  }

  /** The place of a key, or the length when it has not appeared. */
  function IdOf(keys: seq<Key>, key: Key): (id: nat)
    ensures id <= |keys|
    ensures id < |keys| ==> keys[id] == key
    ensures id < |keys| <==> key in keys
  {
    if keys == [] then 0
    else if keys[0] == key then 0
    else 1 + IdOf(keys[1..], key)
  }

  lemma IdIs(keys: seq<Key>, i: nat)
    requires Distinct(keys) && i < |keys|
    ensures IdOf(keys, keys[i]) == i
  {
  }

  /** The keys of a run of lookups, each where it first appeared. */
  function Appeared(ops: seq<Key>): seq<Key> {
    if ops == [] then [] else After(Appeared(ops[..|ops| - 1]), ops[|ops| - 1])
  }

  /** The ids such a run answers, one after the other. */
  function Ids(ops: seq<Key>): (ids: seq<nat>)
    ensures |ids| == |ops|
  {
    if ops == [] then []
    else
      var init, key := ops[..|ops| - 1], ops[|ops| - 1];
      Ids(init) + [IdOf(After(Appeared(init), key), key)]
  }

  lemma {:induction false} AppearedDistinct(ops: seq<Key>)
    ensures Distinct(Appeared(ops))
    ensures forall k :: k in Appeared(ops) <==> k in ops
  {
    if ops != [] {
      AppearedDistinct(ops[..|ops| - 1]);
      assert ops == ops[..|ops| - 1] + [ops[|ops| - 1]];
    }
  }

  /** An id once given never changes, and a new one is the number of keys before it. */
  lemma {:induction false} IdsAreByFirstAppearance(ops: seq<Key>, i: nat)
    requires i < |ops|
    ensures Ids(ops)[i] == IdOf(Appeared(ops), ops[i])
  {
    var init, key := ops[..|ops| - 1], ops[|ops| - 1];
    if i < |ops| - 1 {
      IdsAreByFirstAppearance(init, i);
      AppearedDistinct(init);
      IdStays(Appeared(init), key, init[i]);
    }
  }

  lemma IdStays(keys: seq<Key>, key: Key, earlier: Key)
    requires Distinct(keys) && earlier in keys
    ensures IdOf(After(keys, key), earlier) == IdOf(keys, earlier)
  {
    var id := IdOf(keys, earlier);
    assert After(keys, key)[id] == earlier;
    assert Distinct(After(keys, key));
    IdIs(After(keys, key), id);
  }

  /** The map the indices rely on, read off the keys in their order. */
  ghost function AsMap(keys: seq<Key>): map<nat, nat> {
    map k | k in keys :: IdOf(keys, k)
  }

  lemma AsMapDense(keys: seq<Key>)
    requires Distinct(keys)
    ensures Dense(AsMap(keys)) && |AsMap(keys)| == |keys|
  {
    MapSize(keys);
    var m := AsMap(keys);
    forall j, k | j in m && k in m && m[j] == m[k] ensures j == k {
      assert keys[m[j]] == j && keys[m[k]] == k;
    }
  }

  /** A map variant keeps the contract the indices assume of theirs: dense ids, one more for a new key. */
  lemma AsMapKeepsContract(keys: seq<Key>, key: Key)
    requires Distinct(keys)
    ensures Dense(AsMap(keys)) && |AsMap(keys)| == |keys|
    ensures AsMap(After(keys, key)) == WithKey(AsMap(keys), key)
  {
    hide Dense, Distinct, IdOf;
    AsMapDense(keys);
    var more, grown := AsMap(After(keys, key)), WithKey(AsMap(keys), key);
    assert more.Keys == grown.Keys;
    forall k | k in more ensures more[k] == grown[k] {
      if k in keys {
        IdStays(keys, key, k);
      } else {
        NewIdIs(keys, key);
      }
    }
  }

  lemma NewIdIs(keys: seq<Key>, key: Key)
    requires Distinct(keys) && key !in keys
    ensures IdOf(After(keys, key), key) == |keys|
  {
    var more := After(keys, key);
    assert more[|keys|] == key;
    IdIs(more, |keys|);
  }

  lemma MapSize(keys: seq<Key>)
    requires Distinct(keys)
    ensures |AsMap(keys)| == |keys|
  {
    SetSize(keys);
    assert AsMap(keys).Keys == KeySet(keys);
  }

  ghost function KeySet(keys: seq<Key>): set<Key> {
    set k | k in keys
  }

  lemma {:induction false} SetSize(keys: seq<Key>)
    requires Distinct(keys)
    ensures |KeySet(keys)| == |keys|
  {
    if keys != [] {
      var init, last := keys[..|keys| - 1], keys[|keys| - 1];
      SetSize(init);
      assert keys == init + [last];
      assert last !in init;
      assert KeySet(keys) == KeySet(init) + {last};
    }
  }
}
