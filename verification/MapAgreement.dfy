/**
 The three maps run on the same lookups. Memory may run out at any of them; a lookup that found none
 answers an error and leaves nothing behind, so the ids depend on the answered lookups alone.
 */
module MapAgreement {
  import opened Words
  import opened Arnm
  import opened KeyOrder
  import InlineMap
  import NarrowMap
  import SortedMap

  /** The lookups that were answered. */
  function Kept(ops: seq<Key>, ids: seq<Option<nat>>): seq<Key>
    requires |ids| == |ops|
  {
    if ops == [] then []
    else
      var kept := Kept(ops[..|ops| - 1], ids[..|ids| - 1]);
      if ids[|ids| - 1].Some? then kept + [ops[|ops| - 1]] else kept
  }

  /** Every answered lookup got the id of its key: its place among the answered keys by first appearance. */
  ghost predicate Answered(ops: seq<Key>, ids: seq<Option<nat>>) {
    && |ids| == |ops|
    && forall i :: 0 <= i < |ops| && ids[i].Some? ==> Answer(Appeared(Kept(ops, ids)), ops[i]) == ids[i]
  }

  function Answer(keys: seq<Key>, key: Key): Option<nat> {
    if key in keys then Some(IdOf(keys, key)) else None
  }

  /** One more lookup, answered or refused, changes no id given before. */
  lemma AnsweredMore(ops: seq<Key>, ids: seq<Option<nat>>, key: Key, id: Option<nat>)
    requires Answered(ops, ids)
    requires id.Some? ==> id.value == IdOf(After(Appeared(Kept(ops, ids)), key), key)
    ensures Answered(ops + [key], ids + [id])
    ensures var keys := Appeared(Kept(ops, ids));
            Appeared(Kept(ops + [key], ids + [id])) == if id.Some? then After(keys, key) else keys
  {
    hide IdOf, Distinct;
    var kept := Kept(ops, ids);
    assert (ops + [key])[..|ops|] == ops && (ids + [id])[..|ids|] == ids;
    assert id.Some? ==> (kept + [key])[..|kept|] == kept;
    AppearedDistinct(kept);
    forall i | 0 <= i < |ops| && ids[i].Some?
      ensures Answer(Appeared(Kept(ops + [key], ids + [id])), ops[i]) == ids[i]
    {
      assert Answer(Appeared(kept), ops[i]) == ids[i];
      IdStays(Appeared(kept), key, ops[i]);
    }
  }

  /** Two maps that answered the same lookups gave the same ids. */
  lemma {:induction false} SameLookupsSameIds(ops: seq<Key>, ids: seq<Option<nat>>, ids': seq<Option<nat>>)
    requires Answered(ops, ids) && Answered(ops, ids')
    requires forall i :: 0 <= i < |ops| ==> (ids[i].Some? <==> ids'[i].Some?)
    ensures ids == ids'
  {
    SameKept(ops, ids, ids');
    forall i | 0 <= i < |ops| ensures ids[i] == ids'[i] {
    }
  }

  lemma {:induction false} SameKept(ops: seq<Key>, ids: seq<Option<nat>>, ids': seq<Option<nat>>)
    requires |ops| == |ids| == |ids'|
    requires forall i :: 0 <= i < |ops| ==> (ids[i].Some? <==> ids'[i].Some?)
    ensures Kept(ops, ids) == Kept(ops, ids')
  {
    if ops != [] {
      var n := |ops| - 1;
      SameKept(ops[..n], ids[..n], ids'[..n]);
    }
  }

  lemma {:induction false} AllKept(ops: seq<Key>, ids: seq<Option<nat>>)
    requires |ids| == |ops| && forall i :: 0 <= i < |ids| ==> ids[i].Some?
    ensures Kept(ops, ids) == ops
  {
    if ops != [] {
      AllKept(ops[..|ops| - 1], ids[..|ids| - 1]);
    }
  }

  /** A run has seen no more distinct keys than a longer one. */
  lemma {:induction false} AppearedGrows(ops: seq<Key>, i: nat)
    requires i <= |ops|
    ensures |Appeared(ops[..i])| <= |Appeared(ops)|
  {
    if i < |ops| {
      var init := ops[..|ops| - 1];
      AppearedGrows(init, i);
      assert init[..i] == ops[..i];
    } else {
      assert ops[..i] == ops;
    }
  }

  lemma NoneAnswered()
    ensures Answered([], []) && Appeared(Kept([], [])) == []
  {
  }

  method RunInline(ops: seq<Key>, grants: nat -> Grants, loadPercent: nat, hash: InlineMap.Hash)
    returns (m: InlineMap.Map, ids: seq<Option<nat>>)
    requires 10 <= loadPercent <= 95
    ensures m.Valid() && Answered(ops, ids) && m.keys == Appeared(Kept(ops, ids))
    ensures (forall k: nat :: Generous(grants(k))) && |Appeared(ops)| <= 5_000_000 ==>
              forall i :: 0 <= i < |ids| ==> ids[i].Some?
  {
    hide Answered, Kept, Appeared, Generous, IdOf, After, InlineMap.Map.Valid;
    m := new InlineMap.Map(loadPercent, hash);
    ids := [];
    NoneAnswered();
    for i := 0 to |ops|
      invariant m.Valid() && fresh(m) && fresh(m.slots)
      invariant Answered(ops[..i], ids) && |ids| == i && m.keys == Appeared(Kept(ops[..i], ids))
      invariant (forall k: nat :: Generous(grants(k))) && |Appeared(ops)| <= 5_000_000 ==>
                 forall j :: 0 <= j < |ids| ==> ids[j].Some?
    {
      if forall j :: 0 <= j < |ids| ==> ids[j].Some? { AllKept(ops[..i], ids); }
      AppearedGrows(ops, i);
      var r, id, _ := m.GetOrInsert(ops[i], grants(i));
      var answer := if r == Ok then Some(id) else None;
      AnsweredMore(ops[..i], ids, ops[i], answer);
      assert ops[..i + 1] == ops[..i] + [ops[i]];
      ids := ids + [answer];
    }
    assert ops[..|ops|] == ops;
  }

  method RunNarrow(ops: seq<Key>, grants: nat -> Grants, loadPercent: nat, hash: NarrowMap.Hash)
    returns (m: NarrowMap.Map, ids: seq<Option<nat>>)
    requires 10 <= loadPercent <= 95
    ensures m.Valid() && Answered(ops, ids) && m.keys == Appeared(Kept(ops, ids))
    ensures (forall k: nat :: Generous(grants(k))) && |Appeared(ops)| <= 5_000_000 ==>
              forall i :: 0 <= i < |ids| ==> ids[i].Some?
  {
    hide Answered, Kept, Appeared, Generous, IdOf, After, NarrowMap.Map.Valid;
    m := new NarrowMap.Map(loadPercent, hash);
    ids := [];
    NoneAnswered();
    for i := 0 to |ops|
      invariant m.Valid() && fresh(m) && fresh(m.slots)
      invariant Answered(ops[..i], ids) && |ids| == i && m.keys == Appeared(Kept(ops[..i], ids))
      invariant (forall k: nat :: Generous(grants(k))) && |Appeared(ops)| <= 5_000_000 ==>
                 forall j :: 0 <= j < |ids| ==> ids[j].Some?
    {
      if forall j :: 0 <= j < |ids| ==> ids[j].Some? { AllKept(ops[..i], ids); }
      AppearedGrows(ops, i);
      var r, id, _ := m.GetOrInsert(ops[i], grants(i));
      var answer := if r == Ok then Some(id) else None;
      AnsweredMore(ops[..i], ids, ops[i], answer);
      assert ops[..i + 1] == ops[..i] + [ops[i]];
      ids := ids + [answer];
    }
    assert ops[..|ops|] == ops;
  }

  method RunSorted(ops: seq<Key>, grants: nat -> Grants) returns (m: SortedMap.Map, ids: seq<Option<nat>>)
    ensures m.Valid() && Answered(ops, ids) && m.keys == Appeared(Kept(ops, ids))
    ensures (forall k: nat :: Generous(grants(k))) && |Appeared(ops)| <= 5_000_000 ==>
              forall i :: 0 <= i < |ids| ==> ids[i].Some?
  {
    hide Answered, Kept, Appeared, Generous, IdOf, After, SortedMap.Map.Valid;
    m := new SortedMap.Map();
    ids := [];
    NoneAnswered();
    for i := 0 to |ops|
      invariant m.Valid() && fresh(m) && fresh(m.entries)
      invariant Answered(ops[..i], ids) && |ids| == i && m.keys == Appeared(Kept(ops[..i], ids))
      invariant (forall k: nat :: Generous(grants(k))) && |Appeared(ops)| <= 5_000_000 ==>
                 forall j :: 0 <= j < |ids| ==> ids[j].Some?
    {
      if forall j :: 0 <= j < |ids| ==> ids[j].Some? { AllKept(ops[..i], ids); }
      AppearedGrows(ops, i);
      var r, id, _ := m.GetOrInsert(ops[i], grants(i));
      var answer := if r == Ok then Some(id) else None;
      AnsweredMore(ops[..i], ids, ops[i], answer);
      assert ops[..i + 1] == ops[..i] + [ops[i]];
      ids := ids + [answer];
    }
    assert ops[..|ops|] == ops;
  }

  ghost predicate AllAnswered(ids: seq<Option<nat>>) {
    forall i :: 0 <= i < |ids| ==> ids[i].Some?
  }

  /** Which of a run's lookups were answered. */
  function Pattern(ids: seq<Option<nat>>): (r: seq<bool>)
    ensures |r| == |ids|
  {
    seq(|ids|, i requires 0 <= i < |ids| => ids[i].Some?)
  }

  /**
   The three maps on the same lookups, whatever the hash, the load and the memory. With memory, and up
   to five million keys among any number of lookups, every lookup is answered. Where the same lookups
   are answered the ids are the same, and each map then finds exactly the keys answered, under their ids.
   */
  method Agreement(ops: seq<Key>, asked: Key, grants: nat -> Grants, loadPercent: nat, hash: InlineMap.Hash)
    returns (ids: seq<Option<nat>>, ids2: seq<Option<nat>>, ids3: seq<Option<nat>>,
             found: Option<nat>, found2: Option<nat>, found3: Option<nat>)
    requires 10 <= loadPercent <= 95
    ensures Answered(ops, ids) && Answered(ops, ids2) && Answered(ops, ids3)
    ensures (forall k: nat :: Generous(grants(k))) && |Appeared(ops)| <= 5_000_000 ==>
              AllAnswered(ids) && AllAnswered(ids2) && AllAnswered(ids3)
    ensures Pattern(ids) == Pattern(ids2) == Pattern(ids3) ==> ids == ids2 == ids3 && found == found2 == found3
    ensures found == Answer(Appeared(Kept(ops, ids)), asked)
    ensures AllAnswered(ids) ==> (found.Some? <==> asked in ops) && found == Answer(Appeared(ops), asked)
    ensures AllAnswered(ids) ==> forall i :: 0 <= i < |ops| ==> ids[i] == Some(Ids(ops)[i])
  {
    hide Generous, IdOf, Kept, Appeared, Ids, Answered;
    var inline, narrow, sorted;
    inline, ids := RunInline(ops, grants, loadPercent, hash);
    narrow, ids2 := RunNarrow(ops, grants, loadPercent, hash);
    sorted, ids3 := RunSorted(ops, grants);
    found := inline.Find(asked);
    found2 := narrow.Find(asked);
    found3 := sorted.Find(asked);
    SamePattern(ops, ids, ids2);
    SamePattern(ops, ids, ids3);
    if AllAnswered(ids) { AnsweredAll(ops, ids, asked); }
  }

  lemma SamePattern(ops: seq<Key>, ids: seq<Option<nat>>, ids': seq<Option<nat>>)
    requires Answered(ops, ids) && Answered(ops, ids')
    ensures Pattern(ids) == Pattern(ids') ==> ids == ids' && Kept(ops, ids) == Kept(ops, ids')
  {
    if Pattern(ids) == Pattern(ids') {
      forall i | 0 <= i < |ops| ensures ids[i].Some? <==> ids'[i].Some? {
        assert Pattern(ids)[i] == Pattern(ids')[i];
      }
      SameLookupsSameIds(ops, ids, ids');
      SameKept(ops, ids, ids');
    }
  }

  lemma AnsweredAll(ops: seq<Key>, ids: seq<Option<nat>>, asked: Key)
    requires Answered(ops, ids) && AllAnswered(ids)
    ensures Kept(ops, ids) == ops
    ensures asked in Appeared(ops) <==> asked in ops
    ensures forall i :: 0 <= i < |ops| ==> ids[i] == Some(Ids(ops)[i])
  {
    hide IdOf, Distinct;
    AllKept(ops, ids);
    AppearedDistinct(ops);
    forall i | 0 <= i < |ops| ensures ids[i] == Some(Ids(ops)[i]) {
      IdsAreByFirstAppearance(ops, i);
      assert Answer(Appeared(ops), ops[i]) == ids[i];
    }
  }
}
