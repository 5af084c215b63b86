/** The register of a chain's addresses: per address a linked list of type records and its newest balance change. */
module AddressRegister {
  import opened Words
  import opened Ledger
  import opened Arnm
  import opened Histories

  const NO_CHANGE := -1

  datatype Entry = Entry(lastBalanceTx: nat, lastChange: int)
  datatype Change = Change(txNr: nat, previous: int, kind: nat)

  const NO_ENTRY := Entry(0, NO_CHANGE)

  /** Every record links to an earlier one: the links cannot run in a circle. */
  ghost predicate Linked(changes: seq<Change>) {
    forall i :: 0 <= i < |changes| ==> NO_CHANGE <= changes[i].previous < i
  }

  /** The records from a position on, newest first. */
  ghost function Walk(changes: seq<Change>, at: int): seq<Record>
    requires Linked(changes) && NO_CHANGE <= at < |changes|
    decreases at + 1
  {
    if at == NO_CHANGE then []
    else [Record(changes[at].txNr, changes[at].kind)] + Walk(changes, changes[at].previous)
  }

  lemma {:induction false} WalkKept(changes: seq<Change>, c: Change, at: int)
    requires Linked(changes) && NO_CHANGE <= at < |changes| && NO_CHANGE <= c.previous < |changes|
    ensures Linked(changes + [c]) && Walk(changes + [c], at) == Walk(changes, at)
    decreases at + 1
  {
    if at != NO_CHANGE {
      WalkKept(changes, c, changes[at].previous);
    }
  }

  ghost predicate Sound(t: Table<Entry>, changes: seq<Change>) {
    TableOk(t) && Linked(changes) && forall k :: InReach(t, changes, k)
  }

  ghost predicate InReach(t: Table<Entry>, changes: seq<Change>, key: Key) {
    NO_CHANGE <= Lookup(t, key, NO_ENTRY).lastChange < |changes|
  }

  /** What the register tells of a key's types. */
  ghost function Told(t: Table<Entry>, changes: seq<Change>, key: Key): seq<Record>
    requires Sound(t, changes)
  {
    assert InReach(t, changes, key);
    Walk(changes, Lookup(t, key, NO_ENTRY).lastChange)
  }

  ghost function Moved(t: Table<Entry>, key: Key): nat {
    Lookup(t, key, NO_ENTRY).lastBalanceTx
  }

  /** A record written in front of one key's list leaves every other list as it was. */
  lemma ChangePushed(t: Table<Entry>, changes: seq<Change>, key: Key, txNr: nat, kind: nat, t1: Table<Entry>)
    requires Sound(t, changes) && TableOk(t1)
    requires var entry := Lookup(t, key, NO_ENTRY);
             forall k :: Lookup(t1, k, NO_ENTRY)
                         == if k == key then entry.(lastChange := |changes|) else Lookup(t, k, NO_ENTRY)
    ensures var changes1 := changes + [Change(txNr, Lookup(t, key, NO_ENTRY).lastChange, kind)];
            && Sound(t1, changes1)
            && (forall k :: k != key ==> Told(t1, changes1, k) == Told(t, changes, k))
            && Told(t1, changes1, key) == [Record(txNr, kind)] + Told(t, changes, key)
  {
    hide Lookup, TableOk;
    var c := Change(txNr, Lookup(t, key, NO_ENTRY).lastChange, kind);
    var changes1 := changes + [c];
    assert InReach(t, changes, key);
    WalkKept(changes, c, c.previous);
    forall k ensures InReach(t1, changes1, k) {
      assert InReach(t, changes, k);
    }
    forall k | k != key ensures Told(t1, changes1, k) == Told(t, changes, k) {
      assert InReach(t, changes, k);
      WalkKept(changes, c, Lookup(t, k, NO_ENTRY).lastChange);
    }
  }

  lemma TableSame(t: Table<Entry>, changes: seq<Change>, t1: Table<Entry>)
    requires Sound(t, changes) && TableOk(t1)
    requires forall k :: Lookup(t1, k, NO_ENTRY).lastChange == Lookup(t, k, NO_ENTRY).lastChange
    ensures Sound(t1, changes) && forall k :: Told(t1, changes, k) == Told(t, changes, k)
  {
    hide Lookup, TableOk, Walk;
    forall k ensures InReach(t1, changes, k) {
      assert InReach(t, changes, k);
    }
  }

  // ----- the calls an add makes, and how far each key's list has come after some of them

  function Calls(tx: Transaction): (r: seq<(Key, nat)>)
    ensures |r| <= 2
  {
    if tx.kind == COMMUNITY_ROOT then [(tx.part1, COMMUNITY_GMW), (tx.part2, COMMUNITY_AUF)]
    else if tx.kind == REGISTER_ADDRESS then [(tx.part0, tx.addressType), (tx.part2, tx.addressType)]
    else if tx.kind == DEFERRED_TRANSFER then [(tx.part1, DEFERRED_TRANSFER_ADDRESS)]
    else []
  }

  /** How many of the types given to a key the first j calls have noted. */
  ghost function Progress(tx: Transaction, key: Key, j: nat): nat
    requires j <= |Calls(tx)|
  {
    if key == NO_KEY then 0
    else if tx.kind == REGISTER_ADDRESS then
      if (1 <= j && tx.part0 == key) || (2 <= j && tx.part2 == key) then 1 else 0
    else (if 1 <= j && Calls(tx)[0].0 == key then 1 else 0) + (if 2 <= j && Calls(tx)[1].0 == key then 1 else 0)
  }

  lemma ProgressEnds(tx: Transaction, key: Key)
    ensures Progress(tx, key, 0) == 0 && Progress(tx, key, |Calls(tx)|) == |Given(tx, key)|
  {
  }

  lemma CallReaches(h: seq<Record>, before: seq<Record>, tx: Transaction, key: Key, j: nat)
    requires j < |Calls(tx)| && Reached(h, before, tx.txNr, Given(tx, key), Progress(tx, key, j))
    requires forall i :: 0 <= i < |before| ==> before[i].txNr < tx.txNr
    ensures var call := Calls(tx)[j];
            var h1 := if call.0 == key && key != NO_KEY then Note(h, tx.txNr, call.1) else h;
            Reached(h1, before, tx.txNr, Given(tx, key), Progress(tx, key, j + 1))
  {
    hide Reached, Note;
    var call, given, p := Calls(tx)[j], Given(tx, key), Progress(tx, key, j);
    if call.0 == key && key != NO_KEY {
      if p < |given| {
        GivenDistinct(tx, key);
        assert given[p] == call.1;
        NoteReaches(h, before, tx.txNr, given, p);
      } else {
        assert given[0] == call.1 && given[..p][0] == call.1;
        NoteAgain(h, before, tx.txNr, given, p, call.1);
      }
    }
  }

  ghost predicate Stands(t: Table<Entry>, changes: seq<Change>, txs: seq<Transaction>, tx: Transaction, j: nat)
    requires Sound(t, changes) && j <= |Calls(tx)|
  {
    forall k :: Reached(Told(t, changes, k), History(txs, k), tx.txNr, Given(tx, k), Progress(tx, k, j))
  }

  lemma CallStands(t: Table<Entry>, changes: seq<Change>, txs: seq<Transaction>, tx: Transaction, j: nat,
                   t1: Table<Entry>, changes1: seq<Change>)
    requires Sound(t, changes) && Sound(t1, changes1) && j < |Calls(tx)|
    requires Stands(t, changes, txs, tx, j) && forall i :: 0 <= i < |txs| ==> txs[i].txNr < tx.txNr
    requires var call := Calls(tx)[j];
             forall k ::
               Told(t1, changes1, k) == if call.0 == k && k != NO_KEY then Note(Told(t, changes, k), tx.txNr, call.1)
                                                  else Told(t, changes, k)
    ensures Stands(t1, changes1, txs, tx, j + 1)
  {
    hide Reached, Note, Told, Sound, Progress, Given, Calls;
    forall k ensures Reached(Told(t1, changes1, k), History(txs, k), tx.txNr, Given(tx, k), Progress(tx, k, j + 1)) {
      HistoryBelow(txs, k, tx.txNr);
      CallReaches(Told(t, changes, k), History(txs, k), tx, k, j);
    }
  }

  lemma PendStands(t: Table<Entry>, changes: seq<Change>, txs: seq<Transaction>, tx: Transaction)
    requires Sound(t, changes) && forall k :: Told(t, changes, k) == History(txs, k)
    ensures Stands(t, changes, txs, tx, 0)
  {
    hide Told, Sound, Given, Calls, History;
    forall k ensures Reached(Told(t, changes, k), History(txs, k), tx.txNr, Given(tx, k), Progress(tx, k, 0)) {
      ProgressEnds(tx, k);
      assert Tagged(tx.txNr, Given(tx, k)[..0]) + History(txs, k) == History(txs, k);
    }
  }

  lemma EndStands(t: Table<Entry>, changes: seq<Change>, txs: seq<Transaction>, tx: Transaction)
    requires Sound(t, changes) && Stands(t, changes, txs, tx, |Calls(tx)|)
    ensures forall k :: Told(t, changes, k) == History(txs + [tx], k)
  {
    hide Told, Sound, Given, Calls, Reached, Progress;
    forall k ensures Told(t, changes, k) == History(txs + [tx], k) {
      ProgressEnds(tx, k);
      ReachedAll(Told(t, changes, k), History(txs, k), tx.txNr, Given(tx, k));
      assert (txs + [tx])[..|txs|] == txs;
    }
  }

  /** After fewer calls than all of them a retry still starts from a list it can complete. */
  lemma StandsFromStart(t: Table<Entry>, changes: seq<Change>, txs: seq<Transaction>, tx: Transaction, j: nat)
    requires Sound(t, changes) && j <= |Calls(tx)| && Stands(t, changes, txs, tx, j)
    ensures Stands(t, changes, txs, tx, 0)
  {
    hide Told, Sound, Given, Calls, Progress;
    forall k ensures Reached(Told(t, changes, k), History(txs, k), tx.txNr, Given(tx, k), Progress(tx, k, 0)) {
      ProgressEnds(tx, k);
    }
  }

  lemma SameStands(t: Table<Entry>, changes: seq<Change>, txs: seq<Transaction>, tx: Transaction, j: nat,
                   t1: Table<Entry>, changes1: seq<Change>)
    requires Sound(t, changes) && Sound(t1, changes1) && j <= |Calls(tx)| && Stands(t, changes, txs, tx, j)
    requires forall k :: Told(t1, changes1, k) == Told(t, changes, k)
    ensures Stands(t1, changes1, txs, tx, j)
  {
    hide Reached, Told, Sound, Progress, Given, Calls;
  }

  // ----- balances

  lemma SameBalances(t: Table<Entry>, txs: seq<Transaction>, tx: Transaction, t1: Table<Entry>)
    requires forall k :: Moved(t1, k) == Moved(t, k)
    requires forall k :: BalanceStands(t, txs, tx, k)
    ensures forall k :: BalanceStands(t1, txs, tx, k)
  {
    hide Moved, LastBalance, MovesBalance;
    forall k ensures BalanceStands(t1, txs, tx, k) {
      assert BalanceStands(t, txs, tx, k);
    }
  }

  lemma PendBalances(t: Table<Entry>, txs: seq<Transaction>, tx: Transaction)
    requires forall k :: Moved(t, k) == LastBalance(txs, k)
    ensures forall k :: BalanceStands(t, txs, tx, k)
  {
    hide Moved, LastBalance, MovesBalance;
  }

  lemma Moves(tx: Transaction, b: Balance)
    requires b in tx.balances && b.key != NO_KEY
    ensures MovesBalance(tx, b.key)
  {
  }

  /** A key's newest balance change is the replay's, or already the pending transaction's own. */
  ghost predicate BalanceStands(t: Table<Entry>, txs: seq<Transaction>, tx: Transaction, key: Key) {
    Moved(t, key) == LastBalance(txs, key) || (MovesBalance(tx, key) && Moved(t, key) == tx.txNr)
  }

  lemma BalancesEnd(t: Table<Entry>, txs: seq<Transaction>, tx: Transaction)
    requires forall k :: BalanceStands(t, txs, tx, k)
    requires forall b :: b in tx.balances && b.key != NO_KEY ==> Moved(t, b.key) == tx.txNr
    ensures forall k :: Moved(t, k) == LastBalance(txs + [tx], k)
  {
    hide Moved;
    forall k ensures Moved(t, k) == LastBalance(txs + [tx], k) {
      assert BalanceStands(t, txs, tx, k);
      assert (txs + [tx])[..|txs|] == txs;
    }
  }

  /** What a register holding txs answers to one more transaction when memory is no question. */
  function Verdict(txs: seq<Transaction>, tx: Transaction): Status {
    if txs != [] && tx.txNr <= txs[|txs| - 1].txNr then InvalidParam
    else if tx.kind >= KIND_COUNT then InvalidEnumType
    else if TypeUnknown(tx) then InvalidEnumType
    else Ok
  }

  /** A registration that names some key and a type past the last the library knows. */
  predicate TypeUnknown(tx: Transaction) {
    tx.kind == REGISTER_ADDRESS && tx.addressType > DEFERRED_TRANSFER_ADDRESS
    && (tx.part0 != NO_KEY || tx.part2 != NO_KEY)
  }

  /** The register tells what a replay of txs tells. */
  ghost predicate Replayed(t: Table<Entry>, changes: seq<Change>, txs: seq<Transaction>)
    requires Sound(t, changes)
  {
    (forall k :: Told(t, changes, k) == History(txs, k)) && (forall k :: Moved(t, k) == LastBalance(txs, k))
  }

  /** Adding tx once more completes it, however far it had come. */
  ghost predicate Retriable(t: Table<Entry>, changes: seq<Change>, txs: seq<Transaction>, tx: Transaction)
    requires Sound(t, changes)
  {
    Stands(t, changes, txs, tx, 0) && forall k :: BalanceStands(t, txs, tx, k)
  }

  lemma ReplayedIsRetriable(t: Table<Entry>, changes: seq<Change>, txs: seq<Transaction>, tx: Transaction)
    requires Sound(t, changes) && Replayed(t, changes, txs)
    ensures Retriable(t, changes, txs, tx)
  {
    PendStands(t, changes, txs, tx);
    PendBalances(t, txs, tx);
  }

  lemma AscendsOn(txs: seq<Transaction>, tx: Transaction)
    requires NumbersAscend(txs) && (txs != [] ==> txs[|txs| - 1].txNr < tx.txNr)
    ensures NumbersAscend(txs + [tx]) && forall i :: 0 <= i < |txs| ==> txs[i].txNr < tx.txNr
  {
  }

  function NonZero(n: nat): Option<nat> {
    if n == 0 then None else Some(n)
  }

  /** The numbers of the newest records, as many as asked for. */
  ghost predicate Lists(out: seq<nat>, h: seq<Record>, size: nat) {
    |out| == (if |h| < size then |h| else size) && forall i :: 0 <= i < |out| ==> out[i] == h[i].txNr
  }

  lemma CountWraps(n: nat)
    ensures (n % W32 + 1) % W32 == (n + 1) % W32
  {
  }

  class Register {
    var keyIds: map<Key, nat>
    var entries: seq<Entry>
    var typeChanges: seq<Change>
    var maxTxNr: uint64
    var transactionCount: uint32

    ghost var txs: seq<Transaction>
    ghost var pending: Option<Transaction>

    ghost function Keys(): Table<Entry>
      reads this
    {
      Table(keyIds, entries)
    }

    ghost predicate Valid()
      reads this
    {
      && Sound(Keys(), typeChanges)
      && NumbersAscend(txs) && transactionCount == |txs| % W32 && (txs != [] ==> maxTxNr == txs[|txs| - 1].txNr)
      && (pending.None? ==> Replayed(Keys(), typeChanges, txs))
      && (pending.Some? ==> Retriable(Keys(), typeChanges, txs, pending.value))
    }

    /** A refused transaction is retried as it was, or its number is one already passed. */
    ghost predicate MayFollow(tx: Transaction)
      reads this
    {
      pending.Some? ==> tx == pending.value || (txs != [] && tx.txNr <= txs[|txs| - 1].txNr)
    }

    constructor ()
      ensures Valid() && txs == [] && pending == None
    {
      keyIds, entries, typeChanges, maxTxNr, transactionCount := map[], [], [], 0, 0;
      txs, pending := [], None;
      new;
      assert forall k :: InReach(Keys(), typeChanges, k);
    }

    method EntryForKey(key: Key, grants: Grants, tick: nat) returns (r: Status, id: nat, tock: nat)
      requires TableOk(Keys())
      modifies this`keyIds, this`entries
      ensures TableOk(Keys())
      ensures forall k :: Lookup(Keys(), k, NO_ENTRY) == Lookup(old(Keys()), k, NO_ENTRY)
      ensures r == Ok || r == OutOfMemory
      ensures Generous(grants) ==> r == Ok
      ensures r == Ok ==> key in keyIds && id == keyIds[key] && id < |entries|
    {
      r, id, tock := Ok, 0, tick;
      if key !in keyIds {
        if !grants(tock) { return OutOfMemory, id, tock; }
        tock := tock + 1;
      }
      TableOpened(Keys(), key, NO_ENTRY);
      keyIds := WithKey(keyIds, key);
      id := keyIds[key];
      while |entries| <= id
        invariant TableOk(Keys()) && key in keyIds && id == keyIds[key]
        invariant forall k :: Lookup(Keys(), k, NO_ENTRY) == Lookup(old(Keys()), k, NO_ENTRY)
      {
        if !grants(tock) { return OutOfMemory, id, tock; }
        tock := tock + 1;
        TableGrown(Keys(), NO_ENTRY);
        entries := entries + [NO_ENTRY];
      }
    }

    /** Whether the newest records from a position on, those of this very number, hold the type. */
    method FindNoted(lastChange: int, txNr: uint64, kind: nat) returns (found: bool)
      requires Linked(typeChanges) && NO_CHANGE <= lastChange < |typeChanges|
      ensures found == Noted(Walk(typeChanges, lastChange), txNr, kind)
    {
      var at := lastChange;
      found := false;
      while at != NO_CHANGE
        invariant NO_CHANGE <= at < |typeChanges|
        invariant Noted(Walk(typeChanges, lastChange), txNr, kind) == Noted(Walk(typeChanges, at), txNr, kind)
        decreases at + 1
      {
        var known := typeChanges[at];
        var rest := Walk(typeChanges, known.previous);
        assert ([Record(known.txNr, known.kind)] + rest)[1..] == rest;
        if known.txNr != txNr { return false; }
        if known.kind == kind { return true; }
        at := known.previous;
      }
    }

    /** Notes a kind: every other key is told the same as before, this one its list with the kind noted. */
    method NoteType(key: Key, txNr: uint64, kind: nat, grants: Grants, tick: nat) returns (r: Status, tock: nat)
      requires Sound(Keys(), typeChanges)
      modifies this`keyIds, this`entries, this`typeChanges
      ensures Sound(Keys(), typeChanges)
      ensures forall k :: Moved(Keys(), k) == Moved(old(Keys()), k)
      ensures r == Ok || r == OutOfMemory || r == InvalidEnumType
      ensures r == InvalidEnumType <==> key != NO_KEY && kind > DEFERRED_TRANSFER_ADDRESS
      ensures key == NO_KEY ==> r == Ok
      ensures key == NO_KEY || r == InvalidEnumType ==> Keys() == old(Keys()) && typeChanges == old(typeChanges)
      ensures Generous(grants) ==> r != OutOfMemory
      ensures forall k :: Told(Keys(), typeChanges, k)
                       == if r == Ok && k == key && k != NO_KEY
                          then Note(Told(old(Keys()), old(typeChanges), k), txNr, kind)
                          else Told(old(Keys()), old(typeChanges), k)
    {
      hide Walk;
      if key == NO_KEY { return Ok, tick; }
      if kind > DEFERRED_TRANSFER_ADDRESS { return InvalidEnumType, tick; }
      var id;
      ghost var t0 := Keys();
      r, id, tock := EntryForKey(key, grants, tick);
      TableSame(t0, typeChanges, Keys());
      if r != Ok { return; }
      var entry := entries[id];
      assert InReach(Keys(), typeChanges, key);
      var noted := FindNoted(entry.lastChange, txNr, kind);
      if noted { return; }
      if !grants(tock) { return OutOfMemory, tock; }
      tock := tock + 1;
      ghost var t1, changes1 := Keys(), typeChanges;
      TableUpdated(t1, key, entry.(lastChange := |typeChanges|), NO_ENTRY);
      typeChanges := typeChanges + [Change(txNr, entry.lastChange, kind)];
      entries := entries[id := entry.(lastChange := |typeChanges| - 1)];
      ChangePushed(t1, changes1, key, txNr, kind, Keys());
    }

    /** The type giving calls of one transaction, by its type. */
    method NoteTypes(tx: Transaction, grants: Grants) returns (r: Status, tock: nat)
      requires Sound(Keys(), typeChanges) && Stands(Keys(), typeChanges, txs, tx, 0)
      requires forall i :: 0 <= i < |txs| ==> txs[i].txNr < tx.txNr
      modifies this`keyIds, this`entries, this`typeChanges
      ensures Sound(Keys(), typeChanges)
      ensures forall k :: Moved(Keys(), k) == Moved(old(Keys()), k)
      ensures r == Ok || r == OutOfMemory || r == InvalidEnumType
      ensures r == InvalidEnumType <==> TypeUnknown(tx)
      ensures r == InvalidEnumType ==> Keys() == old(Keys()) && typeChanges == old(typeChanges)
      ensures Generous(grants) ==> r != OutOfMemory
      ensures r == OutOfMemory ==> Stands(Keys(), typeChanges, txs, tx, 0)
      ensures r == Ok ==> Stands(Keys(), typeChanges, txs, tx, |Calls(tx)|)
    {
      hide Sound, Told, Stands, Moved, Note;
      r, tock := Ok, 0;
      ghost var t0, changes0 := Keys(), typeChanges;
      if tx.kind in {COMMUNITY_ROOT, REGISTER_ADDRESS} {
        var first := if tx.kind == COMMUNITY_ROOT then tx.part1 else tx.part0;
        var type1 := if tx.kind == COMMUNITY_ROOT then COMMUNITY_GMW else tx.addressType;
        r, tock := NoteType(first, tx.txNr, type1, grants, tock);
        if r != Ok {
          if r == OutOfMemory { SameStands(t0, changes0, txs, tx, 0, Keys(), typeChanges); }
          return;
        }
        CallStands(t0, changes0, txs, tx, 0, Keys(), typeChanges);
        ghost var t1, changes1 := Keys(), typeChanges;
        var type2 := if tx.kind == COMMUNITY_ROOT then COMMUNITY_AUF else tx.addressType;
        r, tock := NoteType(tx.part2, tx.txNr, type2, grants, tock);
        if r == Ok {
          CallStands(t1, changes1, txs, tx, 1, Keys(), typeChanges);
        } else if r == OutOfMemory {
          SameStands(t1, changes1, txs, tx, 1, Keys(), typeChanges);
          StandsFromStart(Keys(), typeChanges, txs, tx, 1);
        } else {
          assert first == NO_KEY;
        }
      } else if tx.kind == DEFERRED_TRANSFER {
        r, tock := NoteType(tx.part1, tx.txNr, DEFERRED_TRANSFER_ADDRESS, grants, tock);
        if r == Ok {
          CallStands(t0, changes0, txs, tx, 0, Keys(), typeChanges);
        } else {
          SameStands(t0, changes0, txs, tx, 0, Keys(), typeChanges);
        }
      }
    }

    /** Moves every key the balances name to this transaction, so that each stands where the replay puts it. */
    method MoveBalances(tx: Transaction, grants: Grants, tick: nat) returns (r: Status)
      requires Sound(Keys(), typeChanges) && forall k :: BalanceStands(Keys(), txs, tx, k)
      modifies this`keyIds, this`entries
      ensures Sound(Keys(), typeChanges)
      ensures forall k :: Told(Keys(), typeChanges, k) == Told(old(Keys()), typeChanges, k)
      ensures r == Ok || (r == OutOfMemory && !Generous(grants))
      ensures forall k :: BalanceStands(Keys(), txs, tx, k)
      ensures r == Ok ==> forall b :: b in tx.balances && b.key != NO_KEY ==> Moved(Keys(), b.key) == tx.txNr
    {
      hide Walk, MovesBalance, LastBalance;
      r := Ok;
      var tock := tick;
      for i := 0 to |tx.balances|
        invariant r == Ok && Sound(Keys(), typeChanges)
        invariant forall k :: Told(Keys(), typeChanges, k) == Told(old(Keys()), typeChanges, k)
        invariant forall k :: BalanceStands(Keys(), txs, tx, k)
        invariant forall j :: 0 <= j < i && tx.balances[j].key != NO_KEY ==>
                   Moved(Keys(), tx.balances[j].key) == tx.txNr
      {
        var key := tx.balances[i].key;
        if key == NO_KEY { continue; }
        ghost var t0 := Keys();
        r, tock := MoveBalance(key, tx.txNr, grants, tock);
        Moves(tx, tx.balances[i]);
        forall k ensures BalanceStands(Keys(), txs, tx, k) {
          assert BalanceStands(t0, txs, tx, k);
        }
        if r != Ok { return; }
      }
    }

    method MoveBalance(key: Key, txNr: uint64, grants: Grants, tick: nat) returns (r: Status, tock: nat)
      requires Sound(Keys(), typeChanges)
      modifies this`keyIds, this`entries
      ensures Sound(Keys(), typeChanges)
      ensures forall k :: Told(Keys(), typeChanges, k) == Told(old(Keys()), typeChanges, k)
      ensures r == Ok || (r == OutOfMemory && !Generous(grants))
      ensures forall k :: Moved(Keys(), k) == if r == Ok && k == key then txNr else Moved(old(Keys()), k)
    {
      hide Walk;
      var id;
      ghost var t0 := Keys();
      r, id, tock := EntryForKey(key, grants, tick);
      TableSame(t0, typeChanges, Keys());
      if r != Ok { return; }
      ghost var t1 := Keys();
      TableUpdated(t1, key, entries[id].(lastBalanceTx := txNr), NO_ENTRY);
      entries := entries[id := entries[id].(lastBalanceTx := txNr)];
      TableSame(t1, typeChanges, Keys());
    }

    /** The writing half of an add: types, then balances; refused part way it leaves what a retry completes. */
    method NoteAndMove(tx: Transaction, grants: Grants) returns (r: Status)
      requires Sound(Keys(), typeChanges) && Retriable(Keys(), typeChanges, txs, tx)
      requires forall i :: 0 <= i < |txs| ==> txs[i].txNr < tx.txNr
      modifies this`keyIds, this`entries, this`typeChanges
      ensures Sound(Keys(), typeChanges)
      ensures r == if TypeUnknown(tx) then InvalidEnumType else if r == OutOfMemory then OutOfMemory else Ok
      ensures r == InvalidEnumType ==> Keys() == old(Keys()) && typeChanges == old(typeChanges)
      ensures Generous(grants) ==> r != OutOfMemory
      ensures r == OutOfMemory ==> Retriable(Keys(), typeChanges, txs, tx)
      ensures r == Ok ==> Replayed(Keys(), typeChanges, txs + [tx])
    {
      hide Sound, Told, Stands, Moved, BalanceStands, History, LastBalance, Calls, TypeUnknown;
      ghost var t0 := Keys();
      var tock;
      r, tock := NoteTypes(tx, grants);
      if r == InvalidEnumType { return; }
      SameBalances(t0, txs, tx, Keys());
      if r == OutOfMemory { return; }
      ghost var t1 := Keys();
      r := MoveBalances(tx, grants, tock);
      SameStands(t1, typeChanges, txs, tx, |Calls(tx)|, Keys(), typeChanges);
      if r == Ok {
        EndStands(Keys(), typeChanges, txs, tx);
        BalancesEnd(Keys(), txs, tx);
      } else {
        StandsFromStart(Keys(), typeChanges, txs, tx, |Calls(tx)|);
      }
    }

    method Add(tx: Transaction, grants: Grants) returns (r: Status)
      requires Valid() && MayFollow(tx)
      // the counter wraps after 2^32 transactions and is blind to the order then; the caller is not
      requires transactionCount == 0 && txs != [] ==> txs[|txs| - 1].txNr < tx.txNr
      modifies this
      ensures Valid()
      ensures txs == if r == Ok then old(txs) + [tx] else old(txs)
      ensures pending == if r == Ok then None else if r == OutOfMemory then Some(tx) else old(pending)
      ensures r == OutOfMemory || r == Verdict(old(txs), tx)
      ensures r == OutOfMemory ==> Verdict(old(txs), tx) == Ok && !Generous(grants)
    {
      hide Sound, Replayed, Retriable, TypeUnknown, NumbersAscend;
      if transactionCount != 0 && tx.txNr <= maxTxNr { return InvalidParam; }
      if tx.kind >= KIND_COUNT { return InvalidEnumType; }
      if pending.None? {
        ReplayedIsRetriable(Keys(), typeChanges, txs, tx);
      }
      CountWraps(|txs|);
      AscendsOn(txs, tx);
      r := NoteAndMove(tx, grants);
      if r == OutOfMemory { pending := Some(tx); }
      if r != Ok { return; }
      maxTxNr, transactionCount := tx.txNr, (transactionCount + 1) % W32;
      txs, pending := txs + [tx], None;
    }

    // ----- asking

    /** What a replay up to a number gave the key last, found by walking its links back to that number. */
    method TypeAt(key: Key, at: uint64) returns (r: Option<nat>)
      requires Valid()
      ensures pending.None? || at < pending.value.txNr ==> r == LastGiven(txs, key, at)
    {
      hide History, LastGiven, Stands, BalanceStands, MovesBalance, LastBalance, Given;
      ToldBelow(key, at);
      if key !in keyIds || keyIds[key] >= |entries| { return None; }
      var position := entries[keyIds[key]].lastChange;
      assert InReach(Keys(), typeChanges, key);
      while position != NO_CHANGE
        invariant NO_CHANGE <= position < |typeChanges|
        invariant FirstAtOrBelow(Told(Keys(), typeChanges, key), at) == FirstAtOrBelow(Walk(typeChanges, position), at)
        decreases position + 1
      {
        var change := typeChanges[position];
        var rest := Walk(typeChanges, change.previous);
        assert ([Record(change.txNr, change.kind)] + rest)[1..] == rest;
        if change.txNr <= at { return Some(change.kind); }
        position := change.previous;
      }
      return None;
    }

    /** The transactions that gave the key a type, newest first, at most size of them. */
    method TypeChanges(key: Key, size: nat) returns (out: seq<nat>)
      requires Valid()
      ensures pending.None? ==>
                && |out| == (if |History(txs, key)| < size then |History(txs, key)| else size)
                && forall i :: 0 <= i < |out| ==> out[i] == History(txs, key)[i].txNr
      ensures pending.Some? ==>
                var tx := pending.value;
                exists q :: 0 <= q <= |Given(tx, key)|
                    && Lists(out, Tagged(tx.txNr, Given(tx, key)[..q]) + History(txs, key), size)
    {
      hide History, Stands, BalanceStands, MovesBalance, LastBalance, Given, Tagged;
      out := [];
      ToldOf(key);
      if key !in keyIds || keyIds[key] >= |entries| { return; }
      var position := entries[keyIds[key]].lastChange;
      assert InReach(Keys(), typeChanges, key);
      ghost var h := Told(Keys(), typeChanges, key);
      while position != NO_CHANGE && |out| < size
        invariant NO_CHANGE <= position < |typeChanges| && |out| <= size && |out| <= |h|
        invariant forall i :: 0 <= i < |out| ==> out[i] == h[i].txNr
        invariant h[|out|..] == Walk(typeChanges, position)
        decreases position + 1
      {
        var change := typeChanges[position];
        assert h[|out|] == Record(change.txNr, change.kind);
        assert h[|out| + 1..] == h[|out|..][1..];
        out := out + [change.txNr];
        position := change.previous;
      }
    }

    /** The replay's last balance change of a key, or that of a transaction refused half way. */
    method NewestBalance(key: Key) returns (r: Option<nat>)
      requires Valid()
      ensures r == NonZero(LastBalance(txs, key))
              || (pending.Some? && MovesBalance(pending.value, key) && r == NonZero(pending.value.txNr))
    {
      hide History, Stands, Told, MovesBalance, LastBalance, Given;
      assert pending.None? ==> Moved(Keys(), key) == LastBalance(txs, key);
      assert pending.Some? ==> BalanceStands(Keys(), txs, pending.value, key);
      if key !in keyIds || keyIds[key] >= |entries| { return None; }
      var last := entries[keyIds[key]].lastBalanceTx;
      return if last == 0 then None else Some(last);
    }

    /** What is told of a key is its history, with what a refused transaction has noted in front. */
    lemma ToldOf(key: Key)
      requires Valid()
      ensures pending.None? ==> Told(Keys(), typeChanges, key) == History(txs, key)
      ensures pending.Some? ==>
                var tx := pending.value;
                exists q :: 0 <= q <= |Given(tx, key)|
                            && Told(Keys(), typeChanges, key)
                                == Tagged(tx.txNr, Given(tx, key)[..q]) + History(txs, key)
    {
      hide History, Told, Tagged, BalanceStands, MovesBalance, LastBalance, Given, Sound;
      if pending.Some? {
        var tx := pending.value;
        assert Reached(Told(Keys(), typeChanges, key), History(txs, key), tx.txNr, Given(tx, key),
                 Progress(tx, key, 0));
      }
    }

    /** What a refused transaction has noted already stands above every number before its own. */
    lemma ToldBelow(key: Key, at: nat)
      requires Valid()
      ensures pending.None? || at < pending.value.txNr ==>
                FirstAtOrBelow(Told(Keys(), typeChanges, key), at) == LastGiven(txs, key, at)
    {
      hide History, LastGiven, Told, BalanceStands, MovesBalance, LastBalance, Given, Sound;
      HistoryTellsType(txs, key, at);
      if pending.Some? && at < pending.value.txNr {
        var tx := pending.value;
        var h, before, given := Told(Keys(), typeChanges, key), History(txs, key), Given(tx, key);
        assert Reached(h, before, tx.txNr, given, Progress(tx, key, 0));
        var q :| Progress(tx, key, 0) <= q <= |given| && h == Tagged(tx.txNr, given[..q]) + before;
        FirstSkips(Tagged(tx.txNr, given[..q]), before, at);
      }
    }
  }
}
