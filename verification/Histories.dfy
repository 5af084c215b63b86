/** What a replay of the ledger says about one address: the types it was given, and when its balance last moved. */
module Histories {
  import opened Words
  import opened Ledger

  const COMMUNITY_GMW := 2
  const COMMUNITY_AUF := 3
  const DEFERRED_TRANSFER_ADDRESS := 7

  datatype Record = Record(txNr: int, kind: nat)

  /** The types one transaction gives a key, in the order it gives them; a registration gives both its keys one type. */
  function Given(tx: Transaction, key: Key): (r: seq<nat>)
    ensures |r| <= 2
  {
    if key == NO_KEY then []
    else
      match BodyOf(tx)
      case Root(root, gmw, auf) =>
        (if gmw == key then [COMMUNITY_GMW] else []) + (if auf == key then [COMMUNITY_AUF] else [])
      case Registration(user, account) => if user == key || account == key then [tx.addressType] else []
      case Transfer(sender, recipient) =>
        if tx.kind == DEFERRED_TRANSFER && recipient == key then [DEFERRED_TRANSFER_ADDRESS] else []
      case NoKeys => []
  }

  lemma GivenDistinct(tx: Transaction, key: Key)
    ensures |Given(tx, key)| == 2 ==> Given(tx, key)[0] != Given(tx, key)[1]
  {
  }

  /** The records of one transaction, newest first. */
  function Tagged(txNr: int, kinds: seq<nat>): (r: seq<Record>)
    ensures |r| == |kinds|
    ensures forall i :: 0 <= i < |r| ==> r[i] == Record(txNr, kinds[|kinds| - 1 - i])
  {
    seq(|kinds|, i requires 0 <= i < |kinds| => Record(txNr, kinds[|kinds| - 1 - i]))
  }

  /** Every time a transaction gave the key a type, newest first. */
  function History(txs: seq<Transaction>, key: Key): seq<Record> {
    if txs == [] then []
    else
      var last := txs[|txs| - 1];
      Tagged(last.txNr, Given(last, key)) + History(txs[..|txs| - 1], key)
  }

  /** The type standing as of a number: the last one given at or below it. */
  function LastGiven(txs: seq<Transaction>, key: Key, at: int): Option<nat> {
    if txs == [] then None
    else
      var last := txs[|txs| - 1];
      var given := Given(last, key);
      if last.txNr <= at && given != [] then Some(given[|given| - 1]) else LastGiven(txs[..|txs| - 1], key, at)
  }

  /**
   What one transaction more does to the types: type 4 gives its address type to parts 0 and 2, the user
   and the account key; type 5 gives 7 to part 1, the recipient; type 6 gives 2 to part 1, the GMW key,
   and then 3 to part 2, the AUF key. Every other key, and every other type of transaction, leaves what was.
   */
  lemma LastGivenNext(txs: seq<Transaction>, tx: Transaction, key: Key, at: int)
    ensures LastGiven([], key, at) == None
    ensures LastGiven(txs + [tx], key, at) ==
              if key == 0 || at < tx.txNr then LastGiven(txs, key, at)
              else if tx.kind == 4 && (key == tx.part0 || key == tx.part2) then Some(tx.addressType)
              else if tx.kind == 5 && key == tx.part1 then Some(7)
              else if tx.kind == 6 && key == tx.part2 then Some(3)
              else if tx.kind == 6 && key == tx.part1 then Some(2)
              else LastGiven(txs, key, at)
  {
    assert (txs + [tx])[..|txs|] == txs;
  }

  /** The records it adds in front: one for each type given, a root's two for a key that is both of its accounts. */
  lemma HistoryNext(txs: seq<Transaction>, tx: Transaction, key: Key)
    ensures History([], key) == []
    ensures History(txs + [tx], key) ==
              (if key == 0 then []
               else if tx.kind == 4 && (key == tx.part0 || key == tx.part2) then [Record(tx.txNr, tx.addressType)]
               else if tx.kind == 5 && key == tx.part1 then [Record(tx.txNr, 7)]
               else if tx.kind == 6 then
                 (if key == tx.part2 then [Record(tx.txNr, 3)] else [])
                 + (if key == tx.part1 then [Record(tx.txNr, 2)] else [])
               else [])
              + History(txs, key)
  {
    hide Given;
    assert (txs + [tx])[..|txs|] == txs;
    GivenSays(tx, key);
  }

  lemma GivenSays(tx: Transaction, key: Key)
    ensures Given(tx, key) ==
              if key == 0 then []
              else if tx.kind == 4 && (key == tx.part0 || key == tx.part2) then [tx.addressType]
              else if tx.kind == 5 && key == tx.part1 then [7]
              else if tx.kind == 6 then (if key == tx.part1 then [2] else []) + (if key == tx.part2 then [3] else [])
              else []
  {
  }

  /** The last balance change is this transaction's for the keys of its balance entries. */
  lemma LastBalanceNext(txs: seq<Transaction>, tx: Transaction, key: Key)
    ensures LastBalance([], key) == 0
    ensures LastBalance(txs + [tx], key) ==
              if key != 0 && exists b :: b in tx.balances && b.key == key then tx.txNr else LastBalance(txs, key)
  {
    assert (txs + [tx])[..|txs|] == txs;
  }

  /** Every transaction that gives the key a type is found for the key in the involved role. */
  lemma {:induction false} TypedIsInvolved(txs: seq<Transaction>, key: Key, home: Uuid)
    ensures var f := Filter(key, NIL_UUID, Involved, ANY_KIND, 0, 0, 0, 0);
            forall i :: 0 <= i < |History(txs, key)| ==> History(txs, key)[i].txNr in Scan(txs, f, home)
  {
    if txs != [] {
      TypedIsInvolved(txs[..|txs| - 1], key, home);
    }
  }

  /** The newest transaction that moved the key's balance, 0 for none. */
  function LastBalance(txs: seq<Transaction>, key: Key): nat {
    if txs == [] then 0
    else if MovesBalance(txs[|txs| - 1], key) then txs[|txs| - 1].txNr
    else LastBalance(txs[..|txs| - 1], key)
  }

  ghost predicate NumbersAscend(txs: seq<Transaction>) {
    forall i, j :: 0 <= i < j < |txs| ==> txs[i].txNr < txs[j].txNr
  }

  lemma {:induction false} HistoryBelow(txs: seq<Transaction>, key: Key, nr: int)
    requires forall i :: 0 <= i < |txs| ==> txs[i].txNr < nr
    ensures forall i :: 0 <= i < |History(txs, key)| ==> History(txs, key)[i].txNr < nr
  {
    if txs != [] {
      HistoryBelow(txs[..|txs| - 1], key, nr);
    }
  }

  /** The first record at or below a number, read from the newest. */
  function FirstAtOrBelow(h: seq<Record>, at: int): Option<nat> {
    if h == [] then None
    else if h[0].txNr <= at then Some(h[0].kind)
    else FirstAtOrBelow(h[1..], at)
  }

  lemma {:induction false} FirstSkips(a: seq<Record>, b: seq<Record>, at: int)
    requires forall i :: 0 <= i < |a| ==> at < a[i].txNr
    ensures FirstAtOrBelow(a + b, at) == FirstAtOrBelow(b, at)
  {
    if a == [] {
      assert a + b == b;
    } else {
      assert (a + b)[1..] == a[1..] + b;
      FirstSkips(a[1..], b, at);
    }
  }

  /** Walking the history finds the type the replay ends on. */
  lemma {:induction false} HistoryTellsType(txs: seq<Transaction>, key: Key, at: int)
    ensures FirstAtOrBelow(History(txs, key), at) == LastGiven(txs, key, at)
  {
    if txs != [] {
      var init, last := txs[..|txs| - 1], txs[|txs| - 1];
      HistoryTellsType(init, key, at);
      var records := Tagged(last.txNr, Given(last, key));
      if at < last.txNr || records == [] {
        FirstSkips(records, History(init, key), at);
      }
    }
  }

  /** The replay's last balance change is the newest the naive scan finds for the key in the balance role. */
  lemma {:induction false} LastBalanceIsNewest(txs: seq<Transaction>, key: Key, home: Uuid)
    ensures var f := Filter(key, NIL_UUID, BalanceRole, ANY_KIND, 0, 0, 0, 0);
            var found := Scan(txs, f, home);
            && (found == [] ==> LastBalance(txs, key) == 0)
            && (found != [] ==> LastBalance(txs, key) == found[|found| - 1])
  {
    if txs != [] {
      LastBalanceIsNewest(txs[..|txs| - 1], key, home);
    }
  }

  // ----- one note at a time

  /** Whether the newest records, those of this very number, hold the type already. */
  function Noted(h: seq<Record>, txNr: int, kind: nat): bool {
    h != [] && h[0].txNr == txNr && (h[0].kind == kind || Noted(h[1..], txNr, kind))
  }

  function Note(h: seq<Record>, txNr: int, kind: nat): seq<Record> {
    if Noted(h, txNr, kind) then h else [Record(txNr, kind)] + h
  }

  /** At least p of the kinds given at txNr stand in front of the records from before it. */
  ghost predicate Reached(h: seq<Record>, before: seq<Record>, txNr: int, given: seq<nat>, p: nat) {
    exists q :: p <= q <= |given| && h == Tagged(txNr, given[..q]) + before
  }

  lemma {:induction false} NotedInFront(a: seq<Record>, before: seq<Record>, txNr: int, kind: nat)
    requires forall i :: 0 <= i < |a| ==> a[i].txNr == txNr
    requires forall i :: 0 <= i < |before| ==> before[i].txNr < txNr
    ensures Noted(a + before, txNr, kind) <==> Record(txNr, kind) in a
  {
    if a == [] {
      assert a + before == before;
    } else {
      assert (a + before)[1..] == a[1..] + before;
      NotedInFront(a[1..], before, txNr, kind);
      assert a == [a[0]] + a[1..];
    }
  }

  /** Noting the next kind, or one a refused attempt had noted already, never writes a record twice. */
  lemma NoteReaches(h: seq<Record>, before: seq<Record>, txNr: int, given: seq<nat>, p: nat)
    requires Reached(h, before, txNr, given, p) && p < |given| <= 2
    requires |given| == 2 ==> given[0] != given[1]
    requires forall i :: 0 <= i < |before| ==> before[i].txNr < txNr
    ensures Reached(Note(h, txNr, given[p]), before, txNr, given, p + 1)
  {
    var q :| p <= q <= |given| && h == Tagged(txNr, given[..q]) + before;
    var front := Tagged(txNr, given[..q]);
    NotedInFront(front, before, txNr, given[p]);
    if p < q {
      assert front[q - 1 - p] == Record(txNr, given[p]);
    } else {
      assert Record(txNr, given[p]) !in front;
      assert Note(h, txNr, given[p]) == Tagged(txNr, given[..p + 1]) + before;
    }
  }

  /** A kind already counted is not noted again. */
  lemma NoteAgain(h: seq<Record>, before: seq<Record>, txNr: int, given: seq<nat>, p: nat, kind: nat)
    requires Reached(h, before, txNr, given, p) && p <= |given| && kind in given[..p]
    requires forall i :: 0 <= i < |before| ==> before[i].txNr < txNr
    ensures Note(h, txNr, kind) == h
  {
    var q :| p <= q <= |given| && h == Tagged(txNr, given[..q]) + before;
    var front := Tagged(txNr, given[..q]);
    NotedInFront(front, before, txNr, kind);
    var i :| 0 <= i < p && given[i] == kind;
    assert front[q - 1 - i] == Record(txNr, kind);
  }

  lemma ReachedAll(h: seq<Record>, before: seq<Record>, txNr: int, given: seq<nat>)
    requires Reached(h, before, txNr, given, |given|)
    ensures h == Tagged(txNr, given) + before
  {
    assert given[..|given|] == given;
  }
}
