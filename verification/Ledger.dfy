/**
 Transactions and filters, and what it means for a transaction to satisfy a filter when the two
 are simply held side by side. Everything the indices answer is stated against this module.
 */
module Ledger {
  import opened Words

  /** The 32 bytes of a public key and the 16 of a uuid, each read as one big-endian number. */
  type Key = nat
  type Uuid = nat

  /** The key of 32 zero bytes; no role, record or balance is ever kept for it. */
  const NO_KEY: Key := 0
  /** All bytes zero: in a filter, no community is asked for. */
  const NIL_UUID: Uuid := 0

  const CREATION := 1
  const TRANSFER := 2
  const REGISTER_ADDRESS := 4
  const DEFERRED_TRANSFER := 5
  const COMMUNITY_ROOT := 6
  const REDEEM_DEFERRED_TRANSFER := 7
  const ANY_KIND := 0
  const KIND_COUNT := 9

  const SECONDS_PER_DAY := 86400

  /** Seconds whose day is computed without overflowing 64 bits. */
  type Seconds = s: int | SECONDS_PER_DAY - I63 <= s < I63

  datatype Balance = Balance(key: Key, coin: Uuid)

  /**
   What the indices read of a complete transaction. The body is a union of three layouts whose
   keys share three 32 byte parts: a transfer has its sender in part 0 and its recipient in part
   1, a registration the user key in part 0 and the account key in part 2, a community root its
   own key, the GMW key and the AUF key in parts 0 to 2.
   */
  datatype Transaction = Transaction(
    txNr: uint64,
    confirmedAt: Seconds,
    community: Uuid,
    part0: Key, part1: Key, part2: Key,
    addressType: uint32,
    kind: uint32,
    signers: seq<Key>,
    balances: seq<Balance>)

  datatype Role = NoRole | Involved | BalanceRole

  datatype Filter = Filter(
    key: Key,
    coin: Uuid,
    role: Role,
    kind: uint32,
    minTxNr: uint64,
    maxTxNr: uint64,
    fromSeconds: Seconds,
    toSeconds: Seconds)

  /** The day a second falls in, by the truncating division the code uses. */
  function DayOf(seconds: Seconds): int {
    if seconds >= 0 then seconds / SECONDS_PER_DAY
    else -((-seconds + SECONDS_PER_DAY - 1) / SECONDS_PER_DAY)
  }

  /** Days are the half open stretches of 86400 seconds, before the epoch as well as after it. */
  lemma DayOfIsFloor(seconds: Seconds)
    ensures DayOf(seconds) * 86400 <= seconds < (DayOf(seconds) + 1) * 86400
  {
  }

  function Day(tx: Transaction): int {
    DayOf(tx.confirmedAt)
  }

  /** The layout a transaction's type gives its three parts. */
  datatype Body =
    | Transfer(sender: Key, recipient: Key)
    | Registration(user: Key, account: Key)
    | Root(root: Key, gmw: Key, auf: Key)
    | NoKeys

  function BodyOf(tx: Transaction): Body {
    if tx.kind in {CREATION, TRANSFER, DEFERRED_TRANSFER, REDEEM_DEFERRED_TRANSFER} then Transfer(tx.part0, tx.part1)
    else if tx.kind == REGISTER_ADDRESS then Registration(tx.part0, tx.part2)
    else if tx.kind == COMMUNITY_ROOT then Root(tx.part0, tx.part1, tx.part2)
    else NoKeys
  }

  predicate Signs(tx: Transaction, key: Key) {
    key != NO_KEY && key in tx.signers
  }

  predicate MovesBalance(tx: Transaction, key: Key) {
    key != NO_KEY && exists b :: b in tx.balances && b.key == key
  }

  predicate Names(tx: Transaction, key: Key) {
    key != NO_KEY &&
    match BodyOf(tx)
    case Transfer(sender, recipient) => key == sender || key == recipient
    case Registration(user, account) => key == user || key == account
    case Root(root, gmw, auf) => key == root || key == gmw || key == auf
    case NoKeys => false
  }

  predicate CarriesCoin(tx: Transaction, coin: Uuid) {
    exists b :: b in tx.balances && b.coin == coin
  }

  predicate CarriesForeignCoin(tx: Transaction, home: Uuid) {
    exists b :: b in tx.balances && b.coin != home
  }

  predicate RoleMatches(tx: Transaction, f: Filter) {
    match f.role
    case NoRole => true
    case BalanceRole => MovesBalance(tx, f.key)
    case Involved => MovesBalance(tx, f.key) || Signs(tx, f.key) || Names(tx, f.key)
  }

  predicate CoinMatches(tx: Transaction, f: Filter, home: Uuid) {
    if f.coin == NIL_UUID then true
    else if f.coin == home then !CarriesForeignCoin(tx, home)
    else CarriesCoin(tx, f.coin)
  }

  predicate NumberMatches(tx: Transaction, f: Filter) {
    (f.minTxNr != 0 ==> f.minTxNr <= tx.txNr) && (f.maxTxNr != 0 ==> tx.txNr <= f.maxTxNr)
  }

  /** The day a bound of a span of seconds falls in; second 0 is no bound. */
  function DayBound(seconds: Seconds): Option<int> {
    if seconds == 0 then None else Some(DayOf(seconds))
  }

  /** A day at or after the one the span begins on, and at or before the one it ends on. */
  predicate DayInSpan(day: int, from: Option<int>, to: Option<int>) {
    (from.Some? ==> from.value <= day) && (to.Some? ==> day <= to.value)
  }

  /** One transaction against all conditions of a filter; an unset condition holds of any. */
  predicate Satisfies(tx: Transaction, f: Filter, home: Uuid) {
    && RoleMatches(tx, f)
    && (f.kind != ANY_KIND ==> tx.kind == f.kind)
    && CoinMatches(tx, f, home)
    && NumberMatches(tx, f)
    && DayInSpan(Day(tx), DayBound(f.fromSeconds), DayBound(f.toSeconds))
  }

  /**
   The same in the fields of the two alone. In the involved role a key is looked for among the signers,
   in the balance entries and in the parts that the type uses: 0 and 1 in a creation, a transfer, a
   deferred transfer and its redemption, 0 and 2 in a registration, all three in a community root.
   */
  lemma SatisfiesSays(tx: Transaction, f: Filter, home: Uuid)
    ensures Satisfies(tx, f, home) <==>
              && (f.role == BalanceRole ==> f.key != 0 && exists b :: b in tx.balances && b.key == f.key)
              && (f.role == Involved ==>
                    && f.key != 0
                    && (|| f.key in tx.signers || (exists b :: b in tx.balances && b.key == f.key)
                        || (tx.kind in {1, 2, 5, 7} && (f.key == tx.part0 || f.key == tx.part1))
                        || (tx.kind == 4 && (f.key == tx.part0 || f.key == tx.part2))
                        || (tx.kind == 6 && (f.key == tx.part0 || f.key == tx.part1 || f.key == tx.part2))))
              && (f.kind != 0 ==> tx.kind == f.kind)
              && (f.coin != 0 ==>
                    if f.coin == home then forall b :: b in tx.balances ==> b.coin == home
                    else exists b :: b in tx.balances && b.coin == f.coin)
              && (f.minTxNr != 0 ==> f.minTxNr <= tx.txNr) && (f.maxTxNr != 0 ==> tx.txNr <= f.maxTxNr)
              && (f.fromSeconds != 0 ==> f.fromSeconds / 86400 <= tx.confirmedAt / 86400)
              && (f.toSeconds != 0 ==> tx.confirmedAt / 86400 <= f.toSeconds / 86400)
  {
    hide DayOf;
    DayIsQuotient(tx.confirmedAt);
    DayIsQuotient(f.fromSeconds);
    DayIsQuotient(f.toSeconds);
  }

  /** The division of this language rounds down where the code's truncates. */
  lemma DayIsQuotient(seconds: Seconds)
    ensures DayOf(seconds) == seconds / 86400
  {
  }

  /** The naive scan: the numbers of the satisfying transactions, in the order they stand. */
  function Scan(txs: seq<Transaction>, f: Filter, home: Uuid): (r: seq<int>) {
    if txs == [] then []
    else
      var last := txs[|txs| - 1];
      Scan(txs[..|txs| - 1], f, home) + if Satisfies(last, f, home) then [last.txNr] else []
  }

  lemma {:induction false} ScanConcat(a: seq<Transaction>, b: seq<Transaction>, f: Filter, home: Uuid)
    ensures Scan(a + b, f, home) == Scan(a, f, home) + Scan(b, f, home)
  {
    if b == [] {
      assert a + b == a;
    } else {
      var init := b[..|b| - 1];
      ScanConcat(a, init, f, home);
      assert (a + b)[..|a + b| - 1] == a + init;
    }
  }

  /** The scan lists a number exactly when some transaction under it satisfies the filter. */
  lemma {:induction false} ScanMember(txs: seq<Transaction>, f: Filter, home: Uuid, nr: int)
    ensures nr in Scan(txs, f, home) <==> exists tx :: tx in txs && tx.txNr == nr && Satisfies(tx, f, home)
  {
    if txs != [] {
      var init, last := txs[..|txs| - 1], txs[|txs| - 1];
      ScanMember(init, f, home, nr);
      assert txs == init + [last];
    }
  }

  /** Of ascending numbers the scan lists those of the satisfying transactions, ascending, and no others. */
  lemma {:induction false} ScanLists(txs: seq<Transaction>, f: Filter, home: Uuid)
    requires forall i, j :: 0 <= i < j < |txs| ==> txs[i].txNr < txs[j].txNr
    ensures var found := Scan(txs, f, home);
            && (forall i, j :: 0 <= i < j < |found| ==> found[i] < found[j])
            && (forall nr :: nr in found ==> exists i :: 0 <= i < |txs| && txs[i].txNr == nr)
            && (forall i :: 0 <= i < |txs| ==> (txs[i].txNr in found <==> Satisfies(txs[i], f, home)))
  {
    hide Satisfies, Scan;
    ScanAscends(txs, f, home);
    forall nr: int | nr in Scan(txs, f, home) ensures exists i :: 0 <= i < |txs| && txs[i].txNr == nr {
      ScanMember(txs, f, home, nr);
    }
    forall i | 0 <= i < |txs| ensures txs[i].txNr in Scan(txs, f, home) <==> Satisfies(txs[i], f, home) {
      ScanMember(txs, f, home, txs[i].txNr);
    }
  }

  lemma {:induction false} ScanAscends(txs: seq<Transaction>, f: Filter, home: Uuid)
    requires forall i, j :: 0 <= i < j < |txs| ==> txs[i].txNr < txs[j].txNr
    ensures forall i, j :: 0 <= i < j < |Scan(txs, f, home)| ==> Scan(txs, f, home)[i] < Scan(txs, f, home)[j]
    ensures forall i :: 0 <= i < |Scan(txs, f, home)| ==> Scan(txs, f, home)[i] <= txs[|txs| - 1].txNr
  {
    hide Satisfies;
    if txs != [] {
      ScanAscends(txs[..|txs| - 1], f, home);
    }
  }

  /** Numbered one above the other: gapless. */
  ghost predicate Gapless(txs: seq<Transaction>) {
    forall i :: 0 <= i < |txs| ==> txs[i].txNr == txs[0].txNr + i
  }

  ghost predicate DaysAscend(txs: seq<Transaction>) {
    forall i, j :: 0 <= i < j < |txs| ==> Day(txs[i]) <= Day(txs[j])
  }

  ghost predicate OneCommunity(txs: seq<Transaction>) {
    forall i, j :: 0 <= i < |txs| && 0 <= j < |txs| ==> txs[i].community == txs[j].community
  }

  /**
   A span of numbers that is exactly the transactions confirmed on the days a span touches, none when
   there are none.
   */
  ghost predicate SpansDays(txs: seq<Transaction>, r: Option<(int, int)>, from: Option<int>, to: Option<int>) {
    && (r.None? ==> forall i :: 0 <= i < |txs| ==> !DayInSpan(Day(txs[i]), from, to))
    && (r.Some? ==>
          && txs != [] && txs[0].txNr <= r.value.0 <= r.value.1 <= txs[|txs| - 1].txNr
          && forall i :: 0 <= i < |txs| ==>
              (DayInSpan(Day(txs[i]), from, to) <==> r.value.0 <= txs[i].txNr <= r.value.1))
  }

  /** The same in seconds; second 0 leaves an end open. */
  lemma SpansDaysSays(txs: seq<Transaction>, r: Option<(int, int)>, from: Seconds, to: Seconds)
    ensures SpansDays(txs, r, DayBound(from), DayBound(to)) <==>
              && (r.Some? ==> txs != [] && txs[0].txNr <= r.value.0 <= r.value.1 <= txs[|txs| - 1].txNr)
              && forall i :: 0 <= i < |txs| ==>
                   var day := txs[i].confirmedAt / 86400;
                   ((from != 0 ==> from / 86400 <= day) && (to != 0 ==> day <= to / 86400)
                    <==> r.Some? && r.value.0 <= txs[i].txNr <= r.value.1)
  {
    hide DayOf;
    DayIsQuotient(from);
    DayIsQuotient(to);
    forall i | 0 <= i < |txs| ensures Day(txs[i]) == txs[i].confirmedAt / 86400 {
      DayIsQuotient(txs[i].confirmedAt);
    }
  }
}
