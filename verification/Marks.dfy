/**
 The sets of an index, told apart by marks: a key with one of three roles, a kind, a coin, or any
 foreign coin. To each mark belongs the set of offsets whose transactions bear it.
 */
module Marks {
  import opened Words
  import opened Ledger
  import opened Arnm

  datatype AddressSets = AddressSets(balance: set<nat>, signed: set<nat>, other: set<nat>)

  const NO_SETS := AddressSets({}, {}, {})

  datatype Column = BalanceColumn | SignedColumn | OtherColumn

  datatype Mark =
    | AddressMark(column: Column, key: Key)
    | KindMark(kind: nat)
    | CoinMark(coin: Uuid)
    | ForeignMark

  datatype Books = Books(
    addresses: Table<AddressSets>,
    perKind: seq<set<nat>>,
    coins: Table<set<nat>>,
    foreign: set<nat>)

  function ColumnOf(sets: AddressSets, c: Column): set<nat> {
    match c
    case BalanceColumn => sets.balance
    case SignedColumn => sets.signed
    case OtherColumn => sets.other
  }

  function WithColumn(sets: AddressSets, c: Column, s: set<nat>): AddressSets {
    match c
    case BalanceColumn => sets.(balance := s)
    case SignedColumn => sets.(signed := s)
    case OtherColumn => sets.(other := s)
  }

  /** The set filed under a mark; an id whose set was never opened has none. */
  ghost function MarkSet(b: Books, m: Mark): set<nat> {
    match m
    case AddressMark(c, k) => ColumnOf(Lookup(b.addresses, k, NO_SETS), c)
    case KindMark(t) => if t < |b.perKind| then b.perKind[t] else {}
    case CoinMark(u) => Lookup(b.coins, u, {})
    case ForeignMark => b.foreign
  }

  ghost predicate Shape(b: Books) {
    TableOk(b.addresses) && TableOk(b.coins) && |b.perKind| == KIND_COUNT
  }

  /**
   Whether a transaction bears a mark: a key is in the third role when the body names it and it is in
   neither of the other two.
   */
  ghost predicate Bears(tx: Transaction, home: Uuid, m: Mark) {
    match m
    case AddressMark(BalanceColumn, k) => MovesBalance(tx, k)
    case AddressMark(SignedColumn, k) => Signs(tx, k)
    case AddressMark(OtherColumn, k) => Names(tx, k) && !Signs(tx, k) && !MovesBalance(tx, k)
    case KindMark(t) => tx.kind == t
    case CoinMark(u) => u != home && CarriesCoin(tx, u)
    case ForeignMark => CarriesForeignCoin(tx, home)
  }

  /** No offset filed anywhere is above o. */
  ghost predicate UpTo(b: Books, o: nat) {
    forall m, x :: x in MarkSet(b, m) ==> x <= o
  }

  /** From one state of the books to the next only o was filed, and only under marks tx bears. */
  ghost predicate Advances(b0: Books, b1: Books, o: nat, tx: Transaction, home: Uuid) {
    && (forall m :: MarkSet(b0, m) <= MarkSet(b1, m) <= MarkSet(b0, m) + {o})
    && (forall m :: o in MarkSet(b1, m) ==> o in MarkSet(b0, m) || Bears(tx, home, m))
  }

  /** The books read back what the transactions at start, start + 1, ... left in them, and no more. */
  ghost predicate Faithful(b: Books, start: nat, txs: seq<Transaction>, pending: Option<Transaction>, home: Uuid) {
    && (forall m, i :: 0 <= i < |txs| ==> (start + i in MarkSet(b, m) <==> Bears(txs[i], home, m)))
    && (forall m, o :: o in MarkSet(b, m) ==> start <= o <= start + |txs|)
    && (forall m :: start + |txs| in MarkSet(b, m) ==> pending.Some? && Bears(pending.value, home, m))
  }

  // ----- the steps the books change by

  ghost predicate SameMarks(b0: Books, b1: Books) {
    forall m :: MarkSet(b1, m) == MarkSet(b0, m)
  }

  /** Filed under one mark, or, when not done, under none. */
  ghost predicate Filed(b0: Books, b1: Books, m: Mark, o: nat, done: bool) {
    forall n :: MarkSet(b1, n) == MarkSet(b0, n) + if done && n == m then {o} else {}
  }

  lemma AddressesSame(b: Books, t: Table<AddressSets>)
    requires forall k :: Lookup(t, k, NO_SETS) == Lookup(b.addresses, k, NO_SETS)
    ensures SameMarks(b, b.(addresses := t))
  {
    hide Lookup;
  }

  lemma CoinsSame(b: Books, t: Table<set<nat>>)
    requires forall k :: Lookup(t, k, {}) == Lookup(b.coins, k, {})
    ensures SameMarks(b, b.(coins := t))
  {
    hide Lookup;
  }

  lemma AddressFiled(b: Books, t: Table<AddressSets>, c: Column, key: Key, o: nat, done: bool)
    requires var sets := Lookup(b.addresses, key, NO_SETS);
             var filed := WithColumn(sets, c, ColumnOf(sets, c) + if done then {o} else {});
             forall k :: Lookup(t, k, NO_SETS) == if k == key then filed else Lookup(b.addresses, k, NO_SETS)
    ensures Filed(b, b.(addresses := t), AddressMark(c, key), o, done)
  {
    hide Lookup;
  }

  lemma CoinFiled(b: Books, t: Table<set<nat>>, coin: Uuid, o: nat, done: bool)
    requires var filed := Lookup(b.coins, coin, {}) + if done then {o} else {};
             forall k :: Lookup(t, k, {}) == if k == coin then filed else Lookup(b.coins, k, {})
    ensures Filed(b, b.(coins := t), CoinMark(coin), o, done)
  {
    hide Lookup;
  }

  lemma KindFiled(b: Books, kind: nat, o: nat, done: bool)
    requires Shape(b) && kind < KIND_COUNT
    ensures var b1 := b.(perKind := b.perKind[kind := b.perKind[kind] + if done then {o} else {}]);
            Shape(b1) && Filed(b, b1, KindMark(kind), o, done)
  {
    hide Lookup, TableOk;
  }

  lemma ForeignFiled(b: Books, o: nat, done: bool)
    requires Shape(b)
    ensures var b1 := b.(foreign := b.foreign + if done then {o} else {});
            Shape(b1) && Filed(b, b1, ForeignMark, o, done)
  {
    hide Lookup, TableOk;
  }

  // ----- what a run of such steps keeps

  /**
   Halfway through filing tx under offset o: only o was filed since b0, only under marks tx bears,
   and under all of those in due.
   */
  ghost predicate Filing(b0: Books, b: Books, o: nat, tx: Transaction, home: Uuid, due: set<Mark>) {
    Shape(b) && UpTo(b, o) && Advances(b0, b, o, tx, home) && forall m :: m in due ==> o in MarkSet(b, m)
  }

  ghost function Plus(due: set<Mark>, m: Mark, done: bool): set<Mark> {
    if done then due + {m} else due
  }

  lemma FilingStep(b0: Books, b: Books, b1: Books, o: nat, tx: Transaction, home: Uuid, due: set<Mark>, m: Mark,
                   done: bool)
    requires Filing(b0, b, o, tx, home, due)
    requires Shape(b1) && Filed(b, b1, m, o, done) && Bears(tx, home, m)
    ensures Filing(b0, b1, o, tx, home, Plus(due, m, done))
  {
    hide MarkSet, Bears, Shape;
    forall n
      ensures MarkSet(b0, n) <= MarkSet(b1, n) <= MarkSet(b0, n) + {o}
      ensures o in MarkSet(b1, n) ==> o in MarkSet(b0, n) || Bears(tx, home, n)
      ensures n in due ==> o in MarkSet(b1, n)
    {
      FilingStepAt(MarkSet(b0, n), MarkSet(b, n), MarkSet(b1, n), o, done && n == m);
    }
    UpToStep(b, b1, o, m, done);
    assert done ==> o in MarkSet(b1, m);
  }

  lemma UpToStep(b: Books, b1: Books, o: nat, m: Mark, done: bool)
    requires UpTo(b, o) && Filed(b, b1, m, o, done)
    ensures UpTo(b1, o)
  {
    hide MarkSet, Bears, Shape;
    forall n, x | x in MarkSet(b1, n) ensures x <= o {
      assert x in MarkSet(b, n) || x == o;
    }
  }

  lemma FilingStepAt(s0: set<nat>, s: set<nat>, s1: set<nat>, o: nat, added: bool)
    requires s0 <= s <= s0 + {o} && s1 == s + if added then {o} else {}
    ensures s0 <= s1 <= s0 + {o} && (o in s1 ==> o in s || added) && (o in s ==> o in s1)
  {
  }

  lemma FilingSame(b0: Books, b: Books, b1: Books, o: nat, tx: Transaction, home: Uuid, due: set<Mark>)
    requires Filing(b0, b, o, tx, home, due)
    requires Shape(b1) && SameMarks(b, b1)
    ensures Filing(b0, b1, o, tx, home, due)
  {
    hide MarkSet, Bears, Shape;
    forall n ensures MarkSet(b0, n) <= MarkSet(b1, n) <= MarkSet(b0, n) + {o} {
      assert MarkSet(b0, n) <= MarkSet(b, n) <= MarkSet(b0, n) + {o};
    }
  }

  lemma FilingKeepsShape(b0: Books, b: Books, o: nat, tx: Transaction, home: Uuid, due: set<Mark>)
    requires Filing(b0, b, o, tx, home, due)
    ensures Shape(b)
  {
  }

  lemma FilingUpTo(b0: Books, b: Books, o: nat, tx: Transaction, home: Uuid, due: set<Mark>, m: Mark)
    requires Filing(b0, b, o, tx, home, due)
    ensures forall x :: x in MarkSet(b, m) ==> x <= o
  {
    hide MarkSet, Bears, Shape;
  }

  /** What an earlier attempt left under the offset is borne by the transaction. */
  ghost predicate OnlyBorne(b: Books, o: nat, tx: Transaction, home: Uuid) {
    forall m :: o in MarkSet(b, m) ==> Bears(tx, home, m)
  }

  /** An offset filed under a mark is the set's end, and what was filed before this run was borne too. */
  lemma FilingEnds(b0: Books, b: Books, o: nat, tx: Transaction, home: Uuid, due: set<Mark>, m: Mark)
    requires Filing(b0, b, o, tx, home, due)
    requires OnlyBorne(b0, o, tx, home)
    ensures m in due ==> EndsAt(MarkSet(b, m), o)
    ensures EndsAt(MarkSet(b, m), o) ==> Bears(tx, home, m)
  {
    hide MarkSet, Bears, Shape;
  }

  /** In a role that is filed completely, the set's end tells whether the transaction shows the role. */
  lemma FilingTellsRole(b0: Books, b: Books, o: nat, tx: Transaction, home: Uuid, due: set<Mark>, key: Key)
    requires Filing(b0, b, o, tx, home, due) && OnlyBorne(b0, o, tx, home)
    requires Signs(tx, key) ==> AddressMark(SignedColumn, key) in due
    requires MovesBalance(tx, key) ==> AddressMark(BalanceColumn, key) in due
    ensures var sets := Lookup(b.addresses, key, NO_SETS);
            && (EndsAt(sets.signed, o) <==> Signs(tx, key))
            && (EndsAt(sets.balance, o) <==> MovesBalance(tx, key))
  {
    hide Filing, OnlyBorne, Signs, MovesBalance, Lookup, EndsAt;
    FilingEnds(b0, b, o, tx, home, due, AddressMark(SignedColumn, key));
    FilingEnds(b0, b, o, tx, home, due, AddressMark(BalanceColumn, key));
    assert ColumnOf(Lookup(b.addresses, key, NO_SETS), SignedColumn) == MarkSet(b, AddressMark(SignedColumn, key));
    assert ColumnOf(Lookup(b.addresses, key, NO_SETS), BalanceColumn) == MarkSet(b, AddressMark(BalanceColumn, key));
  }

  lemma FilingBegins(b: Books, o: nat, tx: Transaction, home: Uuid)
    requires Shape(b) && UpTo(b, o)
    ensures Filing(b, b, o, tx, home, {})
  {
    hide MarkSet, Bears, Shape;
  }

  lemma FaithfulBegins(b: Books, start: nat, txs: seq<Transaction>, tx: Transaction, home: Uuid)
    requires Faithful(b, start, txs, Some(tx), home)
    ensures UpTo(b, start + |txs|) && OnlyBorne(b, start + |txs|, tx, home)
  {
    hide MarkSet, Bears, Shape;
  }

  /** However far an add gets, nothing it leaves behind speaks of an accepted transaction. */
  lemma FaithfulAdvances(b0: Books, b1: Books, start: nat, txs: seq<Transaction>, tx: Transaction, home: Uuid)
    requires Faithful(b0, start, txs, Some(tx), home)
    requires Advances(b0, b1, start + |txs|, tx, home)
    ensures Faithful(b1, start, txs, Some(tx), home)
  {
    hide MarkSet, Bears, Shape;
    forall m, i | 0 <= i < |txs|
      ensures start + i in MarkSet(b1, m) <==> Bears(txs[i], home, m)
    {
      assert MarkSet(b0, m) <= MarkSet(b1, m) <= MarkSet(b0, m) + {start + |txs|};
      assert start + i in MarkSet(b0, m) <==> Bears(txs[i], home, m);
    }
    forall m, o | o in MarkSet(b1, m)
      ensures start <= o <= start + |txs|
    {
      assert MarkSet(b1, m) <= MarkSet(b0, m) + {start + |txs|};
    }
  }

  /** All its marks left, a transaction is in; what an earlier attempt left is among them. */
  lemma FaithfulCompletes(b: Books, start: nat, txs: seq<Transaction>, tx: Transaction, home: Uuid)
    requires Faithful(b, start, txs, Some(tx), home)
    requires AllFiled(b, start + |txs|, tx, home)
    ensures Faithful(b, start, txs + [tx], None, home)
  {
    hide MarkSet, Bears, Shape;
    var all := txs + [tx];
    forall m, i | 0 <= i < |all|
      ensures start + i in MarkSet(b, m) <==> Bears(all[i], home, m)
    {
      if i < |txs| {
        assert start + i in MarkSet(b, m) <==> Bears(txs[i], home, m);
      }
    }
  }

  /** From before an attempt to within it: nothing is filed under the next offset, or what is there is borne. */
  lemma FaithfulPends(b: Books, start: nat, txs: seq<Transaction>, pending: Option<Transaction>, home: Uuid,
                      newStart: nat, tx: Transaction, newHome: Uuid)
    requires Faithful(b, start, txs, pending, home)
    requires pending.None? || (pending.value == tx && newHome == home && newStart == start)
    requires txs != [] ==> newHome == home && newStart == start
    ensures Faithful(b, newStart, txs, Some(tx), newHome)
  {
    hide MarkSet, Bears, Shape;
  }

  /** All the marks a transaction bears, gathered from the parts of an add. */
  lemma DueIsAll(tx: Transaction, home: Uuid, due: set<Mark>)
    requires forall k :: Signs(tx, k) ==> AddressMark(SignedColumn, k) in due
    requires forall b :: b in tx.balances ==> BalanceDue(b, home, due)
    requires forall k :: Bears(tx, home, AddressMark(OtherColumn, k)) ==> AddressMark(OtherColumn, k) in due
    requires KindMark(tx.kind) in due
    ensures forall m :: Bears(tx, home, m) ==> m in due
  {
    hide Signs, Names;
    forall m | Bears(tx, home, m) ensures m in due {
      match m
      case AddressMark(c, k) =>
        if c.BalanceColumn? {
          var b :| b in tx.balances && b.key == k;
          assert BalanceDue(b, home, due);
        }
      case CoinMark(u) =>
        var b :| b in tx.balances && b.coin == u;
        assert BalanceDue(b, home, due);
      case ForeignMark =>
        var b :| b in tx.balances && b.coin != home;
        assert BalanceDue(b, home, due);
      case KindMark(_) =>
    }
  }

  /** A balance entry's marks are all in due. */
  ghost predicate BalanceDue(b: Balance, home: Uuid, due: set<Mark>) {
    && (b.key != NO_KEY ==> AddressMark(BalanceColumn, b.key) in due)
    && (b.coin != home ==> CoinMark(b.coin) in due && ForeignMark in due)
  }

  /** Under every mark a transaction bears, its offset is filed. */
  ghost predicate AllFiled(b: Books, o: nat, tx: Transaction, home: Uuid) {
    forall m :: Bears(tx, home, m) ==> o in MarkSet(b, m)
  }

  lemma FilingEndsAdd(b0: Books, b: Books, o: nat, tx: Transaction, home: Uuid, due: set<Mark>)
    requires Filing(b0, b, o, tx, home, due)
    ensures Shape(b) && Advances(b0, b, o, tx, home)
    ensures (forall m :: Bears(tx, home, m) ==> m in due) ==> AllFiled(b, o, tx, home)
  {
    hide MarkSet, Bears, Shape;
  }

  lemma BalancesDue(tx: Transaction, home: Uuid, due: set<Mark>)
    requires forall b :: b in tx.balances ==> BalanceDue(b, home, due)
    ensures forall k :: MovesBalance(tx, k) ==> AddressMark(BalanceColumn, k) in due
  {
    forall k | MovesBalance(tx, k) ensures AddressMark(BalanceColumn, k) in due {
      var b :| b in tx.balances && b.key == k;
      assert BalanceDue(b, home, due);
    }
  }

  // ----- what faithful books look like

  /** A key's third role holds no offset of its other two, whatever a refused attempt left behind. */
  lemma OtherIsApart(b: Books, start: nat, txs: seq<Transaction>, pending: Option<Transaction>, home: Uuid, key: Key)
    requires Faithful(b, start, txs, pending, home)
    ensures var sets := Lookup(b.addresses, key, NO_SETS);
            sets.other !! sets.signed && sets.other !! sets.balance
  {
    hide Lookup, MovesBalance, Signs, Names;
    var sets := Lookup(b.addresses, key, NO_SETS);
    forall o | o in sets.other ensures o !in sets.signed && o !in sets.balance {
      OffsetBears(b, start, txs, pending, home, o, AddressMark(OtherColumn, key));
      if o in sets.signed { OffsetBears(b, start, txs, pending, home, o, AddressMark(SignedColumn, key)); }
      if o in sets.balance { OffsetBears(b, start, txs, pending, home, o, AddressMark(BalanceColumn, key)); }
    }
  }

  /** The transaction an offset stands for. */
  ghost function At(start: nat, txs: seq<Transaction>, pending: Option<Transaction>, o: int): Option<Transaction> {
    if start <= o < start + |txs| then Some(txs[o - start])
    else if o == start + |txs| then pending
    else None
  }

  /** An offset filed under a mark stands for a transaction that bears it. */
  lemma OffsetBears(b: Books, start: nat, txs: seq<Transaction>, pending: Option<Transaction>, home: Uuid, o: nat,
                    m: Mark)
    requires Faithful(b, start, txs, pending, home) && o in MarkSet(b, m)
    ensures At(start, txs, pending, o).Some? && Bears(At(start, txs, pending, o).value, home, m)
  {
    hide MarkSet, Bears;
    if o < start + |txs| {
      assert start + (o - start) in MarkSet(b, m) <==> Bears(txs[o - start], home, m);
    }
  }

  /** Every accepted offset is in the set of one type, and no offset is in two. */
  lemma KindsPartition(b: Books, start: nat, txs: seq<Transaction>, pending: Option<Transaction>, home: Uuid)
    requires Shape(b) && Faithful(b, start, txs, pending, home)
    requires forall i :: 0 <= i < |txs| ==> txs[i].kind < KIND_COUNT
    ensures forall i :: 0 <= i < |txs| ==> start + i in b.perKind[txs[i].kind]
    ensures forall s, t :: 0 <= s < t < KIND_COUNT ==> b.perKind[s] !! b.perKind[t]
  {
    hide Lookup;
    forall i | 0 <= i < |txs| ensures start + i in b.perKind[txs[i].kind] {
      assert start + i in MarkSet(b, KindMark(txs[i].kind)) <==> Bears(txs[i], home, KindMark(txs[i].kind));
    }
    forall s, t, o | 0 <= s < t < KIND_COUNT && o in b.perKind[s] ensures o !in b.perKind[t] {
      OffsetBears(b, start, txs, pending, home, o, KindMark(s));
      if o in b.perKind[t] { OffsetBears(b, start, txs, pending, home, o, KindMark(t)); }
    }
  }

  /** With nothing pending the foreign set is the union of the coin sets. */
  lemma ForeignIsUnion(b: Books, start: nat, txs: seq<Transaction>, home: Uuid, o: nat)
    requires Faithful(b, start, txs, None, home)
    ensures o in b.foreign <==> exists u :: o in Lookup(b.coins, u, {})
  {
    hide Lookup;
    if o in b.foreign {
      OffsetBears(b, start, txs, None, home, o, ForeignMark);
      var tx := txs[o - start];
      var e :| e in tx.balances && e.coin != home;
      assert start + (o - start) in MarkSet(b, CoinMark(e.coin)) <==> Bears(tx, home, CoinMark(e.coin));
    }
    forall u | o in Lookup(b.coins, u, {}) ensures o in b.foreign {
      assert o in MarkSet(b, CoinMark(u));
      OffsetBears(b, start, txs, None, home, o, CoinMark(u));
      var tx := txs[o - start];
      assert CarriesForeignCoin(tx, home);
      assert start + (o - start) in MarkSet(b, ForeignMark) <==> Bears(tx, home, ForeignMark);
    }
  }

  /**
   Books a refused transaction has left marks in suit another exactly when it bears them all, and keep
   what does not suit.
   */
  lemma SuitsBooks(b: Books, b1: Books, start: nat, txs: seq<Transaction>, refused: Transaction, tx: Transaction,
                   home: Uuid)
    requires Faithful(b, start, txs, Some(refused), home)
    requires forall m :: MarkSet(b, m) <= MarkSet(b1, m)
    ensures Faithful(b, start, txs, Some(tx), home) <==> OnlyBorne(b, start + |txs|, tx, home)
    ensures Faithful(b1, start, txs + [tx], None, home) ==> OnlyBorne(b, start + |txs|, tx, home)
  {
    hide MarkSet, Bears, Shape;
    assert (txs + [tx])[|txs|] == tx;
  }
}
