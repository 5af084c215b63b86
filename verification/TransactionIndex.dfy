/** One segment's index: sets of offsets instead of transactions, and the walk that answers a filter from them. */
module TransactionIndex {
  import opened Words
  import opened Ledger
  import opened Arnm
  import opened Marks
  import opened Pages
  import opened Queries
  import DT = DayTable

  const PAGE_MAX := 1000

  function Days(txs: seq<Transaction>): (r: seq<int>)
    ensures |r| == |txs|
    ensures forall i :: 0 <= i < |txs| ==> r[i] == Day(txs[i])
  {
    seq(|txs|, i requires 0 <= i < |txs| => Day(txs[i]))
  }

  ghost function HomeOf(all: seq<Transaction>): Uuid {
    if all == [] then NIL_UUID else all[0].community
  }

  /** What an index holding txs answers to one more transaction when memory is no question. */
  function Verdict(baseTxNr: uint64, txs: seq<Transaction>, tx: Transaction): Status {
    if tx.txNr < baseTxNr then InvalidParam
    else if txs != [] && tx.txNr != (txs[|txs| - 1].txNr + 1) % W64 then InvalidParam
    else if tx.txNr - baseTxNr >= W32 then SizeExceed
    else if tx.kind >= KIND_COUNT then InvalidEnumType
    else DayVerdict(txs, Day(tx))
  }

  /** A day is counted from the first transaction's, in 32 bits. */
  function DayVerdict(txs: seq<Transaction>, day: int): Status {
    if txs == [] then Ok
    else if day < Day(txs[0]) then InvalidParam
    else if day - Day(txs[0]) >= W32 then SizeExceed
    else Ok
  }

  ghost function Shifted(span: Option<(int, int)>, base: int): Option<(int, int)> {
    if span.Some? then Some((base + span.value.0, base + span.value.1)) else None
  }

  /** The page of one from the upper end is the last. */
  lemma NewestOfPage(xs: seq<int>, base: int)
    ensures var page := Page(xs, 0, 1, true);
            Last(Numbers(xs, base)) == if page == [] then None else Some(base + page[0])
  {
  }

  function Last(xs: seq<int>): Option<int> {
    if xs == [] then None else Some(xs[|xs| - 1])
  }

  class Index {
    const baseTxNr: uint64
    var addressIds: map<Key, nat>
    var addressSets: seq<AddressSets>
    var dayMaxTx: seq<uint32>
    var perKind: seq<set<nat>>
    var coinIds: map<Uuid, nat>
    var coinSets: seq<set<nat>>
    var foreign: set<nat>
    var home: Uuid
    var minTxNr: uint64
    var maxTxNr: uint64
    var firstDay: int
    var transactionCount: uint32

    /** The accepted transactions; the one refused half way, which only a retry completes; the first offset. */
    ghost var txs: seq<Transaction>
    ghost var pending: Option<Transaction>
    ghost var start: nat

    ghost function Addresses(): Table<AddressSets>
      reads this
    {
      Table(addressIds, addressSets)
    }

    ghost function Coins(): Table<set<nat>>
      reads this
    {
      Table(coinIds, coinSets)
    }

    ghost function View(): Books
      reads this
    {
      Books(Addresses(), perKind, Coins(), foreign)
    }

    ghost function All(): seq<Transaction>
      reads this
    {
      if pending.Some? then txs + [pending.value] else txs
    }

    ghost function Next(): nat
      reads this
    {
      start + |txs|
    }

    ghost predicate Headed()
      reads this
    {
      && transactionCount == |txs| < W32
      && (All() != [] ==> firstDay == Day(All()[0]))
      && (txs != [] ==> minTxNr == baseTxNr + start && maxTxNr == baseTxNr + start + |txs| - 1)
      && (txs != [] ==> home == txs[0].community)
    }

    ghost predicate Valid()
      reads this
    {
      && Numbered(All(), baseTxNr + start) && start + |All()| <= W32
      && Headed() && Shape(View())
      && Faithful(View(), start, txs, pending, HomeOf(All()))
      && DT.Describes(dayMaxTx, firstDay, start, Days(All()), |txs|)
    }

    /** Whatever an attempt refused half way has left behind, the transaction would have left as well. */
    ghost predicate Suits(tx: Transaction)
      reads this
    {
      && baseTxNr + |txs| <= tx.txNr
      && var newStart := tx.txNr - baseTxNr - |txs|;
         && Faithful(View(), newStart, txs, Some(tx), HomeOf(txs + [tx]))
         && DT.Describes(dayMaxTx, if txs == [] then Day(tx) else firstDay, newStart, Days(txs) + [Day(tx)], |txs|)
    }

    /** A transaction that is refused anyway, or suits what is there: the retried one does. */
    ghost predicate MayFollow(tx: Transaction)
      reads this
    {
      Verdict(baseTxNr, txs, tx) == Ok ==> Suits(tx)
    }

    constructor (baseTxNr: uint64)
      ensures Valid() && this.baseTxNr == baseTxNr && txs == [] && pending == None
    {
      this.baseTxNr := baseTxNr;
      addressIds, addressSets, dayMaxTx := map[], [], [];
      perKind := seq(KIND_COUNT, _ => {});
      coinIds, coinSets, foreign := map[], [], {};
      home, minTxNr, maxTxNr, firstDay, transactionCount := NIL_UUID, 0, 0, 0, 0;
      txs, pending, start := [], None, 0;
    }

    // ----- building

    method SetsForKey(key: Key, grants: Grants, tick: nat) returns (r: Status, id: nat, tock: nat)
      requires TableOk(Addresses())
      modifies this`addressIds, this`addressSets
      ensures TableOk(Addresses())
      ensures forall k :: Lookup(Addresses(), k, NO_SETS) == Lookup(old(Addresses()), k, NO_SETS)
      ensures r == Ok || r == OutOfMemory
      ensures Generous(grants) ==> r == Ok
      ensures r == Ok ==> key in addressIds && id == addressIds[key] && id < |addressSets|
    {
      r, id, tock := Ok, 0, tick;
      if key !in addressIds {
        if !grants(tock) { return OutOfMemory, id, tock; }
        tock := tock + 1;
      }
      TableOpened(Addresses(), key, NO_SETS);
      addressIds := WithKey(addressIds, key);
      id := addressIds[key];
      while |addressSets| <= id
        invariant TableOk(Addresses()) && key in addressIds && id == addressIds[key]
        invariant forall k :: Lookup(Addresses(), k, NO_SETS) == Lookup(old(Addresses()), k, NO_SETS)
      {
        if !grants(tock) { return OutOfMemory, id, tock; }
        tock := tock + 1;
        TableGrown(Addresses(), NO_SETS);
        addressSets := addressSets + [NO_SETS];
      }
    }

    method CoinSetForUuid(uuid: Uuid, grants: Grants, tick: nat) returns (r: Status, id: nat, tock: nat)
      requires TableOk(Coins())
      modifies this`coinIds, this`coinSets
      ensures TableOk(Coins())
      ensures forall k :: Lookup(Coins(), k, {}) == Lookup(old(Coins()), k, {})
      ensures r == Ok || r == OutOfMemory
      ensures Generous(grants) ==> r == Ok
      ensures r == Ok ==> uuid in coinIds && id == coinIds[uuid] && id < |coinSets|
    {
      r, id, tock := Ok, 0, tick;
      if uuid !in coinIds {
        if !grants(tock) { return OutOfMemory, id, tock; }
        tock := tock + 1;
      }
      TableOpened(Coins(), uuid, {});
      coinIds := WithKey(coinIds, uuid);
      id := coinIds[uuid];
      while |coinSets| <= id
        invariant TableOk(Coins()) && uuid in coinIds && id == coinIds[uuid]
        invariant forall k :: Lookup(Coins(), k, {}) == Lookup(old(Coins()), k, {})
      {
        if !grants(tock) { return OutOfMemory, id, tock; }
        tock := tock + 1;
        TableGrown(Coins(), {});
        coinSets := coinSets + [{}];
      }
    }

    /** Files an offset under an address in one of its columns. */
    method FileAddress(c: Column, key: Key, o: nat, tx: Transaction, ghost b0: Books, ghost due: set<Mark>,
                       grants: Grants, tick: nat)
      returns (r: Status, tock: nat)
      requires Filing(b0, View(), o, tx, home, due) && Bears(tx, home, AddressMark(c, key))
      modifies this`addressIds, this`addressSets
      ensures r == Ok || r == OutOfMemory
      ensures Generous(grants) ==> r == Ok
      ensures Filing(b0, View(), o, tx, home, Plus(due, AddressMark(c, key), r == Ok))
    {
      var id;
      ghost var before := View();
      r, id, tock := SetsForKey(key, grants, tick);
      AddressesSame(before, Addresses());
      FilingSame(b0, before, View(), o, tx, home, due);
      if r != Ok { return; }
      ghost var unfiled := View();
      var sets := addressSets[id];
      var column := ColumnOf(sets, c);
      FilingUpTo(b0, unfiled, o, tx, home, due, AddressMark(c, key));
      RoaringAddAtEnd(column, o, grants(tock));
      var (added, s) := RoaringAdd(column, o, grants(tock));
      TableUpdated(Addresses(), key, WithColumn(sets, c, s), NO_SETS);
      addressSets := addressSets[id := WithColumn(sets, c, s)];
      r, tock := added, tock + 1;
      AddressFiled(unfiled, Addresses(), c, key, o, added == Ok);
      FilingStep(b0, unfiled, View(), o, tx, home, due, AddressMark(c, key), added == Ok);
    }

    method FileCoin(uuid: Uuid, o: nat, tx: Transaction, ghost b0: Books, ghost due: set<Mark>,
                    grants: Grants, tick: nat)
      returns (r: Status, tock: nat)
      requires Filing(b0, View(), o, tx, home, due) && Bears(tx, home, CoinMark(uuid))
      modifies this`coinIds, this`coinSets
      ensures r == Ok || r == OutOfMemory
      ensures Generous(grants) ==> r == Ok
      ensures Filing(b0, View(), o, tx, home, Plus(due, CoinMark(uuid), r == Ok))
    {
      var id;
      ghost var before := View();
      r, id, tock := CoinSetForUuid(uuid, grants, tick);
      CoinsSame(before, Coins());
      FilingSame(b0, before, View(), o, tx, home, due);
      if r != Ok { return; }
      ghost var unfiled := View();
      FilingUpTo(b0, unfiled, o, tx, home, due, CoinMark(uuid));
      RoaringAddAtEnd(coinSets[id], o, grants(tock));
      var (added, s) := RoaringAdd(coinSets[id], o, grants(tock));
      TableUpdated(Coins(), uuid, s, {});
      coinSets := coinSets[id := s];
      r, tock := added, tock + 1;
      CoinFiled(unfiled, Coins(), uuid, o, added == Ok);
      FilingStep(b0, unfiled, View(), o, tx, home, due, CoinMark(uuid), added == Ok);
    }

    method FileForeign(o: nat, tx: Transaction, ghost b0: Books, ghost due: set<Mark>, grants: Grants, tick: nat)
      returns (r: Status, tock: nat)
      requires Filing(b0, View(), o, tx, home, due) && Bears(tx, home, ForeignMark)
      modifies this`foreign
      ensures r == Ok || r == OutOfMemory
      ensures Generous(grants) ==> r == Ok
      ensures Filing(b0, View(), o, tx, home, Plus(due, ForeignMark, r == Ok))
    {
      ghost var unfiled := View();
      FilingUpTo(b0, unfiled, o, tx, home, due, ForeignMark);
      RoaringAddAtEnd(foreign, o, grants(tick));
      var (added, s) := RoaringAdd(foreign, o, grants(tick));
      ForeignFiled(unfiled, o, added == Ok);
      foreign, r, tock := s, added, tick + 1;
      FilingStep(b0, unfiled, View(), o, tx, home, due, ForeignMark, added == Ok);
    }

    method FileKind(o: nat, tx: Transaction, ghost b0: Books, ghost due: set<Mark>, grants: Grants, tick: nat)
      returns (r: Status, tock: nat)
      requires Filing(b0, View(), o, tx, home, due) && tx.kind < KIND_COUNT
      modifies this`perKind
      ensures r == Ok || r == OutOfMemory
      ensures Generous(grants) ==> r == Ok
      ensures Filing(b0, View(), o, tx, home, Plus(due, KindMark(tx.kind), r == Ok))
    {
      ghost var unfiled := View();
      FilingUpTo(b0, unfiled, o, tx, home, due, KindMark(tx.kind));
      assert perKind[tx.kind] == MarkSet(unfiled, KindMark(tx.kind));
      RoaringAddAtEnd(perKind[tx.kind], o, grants(tick));
      var (added, s) := RoaringAdd(perKind[tx.kind], o, grants(tick));
      KindFiled(unfiled, tx.kind, o, added == Ok);
      perKind, r, tock := perKind[tx.kind := s], added, tick + 1;
      FilingStep(b0, unfiled, View(), o, tx, home, due, KindMark(tx.kind), added == Ok);
    }

    method FileSigners(o: nat, tx: Transaction, ghost b0: Books, grants: Grants, tick: nat)
      returns (r: Status, tock: nat, ghost due: set<Mark>)
      requires Filing(b0, View(), o, tx, home, {})
      modifies this`addressIds, this`addressSets
      ensures r == Ok || r == OutOfMemory
      ensures Generous(grants) ==> r == Ok
      ensures Filing(b0, View(), o, tx, home, due)
      ensures r == Ok ==> forall k :: Signs(tx, k) ==> AddressMark(SignedColumn, k) in due
    {
      hide Filing, MarkSet;
      r, tock, due := Ok, tick, {};
      for i := 0 to |tx.signers|
        invariant r == Ok && Filing(b0, View(), o, tx, home, due)
        invariant forall j :: 0 <= j < i && tx.signers[j] != NO_KEY ==> AddressMark(SignedColumn, tx.signers[j]) in due
      {
        var key := tx.signers[i];
        if key == NO_KEY { continue; }
        r, tock := FileAddress(SignedColumn, key, o, tx, b0, due, grants, tock);
        if r != Ok { return; }
        due := due + {AddressMark(SignedColumn, key)};
      }
    }

    /** Files one entry's foreign coin under both of its marks. */
    method FileForeignCoin(b: Balance, o: nat, tx: Transaction, ghost b0: Books, ghost before: set<Mark>,
                           grants: Grants, tick: nat)
      returns (r: Status, tock: nat, ghost due: set<Mark>)
      requires Filing(b0, View(), o, tx, home, before) && b in tx.balances && b.coin != home
      modifies this`coinIds, this`coinSets, this`foreign
      ensures r == Ok || r == OutOfMemory
      ensures Generous(grants) ==> r == Ok
      ensures Filing(b0, View(), o, tx, home, due) && before <= due
      ensures r == Ok ==> CoinMark(b.coin) in due && ForeignMark in due
    {
      hide Filing, MarkSet;
      due := before;
      r, tock := FileCoin(b.coin, o, tx, b0, due, grants, tick);
      if r != Ok { return; }
      due := due + {CoinMark(b.coin)};
      r, tock := FileForeign(o, tx, b0, due, grants, tock);
      if r != Ok { return; }
      due := due + {ForeignMark};
    }

    /** One balance entry: the address whose balance moved, and the coin when it is not the chain's own. */
    method FileBalance(b: Balance, o: nat, tx: Transaction, ghost b0: Books, ghost before: set<Mark>,
                       grants: Grants, tick: nat)
      returns (r: Status, tock: nat, ghost due: set<Mark>)
      requires Filing(b0, View(), o, tx, home, before) && b in tx.balances
      modifies this`addressIds, this`addressSets, this`coinIds, this`coinSets, this`foreign
      ensures r == Ok || r == OutOfMemory
      ensures Generous(grants) ==> r == Ok
      ensures Filing(b0, View(), o, tx, home, due) && before <= due
      ensures r == Ok ==> BalanceDue(b, home, due)
    {
      hide Filing, MarkSet;
      r, tock, due := Ok, tick, before;
      if b.key != NO_KEY {
        r, tock := FileAddress(BalanceColumn, b.key, o, tx, b0, due, grants, tock);
        if r != Ok { return; }
        due := due + {AddressMark(BalanceColumn, b.key)};
      }
      if b.coin != home {
        r, tock, due := FileForeignCoin(b, o, tx, b0, due, grants, tock);
      }
    }

    method FileBalances(o: nat, tx: Transaction, ghost b0: Books, ghost signed: set<Mark>, grants: Grants, tick: nat)
      returns (r: Status, tock: nat, ghost due: set<Mark>)
      requires Filing(b0, View(), o, tx, home, signed)
      modifies this`addressIds, this`addressSets, this`coinIds, this`coinSets, this`foreign
      ensures r == Ok || r == OutOfMemory
      ensures Generous(grants) ==> r == Ok
      ensures Filing(b0, View(), o, tx, home, due) && signed <= due
      ensures r == Ok ==> forall b :: b in tx.balances ==> BalanceDue(b, home, due)
    {
      hide Filing, MarkSet;
      r, tock, due := Ok, tick, signed;
      for i := 0 to |tx.balances|
        invariant r == Ok && Filing(b0, View(), o, tx, home, due) && signed <= due
        invariant forall j :: 0 <= j < i ==> BalanceDue(tx.balances[j], home, due)
      {
        r, tock, due := FileBalance(tx.balances[i], o, tx, b0, due, grants, tock);
        if r != Ok { return; }
      }
    }

    /** Files a named key under the third role, unless the sets show it in one of the first two. */
    method FileNamedKey(key: Key, o: nat, tx: Transaction, ghost b0: Books, ghost before: set<Mark>,
                        grants: Grants, tick: nat)
      returns (r: Status, tock: nat, ghost due: set<Mark>)
      requires Filing(b0, View(), o, tx, home, before) && Names(tx, key)
      requires OnlyBorne(b0, o, tx, home)
      requires Signs(tx, key) ==> AddressMark(SignedColumn, key) in before
      requires MovesBalance(tx, key) ==> AddressMark(BalanceColumn, key) in before
      modifies this`addressIds, this`addressSets
      ensures r == Ok || r == OutOfMemory
      ensures Generous(grants) ==> r == Ok
      ensures Filing(b0, View(), o, tx, home, due) && before <= due
      ensures r == Ok && Bears(tx, home, AddressMark(OtherColumn, key)) ==> AddressMark(OtherColumn, key) in due
    {
      hide Filing, OnlyBorne, MarkSet, Signs, MovesBalance, Names, EndsAt;
      var id;
      due := before;
      ghost var view := View();
      FilingKeepsShape(b0, view, o, tx, home, due);
      r, id, tock := SetsForKey(key, grants, tick);
      AddressesSame(view, Addresses());
      FilingSame(b0, view, View(), o, tx, home, due);
      if r != Ok { return; }
      FilingTellsRole(b0, View(), o, tx, home, due, key);
      if EndsAt(addressSets[id].signed, o) || EndsAt(addressSets[id].balance, o) { return; }
      r, tock := FileAddress(OtherColumn, key, o, tx, b0, due, grants, tock);
      if r != Ok { return; }
      due := due + {AddressMark(OtherColumn, key)};
    }

    /** The parts a transaction's type uses, in their order. */
    method KeysOf(tx: Transaction) returns (named: seq<Key>)
      ensures forall key :: Names(tx, key) <==> key != NO_KEY && key in named
    {
      match tx.kind
      case 1 | 2 | 5 | 7 => named := [tx.part0, tx.part1];
      case 4 => named := [tx.part0, tx.part2];
      case 6 => named := [tx.part0, tx.part1, tx.part2];
      case _ => named := [];
    }

    method FileNamed(o: nat, tx: Transaction, ghost b0: Books, ghost roles: set<Mark>, grants: Grants, tick: nat)
      returns (r: Status, tock: nat, ghost due: set<Mark>)
      requires Filing(b0, View(), o, tx, home, roles)
      requires OnlyBorne(b0, o, tx, home)
      requires forall k :: Signs(tx, k) ==> AddressMark(SignedColumn, k) in roles
      requires forall k :: MovesBalance(tx, k) ==> AddressMark(BalanceColumn, k) in roles
      modifies this`addressIds, this`addressSets
      ensures r == Ok || r == OutOfMemory
      ensures Generous(grants) ==> r == Ok
      ensures Filing(b0, View(), o, tx, home, due) && roles <= due
      ensures r == Ok ==>
                forall k :: Bears(tx, home, AddressMark(OtherColumn, k)) ==> AddressMark(OtherColumn, k) in due
    {
      hide Filing, OnlyBorne, MarkSet, Signs, MovesBalance;
      r, tock, due := Ok, tick, roles;
      var named := KeysOf(tx);
      for i := 0 to |named|
        invariant r == Ok && Filing(b0, View(), o, tx, home, due) && roles <= due
        invariant forall j :: 0 <= j < i && Bears(tx, home, AddressMark(OtherColumn, named[j])) ==>
                    AddressMark(OtherColumn, named[j]) in due
      {
        if named[i] == NO_KEY { continue; }
        r, tock, due := FileNamedKey(named[i], o, tx, b0, due, grants, tock);
        if r != Ok { return; }
      }
    }

    /** Everything an add files: signatures, balances, the body's keys, the type, in this order. */
    method FileAll(o: nat, tx: Transaction, grants: Grants, tick: nat) returns (r: Status)
      requires Shape(View()) && UpTo(View(), o) && OnlyBorne(View(), o, tx, home) && tx.kind < KIND_COUNT
      modifies this`addressIds, this`addressSets, this`coinIds, this`coinSets, this`foreign, this`perKind
      ensures r == Ok || r == OutOfMemory
      ensures Generous(grants) ==> r == Ok
      ensures Shape(View()) && Advances(old(View()), View(), o, tx, home)
      ensures r == Ok ==> AllFiled(View(), o, tx, home)
    {
      hide Filing, MarkSet, Signs, MovesBalance, Bears, OnlyBorne, UpTo, Advances, AllFiled;
      ghost var b0 := View();
      ghost var due: set<Mark> := {};
      var tock;
      FilingBegins(b0, o, tx, home);
      r, tock, due := FileSigners(o, tx, b0, grants, tick);
      if r == Ok {
        r, tock, due := FileBalances(o, tx, b0, due, grants, tock);
      }
      if r == Ok {
        BalancesDue(tx, home, due);
        r, tock, due := FileNamed(o, tx, b0, due, grants, tock);
      }
      if r == Ok {
        r, tock := FileKind(o, tx, b0, due, grants, tock);
        due := Plus(due, KindMark(tx.kind), r == Ok);
      }
      FilingEndsAdd(b0, View(), o, tx, home, due);
      if r == Ok {
        DueIsAll(tx, home, due);
      }
    }

    /**
     Keeps the table describing every offset so far, and this one too unless memory runs out or the day
     is refused.
     */
    method NoteDay(seconds: Seconds, o: uint32, ghost days: seq<int>, grants: Grants, tick: nat)
      returns (r: Status, tock: nat)
      requires transactionCount == 0 <==> days == []
      requires |days| <= o
      requires days == [] || 0 <= DayOf(seconds) - firstDay < W32 ==>
                 var first := if days == [] then DayOf(seconds) else firstDay;
                 DT.Describes(dayMaxTx, first, o - |days|, days + [DayOf(seconds)], |days|)
      modifies this`firstDay, this`dayMaxTx
      ensures r in {Ok, OutOfMemory, InvalidParam, SizeExceed}
      ensures firstDay == if days == [] then DayOf(seconds) else old(firstDay)
      ensures r == InvalidParam <==> DayOf(seconds) < firstDay
      ensures r == SizeExceed <==> W32 <= DayOf(seconds) - firstDay
      ensures r == InvalidParam || r == SizeExceed ==> dayMaxTx == old(dayMaxTx)
      ensures Generous(grants) ==> r != OutOfMemory
      ensures r == Ok ==> dayMaxTx == DT.WithDay(old(dayMaxTx), DayOf(seconds) - firstDay, o)
      ensures r == Ok || r == OutOfMemory ==>
                DT.Describes(dayMaxTx, firstDay, o - |days|, days + [DayOf(seconds)], |days| + if r == Ok then 1 else 0)
    {
      hide DT.Describes, DayOf;
      r, tock := Ok, tick;
      var day := DayOf(seconds);
      if transactionCount == 0 { firstDay := day; }
      if day < firstDay { return InvalidParam, tock; }
      var dayIndex := day - firstDay;
      if dayIndex >= W32 { return SizeExceed, tock; }
      while |dayMaxTx| <= dayIndex
        invariant firstDay == (if days == [] then day else old(firstDay)) && day == firstDay + dayIndex
        invariant DT.Describes(dayMaxTx, firstDay, o - |days|, days + [day], |days|)
        invariant old(dayMaxTx) <= dayMaxTx && forall d :: |old(dayMaxTx)| <= d < |dayMaxTx| ==> dayMaxTx[d] == 0
        invariant |dayMaxTx| <= |old(dayMaxTx)| || |dayMaxTx| <= dayIndex + 1
      {
        if !grants(tock) { return OutOfMemory, tock; }
        tock := tock + 1;
        DT.GrowKeeps(dayMaxTx, firstDay, o - |days|, days + [day], |days|);
        dayMaxTx := dayMaxTx + [0];
      }
      DT.NoteKeeps(dayMaxTx, firstDay, o - |days|, days, day, dayIndex);
      dayMaxTx := dayMaxTx[dayIndex := DT.Noted(dayMaxTx[dayIndex], o)];
    }

    ghost predicate Succeeds(tx: Transaction)
      reads this
    {
      baseTxNr <= tx.txNr < baseTxNr + W32 && (txs != [] ==> tx.txNr == maxTxNr + 1)
    }

    /**
     The retried transaction may follow, with nothing refused half way any may, and a number that does
     not come next is refused.
     */
    lemma RetryFollows(tx: Transaction)
      requires Valid()
      requires pending.None? || tx == pending.value || (txs != [] && tx.txNr != pending.value.txNr)
      ensures MayFollow(tx)
    {
      hide MarkSet, Bears, DT.Describes, DayOf, Shape, Faithful, DayVerdict;
      Heads();
      if Verdict(baseTxNr, txs, tx) == Ok { RetrySuits(tx); }
    }

    lemma RetrySuits(tx: Transaction)
      requires Valid() && (pending.None? || tx == pending.value) && baseTxNr <= tx.txNr
                 && (txs != [] ==> tx.txNr == maxTxNr + 1)
      ensures Suits(tx)
    {
      hide MarkSet, Bears, DT.Describes, DayOf, Shape, Faithful;
      Heads();
      var newStart := tx.txNr - baseTxNr - |txs|;
      assert pending.Some? ==> All()[|txs|] == tx;
      assert txs != [] ==> All()[0] == txs[0];
      FaithfulPends(View(), start, txs, pending, HomeOf(All()), newStart, tx, HomeOf(txs + [tx]));
      if pending.Some? {
        assert Days(All()) == Days(txs) + [Day(pending.value)];
      } else if txs == [] {
        assert All() == [] && Days(txs) == [];
        DT.BlankDescribes(dayMaxTx, firstDay, start, Day(tx), newStart);
        DT.ExpectKeeps(dayMaxTx, Day(tx), newStart, [], Day(tx), 0);
      } else {
        assert All() == txs;
        DT.ExpectKeeps(dayMaxTx, firstDay, start, Days(txs), Day(tx), |txs|);
      }
    }

    /**
     Another transaction under the number of the refused one suits exactly when it bears every mark left
     behind and is of the same day, unless that day has not been noted. If it does not suit, either the
     books, as long as they keep those marks, or the table with its day noted are wrong about the run.
     */
    lemma AnotherFollows(tx: Transaction, b1: Books)
      requires Valid() && pending.Some? && txs != [] && tx.txNr == pending.value.txNr && firstDay <= Day(tx)
      requires forall m :: MarkSet(View(), m) <= MarkSet(b1, m)
      ensures Suits(tx) <==> && OnlyBorne(View(), Next(), tx, home)
                             && (Day(tx) == Day(pending.value) || DT.Unnoted(dayMaxTx, Next()))
      ensures !Suits(tx) && Next() < W32 ==>
                !(&& Faithful(b1, start, txs + [tx], None, home)
                  && DT.Describes(DT.WithDay(dayMaxTx, Day(tx) - firstDay, Next()), firstDay, start,
                                  Days(txs + [tx]), |txs| + 1))
    {
      hide MarkSet, Bears, DT.Describes, DayOf, Shape, Faithful, OnlyBorne, DT.Unnoted;
      Heads();
      assert All()[0] == txs[0] && Days(All()) == Days(txs) + [Day(pending.value)]
               && Days(txs + [tx]) == Days(txs) + [Day(tx)];
      SuitsBooks(View(), b1, start, txs, pending.value, tx, home);
      DT.OtherDayExpected(dayMaxTx, firstDay, start, Days(txs), Day(pending.value), Day(tx));
      if Next() < W32 { DT.OtherDayNoted(dayMaxTx, firstDay, start, Days(txs), Day(pending.value), Day(tx)); }
    }

    /** From here on the transaction is pending: a refusal further down leaves a valid index. */
    ghost method Pend(tx: Transaction)
      requires Numbered(All(), baseTxNr + start) && Shape(View())
      requires transactionCount == |txs| < W32 && tx.kind < KIND_COUNT && Succeeds(tx)
      requires txs != [] ==> && minTxNr == baseTxNr + start && maxTxNr == baseTxNr + start + |txs| - 1
                             && home == txs[0].community && firstDay == Day(txs[0])
      requires txs == [] ==> firstDay == Day(tx)
      requires |txs| <= tx.txNr - baseTxNr
      requires Faithful(View(), tx.txNr - baseTxNr - |txs|, txs, Some(tx), HomeOf(txs + [tx]))
      requires DT.Describes(dayMaxTx, firstDay, tx.txNr - baseTxNr - |txs|, Days(txs) + [Day(tx)], |txs|)
      modifies this`pending, this`start
      ensures Valid() && pending == Some(tx) && start == tx.txNr - baseTxNr - |txs|
    {
      hide MarkSet, Bears, DT.Describes, DayOf, Shape, Faithful;
      var newStart := tx.txNr - baseTxNr - |txs|;
      assert txs != [] ==> All()[0] == txs[0];
      forall i | 0 <= i < |txs|
        ensures txs[i].txNr == baseTxNr + start + i && txs[i].kind < KIND_COUNT
      {
        assert All()[i] == txs[i];
      }
      start, pending := newStart, Some(tx);
      assert All() == txs + [tx];
      assert Days(All()) == Days(txs) + [Day(tx)];
    }

    /** All marks left and the day noted, the pending transaction counts as accepted. */
    ghost method Accept(tx: Transaction)
      requires Numbered(All(), baseTxNr + start) && start + |All()| <= W32
      requires Shape(View()) && pending == Some(tx) && |txs| + 1 < W32
      requires Faithful(View(), start, txs, pending, HomeOf(All()))
      requires AllFiled(View(), start + |txs|, tx, HomeOf(All()))
      requires transactionCount == |txs| + 1 && minTxNr == baseTxNr + start && maxTxNr == baseTxNr + start + |txs|
      requires home == HomeOf(All()) && firstDay == Day(All()[0])
      requires DT.Describes(dayMaxTx, firstDay, start, Days(All()), |txs| + 1)
      modifies this`pending, this`txs
      ensures Valid() && pending == None && txs == old(txs) + [tx]
    {
      hide Numbered, MarkSet, Bears, DT.Describes, DayOf, Shape, Faithful, AllFiled;
      FaithfulCompletes(View(), start, txs, tx, HomeOf(All()));
      ghost var all := All();
      txs, pending := txs + [tx], None;
      assert All() == all;
    }

    /** The second half of an add: the chain's own facts from its first transaction, the marks, the count. */
    method FileAndAccept(tx: Transaction, grants: Grants, tick: nat) returns (r: Status)
      requires Valid() && pending == Some(tx) && Succeeds(tx) && tx.kind < KIND_COUNT
      requires DT.Describes(dayMaxTx, firstDay, start, Days(All()), |txs| + 1)
      requires start + |txs| == tx.txNr - baseTxNr
      modifies this
      ensures txs == if r == Ok then old(txs) + [tx] else old(txs)
      ensures pending == if r == Ok then None else Some(tx)
      ensures r == Ok || (r == OutOfMemory && !Generous(grants))
      ensures |txs| < W32 ==> Valid()
      ensures |txs| == W32 ==> transactionCount == 0
    {
      hide Numbered, MarkSet, Bears, DT.Describes, DayOf, Shape, Faithful, AllFiled, Advances, UpTo, OnlyBorne;
      if transactionCount == 0 {
        minTxNr, home := tx.txNr, tx.community;
      }
      ghost var b0 := View();
      FaithfulBegins(b0, start, txs, tx, home);
      r := FileAll(tx.txNr - baseTxNr, tx, grants, tick);
      FaithfulAdvances(b0, View(), start, txs, tx, home);
      if r != Ok { return; }
      maxTxNr, transactionCount := tx.txNr, (transactionCount + 1) % W32;
      if |txs| + 1 < W32 {
        Accept(tx);
      } else {
        txs, pending := txs + [tx], None;
      }
    }

    lemma SuitsSays(tx: Transaction)
      requires Suits(tx)
      ensures |txs| <= tx.txNr - baseTxNr
                && Faithful(View(), tx.txNr - baseTxNr - |txs|, txs, Some(tx), HomeOf(txs + [tx]))
      ensures DT.Describes(dayMaxTx, if txs == [] then Day(tx) else firstDay, tx.txNr - baseTxNr - |txs|,
                Days(txs) + [Day(tx)], |txs|)
    {
      hide Faithful, DT.Describes, DayOf;
    }

    /** The first half of an add: the day is noted, and from there on the transaction is pending. */
    method NoteAndPend(tx: Transaction, grants: Grants) returns (r: Status, tock: nat)
      requires Valid() && Succeeds(tx) && tx.kind < KIND_COUNT && (DayVerdict(txs, Day(tx)) == Ok ==> Suits(tx))
      modifies this`firstDay, this`dayMaxTx, this`pending, this`start
      ensures Valid()
      ensures r == OutOfMemory || r == DayVerdict(txs, Day(tx))
      ensures r == OutOfMemory ==> DayVerdict(txs, Day(tx)) == Ok && !Generous(grants)
      ensures pending == if r == Ok || r == OutOfMemory then Some(tx) else old(pending)
      ensures r == Ok ==> start + |txs| == tx.txNr - baseTxNr
      ensures r == Ok ==> DT.Describes(dayMaxTx, firstDay, start, Days(All()), |txs| + 1)
    {
      hide Numbered, MarkSet, Bears, DT.Describes, DayOf, Shape, Faithful, Suits, Days, HomeOf;
      var o: uint32 := tx.txNr - baseTxNr;
      Heads();
      assert txs != [] ==> All()[0] == txs[0];
      if DayVerdict(txs, Day(tx)) == Ok { SuitsSays(tx); }
      r, tock := NoteDay(tx.confirmedAt, o, Days(txs), grants, 0);
      if r == InvalidParam || r == SizeExceed { return; }
      DT.DescribesFewer(dayMaxTx, firstDay, o - |txs|, Days(txs) + [Day(tx)], |txs|);
      Pend(tx);
      assert Days(All()) == Days(txs) + [Day(tx)];
    }

    method Add(tx: Transaction, grants: Grants) returns (r: Status)
      requires Valid() && MayFollow(tx)
      modifies this
      ensures txs == if r == Ok then old(txs) + [tx] else old(txs)
      ensures pending == if r == Ok then None else if r == OutOfMemory then Some(tx) else old(pending)
      ensures r == OutOfMemory || r == Verdict(baseTxNr, old(txs), tx)
      ensures r == OutOfMemory ==> Verdict(baseTxNr, old(txs), tx) == Ok && !Generous(grants)
      ensures |txs| < W32 ==> Valid()
      ensures |txs| == W32 ==> transactionCount == 0
    {
      hide Valid, Suits, DayOf, DayVerdict, Numbered;
      Heads();
      assert txs != [] ==> All()[|txs| - 1] == txs[|txs| - 1];
      if tx.txNr < baseTxNr { return InvalidParam; }
      if transactionCount != 0 && tx.txNr != (maxTxNr + 1) % W64 { return InvalidParam; }
      var distance := tx.txNr - baseTxNr;
      if distance >= W32 { return SizeExceed; }
      if tx.kind >= KIND_COUNT { return InvalidEnumType; }
      var tock;
      r, tock := NoteAndPend(tx, grants);
      if r != Ok { return; }
      r := FileAndAccept(tx, grants, tock);
    }

    // ----- asking

    /** Days can be told from numbers: they ascend, and every offset is noted. */
    ghost predicate DaysTold()
      reads this
    {
      DaysAscend(All()) && (All() != [] ==> start + |All()| < W32)
    }

    /** A filter that leaves the date open can always be answered. */
    ghost predicate Answerable(f: Filter)
      reads this
    {
      f.fromSeconds == 0 == f.toSeconds || DaysTold()
    }

    /** The span of numbers confirmed on the days a span of seconds touches, as the day table gives it. */
    method RangeOfDays(fromSeconds: Seconds, toSeconds: Seconds) returns (r: Option<(int, int)>)
      requires transactionCount != 0 ==> Valid()
      ensures transactionCount == 0 ==> r == None
      ensures transactionCount != 0 ==>
                r == Shifted(DT.Span(dayMaxTx, firstDay, start, DayBound(fromSeconds), DayBound(toSeconds)), baseTxNr)
      ensures Valid() && DaysTold() ==>
                || SpansDays(txs, r, DayBound(fromSeconds), DayBound(toSeconds))
                || (pending.Some? && SpansDays(All(), r, DayBound(fromSeconds), DayBound(toSeconds)))
    {
      hide Numbered, MarkSet, Shape, Faithful, DT.Describes, DayOf, DaysAscend, SpansDays, DaysTold;
      if Valid() { SpanOfDaysTight(fromSeconds, toSeconds); }
      if transactionCount == 0 { return None; }
      var last := DT.LastDay(dayMaxTx, firstDay, DayBound(toSeconds));
      if last < 0 { return None; }
      var first := DT.FirstDay(firstDay, DayBound(fromSeconds));
      if last < first { return None; }
      var cursor := LastNoted(first, last + 1);
      if cursor < first { return None; }
      var endOffset := dayMaxTx[cursor] - 1;
      var before := LastNoted(0, first);
      var startOffset := if before < 0 then minTxNr - baseTxNr else dayMaxTx[before];
      if endOffset < startOffset { return None; }
      return Some((baseTxNr + startOffset, baseTxNr + endOffset));
    }

    /** The last day with a transaction from lo up to below hi; below lo when there is none. */
    method LastNoted(lo: nat, hi: nat) returns (day: int)
      requires lo <= hi <= |dayMaxTx|
      ensures day == DT.LastMarked(dayMaxTx, lo, hi)
    {
      day := hi - 1;
      while lo <= day && dayMaxTx[day] == 0
        invariant lo - 1 <= day < hi
        invariant DT.LastMarked(dayMaxTx, lo, hi) == DT.LastMarked(dayMaxTx, lo, day + 1)
      {
        day := day - 1;
      }
    }

    /** The table speaks of the accepted transactions, or of them and the one refused half way. */
    lemma SpanOfDaysTight(fromSeconds: Seconds, toSeconds: Seconds)
      requires Valid()
      ensures txs != [] && DaysTold() ==>
                var span := Shifted(DT.Span(dayMaxTx, firstDay, start, DayBound(fromSeconds), DayBound(toSeconds)),
                    baseTxNr);
                || SpansDays(txs, span, DayBound(fromSeconds), DayBound(toSeconds))
                || (pending.Some? && SpansDays(All(), span, DayBound(fromSeconds), DayBound(toSeconds)))
      ensures txs == [] ==> SpansDays(txs, None, DayBound(fromSeconds), DayBound(toSeconds))
    {
      hide MarkSet, Shape, Faithful, DT.Describes, DayOf, DT.Span, DayBound, Numbered, SpansDays;
      NoSpan(DayBound(fromSeconds), DayBound(toSeconds));
      if txs != [] && DaysTold() {
        TakenNumbers();
        if pending.None? {
          SpanOfRun(txs, fromSeconds, toSeconds);
        } else {
          assert Days(All())[..|txs|] == Days(txs);
          DT.NotedOrNot(dayMaxTx, firstDay, start, Days(All()));
          if DT.Describes(dayMaxTx, firstDay, start, Days(All()), |All()|) {
            SpanOfRun(All(), fromSeconds, toSeconds);
          } else {
            SpanOfRun(txs, fromSeconds, toSeconds);
          }
        }
      }
    }

    lemma NoSpan(from: Option<int>, to: Option<int>)
      ensures SpansDays([], None, from, to)
    {
    }

    lemma TakenNumbers()
      requires Valid() && DaysTold()
      ensures Numbered(txs, baseTxNr + start) && DaysAscend(txs)
    {
      hide MarkSet, Shape, Faithful, DT.Describes, Day;
      assert forall i :: 0 <= i < |txs| ==> All()[i] == txs[i];
    }

    /** A run the table describes to its end is spanned exactly. */
    lemma SpanOfRun(run: seq<Transaction>, fromSeconds: Seconds, toSeconds: Seconds)
      requires run != [] && Numbered(run, baseTxNr + start) && DaysAscend(run) && start + |run| < W32
      requires DT.Describes(dayMaxTx, firstDay, start, Days(run), |run|)
      ensures var span := DT.Span(dayMaxTx, firstDay, start, DayBound(fromSeconds), DayBound(toSeconds));
              SpansDays(run, Shifted(span, baseTxNr), DayBound(fromSeconds), DayBound(toSeconds))
    {
      hide DT.Describes, DayOf, DT.Span, DayBound;
      assert DT.Ascend(Days(run));
      DT.SpanTight(dayMaxTx, firstDay, start, Days(run), DayBound(fromSeconds), DayBound(toSeconds));
      DT.SpanExact(dayMaxTx, firstDay, start, Days(run), |run|, DayBound(fromSeconds), DayBound(toSeconds));
    }

    /** What the fields say of the accepted transactions. */
    lemma Heads()
      requires Valid()
      ensures transactionCount == |txs| < W32 && start + |All()| <= W32
      ensures txs != [] ==> maxTxNr == txs[|txs| - 1].txNr
      ensures forall i :: 0 <= i < |All()| ==> All()[i].txNr == baseTxNr + start + i
      ensures pending.Some? ==> pending.value.txNr == baseTxNr + start + |txs|
    {
      hide MarkSet, Shape, Faithful, DT.Describes, DayOf;
      assert txs != [] ==> All()[|txs| - 1] == txs[|txs| - 1];
      assert pending.Some? ==> All()[|txs|] == pending.value;
    }

    /** The sets an address's role reads: one for a balance change, a union of three for any part in it. */
    method RoleSets(f: Filter) returns (found: bool, all: seq<set<nat>>, any: seq<set<nat>>)
      requires Valid()
      ensures forall i :: 0 <= i < |txs| ==>
                (RoleMatches(txs[i], f) <==> found && InAll(all, start + i) && (any == [] || InAny(any, start + i)))
    {
      hide Numbered, DT.Describes, Days, Shape, Faithful, InAll, InAny;
      InNone();
      all, any := [], [];
      if f.role == NoRole { return true, all, any; }
      RoleBorne(f);
      if f.key !in addressIds || addressIds[f.key] >= |addressSets| { return false, all, any; }
      var sets := addressSets[addressIds[f.key]];
      if f.role == BalanceRole {
        all := [sets.balance];
        InOne(sets.balance);
      } else {
        any := [sets.balance, sets.signed, sets.other];
        forall i | 0 <= i < |txs|
          ensures InAny(any, start + i) <==> RoleMatches(txs[i], f)
        {
          InAnyOfThree(sets.balance, sets.signed, sets.other, start + i);
        }
      }
      found := true;
    }

    lemma RoleBorne(f: Filter)
      requires Valid()
      ensures var sets := Lookup(Addresses(), f.key, NO_SETS);
              forall i :: 0 <= i < |txs| ==>
                && (start + i in sets.balance <==> MovesBalance(txs[i], f.key))
                && (start + i in sets.balance || start + i in sets.signed || start + i in sets.other
                    <==> MovesBalance(txs[i], f.key) || Signs(txs[i], f.key) || Names(txs[i], f.key))
    {
      hide Numbered, DT.Describes, Days, MovesBalance, Signs, Names, Lookup, Shape;
      forall i | 0 <= i < |txs|
        ensures forall c :: start + i in ColumnOf(Lookup(Addresses(), f.key, NO_SETS), c)
                        <==> Bears(txs[i], HomeOf(All()), AddressMark(c, f.key))
      {
        forall c ensures MarkSet(View(), AddressMark(c, f.key)) == ColumnOf(Lookup(Addresses(), f.key, NO_SETS), c) {}
      }
      forall i | 0 <= i < |txs|
        ensures var sets := Lookup(Addresses(), f.key, NO_SETS);
                && (start + i in sets.balance <==> MovesBalance(txs[i], f.key))
                && (start + i in sets.balance || start + i in sets.signed || start + i in sets.other
                    <==> MovesBalance(txs[i], f.key) || Signs(txs[i], f.key) || Names(txs[i], f.key))
      {
        var sets := Lookup(Addresses(), f.key, NO_SETS);
        assert ColumnOf(sets, BalanceColumn) == sets.balance;
        assert ColumnOf(sets, SignedColumn) == sets.signed;
        assert ColumnOf(sets, OtherColumn) == sets.other;
      }
    }

    /** The set of the type asked for; a type the library does not know matches nothing. */
    method KindSets(f: Filter) returns (found: bool, all: seq<set<nat>>)
      requires Valid()
      ensures forall i :: 0 <= i < |txs| ==>
                ((f.kind != ANY_KIND ==> txs[i].kind == f.kind) <==> found && InAll(all, start + i))
    {
      hide DT.Describes, Days, InAll;
      InNone();
      all := [];
      if f.kind == ANY_KIND { return true, all; }
      forall i | 0 <= i < |txs|
        ensures txs[i].kind < KIND_COUNT
        ensures f.kind < KIND_COUNT ==> (start + i in perKind[f.kind] <==> txs[i].kind == f.kind)
      {
        assert All()[i] == txs[i];
        assert f.kind < KIND_COUNT ==> MarkSet(View(), KindMark(f.kind)) == perKind[f.kind];
        assert start + i in MarkSet(View(), KindMark(f.kind)) <==> Bears(txs[i], HomeOf(All()), KindMark(f.kind));
      }
      if f.kind >= KIND_COUNT { return false, all; }
      all := [perKind[f.kind]];
      InOne(perKind[f.kind]);
      found := true;
    }

    /** A foreign coin is a set to intersect; the chain's own coin is the union of the others, excluded. */
    method CoinSets(f: Filter) returns (found: bool, all: seq<set<nat>>, none: seq<set<nat>>)
      requires Valid() && txs != []
      ensures forall i :: 0 <= i < |txs| ==>
                (CoinMatches(txs[i], f, home) <==> found && InAll(all, start + i) && !InAny(none, start + i))
    {
      hide Numbered, DT.Describes, Days, Shape, Faithful, CarriesCoin, CarriesForeignCoin, InAll, InAny;
      InNone();
      all, none := [], [];
      if f.coin == NIL_UUID { return true, all, none; }
      CoinBorne(f.coin);
      if f.coin == home {
        none := [foreign];
        InOne(foreign);
        return true, all, none;
      }
      if f.coin !in coinIds || coinIds[f.coin] >= |coinSets| { return false, all, none; }
      all := [coinSets[coinIds[f.coin]]];
      InOne(coinSets[coinIds[f.coin]]);
      found := true;
    }

    lemma CoinBorne(coin: Uuid)
      requires Valid() && txs != []
      ensures forall i :: 0 <= i < |txs| ==>
                && (start + i in foreign <==> CarriesForeignCoin(txs[i], home))
                && (coin != home ==> (start + i in Lookup(Coins(), coin, {}) <==> CarriesCoin(txs[i], coin)))
    {
      hide Numbered, DT.Describes, Days, CarriesCoin, CarriesForeignCoin, Lookup, Shape;
      assert All()[0] == txs[0];
      forall i | 0 <= i < |txs|
        ensures start + i in foreign <==> CarriesForeignCoin(txs[i], home)
        ensures coin != home ==> (start + i in Lookup(Coins(), coin, {}) <==> CarriesCoin(txs[i], coin))
      {
        assert start + i in MarkSet(View(), ForeignMark) <==> Bears(txs[i], home, ForeignMark);
        assert start + i in MarkSet(View(), CoinMark(coin)) <==> Bears(txs[i], home, CoinMark(coin));
      }
    }

    /** A range of numbers narrowed by the days the filter names; none when no day matches. */
    method NarrowedByDays(f: Filter, min: int, max: int) returns (r: Option<(int, int)>)
      requires Valid() && txs != []
      ensures Answerable(f) ==> forall i :: 0 <= i < |txs| ==>
                (DayInSpan(Day(txs[i]), DayBound(f.fromSeconds), DayBound(f.toSeconds))
                 && min <= baseTxNr + start + i <= max
                 <==> r.Some? && r.value.0 <= baseTxNr + start + i <= r.value.1)
    {
      hide Valid, DT.Span, DayInSpan, DayBound, DayOf, DaysTold, SpansDays;
      Heads();
      if f.fromSeconds == 0 == f.toSeconds {
        EveryDay(f);
        return Some((min, max));
      }
      DaysStand(f);
      var days := RangeOfDays(f.fromSeconds, f.toSeconds);
      OnDays(f, days, min, max);
      if days == None { return None; }
      r := Some((if min < days.value.0 then days.value.0 else min, if days.value.1 < max then days.value.1 else max));
    }

    /** A range narrowed by a span of numbers holds what is in both. */
    lemma OnDays(f: Filter, days: Option<(int, int)>, min: int, max: int)
      requires Answerable(f) ==> forall i :: 0 <= i < |txs| ==>
                 (DayInSpan(Day(txs[i]), DayBound(f.fromSeconds), DayBound(f.toSeconds))
                  <==> DT.Within(days, baseTxNr + start + i))
      ensures Answerable(f) ==> forall i :: 0 <= i < |txs| ==>
                (DayInSpan(Day(txs[i]), DayBound(f.fromSeconds), DayBound(f.toSeconds))
                 && min <= baseTxNr + start + i <= max
                 <==> days.Some? && (if min < days.value.0 then days.value.0 else min) <= baseTxNr + start + i
                      && baseTxNr + start + i <= (if days.value.1 < max then days.value.1 else max))
    {
      hide DayInSpan, DayBound, DayOf, Answerable;
    }

    /** The offsets whose transactions match the filter by number and by day, as one range. */
    method SpanOf(f: Filter) returns (r: Option<(nat, nat)>)
      requires Valid() && txs != []
      ensures r.Some? ==> start <= r.value.0 <= r.value.1 < start + |txs|
      ensures Answerable(f) ==> forall i :: 0 <= i < |txs| ==>
                (NumberMatches(txs[i], f) && DayInSpan(Day(txs[i]), DayBound(f.fromSeconds), DayBound(f.toSeconds))
                 <==> r.Some? && r.value.0 <= start + i <= r.value.1)
    {
      hide MarkSet, Shape, Faithful, DT.Describes, Days, DayInSpan, DayBound, DayOf, Answerable;
      NumbersStand();
      var named := NarrowedByDays(f, if f.minTxNr != 0 then f.minTxNr else minTxNr,
          if f.maxTxNr != 0 then f.maxTxNr else maxTxNr);
      if named == None { return None; }
      var minTx, maxTx := named.value.0, named.value.1;
      if minTx < minTxNr { minTx := minTxNr; }
      if maxTxNr < maxTx { maxTx := maxTxNr; }
      if maxTx < minTx { return None; }
      r := Some((minTx - baseTxNr, maxTx - baseTxNr));
    }

    lemma NumbersStand()
      requires Valid() && txs != []
      ensures forall i :: 0 <= i < |txs| ==> txs[i].txNr == baseTxNr + start + i
    {
      hide MarkSet, Shape, Faithful, DT.Describes, Days;
      forall i | 0 <= i < |txs| ensures txs[i].txNr == baseTxNr + start + i {
        assert All()[i] == txs[i];
      }
    }

    lemma EveryDay(f: Filter)
      ensures f.fromSeconds == 0 == f.toSeconds ==>
                forall day: int :: DayInSpan(day, DayBound(f.fromSeconds), DayBound(f.toSeconds))
    {
    }

    lemma DaysStand(f: Filter)
      requires Valid() && txs != []
      ensures DaysTold() ==>
                var span := DT.Span(dayMaxTx, firstDay, start, DayBound(f.fromSeconds), DayBound(f.toSeconds));
                forall i :: 0 <= i < |txs| ==>
                  (DayInSpan(Day(txs[i]), DayBound(f.fromSeconds), DayBound(f.toSeconds))
                   <==> DT.Within(Shifted(span, baseTxNr), baseTxNr + start + i))
    {
      hide MarkSet, Shape, Faithful, Numbered, DT.Describes, DT.Span, DayOf;
      if DaysTold() {
        assert DT.Ascend(Days(All()));
        DT.SpanExact(dayMaxTx, firstDay, start, Days(All()), |txs|, DayBound(f.fromSeconds), DayBound(f.toSeconds));
        forall i | 0 <= i < |txs|
          ensures Days(All())[i] == Day(txs[i])
        {
          assert All()[i] == txs[i];
        }
      }
    }

    /**
     Builds a query that describes the filter over the accepted transactions; without one the plain scan
     finds nothing.
     */
    method QueryOfFilter(f: Filter) returns (r: Option<Query>)
      requires transactionCount != 0 ==> Valid()
      ensures r.Some? ==> Valid() && txs != [] && start <= r.value.min <= r.value.max < start + |txs|
      ensures Valid() && Answerable(f) && r.Some? ==> Describes(r.value, txs, start, f, HomeOf(txs))
      ensures Valid() && Answerable(f) && r.None? ==> Scan(txs, f, HomeOf(txs)) == []
      ensures transactionCount == 0 ==> r == None
    {
      hide Numbered, MarkSet, Shape, Faithful, DT.Describes, Days, InAll, InAny, RoleMatches, CoinMatches,
        NumberMatches;
      if transactionCount == 0 { return None; }
      var roleFound, roleAll, any := RoleSets(f);
      var kindFound, kindAll := KindSets(f);
      var coinFound, coinAll, none := CoinSets(f);
      var span := SpanOf(f);
      if !roleFound || !kindFound || !coinFound || span.None? {
        if Answerable(f) {
          ScanEmpty(txs, f, home);
        }
        return None;
      }
      var q := Query(roleAll + kindAll + coinAll, any, none, span.value.0, span.value.1);
      InAllJoined(roleAll, kindAll, coinAll);
      r := Some(q);
    }

    /** How many transactions match: exactly those the naive scan finds. */
    method Count(f: Filter) returns (count: nat)
      requires transactionCount != 0 ==> Valid()
      ensures Valid() && Answerable(f) ==> count == |Scan(txs, f, HomeOf(txs))|
      ensures transactionCount == 0 ==> count == 0
    {
      hide Numbered, MarkSet, Shape, Faithful, DT.Describes, Days, Describes, Query.Matches, Query.NamesNoSet,
        Answerable;
      var query := QueryOfFilter(f);
      if query.None? { return 0; }
      var q := query.value;
      if q.NamesNoSet() {
        count := SpanCardinality(q);
      } else {
        count := |q.Matches()|;
      }
      Reads(q, f);
    }

    /** The page cut out of the naive scan, and the scan's length. */
    method Listing(f: Filter, skip: nat, size: nat, descending: bool)
      returns (r: Status, out: seq<int>, count: nat)
      requires transactionCount != 0 ==> Valid()
      ensures r == if size > 1000 then InvalidParam else Ok
      ensures r == Ok ==> |out| <= size
      ensures r == Ok && Valid() && Answerable(f) ==> out == Page(Scan(txs, f, HomeOf(txs)), skip, size, descending)
      ensures r == Ok && Valid() && Answerable(f) ==> count == |Scan(txs, f, HomeOf(txs))|
      ensures transactionCount == 0 ==> out == [] && count == 0
    {
      hide Numbered, MarkSet, Shape, Faithful, DT.Describes, Days, Describes, Query.Matches, Query.NamesNoSet, Page,
        Answerable;
      r, out, count := Ok, [], 0;
      if size > PAGE_MAX { return InvalidParam, out, count; }
      var query := QueryOfFilter(f);
      PageFits<int>([], skip, size, descending);
      if query.None? { return; }
      var q := query.value;
      var offsets;
      if q.NamesNoSet() {
        count := SpanCardinality(q);
        offsets := SpanPage(q, skip, size, descending);
      } else {
        count := |q.Matches()|;
        offsets := Page(q.Matches(), skip, size, descending);
      }
      PageFits(q.Matches(), skip, size, descending);
      Reads(q, f);
      NumbersOfPage(q.Matches(), baseTxNr, skip, size, descending);
      out := Numbers(offsets, baseTxNr);
    }

    /** The newest match, read from the newest end: the last the naive scan lists. */
    method Newest(f: Filter) returns (r: Option<int>)
      requires transactionCount != 0 ==> Valid()
      ensures Valid() && Answerable(f) ==> r == Last(Scan(txs, f, HomeOf(txs)))
      ensures transactionCount == 0 ==> r == None
    {
      hide Numbered, MarkSet, Shape, Faithful, DT.Describes, Days, Describes, Query.Matches, Query.NamesNoSet,
        Answerable, Page;
      var query := QueryOfFilter(f);
      if query.None? { return None; }
      var q := query.value;
      var page;
      if q.NamesNoSet() {
        page := SpanPage(q, 0, 1, true);
      } else {
        page := Page(q.Matches(), 0, 1, true);
      }
      Reads(q, f);
      NewestOfPage(q.Matches(), baseTxNr);
      if page == [] { return None; }
      return Some(baseTxNr + page[0]);
    }

    lemma Reads(q: Query, f: Filter)
      requires Valid()
      ensures Answerable(f) && Describes(q, txs, start, f, HomeOf(txs)) ==>
                Numbers(q.Matches(), baseTxNr) == Scan(txs, f, HomeOf(txs))
    {
      hide MarkSet, Shape, Faithful, DT.Describes, Days, Describes, Query.Matches;
      if Describes(q, txs, start, f, HomeOf(txs)) {
        forall i | 0 <= i < |txs| ensures txs[i].txNr == baseTxNr + start + i && txs[i].kind < KIND_COUNT {
          assert All()[i] == txs[i];
        }
        MatchesAreScan(q, txs, baseTxNr, start, f, HomeOf(txs));
      }
    }
  }
}
