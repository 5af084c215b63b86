/** Indices side by side, each over its own window of numbers, merged into one answer; and the register they share. */
module SegmentedChain {
  import opened Words
  import opened Ledger
  import opened Arnm
  import opened Pages
  import opened RowScans
  import opened Windows
  import opened Rows
  import TI = TransactionIndex
  import AR = AddressRegister

  const SEGMENT_TRANSACTIONS_DEFAULT := 0x40_0000

  /** Memory for the three stages of an add: opening a segment, the segment's index, the register. */
  datatype Room = Room(row: Grants, segment: Grants, register: Grants)

  ghost predicate Roomy(room: Room) {
    Generous(room.row) && Generous(room.segment) && Generous(room.register)
  }

  /** The k-th segment holds numbers of its window; what it has pending, the chain has, and could take. */
  ghost predicate Stands(s: TI.Index, size: nat, k: nat, pending: Option<Transaction>)
    reads s
  {
    && s.Valid()
    && s.baseTxNr == Base(size, k)
    && (s.All() != [] ==> s.All()[|s.All()| - 1].txNr < Base(size, k + 1))
    && (s.pending.Some? ==> s.pending == pending && TI.Verdict(s.baseTxNr, s.txs, s.pending.value) == Ok)
  }

  /** A row of segments, no two the same. */
  ghost predicate RowStands(segments: seq<TI.Index>, size: nat, first: nat, pending: Option<Transaction>)
    reads segments
  {
    && (forall i, j :: 0 <= i < j < |segments| ==> segments[i] != segments[j])
    && forall i :: 0 <= i < |segments| ==> Stands(segments[i], size, first + i, pending)
  }

  /** What has been counted. */
  ghost predicate Headed(size: nat, txs: seq<Transaction>, count: nat, min: nat, max: nat) {
    && 0 < size < W32 && count == |txs| && Gapless(txs)
    && (txs != [] ==> 0 < txs[0].txNr && min == txs[0].txNr && max == txs[|txs| - 1].txNr)
  }

  /** What the register has pending the chain has, the register could take, and its segment has taken. */
  ghost predicate Waits(row: Row, size: nat, pending: Option<Transaction>, inRegister: Option<Transaction>) {
    inRegister.Some? ==>
      && inRegister == pending && AR.Verdict(row.txs, inRegister.value) == Ok && 0 < size
      && var number := SegmentOf(size, inRegister.value.txNr);
         row.first <= number < row.first + |row.segments| && IsLast(row.segments[number - row.first], inRegister.value)
  }

  /** A number of its window fits a segment together with all it holds. */
  lemma SegmentReady(s: TI.Index, size: nat, k: nat, pending: Option<Transaction>, tx: Transaction)
    requires Stands(s, size, k, pending) && 0 < size < W32 && SegmentOf(size, tx.txNr) == k
    requires s.pending.Some? ==> s.pending.value == tx
    ensures s.MayFollow(tx) && SegmentVerdict(size, s.txs, tx) == TI.Verdict(s.baseTxNr, s.txs, tx)
    ensures |s.txs| < W32 && (TI.Verdict(s.baseTxNr, s.txs, tx) == Ok ==> |s.txs| + 1 < W32)
    ensures s.transactionCount != 0 && s.maxTxNr == tx.txNr <==> IsLast(s.txs, tx)
    ensures IsLast(s.txs, tx) ==> s.pending.None?
    ensures Base(size, k) <= tx.txNr < Base(size, k + 1)
  {
    hide Base, SegmentOf, TI.Index.Valid, TI.Index.MayFollow, TI.DayVerdict;
    s.Heads();
    s.RetryFollows(tx);
    InWindow(size, tx.txNr, k);
    BaseNext(size, k);
    if s.txs != [] {
      assert s.All()[|s.txs| - 1] == s.txs[|s.txs| - 1];
    }
  }

  /** A segment's index is asked to take a number of its window. */
  method AskSegment(s: TI.Index, ghost size: nat, ghost k: nat, ghost pending: Option<Transaction>, tx: Transaction,
                    grants: Grants)
    returns (r: Status)
    requires Stands(s, size, k, pending) && 0 < size < W32 && SegmentOf(size, tx.txNr) == k
    requires s.pending.Some? ==> s.pending.value == tx
    modifies s
    ensures Stands(s, size, k, if r == OutOfMemory then Some(tx) else None)
    ensures s.txs == if r == Ok then old(s.txs) + [tx] else old(s.txs)
    ensures r == OutOfMemory || r == SegmentVerdict(size, old(s.txs), tx)
    ensures r == OutOfMemory ==> SegmentVerdict(size, old(s.txs), tx) == Ok && !Generous(grants)
  {
    hide Base, SegmentOf, TI.Index.Valid, TI.Verdict, TI.Index.MayFollow, SegmentVerdict, IsLast;
    SegmentReady(s, size, k, pending, tx);
    r := s.Add(tx, grants);
    assert r == Ok || r == OutOfMemory ==> s.All()[|s.All()| - 1] == tx;
    assert r != Ok && r != OutOfMemory ==> s.All() == old(s.All());
  }

  /** Numbers of one window are in one segment. */
  lemma PendsInWindow(s: TI.Index, size: nat, k: nat, pending: Option<Transaction>)
    requires Stands(s, size, k, pending) && s.pending.Some? && 0 < size
    ensures SegmentOf(size, s.pending.value.txNr) == k
  {
    hide Base, SegmentOf, TI.Index.Valid;
    s.Heads();
    assert s.All()[|s.All()| - 1] == s.pending.value;
    InWindow(size, s.pending.value.txNr, k);
  }

  lemma StandsAnyPending(s: TI.Index, size: nat, k: nat, pending: Option<Transaction>, other: Option<Transaction>)
    requires Stands(s, size, k, pending) && s.pending.None?
    ensures Stands(s, size, k, other)
  {
  }

  /** After a segment's answer the whole row stands. */
  lemma RowAnswered(segments: seq<TI.Index>, size: nat, first: nat, position: nat, pending: Option<Transaction>)
    requires position < |segments| && forall i, j :: 0 <= i < j < |segments| ==> segments[i] != segments[j]
    requires forall i :: 0 <= i < |segments| && i != position ==>
               Stands(segments[i], size, first + i, None) && segments[i].pending.None?
    requires Stands(segments[position], size, first + position, pending)
    ensures RowStands(segments, size, first, pending)
  {
    hide Stands;
    forall i | 0 <= i < |segments| ensures Stands(segments[i], size, first + i, pending) {
      if i != position { StandsAnyPending(segments[i], size, first + i, None, pending); }
    }
  }

  /** A row in which nothing is pending stands whatever else is. */
  lemma RowAnyPending(segments: seq<TI.Index>, size: nat, first: nat, pending: Option<Transaction>,
                      other: Option<Transaction>)
    requires RowStands(segments, size, first, pending) && forall i :: 0 <= i < |segments| ==> segments[i].pending.None?
    ensures RowStands(segments, size, first, other)
  {
    hide Stands;
    forall i | 0 <= i < |segments| ensures Stands(segments[i], size, first + i, other) {
      StandsAnyPending(segments[i], size, first + i, pending, other);
    }
  }

  lemma RowGrows(segments: seq<TI.Index>, s: TI.Index, size: nat, first: nat, pending: Option<Transaction>)
    requires RowStands(segments, size, first, pending) && s !in segments
    requires s.Valid() && s.txs == [] && s.pending.None? && s.baseTxNr == Base(size, first + |segments|)
    ensures RowStands(segments + [s], size, first, pending)
  {
    hide Base, TI.Index.Valid;
  }

  lemma WaitsBehind(row: Row, size: nat, pending: Option<Transaction>, inRegister: Option<Transaction>)
    requires Waits(row, size, pending, inRegister)
    ensures Waits(row.(segments := row.segments + [[]]), size, pending, inRegister)
  {
    hide SegmentOf, AR.Verdict, IsLast;
  }

  class Chain {
    const segmentTransactions: uint32
    const addresses: AR.Register
    var segments: seq<TI.Index>
    var firstSegment: nat
    var minTxNr: uint64
    var maxTxNr: uint64
    var transactionCount: uint64

    /** What has been counted, and what ran out of memory and has to be completed first. */
    ghost var txs: seq<Transaction>
    ghost var pending: Option<Transaction>

    ghost predicate Valid()
      reads this, segments, addresses
    {
      && RowStands(segments, segmentTransactions, firstSegment, pending)
      && Headed(segmentTransactions, txs, transactionCount, minTxNr, maxTxNr)
      && addresses.Valid() && addresses.txs == txs
      && Waits(Now(), segmentTransactions, pending, addresses.pending)
    }

    /** A transaction that ran out of memory is added again before any other that carries the next number. */
    ghost predicate MayFollow(tx: Transaction)
      reads this
    {
      pending.Some? ==> tx == pending.value || !NumberFits(txs, tx)
    }

    /** What each segment holds. */
    ghost function Contents(): (r: seq<seq<Transaction>>)
      reads this, segments
      ensures |r| == |segments|
      ensures forall i :: 0 <= i < |segments| ==> r[i] == segments[i].txs
    {
      seq(|segments|, i requires 0 <= i < |segments| reads this, segments => segments[i].txs)
    }

    ghost function Now(): Row
      reads this, segments
    {
      Row(firstSegment, Contents(), txs)
    }

    constructor (segmentTransactions: uint32)
      ensures Valid() && Now() == EMPTY_ROW && segments == [] && pending == None
      ensures this.segmentTransactions ==
                if segmentTransactions == 0 then 4194304 else segmentTransactions
      ensures fresh(addresses)
    {
      this.segmentTransactions :=
        if segmentTransactions == 0 then SEGMENT_TRANSACTIONS_DEFAULT else segmentTransactions;
      addresses := new AR.Register();
      segments, firstSegment, minTxNr, maxTxNr, transactionCount := [], 0, 0, 0, 0;
      txs, pending := [], None;
    }

    // ----- building

    /** Appends an empty segment for the next window, or leaves the row alone. */
    method OpenSegment(number: nat, grants: Grants) returns (r: Status)
      requires Valid() && number == firstSegment + |segments| && Base(segmentTransactions, number) < W64
      modifies this`segments
      ensures Valid()
      ensures r == Ok || (r == OutOfMemory && !Generous(grants))
      ensures r != Ok ==> segments == old(segments)
      ensures r == Ok ==> |segments| == |old(segments)| + 1 && segments[..|old(segments)|] == old(segments)
                          && fresh(segments[|old(segments)|]) && Contents() == old(Contents()) + [[]]
    {
      hide Base, AR.Register.Valid, TI.Index.Valid, RowStands, Waits, Headed;
      if !grants(0) || !grants(1) { return OutOfMemory; }
      BaseIs(segmentTransactions, number);
      ghost var row := Now();
      var s := new TI.Index(number * segmentTransactions);
      RowGrows(segments, s, segmentTransactions, firstSegment, pending);
      WaitsBehind(row, segmentTransactions, pending, addresses.pending);
      segments := segments + [s];
      assert Contents() == row.segments + [[]];
      r := Ok;
    }

    /** The next number, in reach of a row that begins where it has to. */
    ghost predicate Fits(tx: Transaction)
      reads this, segments
    {
      && 0 < segmentTransactions && NumberFits(txs, tx) && InReach(segmentTransactions, Now(), tx)
      && firstSegment == FirstOf(segmentTransactions, Now(), tx)
    }

    /** A number one past the end of the row has its segment opened. */
    method MakeSegment(tx: Transaction, grants: Grants) returns (r: Status)
      requires Valid() && Fits(tx)
      modifies this`segments
      ensures Valid() && Fits(tx)
      ensures r == Ok || (r == OutOfMemory && !Generous(grants))
      ensures Now() == if r == Ok then Opened(segmentTransactions, old(Now()), tx) else old(Now())
      ensures forall i :: 0 <= i < |segments| ==> segments[i] in old(segments) || fresh(segments[i])
    {
      hide RowStands, Base, SegmentOf, AR.Register.Valid, NumberFits, Waits;
      r := Ok;
      var number := SegmentOf(segmentTransactions, tx.txNr);
      InWindow(segmentTransactions, tx.txNr, number);
      if number == firstSegment + |segments| {
        r := OpenSegment(number, grants);
      }
    }

    /** The segment's index takes the number, unless it has it already. */
    method AddToSegment(tx: Transaction, grants: Grants) returns (r: Status)
      requires Valid() && MayFollow(tx) && Fits(tx) && Opened(segmentTransactions, Now(), tx) == Now()
      modifies this`pending, segments[SegmentOf(segmentTransactions, tx.txNr) - firstSegment]
      ensures Valid()
      ensures r != OutOfMemory ==>
                (r, Now()) == Taken(segmentTransactions, old(Now()), tx) && pending == addresses.pending
      ensures r == Ok ==> pending.None? || pending.value == tx
      ensures r != Ok && r != OutOfMemory ==> pending == None
      ensures r == OutOfMemory ==> Now() == old(Now()) && pending == Some(tx) && !Generous(grants)
    {
      hide Base, SegmentOf, Stands, AR.Register.Valid, NumberFits, SegmentVerdict, IsLast, TI.Index.Valid, AR.Verdict,
        Taken, Opened, InReach, FirstOf, RowStands, Headed;
      ghost var row := Now();
      InRow(tx);
      var position := SegmentOf(segmentTransactions, tx.txNr) - firstSegment;
      var s := segments[position];
      TakenIs(segmentTransactions, row, tx, position);
      RowHolds(position);
      StandsPends(s, segmentTransactions, firstSegment + position, pending);
      SegmentReady(s, segmentTransactions, firstSegment + position, pending, tx);
      OthersWait(tx, position);
      var inSegment := s.transactionCount != 0 && s.maxTxNr == tx.txNr;
      if inSegment {
        StandsAnyPending(s, segmentTransactions, firstSegment + position, pending, addresses.pending);
        pending := addresses.pending;
        RowAnswered(segments, segmentTransactions, firstSegment, position, pending);
        assert Contents() == row.segments;
        return Ok;
      }
      NotInRegister(row, segmentTransactions, pending, addresses.pending, tx);
      r := AskAt(position, tx, grants);
    }

    /** The segment at a position is asked, and the rest of the row stays as it is. */
    method AskAt(position: nat, tx: Transaction, grants: Grants) returns (r: Status)
      requires Valid() && position < |segments| && addresses.pending.None?
      requires Stands(segments[position], segmentTransactions, firstSegment + position, pending)
      requires SegmentOf(segmentTransactions, tx.txNr) == firstSegment + position
      requires segments[position].pending.Some? ==> segments[position].pending.value == tx
      requires forall i :: 0 <= i < |segments| && i != position ==>
                 segments[i].pending.None? && Stands(segments[i], segmentTransactions, firstSegment + i, None)
      modifies this`pending, segments[position]
      ensures Valid()
      ensures var held := old(segments[position].txs);
              && (r == OutOfMemory || r == SegmentVerdict(segmentTransactions, held, tx))
              && (r == OutOfMemory ==> !Generous(grants))
              && Contents() == old(Contents())[position := if r == Ok then held + [tx] else held]
      ensures pending == if r == OutOfMemory then Some(tx) else None
    {
      hide Base, SegmentOf, Stands, AR.Register.Valid, NumberFits, SegmentVerdict, TI.Index.Valid, AR.Verdict,
        RowStands, Waits, Gapless;
      ghost var contents := Contents();
      RowHolds(position);
      r := AskSegment(segments[position], segmentTransactions, firstSegment + position, pending, tx, grants);
      pending := if r == OutOfMemory then Some(tx) else None;
      RowAnswered(segments, segmentTransactions, firstSegment, position, pending);
      NothingWaits(Now(), segmentTransactions, pending);
      assert Contents() == contents[position := segments[position].txs];
    }

    /** The number of an open row is in it. */
    lemma InRow(tx: Transaction)
      requires Valid() && Fits(tx) && Opened(segmentTransactions, Now(), tx) == Now()
      ensures 0 < segmentTransactions
                && firstSegment <= SegmentOf(segmentTransactions, tx.txNr) < firstSegment + |segments|
    {
      hide SegmentOf, RowStands, AR.Register.Valid, Waits, NumberFits;
    }

    lemma RowHolds(i: nat)
      requires RowStands(segments, segmentTransactions, firstSegment, pending) && i < |segments|
      ensures Stands(segments[i], segmentTransactions, firstSegment + i, pending)
      ensures forall j, k :: 0 <= j < k < |segments| ==> segments[j] != segments[k]
    {
      hide Stands;
    }

    lemma StandsPends(s: TI.Index, size: nat, k: nat, p: Option<Transaction>)
      requires Stands(s, size, k, p)
      ensures s.pending.Some? ==> s.pending == p
    {
    }

    /** Only the segment of the number can have it pending. */
    lemma OthersWait(tx: Transaction, position: nat)
      requires Valid() && MayFollow(tx) && Fits(tx) && position < |segments|
      requires SegmentOf(segmentTransactions, tx.txNr) == firstSegment + position
      ensures forall i :: 0 <= i < |segments| && i != position ==>
                segments[i].pending.None? && Stands(segments[i], segmentTransactions, firstSegment + i, None)
    {
      hide Base, SegmentOf, AR.Register.Valid, NumberFits, TI.Index.Valid, Waits, Headed, Stands, InReach;
      forall i | 0 <= i < |segments| && i != position
        ensures segments[i].pending.None? && Stands(segments[i], segmentTransactions, firstSegment + i, None)
      {
        var s := segments[i];
        assert Stands(s, segmentTransactions, firstSegment + i, pending);
        StandsPends(s, segmentTransactions, firstSegment + i, pending);
        if s.pending.Some? { PendsInWindow(s, segmentTransactions, firstSegment + i, pending); }
        StandsAnyPending(s, segmentTransactions, firstSegment + i, pending, None);
      }
    }

    /** The register is told of a number its segment holds. */
    method Tell(tx: Transaction, grants: Grants) returns (r: Status)
      requires Valid() && NumberFits(txs, tx) && (pending.Some? ==> pending.value == tx) && pending == addresses.pending
      requires 0 < segmentTransactions && Held(tx)
      modifies this`pending, addresses
      ensures addresses.Valid() && addresses.txs == if r == Ok then txs + [tx] else txs
      ensures RowStands(segments, segmentTransactions, firstSegment, pending) && Contents() == old(Contents())
      ensures pending == addresses.pending == if r == OutOfMemory then Some(tx) else None
      ensures r == OutOfMemory || r == AR.Verdict(txs, tx)
      ensures r == OutOfMemory ==> AR.Verdict(txs, tx) == Ok && !Generous(grants)
    {
      hide RowStands, AR.Verdict, AR.Register.Valid, TI.Index.Valid, SegmentOf, IsLast, Stands, Gapless, Waits, Headed;
      ghost var row := Now();
      HeadedNext(segmentTransactions, row, tx, transactionCount, minTxNr, maxTxNr);
      WaitsToBeTaken(row, segmentTransactions, pending, addresses.pending);
      NoneWaits(tx);
      RowAnyPending(segments, segmentTransactions, firstSegment, pending, None);
      RowAnyPending(segments, segmentTransactions, firstSegment, pending, Some(tx));
      r := addresses.Add(tx, grants);
      pending := if r == OutOfMemory then Some(tx) else None;
      assert Contents() == row.segments;
    }

    method AddToRegister(tx: Transaction, grants: Grants) returns (r: Status)
      requires Valid() && NumberFits(txs, tx) && (pending.Some? ==> pending.value == tx) && pending == addresses.pending
      requires 0 < segmentTransactions && Held(tx)
      modifies this`txs, this`pending, this`minTxNr, this`maxTxNr, this`transactionCount, addresses
      ensures Valid()
      ensures r != OutOfMemory ==> (r, Now()) == Registered(old(Now()), tx) && pending == None
      ensures r == OutOfMemory ==> Now() == old(Now()) && pending == Some(tx) && !Generous(grants)
    {
      hide RowStands, AR.Verdict, AR.Register.Valid, TI.Index.Valid, SegmentOf, IsLast, Stands, Gapless, Waits, Headed;
      ghost var row := Now();
      HeadedNext(segmentTransactions, row, tx, transactionCount, minTxNr, maxTxNr);
      RegisterTakes(row, segmentTransactions, tx);
      r := Tell(tx, grants);
      if r == Ok {
        CountIn(tx);
      }
      NothingWaits(Now(), segmentTransactions, pending);
    }

    /** What the register has taken is counted. */
    method CountIn(tx: Transaction)
      requires RowStands(segments, segmentTransactions, firstSegment, pending) && NumberFits(txs, tx)
      requires Headed(segmentTransactions, txs, transactionCount, minTxNr, maxTxNr)
      requires addresses.Valid() && addresses.txs == txs + [tx] && addresses.pending == pending == None
      modifies this`txs, this`minTxNr, this`maxTxNr, this`transactionCount
      ensures Valid() && Now() == old(Now()).(txs := old(txs) + [tx])
    {
      hide RowStands, AR.Verdict, AR.Register.Valid, TI.Index.Valid, SegmentOf, IsLast, Gapless, Waits, Headed,
        NumberFits;
      ghost var row := Now();
      HeadedNext(segmentTransactions, row, tx, transactionCount, minTxNr, maxTxNr);
      if transactionCount == 0 { minTxNr := tx.txNr; }
      maxTxNr, transactionCount, txs := tx.txNr, transactionCount + 1, txs + [tx];
      assert Contents() == row.segments;
      NothingWaits(Now(), segmentTransactions, pending);
    }

    /** Once its segment has the number no segment has anything pending. */
    lemma NoneWaits(tx: Transaction)
      requires Valid() && 0 < segmentTransactions && Held(tx) && (pending.Some? ==> pending.value == tx)
      ensures forall i :: 0 <= i < |segments| ==> segments[i].pending.None?
    {
      hide Base, SegmentOf, AR.Register.Valid, TI.Index.Valid, Waits, Stands, SegmentVerdict, IsLast;
      forall i | 0 <= i < |segments| ensures segments[i].pending.None? {
        var s := segments[i];
        RowHolds(i);
        StandsPends(s, segmentTransactions, firstSegment + i, pending);
        if s.pending.Some? {
          PendsInWindow(s, segmentTransactions, firstSegment + i, pending);
          SegmentReady(s, segmentTransactions, firstSegment + i, pending, tx);
        }
      }
    }

    /** The segment of the number has it as its newest. */
    ghost predicate Held(tx: Transaction)
      reads this, segments
      requires 0 < segmentTransactions
    {
      var number := SegmentOf(segmentTransactions, tx.txNr);
      firstSegment <= number < firstSegment + |segments| && IsLast(segments[number - firstSegment].txs, tx)
    }

    /** A number in reach: its segment opened if need be, then the segment and the register asked. */
    method Place(tx: Transaction, room: Room) returns (r: Status)
      requires Valid() && MayFollow(tx) && Fits(tx)
      modifies this`segments, this`txs, this`pending, this`minTxNr, this`maxTxNr, this`transactionCount, segments,
               addresses
      ensures Valid()
      ensures forall i :: 0 <= i < |segments| ==> segments[i] in old(segments) || fresh(segments[i])
      ensures r != OutOfMemory ==> (r, Now()) == Offered(segmentTransactions, old(Now()), tx) && pending == None
      ensures r == OutOfMemory ==>
                && Offered(segmentTransactions, Now(), tx) == Offered(segmentTransactions, old(Now()), tx)
                && txs == old(txs) && (pending == old(pending) || pending == Some(tx)) && !Roomy(room)
                && InReach(segmentTransactions, Now(), tx)
    {
      hide RowStands, AR.Verdict, AR.Register.Valid, SegmentOf, IsLast, Stands, Waits, Headed, Taken, Opened,
        Registered, NumberFits, InReach, FirstOf;
      ghost var row, size := Now(), segmentTransactions;
      OpenedAgain(size, row, tx);
      OfferedSteps(size, row, tx);
      r := MakeSegment(tx, room.row);
      if r != Ok { return; }
      ghost var wide := Now();
      r := AddToSegment(tx, room.segment);
      if r != Ok { return; }
      TakenIsLast(size, wide, tx);
      TakenAgain(size, wide, tx);
      r := AddToRegister(tx, room.register);
    }

    lemma NoneWaitsInNoRow(first: nat)
      requires Valid() && segments == []
      ensures RowStands([], segmentTransactions, first, pending) && addresses.pending.None?
    {
      hide AR.Register.Valid;
    }

    method Add(tx: Transaction, room: Room) returns (r: Status)
      requires Valid() && MayFollow(tx)
      modifies this`segments, this`firstSegment, this`txs, this`pending, this`minTxNr, this`maxTxNr,
               this`transactionCount, segments, addresses
      ensures Valid()
      ensures forall i :: 0 <= i < |segments| ==> segments[i] in old(segments) || fresh(segments[i])
      // with memory: the answer to the transaction and the row it leaves
      ensures r != OutOfMemory ==> (r, Now()) == Offered(segmentTransactions, old(Now()), tx)
      // without: the next attempt gets the answer this one would have got
      ensures r == OutOfMemory ==>
                && NumberFits(old(txs), tx) && InReach(segmentTransactions, Now(), tx)
                && txs == old(txs) && !Roomy(room)
                && Offered(segmentTransactions, Now(), tx) == Offered(segmentTransactions, old(Now()), tx)
      ensures r == OutOfMemory ==> pending == old(pending) || pending == Some(tx)
      ensures r != OutOfMemory ==>
                pending == if NumberFits(old(txs), tx) && InReach(segmentTransactions, old(Now()), tx)
                           then None else old(pending)
    {
      hide RowStands, AR.Verdict, AR.Register.Valid, SegmentOf, Waits, Taken, Opened, Registered;
      ghost var row := Now();
      if tx.txNr == 0 { return InvalidParam; }
      if transactionCount != 0 && tx.txNr != (maxTxNr + 1) % W64 { return InvalidParam; }
      var number := SegmentOf(segmentTransactions, tx.txNr);
      if transactionCount == 0 && |segments| == 0 {
        BeginsAnywhere(segmentTransactions, row, tx);
        NoneWaitsInNoRow(number);
        firstSegment := number;
        assert Contents() == [] == row.segments;
        NothingWaits(Now(), segmentTransactions, pending);
      }
      if number < firstSegment { return InvalidParam; }
      if |segments| < number - firstSegment { return InvalidParam; }
      r := Place(tx, room);
    }

    // ----- asking

    /** Without dates any filter is answered; with dates, where the days of each segment ascend. */
    ghost predicate Answerable(f: Filter)
      reads this, segments
    {
      f.fromSeconds == 0 == f.toSeconds || forall i :: 0 <= i < |segments| ==> DaysAscend(segments[i].All())
    }

    lemma WalkStep(steps: nat, descending: bool, f: Filter)
      requires Valid() && steps < |segments|
      ensures var s := segments[if descending then |segments| - 1 - steps else steps];
              && s.Valid()
              && (Answerable(f) ==> s.Answerable(f))
              && Met(Contents(), steps + 1, descending, f)
                 == Met(Contents(), steps, descending, f) + InOrder(Scan(s.txs, f, TI.HomeOf(s.txs)), descending)
    {
      hide Scan, Met, Valid, Answerable, TI.Index.Valid, TI.Index.Answerable;
      var i := if descending then |segments| - 1 - steps else steps;
      MetStep(Contents(), steps, descending, f);
      SegmentAnswers(i, f);
    }

    lemma SegmentAnswers(i: nat, f: Filter)
      requires Valid() && i < |segments|
      ensures segments[i].Valid() && (Answerable(f) ==> segments[i].Answerable(f))
    {
      hide Valid, TI.Index.Valid, DaysAscend;
      SegmentTold(i);
    }

    lemma SegmentTold(i: nat)
      requires Valid() && i < |segments|
      ensures segments[i].Valid()
      ensures DaysAscend(segments[i].All()) ==> segments[i].DaysTold()
    {
      hide Base, AR.Register.Valid, TI.Index.Valid, RowStands, Waits, DaysAscend;
      var s, k := segments[i], firstSegment + i;
      RowHolds(i);
      BaseNext(segmentTransactions, k);
      s.Heads();
    }

    /** As many as the segments find between them. */
    method Count(f: Filter) returns (total: nat)
      requires Valid()
      ensures Answerable(f) ==> total == |Found(Contents(), f)|
    {
      hide RowStands, Headed, Waits, AR.Register.Valid, TI.Index.Valid, Answerable, Found, TI.Index.Answerable, Scan,
        Met;
      total := 0;
      MetEnds(Contents(), false, f);
      for i := 0 to |segments|
        invariant Answerable(f) ==> total == |Met(Contents(), i, false, f)|
      {
        WalkStep(i, false, f);
        var here := segments[i].Count(f);
        total := total + here;
      }
    }

    /**
     The page of what the segments find between them, cut out as if it were one sequence, and the length
     of it all.
     */
    method Listing(f: Filter, skip: nat, size: nat, descending: bool)
      returns (r: Status, out: seq<int>, matches: nat)
      requires Valid()
      ensures r == if size > 1000 then InvalidParam else Ok
      ensures r == Ok && Answerable(f) ==>
                out == Page(Found(Contents(), f), skip, size, descending) && matches == |Found(Contents(), f)|
    {
      hide RowStands, Headed, Waits, AR.Register.Valid, TI.Index.Valid, Answerable, Found, TI.Index.Answerable, Scan,
        Met, Slice, Monus;
      r, out, matches := Ok, [], 0;
      if size > TI.PAGE_MAX { return InvalidParam, out, matches; }
      var remainingSkip, remainingSize := skip, size;
      MetEnds(Contents(), descending, f);
      SliceNothing<int>(skip, size);
      for i := 0 to |segments|
        invariant |out| <= size && remainingSize == size - |out|
        invariant Answerable(f) ==>
                    var met := Met(Contents(), i, descending, f);
                    out == Slice(met, skip, size) && remainingSkip == Monus(skip, |met|) && matches == |met|
      {
        WalkStep(i, descending, f);
        var position := if descending then |segments| - 1 - i else i;
        var here, hereOut, hereCount := segments[position].Listing(f, remainingSkip, remainingSize, descending);
        ghost var met := Met(Contents(), i, descending, f);
        ghost var more := Scan(segments[position].txs, f, TI.HomeOf(segments[position].txs));
        SliceConcat(met, InOrder(more, descending), skip, size);
        MonusAdds(skip, |met|, hereCount);
        matches, out := matches + hereCount, out + hereOut;
        remainingSize := remainingSize - |hereOut|;
        remainingSkip := if remainingSkip <= hereCount then 0 else remainingSkip - hereCount;
      }
    }

    /** The last number the segments find between them: the walk stops at the first one that finds any. */
    method Newest(f: Filter) returns (r: Option<int>)
      requires Valid()
      ensures Answerable(f) ==> r == TI.Last(Found(Contents(), f))
    {
      hide RowStands, Headed, Waits, AR.Register.Valid, TI.Index.Valid, Answerable, Found, TI.Index.Answerable, Scan,
        Met;
      MetEnds(Contents(), true, f);
      for i := 0 to |segments|
        invariant Answerable(f) ==> Met(Contents(), i, true, f) == []
      {
        WalkStep(i, true, f);
        r := segments[|segments| - 1 - i].Newest(f);
        if r.Some? {
          if Answerable(f) { FirstMet(Contents(), i + 1, f); }
          return;
        }
      }
      return None;
    }

    /** What each segment has been told of: what it holds, and what it has refused half way. */
    ghost function Told(): (r: seq<seq<Transaction>>)
      reads this, segments
      ensures |r| == |segments|
      ensures forall i :: 0 <= i < |segments| ==> r[i] == segments[i].All()
    {
      seq(|segments|, i requires 0 <= i < |segments| reads this, segments => segments[i].All())
    }

    /**
     The span of numbers confirmed on the days a span of seconds touches: the outermost of the
     segments' spans. A transaction refused half way may be within it.
     */
    method RangeOfDays(fromSeconds: Seconds, toSeconds: Seconds) returns (r: Option<(int, int)>)
      requires Valid()
      ensures InOneRun(Contents()) && InOneRun(Told()) ==>
                || SpansDays(Flat(Contents()), r, DayBound(fromSeconds), DayBound(toSeconds))
                || SpansDays(Flat(Told()), r, DayBound(fromSeconds), DayBound(toSeconds))
    {
      hide RowStands, Headed, Waits, AR.Register.Valid, TI.Index.Valid, InOneRun, SpansDays, Base, DayBound, Spanned,
        TI.Index.DaysTold, Flat;
      r := None;
      ghost var from, to := DayBound(fromSeconds), DayBound(toSeconds);
      ghost var a, b := Contents(), Told();
      NothingSpanned(a, b, from, to);
      for i := 0 to |segments|
        invariant InOneRun(a) && InOneRun(b) ==> Spanned(a, b, i, r, from, to)
      {
        SegmentTold(i);
        var here := segments[i].RangeOfDays(fromSeconds, toSeconds);
        if InOneRun(a) && InOneRun(b) {
          SegmentInRun(b, i);
          ToldIsHeld(i);
          SpansStep(a, b, i, r, here, from, to);
        }
        if here.Some? {
          var lowest := if r.None? || here.value.0 < r.value.0 then here.value.0 else r.value.0;
          var highest := if r.None? || r.value.1 < here.value.1 then here.value.1 else r.value.1;
          r := Some((lowest, highest));
        }
      }
      AllSpanned(a, b, r, from, to);
    }

    /** What a segment has been told of it holds, or that and one number more, and then no other segment has. */
    lemma ToldIsHeld(i: nat)
      requires Valid() && i < |segments|
      ensures segments[i].pending.None? ==> Told()[i] == Contents()[i]
      ensures segments[i].pending.Some? ==> forall j :: 0 <= j < i ==> Told()[j] == Contents()[j]
    {
      hide Base, AR.Register.Valid, TI.Index.Valid, RowStands, Waits, SegmentOf, Gapless;
      RowHolds(i);
      if segments[i].pending.Some? {
        PendsInWindow(segments[i], segmentTransactions, firstSegment + i, pending);
        forall j | 0 <= j < i ensures Told()[j] == Contents()[j] {
          RowHolds(j);
          if segments[j].pending.Some? { PendsInWindow(segments[j], segmentTransactions, firstSegment + j, pending); }
        }
      }
    }
  }

  /** The segment's part, in a row that has the segment. */
  lemma TakenIs(size: nat, row: Row, tx: Transaction, position: nat)
    requires 0 < size && InReach(size, row, tx) && Opened(size, row, tx) == row
               && SegmentOf(size, tx.txNr) == row.first + position
    ensures position < |row.segments|
    ensures var held := row.segments[position];
            if IsLast(held, tx) then Taken(size, row, tx) == (Ok, row)
            else
              var r := SegmentVerdict(size, held, tx);
              var now := if r == Ok then held + [tx] else held;
              Taken(size, row, tx) == (r, row.(segments := row.segments[position := now]))
  {
    hide SegmentOf, SegmentVerdict, IsLast;
    assert row.segments[position := row.segments[position]] == row.segments;
  }

  lemma NothingWaits(row: Row, size: nat, pending: Option<Transaction>)
    ensures Waits(row, size, pending, None)
  {
  }

  /** What waits for the register its segment has taken. */
  lemma NotInRegister(row: Row, size: nat, pending: Option<Transaction>, inRegister: Option<Transaction>,
                      tx: Transaction)
    requires Waits(row, size, pending, inRegister) && 0 < size && (pending.Some? ==> pending.value == tx)
    requires var number := SegmentOf(size, tx.txNr);
             row.first <= number < row.first + |row.segments| ==> !IsLast(row.segments[number - row.first], tx)
    ensures inRegister.None?
  {
  }

  lemma WaitsToBeTaken(row: Row, size: nat, pending: Option<Transaction>, inRegister: Option<Transaction>)
    requires Waits(row, size, pending, inRegister)
    ensures inRegister.Some? ==> AR.Verdict(row.txs, inRegister.value) == Ok
  {
  }

  /** Counting the next number keeps the count. */
  lemma HeadedNext(size: nat, row: Row, tx: Transaction, count: nat, min: nat, max: nat)
    requires Headed(size, row.txs, count, min, max) && NumberFits(row.txs, tx)
    ensures Headed(size, row.txs + [tx], count + 1, if count == 0 then tx.txNr else min, tx.txNr) && count + 1 < W64
    ensures row.txs != [] ==> row.txs[|row.txs| - 1].txNr < tx.txNr
  {
    hide SegmentOf, AR.Verdict, SegmentVerdict;
    OfferCounts(size, row, tx);
    NextIsGapless(row.txs, tx);
  }

  /** A number the register has to be told of again waits. */
  lemma RegisterTakes(row: Row, size: nat, tx: Transaction)
    requires 0 < size
    requires var number := SegmentOf(size, tx.txNr);
             row.first <= number < row.first + |row.segments| && IsLast(row.segments[number - row.first], tx)
    ensures AR.Verdict(row.txs, tx) == Ok ==> Waits(row, size, Some(tx), Some(tx))
  {
  }

  /** An offer in reach is the segment's part and then, if the segment has the number, the register's. */
  lemma OfferedSteps(size: nat, row: Row, tx: Transaction)
    requires 0 < size && NumberFits(row.txs, tx) && InReach(size, row, tx)
    ensures Offered(size, row, tx) ==
              var taken := Taken(size, Opened(size, row, tx), tx);
              if taken.0 != Ok then taken else Registered(taken.1, tx)
  {
  }
}
