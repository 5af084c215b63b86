/**
 What a chain does with memory to spare, on values: where its row of segments begins, what each of
 them holds, and what has been accepted and counted. Nothing is assumed of what is offered to it.
 */
module Rows {
  import opened Words
  import opened Ledger
  import opened Arnm
  import opened Windows
  import TI = TransactionIndex
  import AR = AddressRegister

  datatype Row = Row(first: nat, segments: seq<seq<Transaction>>, txs: seq<Transaction>)

  const EMPTY_ROW := Row(0, [], [])

  /** A chain numbers from 1, and once it has counted a transaction each is one above the one before. */
  predicate NumberFits(txs: seq<Transaction>, tx: Transaction) {
    tx.txNr != 0 && (txs != [] ==> tx.txNr == (txs[|txs| - 1].txNr + 1) % W64)
  }

  /** Where the row begins: with the segment of the first number that fits, if there is no row yet. */
  function FirstOf(size: nat, row: Row, tx: Transaction): nat
    requires 0 < size
  {
    if row.txs == [] && row.segments == [] then SegmentOf(size, tx.txNr) else row.first
  }

  /** The number falls into a segment of the row or into the one right behind it. */
  predicate InReach(size: nat, row: Row, tx: Transaction)
    requires 0 < size
  {
    FirstOf(size, row, tx) <= SegmentOf(size, tx.txNr) <= FirstOf(size, row, tx) + |row.segments|
  }

  /** The row with the segment of the number in it, taken or refused. */
  function Opened(size: nat, row: Row, tx: Transaction): (r: Row)
    requires 0 < size && InReach(size, row, tx)
    ensures r.first <= SegmentOf(size, tx.txNr) < r.first + |r.segments| && r.txs == row.txs
  {
    var first := FirstOf(size, row, tx);
    Row(first, if SegmentOf(size, tx.txNr) == first + |row.segments| then row.segments + [[]] else row.segments,
        row.txs)
  }

  /** The segment's newest number is this very one: it has been taken before. */
  predicate IsLast(held: seq<Transaction>, tx: Transaction) {
    held != [] && held[|held| - 1].txNr == tx.txNr
  }

  /** What a segment that holds so much answers to a number of its window. */
  function SegmentVerdict(size: nat, held: seq<Transaction>, tx: Transaction): Status
    requires 0 < size
  {
    var number := SegmentOf(size, tx.txNr);
    InWindow(size, tx.txNr, number);
    TI.Verdict(Base(size, number), held, tx)
  }

  /** The segment's part: a number it has as its newest is not asked for again. */
  function Taken(size: nat, row: Row, tx: Transaction): (Status, Row)
    requires 0 < size && InReach(size, row, tx)
  {
    var wide := Opened(size, row, tx);
    var position := SegmentOf(size, tx.txNr) - wide.first;
    var held := wide.segments[position];
    if IsLast(held, tx) then (Ok, wide)
    else
      var r := SegmentVerdict(size, held, tx);
      (r, if r == Ok then wide.(segments := wide.segments[position := held + [tx]]) else wide)
  }

  /** The register's part. */
  function Registered(row: Row, tx: Transaction): (Status, Row) {
    var r := AR.Verdict(row.txs, tx);
    (r, if r == Ok then row.(txs := row.txs + [tx]) else row)
  }

  /** The answer to a transaction, and the row it leaves. */
  function Offered(size: nat, row: Row, tx: Transaction): (Status, Row)
    requires 0 < size
  {
    if !NumberFits(row.txs, tx) || !InReach(size, row, tx) then (InvalidParam, row)
    else
      var taken := Taken(size, row, tx);
      if taken.0 != Ok then taken else Registered(taken.1, tx)
  }

  function RowOf(size: nat, attempts: seq<Transaction>): Row
    requires 0 < size
  {
    if attempts == [] then EMPTY_ROW
    else Offered(size, RowOf(size, attempts[..|attempts| - 1]), attempts[|attempts| - 1]).1
  }

  function AnswersOf(size: nat, attempts: seq<Transaction>): (answers: seq<Status>)
    requires 0 < size
    ensures |answers| == |attempts|
  {
    if attempts == [] then []
    else
      var init := attempts[..|attempts| - 1];
      AnswersOf(size, init) + [Offered(size, RowOf(size, init), attempts[|attempts| - 1]).0]
  }

  lemma {:induction false} AnswerAt(size: nat, attempts: seq<Transaction>, i: nat)
    requires 0 < size && i < |attempts|
    ensures AnswersOf(size, attempts)[i] == Offered(size, RowOf(size, attempts[..i]), attempts[i]).0
    ensures RowOf(size, attempts[..i + 1]) == Offered(size, RowOf(size, attempts[..i]), attempts[i]).1
  {
    hide Offered;
    if i < |attempts| - 1 {
      var init := attempts[..|attempts| - 1];
      AnswerAt(size, init, i);
      assert init[..i] == attempts[..i] && init[..i + 1] == attempts[..i + 1];
    } else {
      assert attempts[..i + 1] == attempts;
    }
  }

  // ----- an attempt cut short and made again

  /** A segment opened, and a transaction taken by it, before memory ran out make no difference to the next attempt. */
  lemma OpenedAgain(size: nat, row: Row, tx: Transaction)
    requires 0 < size && NumberFits(row.txs, tx) && InReach(size, row, tx)
    ensures var wide := Opened(size, row, tx);
            && InReach(size, wide, tx) && Opened(size, wide, tx) == wide
            && Offered(size, wide, tx) == Offered(size, row, tx)
  {
    hide SegmentOf, SegmentVerdict, NumberFits;
  }

  lemma TakenAgain(size: nat, row: Row, tx: Transaction)
    requires 0 < size && NumberFits(row.txs, tx) && InReach(size, row, tx) && Taken(size, row, tx).0 == Ok
    ensures var taken := Taken(size, row, tx).1;
            InReach(size, taken, tx) && Offered(size, taken, tx) == Offered(size, row, tx)
  {
    hide SegmentOf, SegmentVerdict, NumberFits;
  }

  /** What has been counted is numbered without gaps from 1 or later. */
  lemma OfferCounts(size: nat, row: Row, tx: Transaction)
    requires 0 < size && Gapless(row.txs) && (row.txs != [] ==> 0 < row.txs[0].txNr)
    ensures var txs := Offered(size, row, tx).1.txs; Gapless(txs) && (txs != [] ==> 0 < txs[0].txNr)
    ensures NumberFits(row.txs, tx) ==> |row.txs| + 1 < W64
    ensures NumberFits(row.txs, tx) && row.txs != [] ==> tx.txNr == row.txs[|row.txs| - 1].txNr + 1
  {
    hide SegmentOf, SegmentVerdict, AR.Verdict;
    if NumberFits(row.txs, tx) { NextIsGapless(row.txs, tx); }
  }

  /** A row of nothing may begin anywhere. */
  lemma BeginsAnywhere(size: nat, row: Row, tx: Transaction)
    requires 0 < size && row.txs == [] && row.segments == [] && NumberFits([], tx)
    ensures var begun := row.(first := SegmentOf(size, tx.txNr));
            && InReach(size, begun, tx) && InReach(size, row, tx)
            && Offered(size, begun, tx) == Offered(size, row, tx)
  {
    hide SegmentOf, SegmentVerdict, AR.Verdict;
  }

  /** A number its segment has taken stands there as the newest. */
  lemma TakenIsLast(size: nat, row: Row, tx: Transaction)
    requires 0 < size && InReach(size, row, tx) && Taken(size, row, tx).0 == Ok
    ensures var taken, number := Taken(size, row, tx).1, SegmentOf(size, tx.txNr);
            taken.first <= number < taken.first + |taken.segments| && IsLast(taken.segments[number - taken.first], tx)
  {
    hide SegmentOf, SegmentVerdict;
  }
}
