/** What a row of segments holds and answers over whole runs, and what a segment size shows. */
module RowRuns {
  import opened Words
  import opened Ledger
  import opened Arnm
  import opened Windows
  import opened Rows
  import opened RowScans
  import TI = TransactionIndex
  import AR = AddressRegister
  import DT = DayTable

  // ----- rows that hold one gapless run

  /** Enumerators the library knows. */
  predicate Known(tx: Transaction) {
    tx.kind < KIND_COUNT && !AR.TypeUnknown(tx)
  }

  /** The row reaches over the whole run. */
  ghost predicate Covers(size: nat, row: Row, held: seq<Transaction>) {
    held != [] ==> && 0 < held[0].txNr && Base(size, row.first) <= held[0].txNr
                   && held[|held| - 1].txNr < Base(size, row.first + |row.segments|)
  }

  /** What has been counted stands under the numbers of what is held, which is as much, or one more. */
  ghost predicate CountedOf(txs: seq<Transaction>, held: seq<Transaction>) {
    |txs| <= |held| <= |txs| + 1 && forall i :: 0 <= i < |txs| ==> txs[i].txNr == held[i].txNr
  }

  /** Each segment holds its window of one run. */
  ghost predicate Regular(size: nat, row: Row, held: seq<Transaction>) {
    && Gapless(held) && Covers(size, row, held) && CountedOf(row.txs, held)
    && forall i :: 0 <= i < |row.segments| ==> row.segments[i] == Window(held, size, row.first + i)
  }

  lemma NothingIsRegular(size: nat)
    ensures Regular(size, EMPTY_ROW, [])
  {
  }

  /** A window the next transaction falls in ends right before it. */
  lemma LastOfWindow(size: nat, txs: seq<Transaction>, tx: Transaction, k: nat)
    requires Gapless(txs + [tx]) && Base(size, k) <= tx.txNr < Base(size, k + 1)
    ensures var w := Window(txs, size, k); w != [] ==> tx.txNr == w[|w| - 1].txNr + 1
  {
    hide Base, Window;
    var w := Window(txs, size, k);
    WindowTakes(txs, tx, size, k);
    if w != [] {
      WindowNumbers(txs + [tx], size, k, |w| - 1);
      WindowNumbers(txs + [tx], size, k, |w|);
      WindowSlices(txs + [tx], size, k);
    }
  }

  /** The number behind the run is in reach of its row. */
  lemma NextInReach(size: nat, row: Row, held: seq<Transaction>, tx: Transaction)
    requires 0 < size && Regular(size, row, held) && held != [] && tx.txNr == held[|held| - 1].txNr + 1
    ensures InReach(size, row, tx) && FirstOf(size, row, tx) == row.first
  {
    hide Base, SegmentOf, Window;
    var k, end := SegmentOf(size, tx.txNr), row.first + |row.segments|;
    InWindow(size, tx.txNr, k);
    if k < row.first { BaseOrder(size, k, row.first); }
    if end < k { BaseOrder(size, end, k); BaseNext(size, end); }
  }

  /** The newest number of the run is in its row, and its segment's newest. */
  lemma LastInRow(size: nat, row: Row, held: seq<Transaction>, tx: Transaction)
    requires 0 < size && Regular(size, row, held) && held != [] && tx.txNr == held[|held| - 1].txNr
    ensures InReach(size, row, tx) && Opened(size, row, tx) == row
    ensures var k := SegmentOf(size, tx.txNr);
            row.first <= k < row.first + |row.segments| && IsLast(row.segments[k - row.first], tx)
  {
    hide Base, SegmentOf, Window;
    var k, end := SegmentOf(size, tx.txNr), row.first + |row.segments|;
    InWindow(size, tx.txNr, k);
    assert held[0].txNr <= tx.txNr;
    if k < row.first { BaseOrder(size, k, row.first); }
    if end <= k {
      if end < k { BaseOrder(size, end, k); }
      BaseNext(size, end);
    }
    LastOfItsWindow(size, held, k);
  }

  lemma LastOfItsWindow(size: nat, held: seq<Transaction>, k: int)
    requires Gapless(held) && held != [] && Base(size, k) <= held[|held| - 1].txNr < Base(size, k + 1)
    ensures var w := Window(held, size, k); w != [] && w[|w| - 1] == held[|held| - 1]
  {
    hide Base;
    BaseNext(size, k);
    WindowSlices(held, size, k);
  }

  /** Opening a segment behind the run keeps the row regular. */
  lemma OpenedIsRegular(size: nat, row: Row, held: seq<Transaction>, tx: Transaction)
    requires 0 < size && Regular(size, row, held) && InReach(size, row, tx)
    ensures Regular(size, Opened(size, row, tx), held)
  {
    hide Base, SegmentOf, Window;
    var wide, end := Opened(size, row, tx), row.first + |row.segments|;
    if held != [] {
      BaseNext(size, end);
      WindowBehind(held, size, end);
    } else {
      assert row.txs == [];
      forall i | 0 <= i < |wide.segments| ensures wide.segments[i] == Window(held, size, wide.first + i) {
        NothingInWindow(size, wide.first + i);
        if i < |row.segments| { NothingInWindow(size, row.first + i); }
      }
    }
  }

  lemma NothingInWindow(size: nat, k: int)
    ensures Window([], size, k) == []
  {
  }

  /** What a row makes of the number behind its run: the segment judges by kind and by day. */
  lemma NextTaken(size: nat, row: Row, held: seq<Transaction>, tx: Transaction)
    requires 0 < size < W32 && Regular(size, row, held) && |held| == |row.txs| && InReach(size, row, tx)
    requires tx.txNr != 0 && (held != [] ==> tx.txNr == held[|held| - 1].txNr + 1)
    ensures var v := if tx.kind >= KIND_COUNT then InvalidEnumType
                     else TI.DayVerdict(Window(held, size, SegmentOf(size, tx.txNr)), Day(tx));
            && Taken(size, row, tx).0 == v && Taken(size, row, tx).1.txs == row.txs
            && Regular(size, Taken(size, row, tx).1, if v == Ok then held + [tx] else held)
  {
    hide Base, SegmentOf, Day, Window, Opened, InReach;
    var wide, k := Opened(size, row, tx), SegmentOf(size, tx.txNr);
    OpenedIsRegular(size, row, held, tx);
    NextIsGapless(held, tx);
    InWindow(size, tx.txNr, k);
    BaseNext(size, k);
    LastOfWindow(size, held, tx, k);
    var w := Window(held, size, k);
    assert wide.segments[k - wide.first] == w;
    if Taken(size, row, tx).0 == Ok {
      WindowsTake(size, wide, held, tx, k - wide.first);
    }
  }

  /** The window of the number behind the run takes it, and the row goes on standing for the longer run. */
  lemma WindowsTake(size: nat, row: Row, held: seq<Transaction>, tx: Transaction, position: nat)
    requires 0 < size && Regular(size, row, held) && |held| == |row.txs| && position < |row.segments|
    requires Gapless(held + [tx]) && tx.txNr != 0 && SegmentOf(size, tx.txNr) == row.first + position
    ensures Regular(size, row.(segments := row.segments[position := row.segments[position] + [tx]]), held + [tx])
  {
    hide Base, SegmentOf, Window;
    var k, more, end := row.first + position, held + [tx], row.first + |row.segments|;
    var segments := row.segments[position := row.segments[position] + [tx]];
    InWindow(size, tx.txNr, k);
    forall i | 0 <= i < |segments| ensures segments[i] == Window(more, size, row.first + i) {
      WindowTakes(held, tx, size, row.first + i);
      InWindow(size, tx.txNr, row.first + i);
    }
    if k + 1 < end { BaseOrder(size, k, end); }
    if row.first < k { BaseOrder(size, row.first, k); BaseNext(size, row.first); }
    assert more[|held|] == tx && (held != [] ==> more[0] == held[0]);
  }

  /** What a regular row answers to a number: the run it holds, the counted one and the answer. */
  lemma OfferToRegular(size: nat, row: Row, held: seq<Transaction>, tx: Transaction)
    requires 0 < size < W32 && Regular(size, row, held) && NumberFits(row.txs, tx)
    requires row.txs == [] && held != [] ==> tx.txNr == held[0].txNr
    ensures var (r, row1) := Offered(size, row, tx);
            if |held| > |row.txs| then
              tx.txNr == held[|held| - 1].txNr && (r, row1) == Registered(row, tx) && Regular(size, row1, held)
            else if !InReach(size, row, tx) then row.txs == [] && r == InvalidParam && row1 == row
            else
              var v := if tx.kind >= KIND_COUNT then InvalidEnumType
                       else TI.DayVerdict(Window(held, size, SegmentOf(size, tx.txNr)), Day(tx));
              if v != Ok then r == v && row1.txs == row.txs && Regular(size, row1, held)
              else
                && r == (if AR.TypeUnknown(tx) then InvalidEnumType else Ok)
                && row1.txs == (if r == Ok then row.txs + [tx] else row.txs) && Regular(size, row1, held + [tx])
  {
    hide Base, SegmentOf, Day, Window, Taken, InReach, AR.TypeUnknown, TI.DayVerdict;
    FitsBehind(row.txs, held, tx);
    RegisterKnows(row.txs, tx);
    if |held| > |row.txs| {
      LastInRow(size, row, held, tx);
      InSegment(size, row, tx);
    } else if InReach(size, row, tx) {
      NextTaken(size, row, held, tx);
    } else if held != [] {
      NextInReach(size, row, held, tx);
    }
  }

  /** A number that fits is the one behind the counted run: the newest held, or the one behind that. */
  lemma FitsBehind(txs: seq<Transaction>, held: seq<Transaction>, tx: Transaction)
    requires CountedOf(txs, held) && Gapless(held) && NumberFits(txs, tx)
    requires txs == [] && held != [] ==> tx.txNr == held[0].txNr
    ensures |held| > |txs| ==> tx.txNr == held[|held| - 1].txNr
    ensures |held| == |txs| && held != [] ==> tx.txNr == held[|held| - 1].txNr + 1
    ensures txs != [] ==> txs[|txs| - 1].txNr < tx.txNr
  {
  }

  lemma RegisterKnows(txs: seq<Transaction>, tx: Transaction)
    requires txs != [] ==> txs[|txs| - 1].txNr < tx.txNr
    ensures AR.Verdict(txs, tx) == if Known(tx) then Ok else InvalidEnumType
  {
  }

  lemma InSegment(size: nat, row: Row, tx: Transaction)
    requires 0 < size && NumberFits(row.txs, tx) && InReach(size, row, tx) && Opened(size, row, tx) == row
    requires var k := SegmentOf(size, tx.txNr);
             row.first <= k < row.first + |row.segments| && IsLast(row.segments[k - row.first], tx)
    ensures Taken(size, row, tx) == (Ok, row) && Offered(size, row, tx) == Registered(row, tx)
  {
  }

  // ----- which segments are filled

  /** A segment of a regular row holds something, and is filled to its end, as the run says. */
  lemma SegmentHolds(size: nat, row: Row, held: seq<Transaction>, i: nat)
    requires 0 < size && Regular(size, row, held) && i < |row.segments|
    ensures var k := row.first + i;
            && (row.segments[i] != [] <==>
                  held != [] && held[0].txNr < Base(size, k + 1) && Base(size, k) <= held[|held| - 1].txNr)
            && (Filled(held, size, k) <==> held != [] && held[0].txNr < Base(size, k + 1) <= held[|held| - 1].txNr + 1)
  {
    hide Base, Window, Filled;
    FilledWhen(held, size, row.first + i);
    HoldsWhen(held, size, row.first + i);
  }

  /**
   Every segment but the last is filled exactly when the first holds something and the run reaches the
   last, or right before it.
   */
  lemma AllButLastFilled(size: nat, row: Row, held: seq<Transaction>)
    requires 0 < size && Regular(size, row, held) && 2 <= |row.segments|
    ensures var last := row.first + |row.segments| - 1;
            (forall k :: row.first <= k < last ==> Filled(held, size, k))
            <==> held != [] && held[0].txNr < Base(size, row.first + 1) && Base(size, last) <= held[|held| - 1].txNr + 1
  {
    hide Base, Filled, Regular;
    var last := row.first + |row.segments| - 1;
    RunIsGapless(size, row, held);
    forall k | row.first <= k < last
      ensures Filled(held, size, k) <==> held != [] && held[0].txNr < Base(size, k + 1) <= held[|held| - 1].txNr + 1
      ensures Base(size, row.first + 1) <= Base(size, k + 1) <= Base(size, last)
    {
      FilledWhen(held, size, k);
      BaseOrder(size, k, last);
      if row.first < k {
        BaseOrder(size, row.first, k);
        BaseNext(size, k);
      }
    }
    assert Filled(held, size, row.first) <==>
             held != [] && held[0].txNr < Base(size, row.first + 1) <= held[|held| - 1].txNr + 1;
    assert Filled(held, size, last - 1) <==> held != [] && held[0].txNr < Base(size, last) <= held[|held| - 1].txNr + 1;
  }

  lemma RunIsGapless(size: nat, row: Row, held: seq<Transaction>)
    requires Regular(size, row, held)
    ensures Gapless(held)
  {
  }

  // ----- what is accepted by number and type alone

  function PlainVerdict(txs: seq<Transaction>, tx: Transaction): Status {
    if !NumberFits(txs, tx) then InvalidParam
    else if tx.kind >= KIND_COUNT then InvalidEnumType
    else Ok
  }

  function Accepted(attempts: seq<Transaction>): seq<Transaction> {
    if attempts == [] then []
    else
      var before, tx := Accepted(attempts[..|attempts| - 1]), attempts[|attempts| - 1];
      if PlainVerdict(before, tx) == Ok then before + [tx] else before
  }

  function PlainAnswers(attempts: seq<Transaction>): (answers: seq<Status>)
    ensures |answers| == |attempts|
  {
    if attempts == [] then []
    else
      var init := attempts[..|attempts| - 1];
      PlainAnswers(init) + [PlainVerdict(Accepted(init), attempts[|attempts| - 1])]
  }

  /** No attempt that carries the next number gives an address type the register does not know. */
  ghost predicate NamedAt(attempts: seq<Transaction>, i: nat)
    requires i < |attempts|
  {
    NumberFits(Accepted(attempts[..i]), attempts[i]) ==> !AR.TypeUnknown(attempts[i])
  }

  ghost predicate Named(attempts: seq<Transaction>) {
    forall i :: 0 <= i < |attempts| ==> NamedAt(attempts, i)
  }

  lemma NamedInit(attempts: seq<Transaction>)
    requires Named(attempts) && attempts != []
    ensures Named(attempts[..|attempts| - 1]) && NamedAt(attempts, |attempts| - 1)
  {
    hide NumberFits, AR.TypeUnknown, Accepted;
    var init := attempts[..|attempts| - 1];
    forall i | 0 <= i < |init| ensures NamedAt(init, i) {
      assert NamedAt(attempts, i) && init[..i] == attempts[..i];
    }
  }

  // ----- how a run begins

  /** The first number offered, 0 when none has been. */
  function FirstNumber(attempts: seq<Transaction>): nat {
    if attempts == [] then 0
    else
      var n := FirstNumber(attempts[..|attempts| - 1]);
      if n != 0 then n else attempts[|attempts| - 1].txNr
  }

  /** A number lies in the segment of the first one offered or later, and no more than one behind that of some other. */
  ghost predicate StepsOn(size: nat, before: seq<Transaction>, nr: nat)
    requires 0 < size
  {
    FirstNumber(before) != 0 ==>
      SegmentOf(size, FirstNumber(before)) <= SegmentOf(size, nr) && Reaches(size, before, nr)
  }

  ghost predicate Reaches(size: nat, before: seq<Transaction>, nr: nat)
    requires 0 < size
  {
    exists j :: 0 <= j < |before| && before[j].txNr != 0 && SegmentOf(size, nr) <= SegmentOf(size, before[j].txNr) + 1
  }

  /** So does every number offered until one is accepted. */
  ghost predicate BeginsAt(size: nat, attempts: seq<Transaction>, i: nat)
    requires 0 < size && i < |attempts|
  {
    Accepted(attempts[..i]) == [] && attempts[i].txNr != 0 ==> StepsOn(size, attempts[..i], attempts[i].txNr)
  }

  ghost predicate Begins(size: nat, attempts: seq<Transaction>)
    requires 0 < size
  {
    forall i :: 0 <= i < |attempts| ==> BeginsAt(size, attempts, i)
  }

  lemma BeginsOneMore(size: nat, attempts: seq<Transaction>)
    requires 0 < size && attempts != []
    ensures Begins(size, attempts) <==>
              Begins(size, attempts[..|attempts| - 1]) && BeginsAt(size, attempts, |attempts| - 1)
  {
    hide StepsOn, Accepted;
    var init := attempts[..|attempts| - 1];
    forall i | 0 <= i < |init| ensures BeginsAt(size, init, i) <==> BeginsAt(size, attempts, i) {
      assert init[..i] == attempts[..i];
    }
  }

  /** The row that refused first attempts have opened: from the segment of the first number to that of the highest. */
  ghost predicate Early(size: nat, attempts: seq<Transaction>, row: Row)
    requires 0 < size
  {
    && row.txs == []
    && (FirstNumber(attempts) == 0 ==> row.segments == [])
    && (FirstNumber(attempts) != 0 ==>
          && row.first == SegmentOf(size, FirstNumber(attempts)) && row.segments != []
          && forall nr: nat :: SegmentOf(size, nr) <= row.first + |row.segments| <==> Reaches(size, attempts, nr))
  }

  /** While nothing has been accepted a number is in reach exactly when it steps on. */
  lemma EarlyReach(size: nat, attempts: seq<Transaction>, row: Row, tx: Transaction)
    requires 0 < size && Early(size, attempts, row)
    ensures InReach(size, row, tx) <==> StepsOn(size, attempts, tx.txNr)
  {
    hide SegmentOf, Reaches, FirstNumber;
  }

  lemma ReachesMore(size: nat, before: seq<Transaction>, tx: Transaction, nr: nat)
    requires 0 < size
    ensures Reaches(size, before + [tx], nr) <==>
              Reaches(size, before, nr) || (tx.txNr != 0 && SegmentOf(size, nr) <= SegmentOf(size, tx.txNr) + 1)
  {
    hide SegmentOf;
    var more := before + [tx];
    assert more[|before|] == tx;
    assert forall j :: 0 <= j < |before| ==> more[j] == before[j];
    if Reaches(size, before, nr) {
      var j :| 0 <= j < |before| && before[j].txNr != 0 && SegmentOf(size, nr) <= SegmentOf(size, before[j].txNr) + 1;
      assert more[j].txNr != 0;
    }
  }

  lemma FirstNumberMore(before: seq<Transaction>, tx: Transaction)
    ensures FirstNumber(before + [tx]) == if FirstNumber(before) != 0 then FirstNumber(before) else tx.txNr
    ensures FirstNumber([]) == 0
  {
    assert (before + [tx])[..|before|] == before;
  }

  lemma {:induction false} NothingReached(size: nat, before: seq<Transaction>, nr: nat)
    requires 0 < size && FirstNumber(before) == 0
    ensures !Reaches(size, before, nr)
  {
    hide SegmentOf;
    if before != [] {
      var init := before[..|before| - 1];
      NothingReached(size, init, nr);
      assert before == init + [before[|before| - 1]];
      ReachesMore(size, init, before[|before| - 1], nr);
    }
  }

  /** A first attempt that steps on and is refused for its kind leaves a row still early. */
  lemma EarlyStep(size: nat, attempts: seq<Transaction>, row: Row, tx: Transaction)
    requires 0 < size && Early(size, attempts, row) && InReach(size, row, tx) && tx.txNr != 0
    ensures Early(size, attempts + [tx], Opened(size, row, tx))
  {
    hide SegmentOf, Reaches, FirstNumber;
    FirstNumberMore(attempts, tx);
    var wide := Opened(size, row, tx);
    forall nr: nat ensures SegmentOf(size, nr) <= wide.first + |wide.segments| <==> Reaches(size, attempts + [tx], nr) {
      ReachesMore(size, attempts, tx, nr);
      if FirstNumber(attempts) == 0 { NothingReached(size, attempts, nr); }
    }
  }

  /** An attempt without a number changes nothing. */
  lemma EarlyStays(size: nat, attempts: seq<Transaction>, row: Row, tx: Transaction)
    requires 0 < size && Early(size, attempts, row) && tx.txNr == 0
    ensures Early(size, attempts + [tx], row)
  {
    hide SegmentOf, Reaches, FirstNumber;
    FirstNumberMore(attempts, tx);
    forall nr: nat ensures Reaches(size, attempts + [tx], nr) <==> Reaches(size, attempts, nr) {
      ReachesMore(size, attempts, tx, nr);
    }
  }

  // ----- one segment size

  /** The next number's day is not before, and less than 2^32 days after, that of the first in its window. */
  ghost predicate DayFitsWindow(size: nat, txs: seq<Transaction>, j: nat)
    requires 0 < size && j < |txs|
  {
    TI.DayVerdict(Window(txs[..j], size, SegmentOf(size, txs[j].txNr)), Day(txs[j])) == Ok
  }

  ghost predicate DaysFitWindows(size: nat, txs: seq<Transaction>)
    requires 0 < size
  {
    forall j :: 0 <= j < |txs| ==> DayFitsWindow(size, txs, j)
  }

  lemma FitsOneMore(size: nat, txs: seq<Transaction>, tx: Transaction)
    requires 0 < size
    ensures DaysFitWindows(size, txs + [tx]) <==>
              DaysFitWindows(size, txs) && TI.DayVerdict(Window(txs, size, SegmentOf(size, tx.txNr)), Day(tx)) == Ok
  {
    hide Base, SegmentOf, Day, Window, TI.DayVerdict;
    var more := txs + [tx];
    assert more[..|txs|] == txs && more[|txs|] == tx;
    forall j | 0 <= j < |txs| ensures DayFitsWindow(size, more, j) <==> DayFitsWindow(size, txs, j) {
      assert more[..j] == txs[..j] && more[j] == txs[j];
    }
    assert DayFitsWindow(size, more, |txs|) <==>
             TI.DayVerdict(Window(txs, size, SegmentOf(size, tx.txNr)), Day(tx)) == Ok;
  }

  /** The row a plainly answered run has come to. */
  ghost predicate PlainRow(size: nat, attempts: seq<Transaction>, row: Row)
    requires 0 < size
  {
    && Regular(size, row, row.txs) && row.txs == Accepted(attempts)
    && (row.txs == [] ==> Early(size, attempts, row))
  }

  /** When the answer to one attempt more is the plain one, and the row then. */
  lemma LastAnswer(size: nat, attempts: seq<Transaction>, row: Row, tx: Transaction)
    requires 0 < size < W32 && PlainRow(size, attempts, row) && (NumberFits(row.txs, tx) ==> !AR.TypeUnknown(tx))
    ensures var (r, row1) := Offered(size, row, tx);
            && (r == PlainVerdict(row.txs, tx) <==>
                  && (row.txs == [] && tx.txNr != 0 ==> StepsOn(size, attempts, tx.txNr))
                  && (PlainVerdict(row.txs, tx) == Ok ==>
                        TI.DayVerdict(Window(row.txs, size, SegmentOf(size, tx.txNr)), Day(tx)) == Ok))
            && (r == PlainVerdict(row.txs, tx) ==> PlainRow(size, attempts + [tx], row1))
  {
    hide Base, SegmentOf, Day, Window, NumberFits, AR.TypeUnknown, Regular, Early, StepsOn, Accepted, Offered,
      Registered, InReach, TI.DayVerdict;
    assert (attempts + [tx])[..|attempts|] == attempts;
    AcceptedMore(attempts, tx);
    NothingBehind(size, row, tx);
    if row.txs == [] { EarlyReach(size, attempts, row, tx); }
    if NumberFits(row.txs, tx) {
      OfferToRegular(size, row, row.txs, tx);
      NextFits(size, row, tx);
      if row.txs == [] && InReach(size, row, tx) && tx.kind >= KIND_COUNT {
        EarlyStep(size, attempts, row, tx);
        RefusedIsOpened(size, row, tx);
      }
    } else if row.txs == [] {
      EarlyStays(size, attempts, row, tx);
    }
  }

  lemma AcceptedMore(attempts: seq<Transaction>, tx: Transaction)
    ensures var before := Accepted(attempts);
            Accepted(attempts + [tx]) == if PlainVerdict(before, tx) == Ok then before + [tx] else before
  {
    hide PlainVerdict;
    assert (attempts + [tx])[..|attempts|] == attempts;
  }

  lemma NothingBehind(size: nat, row: Row, tx: Transaction)
    requires 0 < size
    ensures !NumberFits(row.txs, tx) ==> Offered(size, row, tx) == (InvalidParam, row)
    ensures row.txs == [] ==> (NumberFits(row.txs, tx) <==> tx.txNr != 0)
  {
  }

  lemma NextFits(size: nat, row: Row, tx: Transaction)
    requires 0 < size && Regular(size, row, row.txs) && NumberFits(row.txs, tx)
    ensures row.txs != [] ==> InReach(size, row, tx)
    ensures row.txs == [] ==> TI.DayVerdict(Window(row.txs, size, SegmentOf(size, tx.txNr)), Day(tx)) == Ok
  {
    hide Base, SegmentOf, Day, Window, Regular;
    if row.txs != [] {
      FitsBehindAll(size, row, tx);
      NextInReach(size, row, row.txs, tx);
    } else {
      NothingInWindow(size, SegmentOf(size, tx.txNr));
    }
  }

  lemma FitsBehindAll(size: nat, row: Row, tx: Transaction)
    requires Regular(size, row, row.txs) && NumberFits(row.txs, tx) && row.txs != []
    ensures tx.txNr == row.txs[|row.txs| - 1].txNr + 1
  {
    FitsBehind(row.txs, row.txs, tx);
  }

  /** A number refused for its kind leaves the row with its segment opened. */
  lemma RefusedIsOpened(size: nat, row: Row, tx: Transaction)
    requires 0 < size && NumberFits(row.txs, tx) && InReach(size, row, tx) && tx.kind >= KIND_COUNT
    ensures Offered(size, row, tx).1 == Opened(size, row, tx)
  {
    hide SegmentOf, Base, Day;
  }

  /**
   Under one segment size: every attempt is answered by its number and type alone exactly when the
   run begins in steps of the segments and every accepted day fits the window it falls in.
   */
  lemma {:induction false} AnswersPlainly(size: nat, attempts: seq<Transaction>)
    requires 0 < size < W32 && Named(attempts)
    ensures AnswersOf(size, attempts) == PlainAnswers(attempts)
            <==> DaysFitWindows(size, Accepted(attempts)) && Begins(size, attempts)
    ensures AnswersOf(size, attempts) == PlainAnswers(attempts) ==> PlainRow(size, attempts, RowOf(size, attempts))
  {
    hide Base, SegmentOf, Day, Window, TI.DayVerdict, NumberFits, AR.TypeUnknown, PlainRow, DaysFitWindows, Begins,
      Offered, StepsOn;
    if attempts == [] {
      NothingAccepted(size);
    } else {
      var init, tx := attempts[..|attempts| - 1], attempts[|attempts| - 1];
      NamedInit(attempts);
      AnswersPlainly(size, init);
      assert attempts == init + [tx];
      var answers, plain := AnswersOf(size, attempts), PlainAnswers(attempts);
      assert answers[..|init|] == AnswersOf(size, init) && plain[..|init|] == PlainAnswers(init);
      FitsOneMore(size, Accepted(init), tx);
      BeginsOneMore(size, attempts);
      if answers[..|init|] == plain[..|init|] {
        PlainRowIs(size, init, RowOf(size, init));
        LastAnswer(size, init, RowOf(size, init), tx);
        assert answers == plain <==> answers[|init|] == plain[|init|];
      }
    }
  }

  lemma PlainRowIs(size: nat, attempts: seq<Transaction>, row: Row)
    requires 0 < size && PlainRow(size, attempts, row)
    ensures row.txs == Accepted(attempts)
  {
  }

  lemma NothingAccepted(size: nat)
    requires 0 < size
    ensures Accepted([]) == [] && RowOf(size, []) == EMPTY_ROW && DaysFitWindows(size, []) && Begins(size, [])
    ensures PlainRow(size, [], EMPTY_ROW)
  {
  }

  // ----- all segment sizes together

  /** No day before another's, and none 2^32 days after. */
  ghost predicate DaysInOrder(txs: seq<Transaction>) {
    forall i, j :: 0 <= i < j < |txs| ==> Day(txs[i]) <= Day(txs[j]) < Day(txs[i]) + W32
  }

  /** Days in order fit whatever window. */
  lemma OrderFitsWindows(size: nat, txs: seq<Transaction>)
    requires 0 < size && DaysInOrder(txs)
    ensures DaysFitWindows(size, txs)
  {
    hide Base, SegmentOf, Day, Window;
    forall j | 0 <= j < |txs| ensures DayFitsWindow(size, txs, j) {
      var before, k := txs[..j], SegmentOf(size, txs[j].txNr);
      WindowSlices(before, size, k);
      var w := Window(before, size, k);
      if w != [] {
        assert w[0] == before[Cut(before, Base(size, k))];
      }
    }
  }

  /** With its own number as the segment size a transaction opens the window the next one falls in. */
  lemma OwnNumberOpens(txs: seq<Transaction>, a: nat)
    requires Gapless(txs) && a + 1 < |txs| && 2 <= txs[a].txNr
    ensures var size := txs[a].txNr; Window(txs[..a + 1], size, SegmentOf(size, txs[a + 1].txNr)) == [txs[a]]
  {
    hide Base, SegmentOf;
    var size: nat, before := txs[a].txNr, txs[..a + 1];
    BaseIs(size, 1);
    BaseIs(size, 2);
    assert txs[a].txNr == txs[0].txNr + a && txs[a + 1].txNr == txs[0].txNr + (a + 1);
    InWindow(size, txs[a + 1].txNr, 1);
    assert before[0] == txs[0] && before[a..] == [txs[a]];
  }

  /** With the largest size everything below 2^32 - 1 is in one window. */
  lemma LargestHoldsAll(txs: seq<Transaction>, j: nat)
    requires Gapless(txs) && 1 <= j < |txs| && txs[j].txNr < W32 - 1
    ensures Window(txs[..j], W32 - 1, SegmentOf(W32 - 1, txs[j].txNr)) == txs[..j]
  {
    InWindow(W32 - 1, txs[j].txNr, 0);
    assert Base(W32 - 1, 0) == 0 && Base(W32 - 1, 1) == W32 - 1;
    assert txs[j].txNr == txs[0].txNr + j;
  }

  /** The size and the transaction that show it when days are out of order. */
  lemma Misfit(txs: seq<Transaction>) returns (size: nat, j: nat)
    requires Gapless(txs) && txs != [] && 0 < txs[0].txNr && txs[|txs| - 1].txNr < W32 - 1
    requires !DaysInOrder(txs)
    ensures 0 < size < W32 && j < |txs| && !DayFitsWindow(size, txs, j)
  {
    hide Base, SegmentOf, Day, Window;
    size := W32 - 1;
    assert forall i :: 0 <= i < |txs| ==> txs[i].txNr == txs[0].txNr + i < W32 - 1;
    if !DT.Ascend(TI.Days(txs)) {
      var a := DT.AdjacentDescent(TI.Days(txs));
      j := a + 1;
      if 2 <= txs[a].txNr {
        size := txs[a].txNr;
        OwnNumberOpens(txs, a);
      } else {
        LargestHoldsAll(txs, j);
        assert txs[..j][0] == txs[a];
      }
    } else {
      var i, l :| 0 <= i < l < |txs| && !(Day(txs[i]) <= Day(txs[l]) < Day(txs[i]) + W32);
      j := l;
      assert forall p, q :: 0 <= p < q < |txs| ==> TI.Days(txs)[p] <= TI.Days(txs)[q];
      assert TI.Days(txs)[0] <= TI.Days(txs)[i];
      LargestHoldsAll(txs, j);
      assert txs[..j][0] == txs[0];
    }
  }

  /** Whatever is accepted is numbered without gaps, from 1 or later. */
  lemma {:induction false} AcceptedIsGapless(attempts: seq<Transaction>)
    ensures Gapless(Accepted(attempts)) && (Accepted(attempts) != [] ==> 0 < Accepted(attempts)[0].txNr)
  {
    if attempts != [] {
      var init, tx := attempts[..|attempts| - 1], attempts[|attempts| - 1];
      AcceptedIsGapless(init);
      if PlainVerdict(Accepted(init), tx) == Ok { NextIsGapless(Accepted(init), tx); }
    }
  }

  /**
   Under every size a number steps on exactly when it is not before the first one and at most one above
   some other.
   */
  ghost predicate StepsUpAt(attempts: seq<Transaction>, i: nat)
    requires i < |attempts|
  {
    var before, nr := attempts[..i], attempts[i].txNr as nat;
    Accepted(before) == [] && nr != 0 && FirstNumber(before) != 0 ==>
      FirstNumber(before) <= nr && ClimbsFrom(before, nr)
  }

  ghost predicate ClimbsFrom(before: seq<Transaction>, nr: nat) {
    exists j :: 0 <= j < |before| && before[j].txNr != 0 && nr <= before[j].txNr as nat + 1
  }

  ghost predicate StepsUp(attempts: seq<Transaction>) {
    forall i :: 0 <= i < |attempts| ==> StepsUpAt(attempts, i)
  }

  lemma SegmentOrder(size: nat, n: nat, m: nat)
    requires 0 < size && n <= m
    ensures SegmentOf(size, n) <= SegmentOf(size, m)
    ensures m == n + 1 ==> SegmentOf(size, m) <= SegmentOf(size, n) + 1
  {
    hide Base, SegmentOf;
    var j, k := SegmentOf(size, n), SegmentOf(size, m);
    InWindow(size, n, j);
    InWindow(size, m, k);
    if k < j { BaseOrder(size, k, j); }
    if j + 1 < k { BaseOrder(size, j + 1, k); BaseNext(size, j + 1); }
  }

  lemma SizeOne(n: nat)
    ensures SegmentOf(1, n) == n
  {
  }

  lemma ClimbIsReach(size: nat, before: seq<Transaction>, nr: nat)
    requires 0 < size
    ensures ClimbsFrom(before, nr) ==> Reaches(size, before, nr)
    ensures Reaches(1, before, nr) ==> ClimbsFrom(before, nr)
  {
    hide SegmentOf;
    if ClimbsFrom(before, nr) {
      var j :| 0 <= j < |before| && before[j].txNr != 0 && nr <= before[j].txNr as nat + 1;
      var n: nat := before[j].txNr;
      if nr <= n { SegmentOrder(size, nr, n); } else { SegmentOrder(size, n, nr); }
    }
    SizeOne(nr);
    forall j | 0 <= j < |before| ensures SegmentOf(1, before[j].txNr) == before[j].txNr { SizeOne(before[j].txNr); }
  }

  /** A run begins in steps of every size exactly when it does in steps of one. */
  lemma BeginsForEverySize(attempts: seq<Transaction>)
    ensures StepsUp(attempts) ==> forall size: nat :: 0 < size < W32 ==> Begins(size, attempts)
    ensures Begins(1, attempts) ==> StepsUp(attempts)
  {
    hide SegmentOf, Reaches, ClimbsFrom, FirstNumber, Accepted;
    forall i, size: nat | 0 <= i < |attempts| && 0 < size < W32 && StepsUpAt(attempts, i)
      ensures BeginsAt(size, attempts, i)
    {
      var n0, nr := FirstNumber(attempts[..i]), attempts[i].txNr as nat;
      ClimbIsReach(size, attempts[..i], nr);
      if n0 <= nr { SegmentOrder(size, n0, nr); }
    }
    forall i | 0 <= i < |attempts| && BeginsAt(1, attempts, i) ensures StepsUpAt(attempts, i) {
      ClimbIsReach(1, attempts[..i], attempts[i].txNr);
      SizeOne(FirstNumber(attempts[..i]));
      SizeOne(attempts[i].txNr);
    }
  }

  ghost predicate PlainUnderEverySize(attempts: seq<Transaction>) {
    forall size: nat :: 0 < size < W32 ==> AnswersOf(size, attempts) == PlainAnswers(attempts)
  }

  /**
   When a segment size shows: a run of attempts is answered by number and type alone under every
   size exactly when it begins in steps and the days of what is accepted are in order.
   */
  lemma EverySizeAnswersAlike(attempts: seq<Transaction>)
    requires Named(attempts)
    requires var txs := Accepted(attempts); txs != [] ==> txs[|txs| - 1].txNr < W32 - 1
    ensures PlainUnderEverySize(attempts) <==> DaysInOrder(Accepted(attempts)) && StepsUp(attempts)
  {
    hide Named, DaysInOrder, Accepted, AnswersOf, PlainAnswers, Gapless, DayFitsWindow, Begins, StepsUp, PlainRow;
    var txs := Accepted(attempts);
    AcceptedIsGapless(attempts);
    BeginsForEverySize(attempts);
    if DaysInOrder(txs) && StepsUp(attempts) {
      forall size: nat | 0 < size < W32 ensures AnswersOf(size, attempts) == PlainAnswers(attempts) {
        OrderFitsWindows(size, txs);
        AnswersPlainly(size, attempts);
      }
    } else if DaysInOrder(txs) {
      AnswersPlainly(1, attempts);
    } else {
      NothingInOrder();
      var size, j := Misfit(txs);
      AnswersPlainly(size, attempts);
    }
  }

  lemma NothingInOrder()
    ensures DaysInOrder([])
  {
  }

  // ----- the first transactions

  lemma TwoAnswers(size: nat, a: Transaction, b: Transaction)
    requires 0 < size
    ensures var first := Offered(size, EMPTY_ROW, a);
            && AnswersOf(size, [a, b]) == [first.0, Offered(size, first.1, b).0]
            && RowOf(size, [a, b]) == Offered(size, first.1, b).1
  {
    hide Offered;
    AnswerAt(size, [a, b], 0);
    AnswerAt(size, [a, b], 1);
    assert [a, b][..0] == [] && [a, b][..1] == [a] && [a, b][..2] == [a, b];
  }

  /** The first number offered opens its segment, and the segment takes it unless its kind is unknown. */
  lemma FirstOffer(size: nat, tx: Transaction)
    requires 0 < size < W32 && tx.txNr != 0
    ensures Offered(size, EMPTY_ROW, tx) ==
              (if Known(tx) then Ok else InvalidEnumType,
               Row(SegmentOf(size, tx.txNr), [if tx.kind >= KIND_COUNT then [] else [tx]],
                   if Known(tx) then [tx] else []))
  {
    hide Base, SegmentOf, Day, AR.Verdict, AR.TypeUnknown, SegmentVerdict;
    EmptyTakes(size, tx);
    RegisterKnows([], tx);
    var none: seq<Transaction> := [];
    assert EMPTY_ROW.segments + [none] == [none] && none + [tx] == [tx] && [none][0 := none + [tx]] == [[tx]];
  }

  /** An empty segment takes any number of its window, of a kind the library knows. */
  lemma EmptyTakes(size: nat, tx: Transaction)
    requires 0 < size < W32
    ensures SegmentVerdict(size, [], tx) == if tx.kind >= KIND_COUNT then InvalidEnumType else Ok
  {
    hide Base, SegmentOf, Day;
    var k := SegmentOf(size, tx.txNr);
    InWindow(size, tx.txNr, k);
    BaseNext(size, k);
  }

  lemma OneIsRegular(size: nat, tx: Transaction, txs: seq<Transaction>)
    requires 0 < size && tx.txNr != 0 && (txs == [] || txs == [tx])
    ensures Regular(size, Row(SegmentOf(size, tx.txNr), [[tx]], txs), [tx])
  {
    hide Base, SegmentOf;
    InWindow(size, tx.txNr, SegmentOf(size, tx.txNr));
    WindowOfOne(size, tx, SegmentOf(size, tx.txNr));
  }

  lemma WindowOfOne(size: nat, tx: Transaction, k: int)
    requires 0 < size
    ensures Window([tx], size, k) == if k == SegmentOf(size, tx.txNr) then [tx] else []
  {
    hide Base, SegmentOf;
    BaseNext(size, k);
    InWindow(size, tx.txNr, k);
  }

  /** The second of two known transactions is refused for its day only when both share a segment. */
  lemma DayStepShowsTheSize(size: nat, tx: Transaction, next: Transaction)
    requires 0 < size < W32 && Known(tx) && Known(next) && 0 < tx.txNr && next.txNr == tx.txNr + 1
    ensures AnswersOf(size, [tx, next])
         == [Ok, if SegmentOf(size, tx.txNr) == SegmentOf(size, next.txNr) then TI.DayVerdict([tx], Day(next)) else Ok]
  {
    hide Base, SegmentOf, Day, AR.TypeUnknown, Window, Offered, Regular;
    TwoAnswers(size, tx, next);
    FirstOffer(size, tx);
    OneIsRegular(size, tx, [tx]);
    var row := Row(SegmentOf(size, tx.txNr), [[tx]], [tx]);
    NextInReach(size, row, [tx], next);
    OfferToRegular(size, row, [tx], next);
    WindowOfOne(size, tx, SegmentOf(size, next.txNr));
  }

  /** First transactions refused for their kind leave empty segments, from that of the first number on. */
  lemma {:induction false} RefusedRow(size: nat, refused: seq<Transaction>)
    requires 0 < size < W32 && forall i :: 0 <= i < |refused| ==> refused[i].kind >= KIND_COUNT
    ensures var row := RowOf(size, refused);
            && row.txs == [] && Regular(size, row, [])
            && (FirstNumber(refused) == 0 ==> row.segments == [])
            && (FirstNumber(refused) != 0 ==> row.segments != [] && row.first == SegmentOf(size, FirstNumber(refused)))
  {
    hide Base, SegmentOf, Day, Window, Regular, Offered, Opened;
    if refused == [] {
      NothingIsRegular(size);
    } else {
      var init, tx := refused[..|refused| - 1], refused[|refused| - 1];
      RefusedRow(size, init);
      var row := RowOf(size, init);
      NothingBehind(size, row, tx);
      if NumberFits(row.txs, tx) && InReach(size, row, tx) {
        RefusedIsOpened(size, row, tx);
        OpenedIsRegular(size, row, [], tx);
        OpenedBegins(size, row, tx);
      } else if NumberFits(row.txs, tx) {
        OutOfReach(size, row, tx);
      }
    }
  }

  lemma OpenedBegins(size: nat, row: Row, tx: Transaction)
    requires 0 < size && InReach(size, row, tx)
    ensures Opened(size, row, tx).segments != [] && Opened(size, row, tx).txs == row.txs
    ensures Opened(size, row, tx).first == FirstOf(size, row, tx)
  {
  }

  lemma OutOfReach(size: nat, row: Row, tx: Transaction)
    requires 0 < size && !InReach(size, row, tx)
    ensures Offered(size, row, tx) == (InvalidParam, row) && (row.txs == [] ==> row.segments != [])
  {
  }

  /**
   First transactions refused for their kind have their segments opened, and the row begins there for
   good: a known one behind them is taken exactly when it falls into the row or right behind it.
   */
  lemma RefusedFirstPinsTheRow(size: nat, refused: seq<Transaction>, tx: Transaction)
    requires 0 < size < W32 && forall i :: 0 <= i < |refused| ==> refused[i].kind >= KIND_COUNT
    requires tx.txNr != 0 && Known(tx)
    ensures var row := RowOf(size, refused);
            && (FirstNumber(refused) != 0 ==> row.first == SegmentOf(size, FirstNumber(refused)))
            && Offered(size, row, tx).0 == (if InReach(size, row, tx) then Ok else InvalidParam)
            && Offered(size, row, tx).1.txs == (if InReach(size, row, tx) then [tx] else [])
  {
    hide Base, SegmentOf, Day, Window, Regular, Offered, AR.TypeUnknown, InReach, RowOf;
    RefusedRow(size, refused);
    var row := RowOf(size, refused);
    NothingBehind(size, row, tx);
    OfferToRegular(size, row, [], tx);
    NothingInWindow(size, SegmentOf(size, tx.txNr));
  }

  /** Behind one refused first transaction every size takes it only when it is the refused number or the next. */
  lemma PinnedUnderEverySize(refused: Transaction, tx: Transaction)
    requires refused.txNr != 0 && refused.kind >= KIND_COUNT && tx.txNr != 0 && Known(tx)
    ensures (forall size: nat :: 0 < size < W32 ==> AnswersOf(size, [refused, tx]) == [InvalidEnumType, Ok])
            <==> refused.txNr <= tx.txNr <= refused.txNr as nat + 1
  {
    hide SegmentOf, AnswersOf, AR.TypeUnknown, Offered;
    var n: nat, m: nat := refused.txNr, tx.txNr;
    if n <= m <= n + 1 {
      forall size: nat | 0 < size < W32 ensures AnswersOf(size, [refused, tx]) == [InvalidEnumType, Ok] {
        SegmentOrder(size, n, m);
        BehindOneRefused(size, refused, tx);
      }
    } else {
      SizeOne(n);
      SizeOne(m);
      BehindOneRefused(1, refused, tx);
    }
  }

  lemma BehindOneRefused(size: nat, refused: Transaction, tx: Transaction)
    requires 0 < size < W32 && refused.txNr != 0 && refused.kind >= KIND_COUNT && tx.txNr != 0 && Known(tx)
    ensures var n, m := SegmentOf(size, refused.txNr), SegmentOf(size, tx.txNr);
            && AnswersOf(size, [refused, tx]) == [InvalidEnumType, if n <= m <= n + 1 then Ok else InvalidParam]
            && (m == n + 1 ==> RowOf(size, [refused, tx]) == Row(n, [[], [tx]], [tx]))
  {
    hide Base, SegmentOf, Day, AR.TypeUnknown, SegmentVerdict, AR.Verdict;
    TwoAnswers(size, refused, tx);
    FirstOffer(size, refused);
    EmptyTakes(size, tx);
    RegisterKnows([], tx);
    var none: seq<Transaction> := [];
    assert none + [tx] == [tx];
    assert [none, none][1 := none + [tx]] == [none, [tx]];
  }
}
