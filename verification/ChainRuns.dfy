/** Statements about whole runs: what a segment size, a refusal or a retry can and cannot be seen by. */
module ChainRuns {
  import opened Words
  import opened Ledger
  import opened Arnm
  import opened Pages
  import opened Windows
  import opened Histories
  import opened Rows
  import opened RowScans
  import opened SegmentedChain
  import opened RowRuns
  import opened HalfAdded
  import TI = TransactionIndex
  import AR = AddressRegister

  // ----- a chain goes through the values of its row

  /** The size a chain is given, 0 standing for the default. */
  function SizeOf(segmentTransactions: uint32): (size: nat)
    ensures 0 < size < W32
  {
    if segmentTransactions == 0 then SEGMENT_TRANSACTIONS_DEFAULT else segmentTransactions
  }

  /** What memory each try of each attempt finds: tries go on until one has room. */
  ghost predicate Enough(rooms: seq<seq<Room>>, attempts: nat) {
    |rooms| == attempts && forall i :: 0 <= i < attempts ==> RoomAtLast(rooms[i])
  }

  ghost predicate RoomAtLast(rooms: seq<Room>) {
    rooms != [] && Roomy(rooms[|rooms| - 1])
  }

  /**
   The same transaction offered again and again, with whatever memory there is, until a try has room:
   it gets the answer it would have got with room at once, and leaves the same row.
   */
  method Retry(c: Chain, tx: Transaction, rooms: seq<Room>) returns (r: Status)
    requires c.Valid() && c.MayFollow(tx) && RoomAtLast(rooms)
    modifies c, c.segments, c.addresses
    ensures c.Valid() && (old(c.pending).None? ==> c.pending.None?)
    ensures (r, c.Now()) == Offered(c.segmentTransactions, old(c.Now()), tx)
    ensures forall i :: 0 <= i < |c.segments| ==> c.segments[i] in old(c.segments) || fresh(c.segments[i])
  {
    hide NumberFits, Chain.Valid, Offered, InReach, Chain.Now;
    ghost var size, row := c.segmentTransactions, c.Now();
    IsSized(c);
    r := OutOfMemory;
    var i := 0;
    while r == OutOfMemory
      invariant 0 <= i <= |rooms| && (i == |rooms| ==> r != OutOfMemory)
      invariant c.Valid() && (r == OutOfMemory ==> c.MayFollow(tx))
      invariant r == OutOfMemory ==> Offered(size, c.Now(), tx) == Offered(size, row, tx)
      invariant r == OutOfMemory && 0 < i ==> NumberFits(c.txs, tx) && InReach(size, c.Now(), tx)
      invariant r == OutOfMemory && i == 0 ==> c.pending == old(c.pending)
      invariant r != OutOfMemory ==>
                 (r, c.Now()) == Offered(size, row, tx) && (old(c.pending).None? ==> c.pending.None?)
      invariant forall j :: 0 <= j < |c.segments| ==> c.segments[j] in old(c.segments) || fresh(c.segments[j])
      decreases |rooms| - i
    {
      r := c.Add(tx, rooms[i]);
      i := i + 1;
    }
  }

  lemma IsSized(c: Chain)
    requires c.Valid()
    ensures 0 < c.segmentTransactions
  {
  }

  /**
   A chain of any segment size, offered any attempts one after the other, each tried until there is
   room, goes through the rows and answers of its size.
   */
  method Fill(attempts: seq<Transaction>, segmentTransactions: uint32, rooms: seq<seq<Room>>)
    returns (c: Chain, answers: seq<Status>)
    requires Enough(rooms, |attempts|)
    ensures fresh(c) && fresh(c.addresses) && (forall i :: 0 <= i < |c.segments| ==> fresh(c.segments[i]))
    ensures c.Valid() && c.pending.None? && c.segmentTransactions == SizeOf(segmentTransactions)
    ensures c.Now() == RowOf(SizeOf(segmentTransactions), attempts)
    ensures answers == AnswersOf(SizeOf(segmentTransactions), attempts)
  {
    hide NumberFits, Chain.Valid, Offered, Chain.Now, RoomAtLast;
    ghost var size := SizeOf(segmentTransactions);
    c := new Chain(segmentTransactions);
    answers := [];
    for i := 0 to |attempts|
      invariant fresh(c) && fresh(c.addresses) && forall j :: 0 <= j < |c.segments| ==> fresh(c.segments[j])
      invariant c.Valid() && c.pending.None? && c.segmentTransactions == size
      invariant c.Now() == RowOf(size, attempts[..i])
      invariant answers == AnswersOf(size, attempts)[..i]
    {
      AnswerAt(size, attempts, i);
      var r := Retry(c, attempts[i], rooms[i]);
      answers := answers + [r];
    }
    assert attempts[..|attempts|] == attempts;
  }

  /** A filter's plain answers, read off the scan. */
  datatype Answer = Answer(count: nat, page: seq<int>, newest: Option<int>)

  ghost function PlainAnswer(txs: seq<Transaction>, f: Filter, skip: nat, size: nat, descending: bool): Answer {
    AnswerOf(Scan(txs, f, TI.HomeOf(txs)), skip, size, descending)
  }

  ghost function AnswerOf(found: seq<int>, skip: nat, size: nat, descending: bool): Answer {
    Answer(|found|, Page(found, skip, size, descending), TI.Last(found))
  }

  /** Each segment's days ascend, if the filter asks for days. */
  ghost predicate RowAnswers(row: Row, f: Filter) {
    f.fromSeconds == 0 == f.toSeconds || forall i :: 0 <= i < |row.segments| ==> DaysAscend(row.segments[i])
  }

  /** With nothing pending no segment has been told of more than it holds. */
  lemma NothingPends(c: Chain)
    requires c.Valid() && c.pending.None?
    ensures c.Told() == c.Contents()
    ensures forall f :: RowAnswers(c.Now(), f) ==> c.Answerable(f)
  {
    hide AR.Register.Valid, TI.Index.Valid, Waits, Headed, DaysAscend, Base;
    forall i | 0 <= i < |c.segments| ensures c.Told()[i] == c.Contents()[i] {
      c.RowHolds(i);
    }
  }

  /** Count, page and newest of one filter, of a chain with nothing pending: what its segments find between them. */
  method Ask(c: Chain, f: Filter, skip: nat, size: nat, descending: bool) returns (a: Answer)
    requires c.Valid() && size <= TI.PAGE_MAX && c.pending.None? && RowAnswers(c.Now(), f)
    ensures a == AnswerOf(Found(c.Contents(), f), skip, size, descending)
  {
    hide Chain.Valid, RowAnswers, Found, Page, Chain.Answerable;
    NothingPends(c);
    var count := c.Count(f);
    var r, page, matches := c.Listing(f, skip, size, descending);
    var newest := c.Newest(f);
    a := Answer(count, page, newest);
  }

  // ----- retries

  /** Two chains of one size offered the same attempts, whatever they are, with whatever memory each, answer alike. */
  method RetriesAreInvisible(attempts: seq<Transaction>, segmentTransactions: uint32, roomsA: seq<seq<Room>>,
                             roomsB: seq<seq<Room>>, f: Filter, skip: nat, size: nat, descending: bool)
    returns (addsA: seq<Status>, addsB: seq<Status>, a: Answer, b: Answer,
             daysA: Option<(int, int)>, daysB: Option<(int, int)>)
    requires Enough(roomsA, |attempts|) && Enough(roomsB, |attempts|) && size <= TI.PAGE_MAX
    requires RowAnswers(RowOf(SizeOf(segmentTransactions), attempts), f)
    ensures addsA == addsB == AnswersOf(SizeOf(segmentTransactions), attempts)
    ensures a == b == AnswerOf(Found(RowOf(SizeOf(segmentTransactions), attempts).segments, f), skip, size, descending)
    ensures var held := RowOf(SizeOf(segmentTransactions), attempts).segments;
            InOneRun(held) ==>
              daysA == daysB && SpansDays(Flat(held), daysA, DayBound(f.fromSeconds), DayBound(f.toSeconds))
  {
    hide Chain.Valid, RowAnswers, Found, AnswerOf, Enough, InOneRun, SpansDays, DayBound, Flat, RowOf, AnswersOf;
    var chainA, chainB;
    ghost var held := RowOf(SizeOf(segmentTransactions), attempts).segments;
    chainA, addsA := Fill(attempts, segmentTransactions, roomsA);
    chainB, addsB := Fill(attempts, segmentTransactions, roomsB);
    a := Ask(chainA, f, skip, size, descending);
    b := Ask(chainB, f, skip, size, descending);
    NothingPends(chainA);
    NothingPends(chainB);
    daysA := chainA.RangeOfDays(f.fromSeconds, f.toSeconds);
    daysB := chainB.RangeOfDays(f.fromSeconds, f.toSeconds);
    if InOneRun(held) {
      OneRunIsGapless(held);
      SpanIsOne(Flat(held), daysA, daysB, DayBound(f.fromSeconds), DayBound(f.toSeconds));
    }
  }

  lemma OneRunIsGapless(held: seq<seq<Transaction>>)
    requires InOneRun(held)
    ensures Gapless(Flat(held)) && DaysAscend(Flat(held))
  {
  }

  /** A span of numbers is told by the days it covers. */
  lemma SpanIsOne(txs: seq<Transaction>, r: Option<(int, int)>, r': Option<(int, int)>, from: Option<int>,
                  to: Option<int>)
    requires Gapless(txs) && SpansDays(txs, r, from, to) && SpansDays(txs, r', from, to)
    ensures r == r'
  {
    hide DayInSpan, Day;
    if r.Some? { SpanEndsInside(txs, r, r', from, to); }
    if r'.Some? { SpanEndsInside(txs, r', r, from, to); }
  }

  /** What one answer begins and ends with lies in the other. */
  lemma SpanEndsInside(txs: seq<Transaction>, r: Option<(int, int)>, r': Option<(int, int)>, from: Option<int>,
                       to: Option<int>)
    requires Gapless(txs) && SpansDays(txs, r, from, to) && SpansDays(txs, r', from, to) && r.Some?
    ensures r'.Some? && r'.value.0 <= r.value.0 && r.value.1 <= r'.value.1
  {
    hide DayInSpan, Day;
    var first, last := r.value.0 - txs[0].txNr, r.value.1 - txs[0].txNr;
    assert txs[|txs| - 1].txNr == txs[0].txNr + |txs| - 1;
    assert txs[first].txNr == r.value.0 && txs[last].txNr == r.value.1;
  }

  // ----- two chains of different sizes

  /** Attempts that begin in steps, with known address types, whose accepted ones are on days in order. */
  ghost predicate Orderly(attempts: seq<Transaction>) {
    Named(attempts) && StepsUp(attempts) && DaysInOrder(Accepted(attempts))
  }

  /** Orderly attempts are answered by number and type alone, whatever the size, and what is accepted is held. */
  lemma OrderlyIsPlain(size: nat, attempts: seq<Transaction>)
    requires 0 < size < W32 && Orderly(attempts)
    ensures var row, txs := RowOf(size, attempts), Accepted(attempts);
            && AnswersOf(size, attempts) == PlainAnswers(attempts)
            && Regular(size, row, txs) && row.txs == txs == Flat(row.segments)
            && InOneRun(row.segments) && Gapless(txs) && (forall f :: RowAnswers(row, f))
  {
    hide Accepted, AnswersOf, PlainAnswers, DaysInOrder, Named, StepsUp, DaysFitWindows, Begins, Regular, Flat,
      DaysAscend, Gapless, RowOf;
    var row, txs := RowOf(size, attempts), Accepted(attempts);
    OrderFitsWindows(size, txs);
    BeginsForEverySize(attempts);
    AnswersPlainly(size, attempts);
    RegularIsFlat(size, row, txs);
    AcceptedIsGapless(attempts);
    AcceptedAscend(txs);
    forall i | 0 <= i < |row.segments| ensures DaysAscend(row.segments[i]) {
      SegmentInRun(row.segments, i);
    }
  }

  lemma AcceptedAscend(txs: seq<Transaction>)
    requires DaysInOrder(txs)
    ensures DaysAscend(txs)
  {
    hide Day;
  }

  /**
   A chain of any size filled with orderly attempts holds the accepted ones; every segment but the last
   is filled exactly when the first holds something and the run reaches the last, or right before it.
   */
  method FillOrderly(attempts: seq<Transaction>, segmentTransactions: uint32, rooms: seq<seq<Room>>)
    returns (c: Chain, answers: seq<Status>)
    requires Orderly(attempts) && Enough(rooms, |attempts|)
    ensures fresh(c) && fresh(c.addresses) && (forall i :: 0 <= i < |c.segments| ==> fresh(c.segments[i]))
    ensures c.Valid() && c.pending.None? && c.txs == Accepted(attempts) == Flat(c.Contents())
    ensures answers == PlainAnswers(attempts) && InOneRun(c.Contents()) && (forall f :: RowAnswers(c.Now(), f))
    ensures var size, txs, last := c.segmentTransactions, c.txs, c.firstSegment + |c.segments| - 1;
            2 <= |c.segments| ==>
              ((forall k :: c.firstSegment <= k < last ==> Filled(txs, size, k)) <==>
                 txs != [] && txs[0].txNr < Base(size, c.firstSegment + 1)
                 && Base(size, last) <= txs[|txs| - 1].txNr + 1)
  {
    hide Accepted, AnswersOf, PlainAnswers, Orderly, Chain.Valid, Filled, Regular, RowOf, Flat, InOneRun, Enough,
      RowAnswers, Base;
    ghost var size := SizeOf(segmentTransactions);
    OrderlyIsPlain(size, attempts);
    c, answers := Fill(attempts, segmentTransactions, rooms);
    if 2 <= |c.segments| { AllButLastFilled(size, c.Now(), c.txs); }
  }

  /** Two chains of any two sizes, offered the same orderly attempts, answer adds, counts, pages and newest alike. */
  method SegmentSizeIsInvisible(attempts: seq<Transaction>, sizeA: uint32, sizeB: uint32, roomsA: seq<seq<Room>>,
                                roomsB: seq<seq<Room>>, f: Filter, skip: nat, size: nat, descending: bool)
    returns (addsA: seq<Status>, addsB: seq<Status>, a: Answer, b: Answer)
    requires Orderly(attempts) && Enough(roomsA, |attempts|) && Enough(roomsB, |attempts|) && size <= TI.PAGE_MAX
    requires f.coin == NIL_UUID || OneCommunity(Accepted(attempts))
    ensures addsA == addsB == PlainAnswers(attempts)
    ensures a == b == PlainAnswer(Accepted(attempts), f, skip, size, descending)
  {
    hide Chain.Valid, Orderly, Accepted, OneCommunity, PlainAnswers, Filled, Flat, Found, Enough, RowAnswers, AnswerOf,
      Gapless;
    var chainA, chainB;
    chainA, addsA := FillOrderly(attempts, sizeA, roomsA);
    chainB, addsB := FillOrderly(attempts, sizeB, roomsB);
    a := Ask(chainA, f, skip, size, descending);
    b := Ask(chainB, f, skip, size, descending);
    AcceptedIsGapless(attempts);
    OneCommunityIsPlain(chainA.Contents(), f);
    OneCommunityIsPlain(chainB.Contents(), f);
  }

  /** Nor does the segment size change the span of numbers confirmed on the days a span of seconds touches. */
  method DaySpanIsSizeless(attempts: seq<Transaction>, sizeA: uint32, sizeB: uint32, roomsA: seq<seq<Room>>,
                           roomsB: seq<seq<Room>>, from: Seconds, to: Seconds)
    returns (a: Option<(int, int)>, b: Option<(int, int)>)
    requires Orderly(attempts) && Enough(roomsA, |attempts|) && Enough(roomsB, |attempts|)
    ensures a == b && SpansDays(Accepted(attempts), a, DayBound(from), DayBound(to))
  {
    hide Chain.Valid, Orderly, Accepted, SpansDays, DayBound, PlainAnswers, Filled, Gapless, Flat, InOneRun, Enough,
      RowAnswers;
    var chainA, chainB, adds;
    chainA, adds := FillOrderly(attempts, sizeA, roomsA);
    chainB, adds := FillOrderly(attempts, sizeB, roomsB);
    NothingPends(chainA);
    NothingPends(chainB);
    a := chainA.RangeOfDays(from, to);
    b := chainB.RangeOfDays(from, to);
    AcceptedIsGapless(attempts);
    SpanIsOne(Accepted(attempts), a, b, DayBound(from), DayBound(to));
  }

  // ----- where a segment size does show

  /** Two neighbours the library knows, on days in order, and the row they come to. */
  lemma TwoInRow(size: nat, tx: Transaction, next: Transaction)
    requires 0 < size < W32 && Known(tx) && Known(next) && 0 < tx.txNr && next.txNr == tx.txNr + 1
    requires Day(tx) <= Day(next) < Day(tx) + W32
    ensures var row, lo := RowOf(size, [tx, next]), SegmentOf(size, tx.txNr);
            && row.segments == (if lo == SegmentOf(size, next.txNr) then [[tx, next]] else [[tx], [next]])
            && row.txs == [tx, next]
  {
    hide Base, SegmentOf, Day, AR.Verdict, AR.TypeUnknown, SegmentVerdict;
    TwoAnswers(size, tx, next);
    FirstOffer(size, tx);
    EmptyTakes(size, next);
    SecondTakes(size, tx, next);
    RegisterKnows([tx], next);
    var lo: nat, hi: nat := SegmentOf(size, tx.txNr), SegmentOf(size, next.txNr);
    SegmentOrder(size, tx.txNr, next.txNr);
    var none: seq<Transaction> := [];
    assert none + [next] == [next] && [tx] + [next] == [tx, next];
    assert lo == hi ==> [[tx]][0 := [tx] + [next]] == [[tx, next]];
    assert lo != hi ==> [[tx], none][1 := none + [next]] == [[tx], [next]];
  }

  lemma SecondTakes(size: nat, tx: Transaction, next: Transaction)
    requires 0 < size < W32 && Known(next) && 0 < tx.txNr && next.txNr == tx.txNr + 1
               && Day(tx) <= Day(next) < Day(tx) + W32
    ensures SegmentOf(size, tx.txNr) == SegmentOf(size, next.txNr) ==> SegmentVerdict(size, [tx], next) == Ok
  {
    hide Base, SegmentOf, Day, AR.TypeUnknown;
    var k := SegmentOf(size, next.txNr);
    InWindow(size, next.txNr, k);
    BaseNext(size, k);
  }

  /**
   Each segment takes its home from its own first transaction. Of two transactions next to each other
   the segments find what the plain scan does exactly when they share a segment or the second one is
   judged alike by both communities.
   */
  lemma CommunityStepShowsTheSize(size: nat, tx: Transaction, next: Transaction, f: Filter)
    requires 0 < size < W32 && Known(tx) && Known(next) && 0 < tx.txNr && next.txNr == tx.txNr + 1
    requires Day(tx) <= Day(next) < Day(tx) + W32
    ensures Found(RowOf(size, [tx, next]).segments, f) == Scan([tx, next], f, tx.community) <==>
              || SegmentOf(size, tx.txNr) == SegmentOf(size, next.txNr)
              || (Satisfies(next, f, next.community) <==> Satisfies(next, f, tx.community))
  {
    hide Base, SegmentOf, Satisfies, Scan, Found, RowOf, Homed, Day, AR.TypeUnknown;
    TwoInRow(size, tx, next);
    var contents, txs := RowOf(size, [tx, next]).segments, [tx, next];
    HomesOfTwo(tx, next);
    FoundIsPlain(contents, txs, f);
    assert Satisfies(txs[0], f, tx.community) <==> Satisfies(tx, f, tx.community);
    assert Satisfies(txs[1], f, tx.community) <==> Satisfies(next, f, tx.community);
  }

  lemma HomesOfTwo(tx: Transaction, next: Transaction)
    ensures Homed([[tx, next]]) == [(tx, tx.community), (next, tx.community)]
    ensures Homed([[tx], [next]]) == [(tx, tx.community), (next, next.community)]
  {
    var none: seq<seq<Transaction>> := [];
    assert [[tx, next]][..0] == none == [[tx]][..0] && [[tx], [next]][..1] == [[tx]];
    assert Homed([[tx]]) == [(tx, tx.community)];
  }

  /**
   A transaction without balances carries no coin: asked for the first one's community it is found
   in that one's segment, where the coin is the segment's own, and in a segment of its own it is not.
   */
  lemma CoinShowsTheSize(size: nat, tx: Transaction, next: Transaction)
    requires 0 < size < W32 && Known(tx) && Known(next) && 0 < tx.txNr && next.txNr == tx.txNr + 1
    requires Day(tx) <= Day(next) < Day(tx) + W32
    requires tx.balances == [] == next.balances && tx.community != NIL_UUID && next.community != tx.community
    ensures Found(RowOf(size, [tx, next]).segments, EVERYTHING.(coin := tx.community))
            == Scan([tx, next], EVERYTHING.(coin := tx.community), tx.community)
            <==> SegmentOf(size, tx.txNr) == SegmentOf(size, next.txNr)
  {
    hide Base, SegmentOf, Scan, Found, RowOf, Day, AR.TypeUnknown;
    CommunityStepShowsTheSize(size, tx, next, EVERYTHING.(coin := tx.community));
  }

  /** After a refused first transaction the one behind it may leave the first segment of the row empty, for good. */
  method FirstSegmentStaysEmpty(refused: Transaction, tx: Transaction, segmentTransactions: uint32,
                                rooms: seq<seq<Room>>)
    returns (c: Chain, answers: seq<Status>)
    requires refused.txNr != 0 && refused.kind >= KIND_COUNT && tx.txNr != 0 && Known(tx) && Enough(rooms, 2)
    requires var size := SizeOf(segmentTransactions); SegmentOf(size, tx.txNr) == SegmentOf(size, refused.txNr) + 1
    ensures answers == [InvalidEnumType, Ok] && c.Valid() && c.txs == [tx] && c.Contents() == [[], [tx]]
  {
    hide Base, SegmentOf, AR.TypeUnknown, Chain.Valid, RowOf, AnswersOf, Enough;
    BehindOneRefused(SizeOf(segmentTransactions), refused, tx);
    c, answers := Fill([refused, tx], segmentTransactions, rooms);
  }

  // ----- held and not counted

  lemma {:induction false} EverythingIsFound(txs: seq<Transaction>, home: Uuid)
    ensures |Scan(txs, EVERYTHING, home)| == |txs|
  {
    if txs != [] {
      EverythingIsFound(txs[..|txs| - 1], home);
    }
  }

  lemma {:induction false} EverythingIsHeld(contents: seq<seq<Transaction>>)
    ensures |Found(contents, EVERYTHING)| == |Flat(contents)|
  {
    hide Scan;
    if contents != [] {
      EverythingIsHeld(contents[..|contents| - 1]);
      var held := contents[|contents| - 1];
      EverythingIsFound(held, TI.HomeOf(held));
    }
  }

  /** The segments hold what the chain has counted, and as many more as they took and the register refused. */
  method CountTellsUncounted(c: Chain) returns (inSegments: nat)
    requires c.Valid()
    ensures inSegments == c.transactionCount + Uncounted(c.Now())
  {
    hide RowStands, AR.Register.Valid, Waits, Found, Flat;
    EverythingIsHeld(c.Contents());
    inSegments := c.Count(EVERYTHING);
  }

  /**
   A registration with an unknown address type, and then another transaction under its number: the
   segments go on answering for the first one, the chain and the register count the second.
   */
  method AnotherIsCounted(half: Transaction, tx: Transaction, segmentTransactions: uint32, rooms: seq<seq<Room>>,
                          f: Filter, skip: nat, size: nat, descending: bool)
    returns (c: Chain, answers: seq<Status>, a: Answer)
    requires half.txNr == tx.txNr != 0 && half.kind < KIND_COUNT && AR.TypeUnknown(half) && Known(tx)
    requires Enough(rooms, 2) && size <= TI.PAGE_MAX
    ensures answers == [InvalidEnumType, Ok] && c.Valid() && c.pending.None?
    ensures c.txs == c.addresses.txs == [tx] && c.Contents() == [[half]]
    ensures a == PlainAnswer([half], f, skip, size, descending)
  {
    hide Base, SegmentOf, AR.TypeUnknown, AR.Verdict, RowOf, AnswersOf, Enough, Scan, Page, RowStands, Waits,
      AR.Register.Valid;
    ghost var segment := SizeOf(segmentTransactions);
    TwoAnswers(segment, half, tx);
    FirstOffer(segment, half);
    OneIsRegular(segment, half, []);
    HalfGoesToRegister(segment, Row(SegmentOf(segment, half.txNr), [[half]], []), [half], tx);
    c, answers := Fill([half, tx], segmentTransactions, rooms);
    FoundInOne([half], f);
    a := Ask(c, f, skip, size, descending);
  }

  // ----- one index

  /** A refused add of an index is seen by no count, no page and no newest. */
  method RefusalIsHidden(index: TI.Index, tx: Transaction, grants: Grants, f: Filter, skip: nat, size: nat,
                         descending: bool)
    returns (r: Status, before: Answer, after: Answer)
    requires index.Valid() && index.MayFollow(tx) && size <= TI.PAGE_MAX && index.Answerable(f)
    requires f.fromSeconds == 0 == f.toSeconds || (DaysAscend(index.txs + [tx]) && tx.txNr < index.baseTxNr + (W32 - 1))
    modifies index
    ensures before == PlainAnswer(old(index.txs), f, skip, size, descending)
    ensures |index.txs| < W32 ==> after == PlainAnswer(index.txs, f, skip, size, descending)
    ensures r != Ok ==> before == after
  {
    hide DaysAscend, Scan, Page, TI.DayVerdict, TI.Index.Valid;
    index.Heads();
    assert index.txs != [] ==> index.All()[|index.txs| - 1] == index.txs[|index.txs| - 1];
    before := AskIndex(index, f, skip, size, descending);
    r := index.Add(tx, grants);
    if |index.txs| < W32 {
      index.Heads();
      StillAnswerable(index, f);
    }
    after := AskIndex(index, f, skip, size, descending);
  }

  lemma StillAnswerable(index: TI.Index, f: Filter)
    requires index.Valid()
    requires f.fromSeconds == 0 == f.toSeconds || DaysAscend(index.All())
    requires f.fromSeconds == 0 == f.toSeconds || index.All() == []
             || index.All()[|index.All()| - 1].txNr < index.baseTxNr + (W32 - 1)
    ensures index.Answerable(f)
  {
    hide DaysAscend, TI.Index.Valid;
    index.Heads();
  }

  method AskIndex(index: TI.Index, f: Filter, skip: nat, size: nat, descending: bool) returns (a: Answer)
    requires (index.transactionCount != 0 ==> index.Valid()) && size <= TI.PAGE_MAX
    ensures index.Valid() && index.Answerable(f) ==> a == PlainAnswer(index.txs, f, skip, size, descending)
    ensures index.transactionCount == 0 ==> a == Answer(0, [], None)
  {
    hide TI.Index.Valid, TI.Index.Answerable, Scan, Page;
    var count := index.Count(f);
    var r, page, matches := index.Listing(f, skip, size, descending);
    var newest := index.Newest(f);
    a := Answer(count, page, newest);
  }

  /** The add that fills the last of 2^32 offsets brings the counter back to 0, and the index finds nothing any more. */
  method FullIndexLooksEmpty(index: TI.Index, tx: Transaction, grants: Grants, f: Filter, skip: nat, size: nat,
                             descending: bool)
    returns (r: Status, after: Answer)
    requires index.Valid() && index.MayFollow(tx) && |index.txs| == W32 - 1 && size <= TI.PAGE_MAX
    modifies index
    ensures r == Ok ==> |index.txs| == W32 && after == Answer(0, [], None)
  {
    hide TI.Index.Valid, TI.Verdict, TI.Index.Answerable, Scan, Page;
    r := index.Add(tx, grants);
    after := AskIndex(index, f, skip, size, descending);
  }

  // ----- the register and the segments agree

  /**
   Once an add has gone through, the register's last balance change is that of the counted run, the
   segments' newest that of what they hold: where they hold what is counted, the same.
   */
  method LastBalanceAgrees(c: Chain, key: Key) returns (fromRegister: Option<int>, fromSegments: Option<int>)
    requires c.Valid() && c.pending.None?
    ensures fromRegister == (if LastBalance(c.txs, key) == 0 then None else Some(LastBalance(c.txs, key)))
    ensures Flat(c.Contents()) == c.txs ==> fromSegments == fromRegister
  {
    hide RowStands, AR.Register.Valid, Scan, LastBalance, Found, Flat, Gapless;
    var f := EVERYTHING.(key := key, role := BalanceRole);
    fromSegments := c.Newest(f);
    if Flat(c.Contents()) == c.txs { OneCommunityIsPlain(c.Contents(), f); }
    LastBalanceIsNewest(c.txs, key, TI.HomeOf(c.txs));
    BalanceIsNumbered(c, f);
    var newest := c.addresses.NewestBalance(key);
    fromRegister := if newest.Some? then Some(newest.value) else None;
  }

  lemma BalanceIsNumbered(c: Chain, f: Filter)
    requires c.Valid() && c.pending.None?
    ensures c.addresses.Valid() && c.addresses.txs == c.txs && c.addresses.pending.None?
    ensures var found := Scan(c.txs, f, TI.HomeOf(c.txs)); found != [] ==> found[|found| - 1] != 0
  {
    hide RowStands, AR.Register.Valid, Satisfies;
    var found := Scan(c.txs, f, TI.HomeOf(c.txs));
    if found != [] {
      ScanMember(c.txs, f, TI.HomeOf(c.txs), found[|found| - 1]);
    }
  }
}
