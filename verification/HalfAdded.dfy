/** What a segment has taken and the register has refused: how it is completed, replaced, or left behind. */
module HalfAdded {
  import opened Words
  import opened Ledger
  import opened Arnm
  import opened Windows
  import opened Rows
  import opened RowScans
  import opened RowRuns
  import TI = TransactionIndex
  import AR = AddressRegister

  /**
   While the segments hold one number more than is counted, that number goes to the register alone:
   whatever transaction carries it, the segments keep what they hold.
   */
  lemma HalfGoesToRegister(size: nat, row: Row, held: seq<Transaction>, tx: Transaction)
    requires 0 < size < W32 && Regular(size, row, held) && |held| == |row.txs| + 1
    requires tx.txNr == held[|held| - 1].txNr
    ensures NumberFits(row.txs, tx)
    ensures Offered(size, row, tx) ==
              (if Known(tx) then Ok else InvalidEnumType, row.(txs := if Known(tx) then row.txs + [tx] else row.txs))
    ensures Regular(size, Offered(size, row, tx).1, held)
  {
    hide Base, SegmentOf, Window, Offered, AR.TypeUnknown;
    assert row.txs != [] ==> held[|held| - 1].txNr == row.txs[|row.txs| - 1].txNr + 1;
    OfferToRegular(size, row, held, tx);
    RegisterKnows(row.txs, tx);
    assert row.(txs := row.txs) == row;
  }

  /** What a regular row holds, segment behind segment, is its run. */
  lemma RegularIsFlat(size: nat, row: Row, held: seq<Transaction>)
    requires 0 < size && Regular(size, row, held)
    ensures Flat(row.segments) == held
  {
    hide Base, Window;
    FlatUpTo(size, row, held, |row.segments|);
    assert row.segments[..|row.segments|] == row.segments;
    assert held != [] ==>
             Cut(held, Base(size, row.first)) == 0 && Cut(held, Base(size, row.first + |row.segments|)) == |held|;
  }

  lemma {:induction false} FlatUpTo(size: nat, row: Row, held: seq<Transaction>, n: nat)
    requires n <= |row.segments| && Regular(size, row, held)
    ensures Cut(held, Base(size, row.first)) <= Cut(held, Base(size, row.first + n))
    ensures Flat(row.segments[..n]) == held[Cut(held, Base(size, row.first))..Cut(held, Base(size, row.first + n))]
  {
    hide Base, Window, Cut;
    if 0 < n {
      FlatUpTo(size, row, held, n - 1);
      var k := row.first + n - 1;
      WindowJoins(held, size, k);
      WindowSlices(held, size, k);
      FlatStep(row.segments, n - 1);
      var c, d, e := Cut(held, Base(size, row.first)), Cut(held, Base(size, k)), Cut(held, Base(size, k + 1));
      assert held[..e][c..] == held[c..e] && held[..d][c..] == held[c..d];
      assert held[c..e] == held[c..d] + Window(held, size, k);
    }
  }

  /** With nothing half added, what is held and what is counted stand under the same numbers, upwards. */
  lemma RegularIsNumberedAlike(size: nat, row: Row, held: seq<Transaction>)
    requires 0 < size && Regular(size, row, held) && |held| == |row.txs|
    ensures NumberedAlike(Homed(row.segments), JudgedBy(row.txs, TI.HomeOf(row.txs)))
    ensures forall i :: 0 <= i < |held| ==> Homed(row.segments)[i].0 == held[i]
  {
    hide Base, Window, Homed, Flat;
    RegularIsFlat(size, row, held);
    HomedIsFlat(row.segments);
  }

  /**
   After a half-added transaction has been replaced the segments answer every filter as one scan of the
   counted run exactly when the two look alike, each judged by its own home, and no other is judged
   otherwise by the home of its segment. In one community the two decide alone.
   */
  lemma ReplacedIsSeenUnlessAlike(size: nat, row: Row, counted: seq<Transaction>, half: Transaction, tx: Transaction)
    requires 0 < size && Regular(size, row, counted + [half]) && row.txs == counted + [tx]
    ensures |Homed(row.segments)| == |row.txs|
    ensures var hs, home := Homed(row.segments), TI.HomeOf(row.txs);
            (forall f: Filter :: Found(row.segments, f) == Scan(row.txs, f, home)) <==>
              && (forall i :: 0 <= i < |counted| ==> LooksLike((counted[i], hs[i].1), (counted[i], home)))
              && LooksLike((half, hs[|counted|].1), (tx, home))
    ensures OneCommunity(counted + [half]) ==>
              ((forall f: Filter :: Found(row.segments, f) == Scan(row.txs, f, TI.HomeOf(row.txs))) <==>
                 LooksLike((half, half.community), (tx, TI.HomeOf(row.txs))))
  {
    hide Found, Homed, LooksLike, Regular, Scan;
    var held, home, hs, n := counted + [half], TI.HomeOf(row.txs), Homed(row.segments), |counted|;
    RegularIsNumberedAlike(size, row, held);
    FoundIsPlainForAll(row.segments, row.txs);
    forall i | 0 <= i < n ensures hs[i] == (counted[i], hs[i].1) && row.txs[i] == counted[i] {}
    assert hs[n] == (half, hs[n].1) && row.txs[n] == tx;
    if OneCommunity(held) {
      forall i | 0 <= i < n ensures LooksLike(hs[i], (row.txs[i], home)) {
        HomedInOne(size, row, held, i);
        assert home == row.txs[0].community == held[0].community;
        assert held[n].community == held[0].community;
        LooksLikeItself(held[i], home);
      }
      HomedInOne(size, row, held, n);
    }
  }

  lemma HomedInOne(size: nat, row: Row, held: seq<Transaction>, i: nat)
    requires 0 < size && Regular(size, row, held) && OneCommunity(held) && i < |held|
    ensures |Homed(row.segments)| == |held| && Homed(row.segments)[i] == (held[i], held[|held| - 1].community)
  {
    hide Base, Window, Homed, Flat;
    RegularIsFlat(size, row, held);
    HomedIsFlat(row.segments);
    var t :| t in held && Homed(row.segments)[i].1 == t.community;
    SameCommunity(held, t);
    SameCommunity(held, held[|held| - 1]);
  }

  lemma LooksLikeItself(tx: Transaction, home: Uuid)
    ensures LooksLike((tx, home), (tx, home))
  {
  }

  /** A registration corrected in its address type alone looks the same. */
  lemma TypeIsNotSeen(tx: Transaction, addressType: uint32, home: Uuid)
    ensures LooksLike((tx, home), (tx.(addressType := addressType), home))
  {
  }

  /** How many numbers are held and not counted. */
  ghost function Uncounted(row: Row): int {
    |Flat(row.segments)| - |row.txs|
  }

  /**
   It is one more when the register refuses what a segment takes, one less when it takes what a segment
   had, and else the same.
   */
  lemma UncountedStep(size: nat, row: Row, tx: Transaction)
    requires 0 < size && NumberFits(row.txs, tx) && InReach(size, row, tx)
    ensures var (r, row1) := Offered(size, row, tx);
            var taken := Taken(size, row, tx);
            && |Flat(taken.1.segments)| - |Flat(row.segments)| in {0, 1}
            && Uncounted(row1) == Uncounted(row) + (|Flat(taken.1.segments)| - |Flat(row.segments)|)
                                  - (if r == Ok then 1 else 0)
  {
    hide SegmentOf, SegmentVerdict, IsLast, Flat;
    var wide := Opened(size, row, tx);
    NothingAdded(row.segments);
    var position := SegmentOf(size, tx.txNr) - wide.first;
    OneAdded(wide.segments, position, tx);
  }

  lemma NothingAdded(contents: seq<seq<Transaction>>)
    ensures Flat(contents + [[]]) == Flat(contents)
  {
    assert (contents + [[]])[..|contents|] == contents;
  }

  lemma {:induction false} OneAdded(contents: seq<seq<Transaction>>, position: nat, tx: Transaction)
    requires position < |contents|
    ensures |Flat(contents[position := contents[position] + [tx]])| == |Flat(contents)| + 1
  {
    var n := |contents| - 1;
    var more := contents[position := contents[position] + [tx]];
    if position < n {
      OneAdded(contents[..n], position, tx);
      assert more[..n] == contents[..n][position := contents[position] + [tx]];
    } else {
      assert more[..n] == contents[..n];
    }
  }

  // ----- more held than counted

  /** Attempts of known kinds, each with an address type the register does not know. */
  ghost predicate Unnamed(attempts: seq<Transaction>) {
    forall i :: 0 <= i < |attempts| ==> attempts[i].kind < KIND_COUNT && AR.TypeUnknown(attempts[i])
  }

  lemma OnlyCountedDiffers(size: nat, row: Row, txs: seq<Transaction>, tx: Transaction)
    requires 0 < size && (row.segments != [] || row.txs == txs)
    ensures InReach(size, row.(txs := txs), tx) <==> InReach(size, row, tx)
    ensures InReach(size, row, tx) ==>
              && Taken(size, row.(txs := txs), tx).0 == Taken(size, row, tx).0
              && Taken(size, row.(txs := txs), tx).1 == Taken(size, row, tx).1.(txs := txs)
  {
    hide SegmentOf, SegmentVerdict, IsLast;
    if row.segments == [] { assert row.(txs := txs) == row; }
  }

  /** A segment takes the number behind all it has been given, whether those were counted or not. */
  lemma TakenBehindUncounted(size: nat, row: Row, held: seq<Transaction>, tx: Transaction)
    requires 0 < size < W32 && row.txs == [] && Regular(size, row.(txs := held), held)
               && (held != [] ==> row.segments != [])
    requires Gapless(held + [tx]) && tx.txNr != 0 && tx.kind < KIND_COUNT && DaysFitWindows(size, held + [tx])
    requires held == [] ==> row == EMPTY_ROW
    ensures InReach(size, row, tx) && Taken(size, row, tx).0 == Ok && Taken(size, row, tx).1.txs == []
    ensures Taken(size, row, tx).1.segments != []
    ensures Regular(size, Taken(size, row, tx).1.(txs := held), held + [tx])
  {
    hide Base, SegmentOf, Day, Window, Taken, InReach, TI.DayVerdict, DaysFitWindows, Regular;
    var counted := row.(txs := held);
    assert (held + [tx])[|held|] == tx && (held != [] ==> (held + [tx])[|held| - 1] == held[|held| - 1]);
    if held == [] { BeginsInReach(size, tx); } else { NextInReach(size, counted, held, tx); }
    OnlyCountedDiffers(size, row, held, tx);
    FitsOneMore(size, held, tx);
    NextTaken(size, counted, held, tx);
    TakenHolds(size, row, tx);
  }

  lemma BeginsInReach(size: nat, tx: Transaction)
    requires 0 < size
    ensures InReach(size, EMPTY_ROW, tx)
  {
  }

  lemma TakenHolds(size: nat, row: Row, tx: Transaction)
    requires 0 < size && InReach(size, row, tx)
    ensures Taken(size, row, tx).1.segments != [] && Taken(size, row, tx).1.txs == row.txs
  {
    hide SegmentOf, SegmentVerdict, IsLast;
  }

  /** The register then takes it as the first it counts, or refuses its address type. */
  lemma OfferBehindUncounted(size: nat, row: Row, held: seq<Transaction>, tx: Transaction)
    requires 0 < size < W32 && row.txs == [] && Regular(size, row.(txs := held), held)
               && (held != [] ==> row.segments != [])
    requires Gapless(held + [tx]) && tx.txNr != 0 && tx.kind < KIND_COUNT && DaysFitWindows(size, held + [tx])
    requires held == [] ==> row == EMPTY_ROW
    ensures var (r, row1) := Offered(size, row, tx);
            && r == (if Known(tx) then Ok else InvalidEnumType) && row1.txs == (if Known(tx) then [tx] else [])
            && row1.segments != [] && Regular(size, row1.(txs := held + [tx]), held + [tx])
  {
    hide Base, SegmentOf, Taken, InReach, DaysFitWindows, AR.TypeUnknown, Regular, Gapless;
    TakenBehindUncounted(size, row, held, tx);
    RegisterKnows([], tx);
    var taken := Taken(size, row, tx).1;
    CountedAsWell(size, taken, held, tx);
    assert Offered(size, row, tx) == Registered(taken, tx);
    assert Registered(taken, tx).1.(txs := held + [tx]) == taken.(txs := held + [tx]);
  }

  /**
   Before anything is counted the register refuses every unknown address type, and the segments keep each
   under its number.
   */
  lemma {:induction false} NoneCounted(size: nat, unnamed: seq<Transaction>)
    requires 0 < size < W32 && Unnamed(unnamed) && Gapless(unnamed) && DaysFitWindows(size, unnamed)
    requires unnamed != [] ==> 0 < unnamed[0].txNr
    ensures forall i :: 0 <= i < |unnamed| ==> AnswersOf(size, unnamed)[i] == InvalidEnumType
    ensures var row := RowOf(size, unnamed);
            && row.txs == [] && Regular(size, row.(txs := unnamed), unnamed)
            && (if unnamed == [] then row == EMPTY_ROW else row.segments != [])
  {
    hide Base, Offered, DaysFitWindows, AR.TypeUnknown, Regular, Gapless;
    if unnamed == [] {
      NothingIsRegular(size);
    } else {
      var init, tx := unnamed[..|unnamed| - 1], unnamed[|unnamed| - 1];
      assert unnamed == init + [tx];
      FitsInit(size, init, tx);
      NoneCounted(size, init);
      LastIsNumbered(init, tx);
      OfferBehindUncounted(size, RowOf(size, init), init, tx);
    }
  }

  lemma LastIsNumbered(init: seq<Transaction>, tx: Transaction)
    requires Gapless(init + [tx]) && 0 < (init + [tx])[0].txNr
    ensures tx.txNr != 0
  {
    assert (init + [tx])[|init|] == tx;
  }

  lemma FitsInit(size: nat, init: seq<Transaction>, tx: Transaction)
    requires 0 < size && DaysFitWindows(size, init + [tx]) && Gapless(init + [tx])
    ensures DaysFitWindows(size, init) && Gapless(init)
  {
    hide Base, SegmentOf, Day, Window, TI.DayVerdict, DaysFitWindows;
    FitsOneMore(size, init, tx);
    assert forall i :: 0 <= i < |init| ==> (init + [tx])[i] == init[i];
  }

  lemma CountedAsWell(size: nat, row: Row, held: seq<Transaction>, tx: Transaction)
    requires Regular(size, row.(txs := held), held + [tx])
    ensures Regular(size, row.(txs := held + [tx]), held + [tx])
  {
    hide Base, Window;
  }

  /**
   Once a known one follows them it is counted as the first of the chain, and the segments go on
   finding those before it.
   */
  lemma UncountedAreFound(size: nat, unnamed: seq<Transaction>, tx: Transaction)
    requires 0 < size < W32 && Unnamed(unnamed) && Known(tx) && Gapless(unnamed + [tx])
               && DaysFitWindows(size, unnamed + [tx])
    requires 0 < (unnamed + [tx])[0].txNr
    ensures AnswersOf(size, unnamed + [tx])[|unnamed|] == Ok
    ensures var row := RowOf(size, unnamed + [tx]); row.txs == [tx] && Flat(row.segments) == unnamed + [tx]
  {
    hide Base, Offered, DaysFitWindows, AR.TypeUnknown, Regular, Flat;
    var all := unnamed + [tx];
    FitsInit(size, unnamed, tx);
    assert all[..|unnamed|] == unnamed && all[|unnamed|] == tx;
    assert unnamed != [] ==> all[0] == unnamed[0];
    NoneCounted(size, unnamed);
    var row := RowOf(size, unnamed);
    OfferBehindUncounted(size, row, unnamed, tx);
    RegularIsFlat(size, Offered(size, row, tx).1.(txs := all), all);
  }
}
