/** What several indices find between them, each over its own transactions, against one naive scan. */
module RowScans {
  import opened Words
  import opened Ledger
  import opened Pages
  import TI = TransactionIndex

  /** All transactions of a row, one segment behind the other. */
  ghost function Flat(contents: seq<seq<Transaction>>): seq<Transaction> {
    if contents == [] then [] else Flat(contents[..|contents| - 1]) + contents[|contents| - 1]
  }

  /** What a segment answers: its home is its own first transaction's. */
  ghost function OwnScan(held: seq<Transaction>, f: Filter): seq<int> {
    Scan(held, f, TI.HomeOf(held))
  }

  /** What the segments answer, one behind the other. */
  ghost function Found(contents: seq<seq<Transaction>>, f: Filter): seq<int> {
    if contents == [] then [] else Found(contents[..|contents| - 1], f) + OwnScan(contents[|contents| - 1], f)
  }

  lemma {:induction false} FoundConcat(a: seq<seq<Transaction>>, b: seq<seq<Transaction>>, f: Filter)
    ensures Found(a + b, f) == Found(a, f) + Found(b, f)
  {
    hide OwnScan;
    if b == [] {
      assert a + b == a;
    } else {
      var init := b[..|b| - 1];
      FoundConcat(a, init, f);
      assert (a + b)[..|a + b| - 1] == a + init;
    }
  }

  lemma FoundInOne(held: seq<Transaction>, f: Filter)
    ensures Found([held], f) == OwnScan(held, f)
  {
    hide OwnScan;
    assert [held][..0] == [];
  }

  /** What is met in the first so many segments of the walk, in its order. */
  ghost function Met(contents: seq<seq<Transaction>>, steps: nat, descending: bool, f: Filter): seq<int>
    requires steps <= |contents|
  {
    if descending then Reverse(Found(contents[|contents| - steps..], f)) else Found(contents[..steps], f)
  }

  ghost function InOrder(xs: seq<int>, descending: bool): seq<int> {
    if descending then Reverse(xs) else xs
  }

  lemma MetStep(contents: seq<seq<Transaction>>, steps: nat, descending: bool, f: Filter)
    requires steps < |contents|
    ensures var held := contents[if descending then |contents| - 1 - steps else steps];
            Met(contents, steps + 1, descending, f)
                == Met(contents, steps, descending, f) + InOrder(OwnScan(held, f), descending)
  {
    hide OwnScan, Found, Reverse;
    var i := if descending then |contents| - 1 - steps else steps;
    FoundInOne(contents[i], f);
    if descending {
      assert contents[i..] == [contents[i]] + contents[i + 1..];
      FoundConcat([contents[i]], contents[i + 1..], f);
      ReverseConcat(OwnScan(contents[i], f), Found(contents[i + 1..], f));
    } else {
      assert contents[..i + 1] == contents[..i] + [contents[i]];
      FoundConcat(contents[..i], [contents[i]], f);
    }
  }

  lemma MetEnds(contents: seq<seq<Transaction>>, descending: bool, f: Filter)
    ensures Met(contents, 0, descending, f) == []
    ensures Met(contents, |contents|, descending, f) == InOrder(Found(contents, f), descending)
  {
    hide OwnScan;
    assert contents[..|contents|] == contents == contents[0..] && contents[..0] == [] == contents[|contents|..];
  }

  /** The first number met from the newest end is the last of all. */
  lemma {:induction false} FirstMet(contents: seq<seq<Transaction>>, steps: nat, f: Filter)
    requires steps <= |contents| && Met(contents, steps, true, f) != []
    ensures var found := Found(contents, f);
            found != [] && found[|found| - 1] == Met(contents, steps, true, f)[0]
  {
    hide OwnScan, Found, Reverse;
    var c := |contents| - steps;
    assert contents == contents[..c] + contents[c..];
    FoundConcat(contents[..c], contents[c..], f);
    FirstReversed(Found(contents[..c], f), Found(contents[c..], f));
  }

  lemma {:induction false} FirstReversed(a: seq<int>, b: seq<int>)
    ensures |Reverse(b)| == |b| && (b != [] ==> Reverse(b)[0] == (a + b)[|a + b| - 1])
  {
  }

  // ----- the same transactions, or others under the same numbers, judged by one home

  /** A transaction and the community it is judged by. */
  type Judged = (Transaction, Uuid)

  ghost function JudgedBy(txs: seq<Transaction>, home: Uuid): (js: seq<Judged>)
    ensures |js| == |txs|
    ensures forall i :: 0 <= i < |txs| ==> js[i] == (txs[i], home)
  {
    seq(|txs|, i requires 0 <= i < |txs| => (txs[i], home))
  }

  /** Each transaction of a row beside its own segment's home. */
  ghost function Homed(contents: seq<seq<Transaction>>): seq<Judged> {
    if contents == [] then []
    else
      var held := contents[|contents| - 1];
      Homed(contents[..|contents| - 1]) + JudgedBy(held, TI.HomeOf(held))
  }

  ghost predicate Meets(j: Judged, f: Filter) {
    Satisfies(j.0, f, j.1)
  }

  /** The numbers of those that meet the filter. */
  ghost function JudgedScan(js: seq<Judged>, f: Filter): seq<int> {
    if js == [] then []
    else
      var last := js[|js| - 1];
      JudgedScan(js[..|js| - 1], f) + if Meets(last, f) then [last.0.txNr] else []
  }

  lemma {:induction false} JudgedConcat(a: seq<Judged>, b: seq<Judged>, f: Filter)
    ensures JudgedScan(a + b, f) == JudgedScan(a, f) + JudgedScan(b, f)
  {
    hide Meets;
    if b == [] {
      assert a + b == a;
    } else {
      var init := b[..|b| - 1];
      JudgedConcat(a, init, f);
      assert (a + b)[..|a + b| - 1] == a + init;
    }
  }

  lemma {:induction false} ScanIsJudged(txs: seq<Transaction>, f: Filter, home: Uuid)
    ensures Scan(txs, f, home) == JudgedScan(JudgedBy(txs, home), f)
  {
    hide Satisfies;
    if txs != [] {
      var init := txs[..|txs| - 1];
      ScanIsJudged(init, f, home);
      assert JudgedBy(txs, home)[..|txs| - 1] == JudgedBy(init, home);
    }
  }

  lemma {:induction false} FoundIsJudged(contents: seq<seq<Transaction>>, f: Filter)
    ensures Found(contents, f) == JudgedScan(Homed(contents), f)
  {
    hide JudgedScan, Scan;
    if contents == [] {
      NothingJudged(f);
    } else {
      var init, held := contents[..|contents| - 1], contents[|contents| - 1];
      FoundIsJudged(init, f);
      ScanIsJudged(held, f, TI.HomeOf(held));
      JudgedConcat(Homed(init), JudgedBy(held, TI.HomeOf(held)), f);
    }
  }

  lemma NothingJudged(f: Filter)
    ensures JudgedScan([], f) == []
  {
  }

  /** Numbered alike, and upwards. */
  ghost predicate NumberedAlike(a: seq<Judged>, b: seq<Judged>) {
    && |a| == |b| && (forall i :: 0 <= i < |a| ==> a[i].0.txNr == b[i].0.txNr)
    && (forall i, j :: 0 <= i < j < |a| ==> a[i].0.txNr < a[j].0.txNr)
  }

  lemma {:induction false} JudgedMember(js: seq<Judged>, f: Filter, nr: int)
    ensures nr in JudgedScan(js, f) ==> exists i :: 0 <= i < |js| && js[i].0.txNr == nr
  {
    hide Meets;
    if js != [] { JudgedMember(js[..|js| - 1], f, nr); }
  }

  ghost predicate MeetAlike(a: seq<Judged>, b: seq<Judged>, f: Filter)
    requires |a| == |b|
  {
    forall i :: 0 <= i < |a| ==> (Meets(a[i], f) <==> Meets(b[i], f))
  }

  lemma MeetAlikeStep(a: seq<Judged>, b: seq<Judged>, f: Filter)
    requires |a| == |b| && a != []
    ensures var n := |a| - 1;
            MeetAlike(a, b, f) <==> MeetAlike(a[..n], b[..n], f) && (Meets(a[n], f) <==> Meets(b[n], f))
  {
    hide Meets;
    var n := |a| - 1;
    if MeetAlike(a[..n], b[..n], f) {
      forall i | 0 <= i < n ensures Meets(a[i], f) <==> Meets(b[i], f) {
        assert Meets(a[..n][i], f) <==> Meets(b[..n][i], f);
      }
    }
  }

  lemma JudgedStep(js: seq<Judged>, f: Filter)
    requires js != []
    ensures var n := |js| - 1;
            JudgedScan(js, f) == JudgedScan(js[..n], f) + if Meets(js[n], f) then [js[n].0.txNr] else []
  {
    hide Meets;
  }

  /** Under the same numbers the same is found exactly when each is judged as the other. */
  lemma {:induction false} FoundAlike(a: seq<Judged>, b: seq<Judged>, f: Filter)
    requires NumberedAlike(a, b)
    ensures JudgedScan(a, f) == JudgedScan(b, f) <==> MeetAlike(a, b, f)
  {
    hide Meets, MeetAlike, JudgedScan;
    if a == [] {
      NoneJudged(b, f);
    } else {
      var n := |a| - 1;
      FoundAlike(a[..n], b[..n], f);
      JudgedMember(a[..n], f, a[n].0.txNr);
      JudgedMember(b[..n], f, a[n].0.txNr);
      JudgedStep(a, f);
      JudgedStep(b, f);
      MeetAlikeStep(a, b, f);
      AppendedAlike(JudgedScan(a[..n], f), JudgedScan(b[..n], f), a[n].0.txNr, Meets(a[n], f), Meets(b[n], f));
    }
  }

  lemma NoneJudged(b: seq<Judged>, f: Filter)
    requires b == []
    ensures MeetAlike([], b, f)
  {
  }

  lemma AppendedAlike(x: seq<int>, y: seq<int>, nr: int, p: bool, q: bool)
    requires nr !in x && nr !in y
    ensures x + (if p then [nr] else []) == y + (if q then [nr] else []) <==> x == y && p == q
  {
    var u, v := x + (if p then [nr] else []), y + (if q then [nr] else []);
    assert p ==> u[|x|] == nr;
    assert q ==> v[|y|] == nr;
    if u == v && p == q {
      assert u[..|x|] == x && v[..|y|] == y;
    }
  }

  /** What the segments find is what one scan finds exactly when no transaction is judged otherwise there. */
  lemma {:induction false} FoundIsPlain(contents: seq<seq<Transaction>>, txs: seq<Transaction>, f: Filter)
    requires NumberedAlike(Homed(contents), JudgedBy(txs, TI.HomeOf(txs)))
    ensures Found(contents, f) == Scan(txs, f, TI.HomeOf(txs)) <==>
              forall i :: 0 <= i < |txs| ==> (Meets(Homed(contents)[i], f) <==> Satisfies(txs[i], f, TI.HomeOf(txs)))
  {
    hide Satisfies, Found, Scan, JudgedScan, Homed;
    FoundIsJudged(contents, f);
    ScanIsJudged(txs, f, TI.HomeOf(txs));
    FoundAlike(Homed(contents), JudgedBy(txs, TI.HomeOf(txs)), f);
    forall i | 0 <= i < |txs|
      ensures Meets(JudgedBy(txs, TI.HomeOf(txs))[i], f) <==> Satisfies(txs[i], f, TI.HomeOf(txs)) {}
  }

  // ----- what no filter can tell apart

  /** Whether a filter for a coin takes the transaction for one in it. */
  ghost predicate InCoin(tx: Transaction, coin: Uuid, home: Uuid) {
    if coin == home then !CarriesForeignCoin(tx, home) else CarriesCoin(tx, coin)
  }

  /** Whether a key has any part in the transaction. */
  ghost predicate TakesPart(tx: Transaction, key: Key) {
    MovesBalance(tx, key) || Signs(tx, key) || Names(tx, key)
  }

  /** The same kind and day, the same keys with a part in it and with a moved balance, and the same coins. */
  ghost predicate LooksLike(a: Judged, b: Judged) {
    && a.0.kind == b.0.kind && Day(a.0) == Day(b.0)
    && (forall key :: MovesBalance(a.0, key) <==> MovesBalance(b.0, key))
    && (forall key :: TakesPart(a.0, key) <==> TakesPart(b.0, key))
    && (forall coin :: coin != NIL_UUID ==> (InCoin(a.0, coin, a.1) <==> InCoin(b.0, coin, b.1)))
  }

  /** A filter with nothing set. */
  const EVERYTHING := Filter(NO_KEY, NIL_UUID, NoRole, ANY_KIND, 0, 0, 0, 0)

  /** Two transactions under one number meet the same filters exactly when they look alike. */
  lemma LooksLikeIsMeetsAlike(a: Judged, b: Judged)
    requires a.0.txNr == b.0.txNr
    ensures (forall f: Filter :: Meets(a, f) <==> Meets(b, f)) <==> LooksLike(a, b)
  {
    if LooksLike(a, b) {
      forall f: Filter ensures Meets(a, f) <==> Meets(b, f) {
        AlikeMeets(a, b, f);
      }
    } else {
      var f := TellsApart(a, b);
      assert !(Meets(a, f) <==> Meets(b, f));
    }
  }

  lemma AlikeMeets(a: Judged, b: Judged, f: Filter)
    requires a.0.txNr == b.0.txNr && LooksLike(a, b)
    ensures Meets(a, f) <==> Meets(b, f)
  {
    hide DayInSpan, DayBound, MovesBalance, Signs, Names, CarriesCoin, CarriesForeignCoin, Day;
    assert TakesPart(a.0, f.key) <==> TakesPart(b.0, f.key);
    assert f.coin != NIL_UUID ==> (InCoin(a.0, f.coin, a.1) <==> InCoin(b.0, f.coin, b.1));
  }

  /** A second of a day that is no open bound. */
  function SecondOf(tx: Transaction): Seconds {
    if tx.confirmedAt == 0 then 1 else tx.confirmedAt
  }

  lemma SecondIsOfDay(tx: Transaction)
    ensures SecondOf(tx) != 0 && DayBound(SecondOf(tx)) == Some(Day(tx))
  {
  }

  lemma TellsApart(a: Judged, b: Judged) returns (f: Filter)
    requires a.0.txNr == b.0.txNr && !LooksLike(a, b)
    ensures !(Meets(a, f) <==> Meets(b, f))
  {
    hide MovesBalance, Signs, Names, CarriesCoin, CarriesForeignCoin, Day;
    f := EVERYTHING;
    SecondIsOfDay(a.0);
    if a.0.kind != b.0.kind {
      f := f.(kind := if a.0.kind != ANY_KIND then a.0.kind else b.0.kind);
    } else if Day(a.0) != Day(b.0) {
      f := f.(fromSeconds := SecondOf(a.0), toSeconds := SecondOf(a.0));
    } else if key :| !(MovesBalance(a.0, key) <==> MovesBalance(b.0, key)) {
      f := f.(key := key, role := BalanceRole);
    } else if key :| !(TakesPart(a.0, key) <==> TakesPart(b.0, key)) {
      f := f.(key := key, role := Involved);
    } else {
      var coin :| coin != NIL_UUID && !(InCoin(a.0, coin, a.1) <==> InCoin(b.0, coin, b.1));
      f := f.(coin := coin);
    }
  }

  /** The segments answer every filter like one scan exactly when no transaction looks otherwise there. */
  lemma {:induction false} FoundIsPlainForAll(contents: seq<seq<Transaction>>, txs: seq<Transaction>)
    requires NumberedAlike(Homed(contents), JudgedBy(txs, TI.HomeOf(txs)))
    ensures (forall f: Filter :: Found(contents, f) == Scan(txs, f, TI.HomeOf(txs))) <==>
              forall i :: 0 <= i < |txs| ==> LooksLike(Homed(contents)[i], (txs[i], TI.HomeOf(txs)))
  {
    hide Found, Scan, Homed, Meets, LooksLike, Satisfies;
    var hs, home := Homed(contents), TI.HomeOf(txs);
    if forall i :: 0 <= i < |txs| ==> LooksLike(hs[i], (txs[i], home)) {
      forall f: Filter ensures Found(contents, f) == Scan(txs, f, home) {
        FoundIsPlain(contents, txs, f);
        forall i | 0 <= i < |txs| ensures Meets(hs[i], f) <==> Satisfies(txs[i], f, home) {
          JudgedIs(txs[i], home, f);
          LooksLikeIsMeetsAlike(hs[i], (txs[i], home));
        }
      }
    } else {
      var i :| 0 <= i < |txs| && !LooksLike(hs[i], (txs[i], home));
      LooksLikeIsMeetsAlike(hs[i], (txs[i], home));
      var f: Filter :| !(Meets(hs[i], f) <==> Meets((txs[i], home), f));
      JudgedIs(txs[i], home, f);
      FoundIsPlain(contents, txs, f);
      assert Found(contents, f) != Scan(txs, f, home);
    }
  }

  lemma JudgedIs(tx: Transaction, home: Uuid, f: Filter)
    ensures Meets((tx, home), f) <==> Satisfies(tx, f, home)
  {
  }

  /** Judged by the homes of their segments, the transactions of a row are still those of the row. */
  lemma {:induction false} HomedIsFlat(contents: seq<seq<Transaction>>)
    ensures |Homed(contents)| == |Flat(contents)|
    ensures forall i :: 0 <= i < |Flat(contents)| ==> Homed(contents)[i].0 == Flat(contents)[i]
    ensures forall i :: 0 <= i < |Flat(contents)| ==>
              exists tx :: tx in Flat(contents) && Homed(contents)[i].1 == tx.community
  {
    if contents != [] {
      var init, held := contents[..|contents| - 1], contents[|contents| - 1];
      HomedIsFlat(init);
      assert held != [] ==> held[0] in Flat(contents);
    }
  }

  /** Without a coin in the filter, or in one community, a gapless row finds what one scan of it finds. */
  lemma {:induction false} OneCommunityIsPlain(contents: seq<seq<Transaction>>, f: Filter)
    requires Gapless(Flat(contents)) && (f.coin == NIL_UUID || OneCommunity(Flat(contents)))
    ensures Found(contents, f) == Scan(Flat(contents), f, TI.HomeOf(Flat(contents)))
  {
    hide Flat, Homed, Found, Scan, Satisfies;
    var txs := Flat(contents);
    HomedIsFlat(contents);
    FoundIsPlain(contents, txs, f);
    forall i | 0 <= i < |txs| ensures Meets(Homed(contents)[i], f) <==> Satisfies(txs[i], f, TI.HomeOf(txs)) {
      var tx :| tx in txs && Homed(contents)[i].1 == tx.community;
      SameCommunity(txs, tx);
      AnyHome(txs[i], f, tx.community, TI.HomeOf(txs));
    }
  }

  lemma SameCommunity(txs: seq<Transaction>, tx: Transaction)
    requires tx in txs
    ensures OneCommunity(txs) ==> tx.community == TI.HomeOf(txs)
  {
  }

  lemma AnyHome(tx: Transaction, f: Filter, h1: Uuid, h2: Uuid)
    requires f.coin == NIL_UUID || h1 == h2
    ensures Satisfies(tx, f, h1) <==> Satisfies(tx, f, h2)
  {
  }

  /** The outermost of two spans that lie end to end. */
  function Outermost(a: Option<(int, int)>, b: Option<(int, int)>): Option<(int, int)> {
    if a.None? then b
    else if b.None? then a
    else Some((Min(a.value.0, b.value.0), if a.value.1 <= b.value.1 then b.value.1 else a.value.1))
  }

  lemma SpansJoin(a: seq<Transaction>, b: seq<Transaction>, ra: Option<(int, int)>, rb: Option<(int, int)>,
                  from: Option<int>, to: Option<int>)
    requires Gapless(a + b) && DaysAscend(a + b)
    requires SpansDays(a, ra, from, to) && SpansDays(b, rb, from, to)
    ensures SpansDays(a + b, Outermost(ra, rb), from, to)
  {
    var all, r := a + b, Outermost(ra, rb);
    assert forall i :: 0 <= i < |a| ==> all[i] == a[i];
    assert forall i :: 0 <= i < |b| ==> all[|a| + i] == b[i];
    if ra.Some? || rb.Some? {
      forall i | 0 <= i < |all|
        ensures DayInSpan(Day(all[i]), from, to) <==> r.value.0 <= all[i].txNr <= r.value.1
      {
        SpansJoinAt(a, b, ra, rb, from, to, i);
      }
    } else {
      forall i | 0 <= i < |all| ensures !DayInSpan(Day(all[i]), from, to) {
        if i < |a| { assert all[i] == a[i]; } else { assert all[i] == b[i - |a|]; }
      }
    }
  }

  lemma SpansJoinAt(a: seq<Transaction>, b: seq<Transaction>, ra: Option<(int, int)>, rb: Option<(int, int)>,
                    from: Option<int>, to: Option<int>, i: nat)
    requires Gapless(a + b) && DaysAscend(a + b) && i < |a + b| && (ra.Some? || rb.Some?)
    requires SpansDays(a, ra, from, to) && SpansDays(b, rb, from, to)
    ensures var r := Outermost(ra, rb);
            DayInSpan(Day((a + b)[i]), from, to) <==> r.value.0 <= (a + b)[i].txNr <= r.value.1
  {
    hide DayOf;
    var all := a + b;
    assert all[i] == if i < |a| then a[i] else b[i - |a|];
    assert all[i].txNr == all[0].txNr + i;
    if ra.Some? {
      var p, q := ra.value.0 - all[0].txNr, ra.value.1 - all[0].txNr;
      assert all[0] == a[0] && all[|a| - 1] == a[|a| - 1] && all[|a| - 1].txNr == all[0].txNr + (|a| - 1);
      assert all[p] == a[p] && all[q] == a[q] && a[p].txNr == ra.value.0 && a[q].txNr == ra.value.1;
    }
    if rb.Some? {
      assert all[|a|] == b[0] && b[0].txNr == all[0].txNr + |a|;
      var p, q := rb.value.0 - b[0].txNr, rb.value.1 - b[0].txNr;
      assert all[|all| - 1] == b[|b| - 1] && all[|all| - 1].txNr == all[0].txNr + (|all| - 1);
      assert all[|a| + p] == b[p] && all[|a| + q] == b[q] && b[p].txNr == rb.value.0 && b[q].txNr == rb.value.1;
    }
  }

  // ----- day spans, segment by segment

  /** Put together the segments hold one gapless run on ascending days. */
  ghost predicate InOneRun(contents: seq<seq<Transaction>>) {
    Gapless(Flat(contents)) && DaysAscend(Flat(contents))
  }

  lemma {:induction false} FlatGrows(contents: seq<seq<Transaction>>, i: nat)
    requires i <= |contents|
    ensures Flat(contents[..i]) <= Flat(contents)
  {
    if i < |contents| {
      FlatGrows(contents[..|contents| - 1], i);
      assert contents[..|contents| - 1][..i] == contents[..i];
    } else {
      assert contents[..i] == contents;
    }
  }

  lemma FlatStep(contents: seq<seq<Transaction>>, i: nat)
    requires i < |contents|
    ensures Flat(contents[..i + 1]) == Flat(contents[..i]) + contents[i]
    ensures Flat(contents[..i + 1]) <= Flat(contents)
  {
    assert contents[..i + 1][..i] == contents[..i];
    FlatGrows(contents, i + 1);
  }

  lemma {:induction false} PrefixInRun(run: seq<Transaction>, part: seq<Transaction>)
    requires part <= run && Gapless(run) && DaysAscend(run)
    ensures Gapless(part) && DaysAscend(part)
  {
    hide Day;
    assert forall i :: 0 <= i < |part| ==> part[i] == run[i];
  }

  /** A segment of such a run is on ascending days. */
  lemma SegmentInRun(contents: seq<seq<Transaction>>, i: nat)
    requires InOneRun(contents) && i < |contents|
    ensures DaysAscend(contents[i])
  {
    hide Flat, Day;
    FlatStep(contents, i);
    PrefixInRun(Flat(contents), Flat(contents[..i + 1]));
    var front, part := Flat(contents[..i]), contents[i];
    assert forall j :: 0 <= j < |part| ==> (front + part)[|front| + j] == part[j];
  }

  /** An answer exact for what the first segments hold, or for what they have been told of. */
  ghost predicate Spanned(a: seq<seq<Transaction>>, b: seq<seq<Transaction>>, i: nat, r: Option<(int, int)>,
                          from: Option<int>, to: Option<int>)
    requires i <= |a| == |b|
  {
    SpansDays(Flat(a[..i]), r, from, to) || SpansDays(Flat(b[..i]), r, from, to)
  }

  lemma NothingSpanned(a: seq<seq<Transaction>>, b: seq<seq<Transaction>>, from: Option<int>, to: Option<int>)
    requires |a| == |b|
    ensures Spanned(a, b, 0, None, from, to)
  {
  }

  lemma AllSpanned(a: seq<seq<Transaction>>, b: seq<seq<Transaction>>, r: Option<(int, int)>, from: Option<int>,
                   to: Option<int>)
    requires |a| == |b|
    ensures Spanned(a, b, |a|, r, from, to) ==> SpansDays(Flat(a), r, from, to) || SpansDays(Flat(b), r, from, to)
  {
    hide SpansDays, Flat;
    assert a[..|a|] == a && b[..|b|] == b;
  }

  lemma SpansStep(a: seq<seq<Transaction>>, b: seq<seq<Transaction>>, i: nat, r: Option<(int, int)>,
                  here: Option<(int, int)>, from: Option<int>, to: Option<int>)
    requires i < |a| == |b| && InOneRun(a) && InOneRun(b) && Spanned(a, b, i, r, from, to)
    requires SpansDays(a[i], here, from, to) || SpansDays(b[i], here, from, to)
    requires a[i] != b[i] ==> a[..i] == b[..i]
    ensures Spanned(a, b, i + 1, Outermost(r, here), from, to)
  {
    hide SpansDays, Flat, Gapless, DaysAscend, Outermost;
    FlatStep(a, i);
    FlatStep(b, i);
    PrefixInRun(Flat(a), Flat(a[..i + 1]));
    PrefixInRun(Flat(b), Flat(b[..i + 1]));
    if SpansDays(Flat(a[..i]), r, from, to) && SpansDays(a[i], here, from, to) {
      SpansJoin(Flat(a[..i]), a[i], r, here, from, to);
    } else {
      SpansJoin(Flat(b[..i]), b[i], r, here, from, to);
    }
  }
}
