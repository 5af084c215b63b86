/** What one transaction more does to every answer, said in its own fields and those of the filter. */
module OneMore {
  import opened Words
  import opened Ledger
  import opened Arnm
  import opened Histories
  import opened RowScans
  import opened SegmentedChain
  import opened ChainRuns
  import TI = TransactionIndex
  import AR = AddressRegister

  // ----- the index

  /** A scan finds one number more, and as its newest, exactly when the transaction satisfies the filter. */
  lemma NextFound(txs: seq<Transaction>, tx: Transaction, f: Filter, home: Uuid)
    requires forall i :: 0 <= i < |txs| ==> txs[i].txNr < tx.txNr
    ensures var before, after := Scan(txs, f, home), Scan(txs + [tx], f, home);
            && |after| == |before| + (if Satisfies(tx, f, home) then 1 else 0)
            && (TI.Last(after) == Some(tx.txNr) <==> Satisfies(tx, f, home))
  {
    hide Satisfies;
    assert (txs + [tx])[..|txs|] == txs;
    var before := Scan(txs, f, home);
    if before != [] { ScanMember(txs, f, home, before[|before| - 1]); }
  }

  lemma NoneFound(tx: Transaction, f: Filter, home: Uuid, other: Uuid)
    ensures Scan([], f, home) == Scan([], f, other)
  {
  }

  /** The answer to a transaction is told by number, distance, type and day. */
  lemma VerdictSays(base: uint64, txs: seq<Transaction>, tx: Transaction)
    requires txs != [] ==> base <= txs[|txs| - 1].txNr < base + W32
    ensures var r := TI.Verdict(base, txs, tx);
            var wrong := tx.txNr < base || (txs != [] && tx.txNr as int != txs[|txs| - 1].txNr + 1);
            var far, unknown := tx.txNr - base >= 0x1_0000_0000, tx.kind >= 9;
            var days := if txs == [] then 0 else tx.confirmedAt / 86400 - txs[0].confirmedAt / 86400;
            && r in {Ok, InvalidParam, SizeExceed, InvalidEnumType}
            && (r == InvalidParam <==> wrong || (!far && !unknown && days < 0))
            && (r == SizeExceed <==> !wrong && (far || (!unknown && days >= 0x1_0000_0000)))
            && (r == InvalidEnumType <==> !wrong && !far && unknown)
  {
    hide DayOf;
    DayIsQuotient(tx.confirmedAt);
    if txs != [] { DayIsQuotient(txs[0].confirmedAt); }
  }

  lemma LastIsInReach(index: TI.Index)
    requires index.Valid()
    ensures forall i :: 0 <= i < |index.txs| ==> index.txs[i].txNr == index.baseTxNr + index.start + i
    ensures index.txs != [] ==> index.baseTxNr <= index.txs[|index.txs| - 1].txNr < index.baseTxNr + W32
    ensures index.pending.Some? ==> index.pending.value.txNr == index.baseTxNr + index.start + |index.txs|
  {
    hide TI.Index.Valid;
    index.Heads();
    forall i | 0 <= i < |index.txs| ensures index.txs[i].txNr == index.baseTxNr + index.start + i {
      assert index.All()[i] == index.txs[i];
    }
  }

  /**
   An accepted transaction is counted, and is the newest, for exactly the filters it satisfies; after any
   other answer every count is what it was.
   */
  method IndexTells(index: TI.Index, tx: Transaction, f: Filter, grants: Grants)
    returns (r: Status, before: nat, after: nat, newest: Option<int>)
    requires index.Valid() && index.MayFollow(tx) && index.Answerable(f)
    requires f.fromSeconds == 0 == f.toSeconds
             || (DaysAscend(index.txs + [tx]) && tx.txNr < index.baseTxNr + (W32 - 1))
    modifies index
    ensures index.txs == if r == Ok then old(index.txs) + [tx] else old(index.txs)
    ensures r == OutOfMemory || r == TI.Verdict(index.baseTxNr, old(index.txs), tx)
    ensures r == Ok && |index.txs| < W32 ==>
              && after == before + (if Satisfies(tx, f, index.txs[0].community) then 1 else 0)
              && (newest == Some(tx.txNr) <==> Satisfies(tx, f, index.txs[0].community))
    ensures r != Ok ==> after == before
  {
    hide DaysAscend, Scan, Satisfies, DayOf, TI.Index.Valid, TI.Index.MayFollow, TI.DayVerdict, TI.Verdict;
    index.Heads();
    LastIsInReach(index);
    ghost var txs := index.txs;
    before := index.Count(f);
    r := index.Add(tx, grants);
    if |index.txs| < W32 {
      LastIsInReach(index);
      StillAnswerable(index, f);
      if r == Ok {
        assert index.txs[|txs|] == tx && forall i :: 0 <= i < |txs| ==> index.txs[i] == txs[i];
        NextFound(txs, tx, f, TI.HomeOf(index.txs));
        if txs == [] { NoneFound(tx, f, TI.HomeOf(txs), TI.HomeOf(index.txs)); }
      }
    }
    after := index.Count(f);
    newest := index.Newest(f);
  }

  /**
   In the involved role an index that has taken a transaction finds it newest for its signers, the keys
   of its balance entries and those its layout holds - sender and recipient, user and account, or root,
   GMW and AUF key - and for no other key; the blank key is none.
   */
  method InvolvedIsFound(index: TI.Index, tx: Transaction, key: Key, grants: Grants)
    returns (r: Status, before: nat, after: nat, newest: Option<int>)
    requires index.Valid() && index.MayFollow(tx)
    modifies index
    ensures r == Ok && |index.txs| < W32 ==>
              var involved :=
                && key != 0
                && (|| key in tx.signers || (exists b :: b in tx.balances && b.key == key)
                    || (tx.kind in {1, 2, 5, 7} && (key == tx.part0 || key == tx.part1))
                    || (tx.kind == 4 && (key == tx.part0 || key == tx.part2))
                    || (tx.kind == 6 && (key == tx.part0 || key == tx.part1 || key == tx.part2)));
              after == before + (if involved then 1 else 0) && (newest == Some(tx.txNr) <==> involved)
    ensures r != Ok ==> after == before
  {
    hide Satisfies, TI.Index.Valid, TI.Index.MayFollow, TI.Verdict;
    var f := Filter(key, 0, Involved, 0, 0, 0, 0, 0);
    r, before, after, newest := IndexTells(index, tx, f, grants);
    if index.txs != [] { SatisfiesSays(tx, f, index.txs[0].community); }
  }

  /** The span of numbers confirmed on the days a span of seconds touches; second 0 leaves an end open. */
  method DaysTell(index: TI.Index, from: Seconds, to: Seconds) returns (r: Option<(int, int)>)
    requires index.Valid() && index.DaysTold() && index.pending.None?
    ensures forall i :: 0 <= i < |index.txs| ==>
              var day := index.txs[i].confirmedAt / 86400;
              ((from != 0 ==> from / 86400 <= day) && (to != 0 ==> day <= to / 86400)
               <==> r.Some? && r.value.0 <= index.txs[i].txNr <= r.value.1)
    ensures r.Some? ==>
              && index.txs != []
              && index.txs[0].txNr <= r.value.0 <= r.value.1 <= index.txs[|index.txs| - 1].txNr
  {
    hide TI.Index.Valid, TI.Index.DaysTold, SpansDays, DayBound;
    index.Heads();
    r := index.RangeOfDays(from, to);
    SpansDaysSays(index.txs, r, from, to);
  }

  // ----- the register

  /** The answer of a register to a transaction. */
  lemma RegisterVerdictSays(txs: seq<Transaction>, tx: Transaction)
    ensures var r, passed := AR.Verdict(txs, tx), txs != [] && tx.txNr <= txs[|txs| - 1].txNr;
            && (r == InvalidParam <==> passed)
            && (r == InvalidEnumType <==>
                  !passed && (tx.kind >= 9 || (tx.kind == 4 && tx.addressType > 7 && (tx.part0 != 0 || tx.part2 != 0))))
            && (r == Ok <==> r != InvalidParam && r != InvalidEnumType)
  {
  }

  /**
   What a register that has taken a transaction tells of a key's type at a number and of its newest
   balance change, against what it told before: a registration gives its address type to user and
   account key, a deferred transfer 7 to its recipient, a community root 2 to the GMW and 3 to the AUF
   key; balances move for the keys of the entries. Everything else it tells as before.
   */
  method RegisterTells(register: AR.Register, tx: Transaction, key: Key, at: uint64, grants: Grants)
    returns (r: Status, before: Option<nat>, after: Option<nat>, moved0: Option<nat>, moved1: Option<nat>)
    requires register.Valid() && register.pending.None?
    requires register.transactionCount == 0 && register.txs != [] ==>
               register.txs[|register.txs| - 1].txNr < tx.txNr
    modifies register
    ensures r == OutOfMemory || r == AR.Verdict(old(register.txs), tx)
    ensures r == Ok ==>
              after == if key == 0 || at < tx.txNr then before
                       else if tx.kind == 4 && (key == tx.part0 || key == tx.part2) then Some(tx.addressType)
                       else if tx.kind == 5 && key == tx.part1 then Some(7)
                       else if tx.kind == 6 && key == tx.part2 then Some(3)
                       else if tx.kind == 6 && key == tx.part1 then Some(2)
                       else before
    ensures r == Ok ==>
              moved1 == if key != 0 && exists b :: b in tx.balances && b.key == key
                        then (if tx.txNr == 0 then None else Some(tx.txNr)) else moved0
    ensures r != Ok && r != OutOfMemory ==> after == before && moved1 == moved0
  {
    hide AR.Register.Valid, AR.Verdict, LastGiven, LastBalance;
    ghost var txs := register.txs;
    before := register.TypeAt(key, at);
    moved0 := register.NewestBalance(key);
    r := register.Add(tx, grants);
    after := register.TypeAt(key, at);
    moved1 := register.NewestBalance(key);
    LastGivenNext(txs, tx, key, at);
    LastBalanceNext(txs, tx, key);
  }

  // ----- both

  /** Every transaction the register lists as giving a key a type the segments find for the key in the involved role. */
  method TypedIsFound(c: Chain, key: Key, size: nat) returns (typed: seq<nat>)
    requires c.Valid() && c.pending.None? && Flat(c.Contents()) == c.txs
    ensures forall i :: 0 <= i < |typed| ==>
              typed[i] in Found(c.Contents(), Filter(key, 0, Involved, 0, 0, 0, 0, 0))
  {
    hide Flat, Found, Scan, History, Gapless, RowStands, Waits, AR.Register.Valid;
    var f := Filter(key, 0, Involved, 0, 0, 0, 0, 0);
    OneCommunityIsPlain(c.Contents(), f);
    TypedIsInvolved(c.txs, key, TI.HomeOf(c.txs));
    PendsToo(c);
    typed := c.addresses.TypeChanges(key, size);
  }

  lemma PendsToo(c: Chain)
    requires c.Valid() && c.pending.None?
    ensures c.addresses.Valid() && c.addresses.txs == c.txs && c.addresses.pending.None?
  {
    hide RowStands, AR.Register.Valid;
  }
}
