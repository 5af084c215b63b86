/** How a gapless run of numbers is cut into windows of a segment's size. */
module Windows {
  import opened Words
  import opened Ledger

  /** The first number of the k-th window, counted from zero. */
  function Base(size: nat, k: int): int {
    k * size
  }

  /** Which window a number falls in. */
  function SegmentOf(size: nat, nr: nat): nat
    requires 0 < size
  {
    nr / size
  }

  lemma BaseNext(size: nat, k: int)
    ensures Base(size, k + 1) == Base(size, k) + size
  {
  }

  lemma BaseOrder(size: nat, j: int, k: int)
    requires j < k
    ensures Base(size, j + 1) <= Base(size, k)
  {
    assert (k - j - 1) * size >= 0;
  }

  /** A number lies in the window its quotient names, and in no other. */
  lemma InWindow(size: nat, nr: nat, k: int)
    requires 0 < size
    ensures Base(size, k) <= nr < Base(size, k + 1) <==> k == SegmentOf(size, nr)
  {
    var q := SegmentOf(size, nr);
    assert Base(size, q) <= nr < Base(size, q + 1);
    if k < q { BaseOrder(size, k, q); }
    if q < k { BaseOrder(size, q, k); }
  }

  /** How many of a gapless run lie below a number. */
  function Cut(all: seq<Transaction>, nr: int): (r: nat)
    ensures r <= |all|
  {
    if all == [] || nr <= all[0].txNr then 0
    else if |all| <= nr - all[0].txNr then |all|
    else nr - all[0].txNr
  }

  function Window(all: seq<Transaction>, size: nat, k: int): seq<Transaction> {
    BaseNext(size, k);
    all[Cut(all, Base(size, k))..Cut(all, Base(size, k + 1))]
  }

  /** A window takes the next transaction exactly when its number lies in it. */
  lemma WindowTakes(all: seq<Transaction>, tx: Transaction, size: nat, k: int)
    requires Gapless(all + [tx])
    ensures Window(all + [tx], size, k)
         == if Base(size, k) <= tx.txNr < Base(size, k + 1) then Window(all, size, k) + [tx] else Window(all, size, k)
  {
    hide Base;
    BaseNext(size, k);
    var lo, hi := Base(size, k), Base(size, k + 1);
    CutTakes(all, tx, lo);
    CutTakes(all, tx, hi);
    var c, d, n := Cut(all, lo), Cut(all, hi), |all|;
    var more := all + [tx];
    if lo <= tx.txNr < hi {
      assert more[c..n + 1] == all[c..n] + [tx];
    } else if hi <= tx.txNr {
      assert more[c..d] == all[c..d];
    } else {
      assert more[n + 1..n + 1] == all[n..n];
    }
  }

  /** One more number lies below a bound when the next transaction does; until then all of them do. */
  lemma CutTakes(all: seq<Transaction>, tx: Transaction, nr: int)
    requires Gapless(all + [tx])
    ensures Cut(all + [tx], nr) == Cut(all, nr) + if tx.txNr < nr then 1 else 0
    ensures tx.txNr <= nr ==> Cut(all, nr) == |all|
  {
    var more := all + [tx];
    assert more[|all|].txNr == more[0].txNr + |all|;
  }

  /** Windows one behind the other make up the run. */
  lemma WindowJoins(all: seq<Transaction>, size: nat, k: int)
    ensures Cut(all, Base(size, k)) <= Cut(all, Base(size, k + 1))
    ensures all[..Cut(all, Base(size, k + 1))] == all[..Cut(all, Base(size, k))] + Window(all, size, k)
    ensures all[Cut(all, Base(size, k))..] == Window(all, size, k) + all[Cut(all, Base(size, k + 1))..]
  {
    BaseNext(size, k);
  }

  /** Everything in a window is numbered in it. */
  lemma WindowNumbers(all: seq<Transaction>, size: nat, k: int, i: nat)
    requires Gapless(all) && i < |Window(all, size, k)|
    ensures Base(size, k) <= Window(all, size, k)[i].txNr < Base(size, k + 1)
    ensures Window(all, size, k)[i] == all[Cut(all, Base(size, k)) + i]
  {
    hide Base;
    BaseNext(size, k);
  }

  /** A window is filled to its end: its last number is the one before the next window. */
  ghost predicate Filled(all: seq<Transaction>, size: nat, k: int) {
    var w := Window(all, size, k);
    w != [] && w[|w| - 1].txNr == Base(size, k + 1) - 1
  }

  /** A window is filled to its end exactly when the run begins below that end and reaches it. */
  lemma FilledWhen(all: seq<Transaction>, size: nat, k: int)
    requires 0 < size && Gapless(all)
    ensures Filled(all, size, k) <==>
              all != [] && all[0].txNr < Base(size, k + 1) <= all[|all| - 1].txNr + 1
  {
    hide Base;
    BaseNext(size, k);
    WindowSlices(all, size, k);
  }

  /** A window holds something exactly when the run begins below its end and reaches its beginning. */
  lemma HoldsWhen(all: seq<Transaction>, size: nat, k: int)
    requires 0 < size && Gapless(all)
    ensures Window(all, size, k) != [] <==>
              all != [] && all[0].txNr < Base(size, k + 1) && Base(size, k) <= all[|all| - 1].txNr
  {
    hide Base;
    BaseNext(size, k);
    WindowSlices(all, size, k);
  }

  lemma BaseIs(size: nat, k: int)
    ensures Base(size, k) == k * size
  {
  }

  /** Behind the run a window is empty. */
  lemma WindowBehind(all: seq<Transaction>, size: nat, k: int)
    requires Gapless(all) && (all != [] ==> all[|all| - 1].txNr < Base(size, k))
    ensures Window(all, size, k) == []
  {
    hide Base;
    BaseNext(size, k);
  }

  lemma NextIsGapless(all: seq<Transaction>, tx: Transaction)
    requires Gapless(all) && (all != [] ==> tx.txNr == all[|all| - 1].txNr + 1)
    ensures Gapless(all + [tx])
  {
  }

  lemma WindowSlices(all: seq<Transaction>, size: nat, k: int)
    ensures var c := Cut(all, Base(size, k));
            c + |Window(all, size, k)| <= |all| && Window(all, size, k) == all[c..c + |Window(all, size, k)|]
  {
    BaseNext(size, k);
  }
}
