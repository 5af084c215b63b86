/** What a query over offsets answers, against the naive scan, and the walk that answers it from a bare span. */
module Queries {
  import opened Words
  import opened Ledger
  import opened Arnm
  import opened Pages

  /** Numbered without a gap from the first on, each of a type the index has a set for. */
  ghost predicate Numbered(all: seq<Transaction>, first: int) {
    forall i :: 0 <= i < |all| ==> all[i].txNr == first + i && all[i].kind < KIND_COUNT
  }

  // ----- a query's matches are the naive scan

  ghost predicate Describes(q: Query, txs: seq<Transaction>, start: nat, f: Filter, home: Uuid) {
    && start <= q.min <= q.max < start + |txs|
    && forall i :: 0 <= i < |txs| ==> (Satisfies(txs[i], f, home) <==> q.min <= start + i <= q.max && q.Hits(start + i))
  }

  lemma {:induction false} ScanPrefix(q: Query, txs: seq<Transaction>, base: int, start: nat, f: Filter, home: Uuid,
                                      k: nat)
    requires Describes(q, txs, start, f, home) && Numbered(txs, base + start) && k <= |txs|
    ensures var hi := Min(start + k, q.max + 1);
            Scan(txs[..k], f, home) == Numbers(Ascending(q.min, hi, q.Test()), base)
  {
    hide Satisfies, Query.Hits;
    if k > 0 {
      ScanPrefix(q, txs, base, start, f, home, k - 1);
      assert txs[..k][..k - 1] == txs[..k - 1];
      assert txs[..k][k - 1] == txs[k - 1];
      assert txs[k - 1].txNr == base + start + (k - 1);
    }
  }

  lemma MatchesAreScan(q: Query, txs: seq<Transaction>, base: int, start: nat, f: Filter, home: Uuid)
    requires Describes(q, txs, start, f, home) && Numbered(txs, base + start)
    ensures Numbers(q.Matches(), base) == Scan(txs, f, home)
  {
    ScanPrefix(q, txs, base, start, f, home, |txs|);
    assert txs[..|txs|] == txs;
  }

  lemma {:induction false} ScanEmpty(txs: seq<Transaction>, f: Filter, home: Uuid)
    requires forall i :: 0 <= i < |txs| ==> !Satisfies(txs[i], f, home)
    ensures Scan(txs, f, home) == []
  {
    if txs != [] {
      ScanEmpty(txs[..|txs| - 1], f, home);
    }
  }

  // ----- queries without sets to intersect

  /** Counts the matches of such a query without listing them: all offsets of its range less the excluded ones. */
  method SpanCardinality(q: Query) returns (r: nat)
    requires q.NamesNoSet() && q.min <= q.max
    ensures r == |q.Matches()|
  {
    r := q.max - q.min + 1;
    if q.none != [] {
      var excluded := Query([], q.none, [], q.min, q.max);
      var taken := |excluded.Matches()|;
      ExcludedIsRest(q, excluded);
      r := if taken < r then r - taken else 0;
    } else {
      AscendingComplement(q.min, q.max + 1, q.Test(), o => false);
      AscendingNone(q.min, q.max + 1, o => false);
    }
  }

  lemma ExcludedIsRest(q: Query, excluded: Query)
    requires q.NamesNoSet() && q.min <= q.max && q.none != []
    requires excluded == Query([], q.none, [], q.min, q.max)
    ensures |q.Matches()| + |excluded.Matches()| == q.max - q.min + 1
  {
    AscendingComplement(q.min, q.max + 1, q.Test(), excluded.Test());
  }

  /** What a walk of so many steps from the page's end has met. */
  ghost function Visited(q: Query, steps: nat, descending: bool): seq<int>
    requires steps <= q.max + 1 - q.min
  {
    if descending then Reverse(Ascending(q.max + 1 - steps, q.max + 1, q.Test()))
    else Ascending(q.min, q.min + steps, q.Test())
  }

  lemma VisitedNone(q: Query, descending: bool)
    requires q.min <= q.max
    ensures Visited(q, 0, descending) == []
  {
  }

  lemma VisitedStep(q: Query, steps: nat, descending: bool)
    requires q.NamesNoSet() && steps < q.max + 1 - q.min
    ensures var o := if descending then q.max - steps else q.min + steps;
            Visited(q, steps + 1, descending) == Visited(q, steps, descending) + if q.Excludes(o) then [] else [o]
  {
    hide Query.Excludes;
    var o := if descending then q.max - steps else q.min + steps;
    assert q.Hits(o) == !q.Excludes(o);
    if descending {
      AscendingOne(o, q.Test());
      AscendingFirst(o, q.max + 1, q.Test());
    }
  }

  /** A page that is full, or that has seen everything, is the page of the whole. */
  lemma SliceOfPrefix<T>(xs: seq<T>, whole: seq<T>, skip: nat, size: nat)
    requires xs <= whole && (xs == whole || |Slice(xs, skip, size)| == size)
    ensures Slice(xs, skip, size) == Slice(whole, skip, size)
  {
    assert whole == xs + whole[|xs|..];
    SliceConcat(xs, whole[|xs|..], skip, size);
  }

  lemma VisitedAll(q: Query, steps: nat, descending: bool)
    requires steps <= q.max + 1 - q.min
    ensures var width := q.max + 1 - q.min;
            && Visited(q, steps, descending) <= Visited(q, width, descending)
            && Visited(q, width, descending) == if descending then Reverse(q.Matches()) else q.Matches()
  {
    hide Query.Hits;
    if descending {
      var o := q.max + 1 - steps;
      AscendingSplit(q.min, o, q.max + 1, q.Test());
      ReverseConcat(Ascending(q.min, o, q.Test()), Ascending(o, q.max + 1, q.Test()));
    } else {
      AscendingSplit(q.min, q.min + steps, q.max + 1, q.Test());
    }
  }

  /** Lists a page of the matches of such a query by walking its range from either end. */
  method SpanPage(q: Query, skip: nat, size: nat, descending: bool) returns (out: seq<int>)
    requires q.NamesNoSet() && q.min <= q.max
    ensures out == Page(q.Matches(), skip, size, descending)
  {
    hide Visited, Query.Excludes, Query.Hits, Query.NamesNoSet;
    out := [];
    var width, step, left := q.max - q.min + 1, 0, skip;
    ghost var visited: seq<int> := Visited(q, 0, descending);
    VisitedNone(q, descending);
    while step < width && |out| < size
      invariant 0 <= step <= width && visited == Visited(q, step, descending)
      invariant out == Slice(visited, skip, size) && left == Monus(skip, |visited|)
    {
      var o := if descending then q.max - step else q.min + step;
      VisitedStep(q, step, descending);
      step := step + 1;
      if q.Excludes(o) {
        assert visited + [] == visited;
        continue;
      }
      SliceConcat(visited, [o], skip, size);
      visited := visited + [o];
      if left != 0 {
        left := left - 1;
      } else {
        out := out + [o];
      }
    }
    VisitedAll(q, step, descending);
    SliceOfPrefix(visited, Visited(q, width, descending), skip, size);
  }
}
