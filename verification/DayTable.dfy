/**
 A slot for each day from the first one on: one more than the last offset of that day, or zero. Spans
 of days are read off it as spans of offsets.
 */
module DayTable {
  import opened Words
  import opened Ledger

  /**
   The table of the confirmation days of offsets start, start + 1, ...: the first n of them are
   all noted, later ones may be.
   */
  ghost predicate Describes(table: seq<uint32>, firstDay: int, start: nat, days: seq<int>, n: nat) {
    && n <= |days|
    && (forall i :: 0 <= i < n ==> IsNoted(table, firstDay, start, days, i))
    && (forall d :: 0 <= d < |table| ==> Accounted(table, firstDay, start, days, d))
  }

  /** The day of offset start + i reaches past it; an offset whose successor leaves 32 bits is never noted. */
  ghost predicate IsNoted(table: seq<uint32>, firstDay: int, start: nat, days: seq<int>, i: nat)
    requires i < |days|
  {
    var d := days[i] - firstDay;
    0 <= d < |table| && (start + i + 1 < W32 ==> start + i + 1 <= table[d])
  }

  /** A slot in use holds an offset of its own day. */
  ghost predicate Accounted(table: seq<uint32>, firstDay: int, start: nat, days: seq<int>, d: nat)
    requires d < |table|
  {
    table[d] != 0 ==> start < table[d] <= start + |days| && days[table[d] - 1 - start] == firstDay + d
  }

  ghost predicate Ascend(days: seq<int>) {
    forall i, j :: 0 <= i < j < |days| ==> days[i] <= days[j]
  }

  /** The last day in [lo, hi) that holds anything, or lo - 1. */
  function LastMarked(table: seq<uint32>, lo: int, hi: int): (r: int)
    requires 0 <= lo <= hi <= |table|
    ensures lo - 1 <= r < hi
    ensures lo <= r ==> table[r] != 0
    ensures forall d :: r < d < hi ==> table[d] == 0
    decreases hi - lo
  {
    if lo == hi then lo - 1
    else if table[hi - 1] != 0 then hi - 1
    else LastMarked(table, lo, hi - 1)
  }

  function LastDay(table: seq<uint32>, firstDay: int, to: Option<int>): int {
    var last := if to.Some? then to.value - firstDay else |table| - 1;
    if |table| - 1 < last then |table| - 1 else last
  }

  function FirstDay(firstDay: int, from: Option<int>): nat {
    var first := if from.Some? then from.value - firstDay else 0;
    if first < 0 then 0 else first
  }

  /** The first and last offset the table gives for a span of days; an absent bound leaves its end open. */
  function Span(table: seq<uint32>, firstDay: int, start: nat, from: Option<int>, to: Option<int>)
    : (r: Option<(int, int)>)
  {
    var last := LastDay(table, firstDay, to);
    var first := FirstDay(firstDay, from);
    if last < first then None
    else
      var cursor := LastMarked(table, first, last + 1);
      if cursor < first then None
      else
        var before := LastMarked(table, 0, first);
        var lo := if before < 0 then start else table[before];
        var hi := table[cursor] - 1;
        if hi < lo then None else Some((lo, hi))
  }

  predicate Within(r: Option<(int, int)>, o: int) {
    r.Some? && r.value.0 <= o <= r.value.1
  }

  /** The span holds exactly the transactions confirmed on the days it touches. */
  ghost predicate Exact(table: seq<uint32>, firstDay: int, start: nat, days: seq<int>, n: nat,
                        from: Option<int>, to: Option<int>)
    requires n <= |days|
  {
    var r := Span(table, firstDay, start, from, to);
    forall i :: 0 <= i < n ==> (DayInSpan(days[i], from, to) <==> Within(r, start + i))
  }

  lemma SpanExact(table: seq<uint32>, firstDay: int, start: nat, days: seq<int>, n: nat,
                  from: Option<int>, to: Option<int>)
    requires Describes(table, firstDay, start, days, n) && Ascend(days) && start + |days| < W32
    ensures Exact(table, firstDay, start, days, n, from, to)
  {
    var r := Span(table, firstDay, start, from, to);
    var first, last := FirstDay(firstDay, from), LastDay(table, firstDay, to);
    forall i | 0 <= i < n
      ensures DayInSpan(days[i], from, to) <==> Within(r, start + i)
    {
      assert IsNoted(table, firstDay, start, days, i);
      assert DayInSpan(days[i], from, to) <==> first <= days[i] - firstDay <= last;
      if first <= last {
        SpanExactAt(table, firstDay, start, days, first, last, i);
      }
    }
  }

  /** The two ends of a span, seen from one offset. */
  lemma SpanExactAt(table: seq<uint32>, firstDay: int, start: nat, days: seq<int>, first: nat, last: nat, i: nat)
    requires forall d :: 0 <= d < |table| ==> Accounted(table, firstDay, start, days, d)
    requires Ascend(days) && start + |days| < W32
    requires i < |days| && IsNoted(table, firstDay, start, days, i) && first <= last < |table|
    ensures var cursor, before := LastMarked(table, first, last + 1), LastMarked(table, 0, first);
            var lo := if before < 0 then start else table[before];
            && (cursor < first ==> !(first <= days[i] - firstDay <= last))
            && (first <= cursor ==> lo <= table[cursor] - 1
                                    && (first <= days[i] - firstDay <= last <==> lo <= start + i <= table[cursor] - 1))
  {
    var cursor, before := LastMarked(table, first, last + 1), LastMarked(table, 0, first);
    var d := days[i] - firstDay;
    if 0 <= before {
      assert Accounted(table, firstDay, start, days, before);
      assert (d < first) == (start + i < table[before]) by {
        var j := table[before] - 1 - start;
        assert d < first ==> d <= before;
        assert d < before ==> i < j;
        assert first <= d ==> j < i;
      }
    }
    if first <= cursor {
      assert Accounted(table, firstDay, start, days, cursor);
      var k := table[cursor] - 1 - start;
      assert d < cursor ==> i < k;
      assert last < d ==> k < i;
    }
  }

  /** Nothing half added: the span is made of offsets the index holds, and it is empty only when no day matches. */
  lemma SpanTight(table: seq<uint32>, firstDay: int, start: nat, days: seq<int>,
                  from: Option<int>, to: Option<int>)
    requires Describes(table, firstDay, start, days, |days|) && Ascend(days) && start + |days| < W32
    ensures var r := Span(table, firstDay, start, from, to);
            && (r.Some? ==> start <= r.value.0 <= r.value.1 < start + |days|)
            && (r.None? <==> forall i :: 0 <= i < |days| ==> !DayInSpan(days[i], from, to))
  {
    SpanExact(table, firstDay, start, days, |days|, from, to);
    var r := Span(table, firstDay, start, from, to);
    if r.Some? {
      var i := r.value.1 - start;
      var first, last := FirstDay(firstDay, from), LastDay(table, firstDay, to);
      var cursor, before := LastMarked(table, first, last + 1), LastMarked(table, 0, first);
      assert Accounted(table, firstDay, start, days, cursor);
      assert 0 <= before ==> Accounted(table, firstDay, start, days, before);
      assert 0 <= i < |days|;
      assert Within(r, start + i);
    }
  }

  /** The last offset is noted in the table, or nothing in it speaks of the offset. */
  lemma NotedOrNot(table: seq<uint32>, firstDay: int, start: nat, days: seq<int>)
    requires days != [] && Describes(table, firstDay, start, days, |days| - 1) && start + |days| < W32
    ensures Describes(table, firstDay, start, days, |days|)
         || Describes(table, firstDay, start, days[..|days| - 1], |days| - 1)
  {
    var n := |days| - 1;
    var d := days[n] - firstDay;
    if 0 <= d < |table| && table[d] == start + n + 1 {
      assert IsNoted(table, firstDay, start, days, n);
    } else {
      forall e | 0 <= e < |table| ensures Accounted(table, firstDay, start, days[..n], e) {
        assert Accounted(table, firstDay, start, days, e);
      }
      forall i | 0 <= i < n ensures IsNoted(table, firstDay, start, days[..n], i) {
        assert IsNoted(table, firstDay, start, days, i);
      }
    }
  }

  lemma {:induction false} AdjacentDescent(days: seq<int>) returns (a: nat)
    requires !Ascend(days)
    ensures a + 1 < |days| && days[a] > days[a + 1]
  {
    var i, j :| 0 <= i < j < |days| && days[i] > days[j];
    a := i;
    while days[a] <= days[a + 1]
      invariant i <= a < j && days[a] > days[j]
      decreases j - a
    {
      a := a + 1;
    }
  }

  /**
   When the table answers every span exactly: if and only if the days never step back and no
   offset is the last that 32 bits can hold.
   */
  lemma ExactForEverySpan(table: seq<uint32>, firstDay: int, start: nat, days: seq<int>)
    requires Describes(table, firstDay, start, days, |days|) && start + |days| <= W32 && days != []
    ensures (forall from: Option<int>, to: Option<int> ::
               Exact(table, firstDay, start, days, |days|, from, to))
            <==> Ascend(days) && start + |days| < W32
  {
    if Ascend(days) && start + |days| < W32 {
      forall from: Option<int>, to: Option<int>
        ensures Exact(table, firstDay, start, days, |days|, from, to)
      {
        SpanExact(table, firstDay, start, days, |days|, from, to);
      }
    } else if start + |days| == W32 {
      LastOffsetIsLost(table, firstDay, start, days);
    } else {
      var a := AdjacentDescent(days);
      StepBackIsSeen(table, firstDay, start, days, a);
    }
  }

  lemma LastOffsetIsLost(table: seq<uint32>, firstDay: int, start: nat, days: seq<int>)
    requires Describes(table, firstDay, start, days, |days|) && start + |days| == W32 && days != []
    ensures !Exact(table, firstDay, start, days, |days|, None, None)
  {
    var r := Span(table, firstDay, start, None, None);
    assert !Within(r, start + (|days| - 1));
    assert DayInSpan(days[|days| - 1], None, None);
  }

  lemma StepBackIsSeen(table: seq<uint32>, firstDay: int, start: nat, days: seq<int>, a: nat)
    requires Describes(table, firstDay, start, days, |days|) && start + |days| < W32
    requires a + 1 < |days| && days[a] > days[a + 1]
    ensures !Exact(table, firstDay, start, days, |days|, Some(days[a + 1]), Some(days[a + 1]))
  {
    var day := days[a + 1];
    var x := day - firstDay;
    var r := Span(table, firstDay, start, Some(day), Some(day));
    assert IsNoted(table, firstDay, start, days, a + 1);
    assert LastMarked(table, x, x + 1) == x;
    var before := LastMarked(table, 0, x);
    if 0 <= before {
      assert Accounted(table, firstDay, start, days, before);
      assert table[before] != start + a + 1;
    }
    assert DayInSpan(days[a + 1], Some(day), Some(day)) && !DayInSpan(days[a], Some(day), Some(day));
    assert Within(r, start + (a + 1)) ==> Within(r, start + a);
  }

  /** Empty days at the end change nothing. */
  lemma GrowKeeps(table: seq<uint32>, firstDay: int, start: nat, days: seq<int>, n: nat)
    requires Describes(table, firstDay, start, days, n)
    ensures Describes(table + [0], firstDay, start, days, n)
  {
    var grown := table + [0];
    forall i | 0 <= i < n
      ensures IsNoted(grown, firstDay, start, days, i)
    {
      assert IsNoted(table, firstDay, start, days, i);
    }
    forall d | 0 <= d < |grown|
      ensures Accounted(grown, firstDay, start, days, d)
    {
      assert d < |table| ==> Accounted(table, firstDay, start, days, d);
    }
  }

  /** A day still to be noted changes nothing. */
  lemma ExpectKeeps(table: seq<uint32>, firstDay: int, start: nat, days: seq<int>, day: int, n: nat)
    requires Describes(table, firstDay, start, days, n)
    ensures Describes(table, firstDay, start, days + [day], n)
  {
    forall i | 0 <= i < n
      ensures IsNoted(table, firstDay, start, days + [day], i)
    {
      assert IsNoted(table, firstDay, start, days, i);
    }
    forall d | 0 <= d < |table|
      ensures Accounted(table, firstDay, start, days + [day], d)
    {
      assert Accounted(table, firstDay, start, days, d);
    }
  }

  /** A table nothing is noted in describes any beginning. */
  lemma BlankDescribes(table: seq<uint32>, firstDay: int, start: nat, newFirst: int, newStart: nat)
    requires Describes(table, firstDay, start, [], 0)
    ensures Describes(table, newFirst, newStart, [], 0)
  {
    forall d | 0 <= d < |table|
      ensures Accounted(table, newFirst, newStart, [], d)
    {
      assert Accounted(table, firstDay, start, [], d);
    }
  }

  /** The slot's value once an offset of its day is noted in it. */
  function Noted(slot: uint32, o: uint32): uint32 {
    var next := (o + 1) % W32;
    if slot < next then next else slot
  }

  /** Noting the next offset, again or for the first time. */
  lemma NoteKeeps(table: seq<uint32>, firstDay: int, start: nat, days: seq<int>, day: int, d: nat)
    requires Describes(table, firstDay, start, days + [day], |days|)
    requires start + |days| < W32 && d < |table| && day == firstDay + d
    ensures Describes(table[d := Noted(table[d], start + |days|)], firstDay, start, days + [day], |days| + 1)
  {
    var noted := table[d := Noted(table[d], start + |days|)];
    var all := days + [day];
    forall i | 0 <= i < |all|
      ensures IsNoted(noted, firstDay, start, all, i)
    {
      if i < |days| {
        assert IsNoted(table, firstDay, start, all, i);
      }
    }
    forall e | 0 <= e < |noted|
      ensures Accounted(noted, firstDay, start, all, e)
    {
      assert Accounted(table, firstDay, start, all, e);
    }
  }

  /** The table with a day noted in it, reaching that day. */
  function WithDay(table: seq<uint32>, d: nat, o: uint32): (r: seq<uint32>)
    ensures d < |r| && |table| <= |r|
    ensures forall e :: 0 <= e < |r| ==>
              var slot := if e < |table| then table[e] else 0;
              r[e] == if e == d then Noted(slot, o) else slot
  {
    var grown := table + seq(if |table| <= d then d + 1 - |table| else 0, _ => 0);
    grown[d := Noted(grown[d], o)]
  }

  /** No slot speaks of the offset. */
  ghost predicate Unnoted(table: seq<uint32>, o: nat) {
    forall d :: 0 <= d < |table| ==> table[d] != o + 1
  }

  /** An offset whose day a refused add may have noted can be given another day when it is the same or was not noted. */
  lemma OtherDayExpected(table: seq<uint32>, firstDay: int, start: nat, days: seq<int>, refused: int, day: int)
    requires Describes(table, firstDay, start, days + [refused], |days|)
    ensures Describes(table, firstDay, start, days + [day], |days|)
            <==> day == refused || Unnoted(table, start + |days|)
  {
    var was, now, o := days + [refused], days + [day], start + |days|;
    forall i | 0 <= i < |days| ensures IsNoted(table, firstDay, start, now, i) {
      assert IsNoted(table, firstDay, start, was, i);
    }
    forall d | 0 <= d < |table|
      ensures Accounted(table, firstDay, start, now, d) <==> table[d] != o + 1 || day == refused
    {
      assert Accounted(table, firstDay, start, was, d);
    }
  }

  /** And exactly then the table describes it once its day is noted. */
  lemma OtherDayNoted(table: seq<uint32>, firstDay: int, start: nat, days: seq<int>, refused: int, day: int)
    requires Describes(table, firstDay, start, days + [refused], |days|) && start + |days| < W32 && firstDay <= day
    ensures Describes(WithDay(table, day - firstDay, start + |days|), firstDay, start, days + [day], |days| + 1)
            <==> day == refused || Unnoted(table, start + |days|)
  {
    var now, o, d := days + [day], start + |days|, day - firstDay;
    var noted := WithDay(table, d, o);
    OtherDayExpected(table, firstDay, start, days, refused, day);
    if Describes(table, firstDay, start, now, |days|) {
      forall i | 0 <= i < |now| ensures IsNoted(noted, firstDay, start, now, i) {
        if i < |days| { assert IsNoted(table, firstDay, start, now, i); }
      }
      forall e | 0 <= e < |noted| ensures Accounted(noted, firstDay, start, now, e) {
        if e < |table| { assert Accounted(table, firstDay, start, now, e); }
      }
    } else {
      var e :| 0 <= e < |table| && table[e] == o + 1;
      assert Accounted(table, firstDay, start, days + [refused], e);
      assert !Accounted(noted, firstDay, start, now, e);
    }
  }

  lemma DescribesFewer(table: seq<uint32>, firstDay: int, start: nat, days: seq<int>, n: nat)
    requires Describes(table, firstDay, start, days, n) || Describes(table, firstDay, start, days, n + 1)
    ensures Describes(table, firstDay, start, days, n)
  {
  }
}
