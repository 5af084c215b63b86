/** Offsets in ascending order, and the page a listing cuts out of them. */
module Pages {

  /** The offsets in [lo, hi) that satisfy p, ascending. */
  function Ascending(lo: int, hi: int, p: int -> bool): (r: seq<int>)
    decreases hi - lo
  {
    if hi <= lo then []
    else Ascending(lo, hi - 1, p) + if p(hi - 1) then [hi - 1] else []
  }

  lemma {:induction false} AscendingMember(lo: int, hi: int, p: int -> bool, o: int)
    ensures o in Ascending(lo, hi, p) <==> lo <= o < hi && p(o)
    decreases hi - lo
  {
    if lo < hi {
      AscendingMember(lo, hi - 1, p, o);
    }
  }

  lemma {:induction false} AscendingSame(lo: int, hi: int, p: int -> bool, q: int -> bool)
    requires forall o :: lo <= o < hi ==> p(o) == q(o)
    ensures Ascending(lo, hi, p) == Ascending(lo, hi, q)
    decreases hi - lo
  {
    if lo < hi {
      AscendingSame(lo, hi - 1, p, q);
    }
  }

  lemma {:induction false} AscendingSplit(lo: int, mid: int, hi: int, p: int -> bool)
    requires lo <= mid <= hi
    ensures Ascending(lo, hi, p) == Ascending(lo, mid, p) + Ascending(mid, hi, p)
    decreases hi - mid
  {
    if mid < hi {
      AscendingSplit(lo, mid, hi - 1, p);
    }
  }

  /** What a span holds and what it does not add up to its width. */
  lemma {:induction false} AscendingComplement(lo: int, hi: int, p: int -> bool, q: int -> bool)
    requires lo <= hi
    requires forall o :: lo <= o < hi ==> p(o) == !q(o)
    ensures |Ascending(lo, hi, p)| + |Ascending(lo, hi, q)| == hi - lo
    decreases hi - lo
  {
    if lo < hi {
      AscendingComplement(lo, hi - 1, p, q);
    }
  }

  lemma {:induction false} AscendingNone(lo: int, hi: int, p: int -> bool)
    requires forall o :: lo <= o < hi ==> !p(o)
    ensures Ascending(lo, hi, p) == []
    decreases hi - lo
  {
    if lo < hi {
      AscendingNone(lo, hi - 1, p);
    }
  }

  function Reverse<T>(xs: seq<T>): (r: seq<T>)
    ensures |r| == |xs|
    ensures forall i :: 0 <= i < |xs| ==> r[i] == xs[|xs| - 1 - i]
  {
    if xs == [] then [] else [xs[|xs| - 1]] + Reverse(xs[..|xs| - 1])
  }

  lemma ReverseConcat<T>(a: seq<T>, b: seq<T>)
    ensures Reverse(a + b) == Reverse(b) + Reverse(a)
  {
    var l, r := Reverse(a + b), Reverse(b) + Reverse(a);
    assert |l| == |r|;
    assert forall i :: 0 <= i < |l| ==> l[i] == r[i];
  }

  function Min(a: int, b: int): int {
    if a <= b then a else b
  }

  function Monus(a: int, b: int): int {
    if b <= a then a - b else 0
  }

  /** The reversed stretch grows at its end when the stretch grows at its front. */
  lemma AscendingFirst(lo: int, hi: int, p: int -> bool)
    requires lo < hi
    ensures Reverse(Ascending(lo, hi, p)) == Reverse(Ascending(lo + 1, hi, p)) + Ascending(lo, lo + 1, p)
  {
    AscendingSplit(lo, lo + 1, hi, p);
    AscendingOne(lo, p);
    var one := Ascending(lo, lo + 1, p);
    ReverseConcat(one, Ascending(lo + 1, hi, p));
    assert Reverse(one) == one;
  }

  lemma AscendingOne(o: int, p: int -> bool)
    ensures Ascending(o, o + 1, p) == if p(o) then [o] else []
  {
    assert Ascending(o, o, p) == [];
  }

  /** At most size elements after passing over skip. */
  function Slice<T>(xs: seq<T>, skip: nat, size: nat): (r: seq<T>) {
    if |xs| <= skip then [] else xs[skip..Min(skip + size, |xs|)]
  }

  /** A page: the slice, read from the newest end when descending. */
  function Page<T>(xs: seq<T>, skip: nat, size: nat, descending: bool): seq<T> {
    Slice(if descending then Reverse(xs) else xs, skip, size)
  }

  /** A page passes over skip elements from the end it starts at, and holds the next size of them or what is left. */
  lemma PageIs<T>(xs: seq<T>, skip: nat, size: nat, descending: bool)
    ensures var page := Page(xs, skip, size, descending);
            && |page| == (if |xs| <= skip then 0 else if |xs| - skip <= size then |xs| - skip else size)
            && forall i :: 0 <= i < |page| ==> page[i] == if descending then xs[|xs| - 1 - skip - i] else xs[skip + i]
  {
  }

  /** A page runs on from one stretch into the next with what skip and size are left over. */
  lemma SliceConcat<T>(a: seq<T>, b: seq<T>, skip: nat, size: nat)
    ensures |Slice(a, skip, size)| <= size
    ensures Slice(a + b, skip, size)
         == Slice(a, skip, size) + Slice(b, Monus(skip, |a|), size - |Slice(a, skip, size)|)
  {
    var l := Slice(a + b, skip, size);
    var r := Slice(a, skip, size) + Slice(b, Monus(skip, |a|), size - |Slice(a, skip, size)|);
    assert |l| == |r|;
    assert forall i :: 0 <= i < |l| ==> l[i] == r[i];
  }

  /** The offsets as numbers counted from base. */
  function Numbers(xs: seq<int>, base: int): (r: seq<int>)
    ensures |r| == |xs|
    ensures forall i :: 0 <= i < |xs| ==> r[i] == base + xs[i]
  {
    seq(|xs|, i requires 0 <= i < |xs| => base + xs[i])
  }

  lemma NumbersOfPage(xs: seq<int>, base: int, skip: nat, size: nat, descending: bool)
    ensures Numbers(Page(xs, skip, size, descending), base) == Page(Numbers(xs, base), skip, size, descending)
  {
    assert Numbers(Reverse(xs), base) == Reverse(Numbers(xs, base));
  }

  lemma PageFits<T>(xs: seq<T>, skip: nat, size: nat, descending: bool)
    ensures |Page(xs, skip, size, descending)| <= size
    ensures xs == [] ==> Page(xs, skip, size, descending) == []
  {
  }

  lemma SliceNothing<T>(skip: nat, size: nat)
    ensures Slice<T>([], skip, size) == [] && Monus(skip, 0) == skip
  {
  }

  lemma MonusAdds(skip: nat, a: nat, b: nat)
    ensures Monus(skip, a + b) == if Monus(skip, a) <= b then 0 else Monus(skip, a) - b
  {
  }
}
