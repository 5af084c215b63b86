/**
 Q64.64 arithmetic: a pair of 64-bit words read as hi + lo / 2^64. The products are computed three
 ways - with a 128-bit integer, over the words of a 256-bit integer, and from 32-bit halves - and all
 of them drop what lies below 2^-64 and nothing else.
 */
module FixedPoint {
  import opened Words

  datatype R128 = R128(lo: uint64, hi: uint64)

  /** The largest product of two words. */
  const PARTIAL := (W64 - 1) * (W64 - 1)

  const ONE := R128(0, 1)

  /** The value in units of 2^-64. */
  function Units(x: R128): nat {
    x.hi * W64 + x.lo
  }

  function Product(a: nat, b: nat): nat {
    a * b
  }

  /** The product in units of 2^-64, what lies below them dropped. */
  function Times(a: nat, b: nat): nat {
    Product(a, b) / W64
  }

  /** The two words count 2^64 and 1, and the product is cut off at the largest whole unit it reaches. */
  lemma TimesIsFloor(x: R128, y: R128)
    ensures var a, b := x.hi * 0x1_0000_0000_0000_0000 + x.lo, y.hi * 0x1_0000_0000_0000_0000 + y.lo;
            var t := Times(Units(x), Units(y));
            t * 0x1_0000_0000_0000_0000 <= a * b < (t + 1) * 0x1_0000_0000_0000_0000
  {
    var p := Product(Units(x), Units(y));
    assert p == p / W64 * W64 + p % W64;
  }

  function U64(x: nat): uint64 {
    x % W64
  }

  function U128(x: nat): nat {
    x % W128
  }

  lemma ProductUpTo(a: nat, b: nat, c: nat, d: nat)
    requires a <= c && b <= d
    ensures Product(a, b) <= Product(c, d)
  {
    assert a * b <= c * b;
    assert c * b <= c * d;
  }

  lemma WordProduct(a: uint64, b: uint64)
    ensures Product(a, b) <= PARTIAL
  {
    ProductUpTo(a, b, W64 - 1, W64 - 1);
  }

  lemma HalfProduct(a: uint32, b: uint32)
    ensures Product(a, b) <= W64 - 2 * W32 + 1
  {
    ProductUpTo(a, b, W32 - 1, W32 - 1);
  }

  /** The four partial products of two pairs of digits. */
  lemma Partials(base: nat, ah: nat, al: nat, bh: nat, bl: nat)
    ensures Product(ah * base + al, bh * base + bl)
         == Product(ah, bh) * (base * base) + (Product(ah, bl) + Product(al, bh)) * base + Product(al, bl)
  {
    var x, y := ah * base, bh * base;
    assert (x + al) * (y + bl) == x * y + x * bl + al * y + al * bl;
    assert x * y == ah * bh * (base * base);
    assert x * bl == ah * bl * base;
    assert al * y == al * bh * base;
  }

  lemma Partials64(a: R128, b: R128)
    ensures Times(Units(a), Units(b))
         == Product(a.hi, b.hi) * W64 + Product(a.hi, b.lo) + Product(a.lo, b.hi) + Product(a.lo, b.lo) / W64
  {
    hide Product;
    Partials(W64, a.hi, a.lo, b.hi, b.lo);
  }

  /** How the high and low words of a sum of such products come apart. */
  lemma Recombined(p1: nat, p2: nat, p3: nat, low: nat, carry: nat)
    requires low == carry + p1 % W64 + p2 % W64
    ensures (p1 / W64 + p2 / W64 + p3 + low / W64) % W64 * W64 + low % W64
            == (p3 * W64 + p1 + p2 + carry) % W128
  {
    var q := p1 / W64 + p2 / W64 + p3 + low / W64;
    assert q * W64 + low % W64 == p3 * W64 + p1 + p2 + carry;
    assert q == q / W64 * W64 + q % W64;
    assert p3 * W64 + p1 + p2 + carry == q / W64 * W128 + (q % W64 * W64 + low % W64);
  }

  /** No sum of words in these products needs more than 128 bits. */
  lemma SumsFit(p0: nat, p1: nat, p2: nat, p3: nat)
    requires p0 <= PARTIAL && p1 <= PARTIAL && p2 <= PARTIAL && p3 <= PARTIAL
    ensures var low := p0 / W64 + p1 % W64 + p2 % W64;
            low < W128 && p1 / W64 + p2 / W64 + p3 + low / W64 < W128
  {
  }

  lemma NoWrap(x: nat)
    requires x < W128
    ensures U128(x) == x
  {
  }

  /** The product of two Q64.64 numbers, with a 128-bit integer. */
  method MulPrecise(a: R128, b: R128) returns (dst: R128)
    ensures Units(dst) == Times(Units(a), Units(b)) % W128
  {
    hide Product, Times, U128;
    ghost var q0, q1 := Product(a.lo, b.lo), Product(a.hi, b.lo);
    ghost var q2, q3 := Product(a.lo, b.hi), Product(a.hi, b.hi);
    WordProduct(a.lo, b.lo);
    WordProduct(a.hi, b.lo);
    WordProduct(a.lo, b.hi);
    WordProduct(a.hi, b.hi);
    SumsFit(q0, q1, q2, q3);
    var p1 := U128(Product(a.hi, b.lo));
    NoWrap(q1);
    var p2 := U128(Product(a.lo, b.hi));
    NoWrap(q2);
    NoWrap(q0);
    var low := U128(U128(Product(a.lo, b.lo)) / W64 + U64(p1) + U64(p2));
    NoWrap(q0 / W64 + q1 % W64 + q2 % W64);
    NoWrap(q3);
    var high := U128(p1 / W64 + p2 / W64 + U128(Product(a.hi, b.hi)) + low / W64);
    NoWrap(q1 / W64 + q2 / W64 + q3 + low / W64);
    dst := R128(U64(low), U64(high));
    Recombined(q1, q2, q3, low, q0 / W64);
    Partials64(a, b);
  }

  lemma NoProduct(a: nat)
    ensures Product(a, 0) == 0
  {
  }

  /** The same for a factor below 1, with two products less. */
  method MulSpecialized(a: R128, b: R128) returns (dst: R128)
    requires b.hi == 0
    ensures Units(dst) == Times(Units(a), Units(b)) % W128
  {
    hide Product, Times, U128;
    ghost var q0, q1 := Product(a.lo, b.lo), Product(a.hi, b.lo);
    WordProduct(a.lo, b.lo);
    WordProduct(a.hi, b.lo);
    SumsFit(q0, q1, 0, 0);
    var p1 := U128(Product(a.hi, b.lo));
    NoWrap(q1);
    NoWrap(q0);
    var low := U128(U128(Product(a.lo, b.lo)) / W64 + U64(p1));
    NoWrap(q0 / W64 + q1 % W64);
    dst := R128(U64(low), U64(U128(p1 / W64 + low / W64)));
    NoWrap(q1 / W64 + low / W64);
    Recombined(q1, 0, 0, low, q0 / W64);
    NoProduct(a.lo);
    NoProduct(a.hi);
    Partials64(a, b);
  }

  // ----- 64 by 64 bits from 32-bit halves

  lemma Halves(a: uint64, b: uint64)
    ensures var ah, al, bh, bl := a / W32, a % W32, b / W32, b % W32;
            && Product(a, b) == Product(ah, bh) * W64 + (Product(ah, bl) + Product(al, bh)) * W32 + Product(al, bl)
            && Product(al, bl) <= W64 - 2 * W32 + 1 && Product(al, bh) <= W64 - 2 * W32 + 1
            && Product(ah, bl) <= W64 - 2 * W32 + 1 && Product(ah, bh) <= W64 - 2 * W32 + 1
  {
    hide Product;
    var ah, al, bh, bl := a / W32, a % W32, b / W32, b % W32;
    HalfProduct(al, bl);
    HalfProduct(al, bh);
    HalfProduct(ah, bl);
    HalfProduct(ah, bh);
    Partials(W32, ah, al, bh, bl);
  }

  /** Four partial products of halves, put together into two words. */
  lemma HalvesRecombined(ll: nat, lh: nat, hl: nat, hh: nat, t1: uint64, carry: nat)
    requires lh + ll / W32 + hl == carry * W64 + t1 && carry <= 1
    requires hh * W64 + (hl + lh) * W32 + ll < W128
    ensures var rh := hh + carry * W32 + t1 / W32;
            && rh < W64
            && rh * W64 + ll % W32 + t1 % W32 * W32 == hh * W64 + (hl + lh) * W32 + ll
  {
    assert (t1 / W32 * W32 + t1 % W32) * W32 == t1 * W32;
  }

  /** The whole product as two words; one of the two sums of halves may wrap, and is caught doing so. */
  method Mul64(a: uint64, b: uint64) returns (rh: uint64, rl: uint64)
    ensures rh * W64 + rl == Product(a, b)
  {
    hide Product, U64;
    var ah, al, bh, bl := a / W32, a % W32, b / W32, b % W32;
    Halves(a, b);
    WordProduct(a, b);
    var t1, t2 := Product(al, bh), Product(ah, bl);
    rl := Product(al, bl);
    rh := Product(ah, bh);
    ghost var ll, lh, hh := rl, t1, rh;
    Kept(t1 + rl / W32);
    t1 := U64(t1 + rl / W32);
    rl := rl % W32;
    WrapIsSeen(t1, t2);
    t1 := U64(t1 + t2);
    ghost var carry := if t1 < t2 then 1 else 0;
    HalvesRecombined(ll, lh, t2, hh, t1, carry);
    Kept(hh + carry * W32);
    Kept(hh + carry * W32 + t1 / W32);
    Shifted(t1);
    if t1 < t2 { rh := U64(rh + W32); }
    rl := rl + U64(t1 * W32);
    rh := U64(rh + t1 / W32);
  }

  lemma Kept(x: uint64)
    ensures U64(x) == x
  {
  }

  /** A sum that wraps is smaller than what was added, and one that does not is not. */
  lemma WrapIsSeen(x: uint64, y: uint64)
    ensures x + y == U64(x + y) + if U64(x + y) < y then W64 else 0
  {
  }

  lemma Shifted(x: uint64)
    ensures U64(x * W32) == x % W32 * W32
  {
    assert x * W32 == x / W32 * W64 + x % W32 * W32;
  }

  /** The upper word of a product; no sum of halves can wrap here. */
  method MulHigh(a: uint64, b: uint64) returns (r: uint64)
    ensures r == Times(a, b)
    ensures r <= W64 - 2
  {
    hide Product;
    var aLo, aHi, bLo, bHi := a % W32, a / W32, b % W32, b / W32;
    Halves(a, b);
    WordProduct(a, b);
    var loLo: uint64, hiLo: uint64 := Product(aLo, bLo), Product(aHi, bLo);
    var loHi: uint64, hiHi: uint64 := Product(aLo, bHi), Product(aHi, bHi);
    var cross: uint64 := loLo / W32 + hiLo % W32 + loHi;
    r := hiHi + hiLo / W32 + cross / W32;
  }

  /** One factor more in a chain that starts at exactly 1 and stays below it afterwards. */
  method MulQ64(hi: uint64, lo: uint64, b: uint64) returns (hi1: uint64, lo1: uint64)
    requires (hi == 1 && lo == 0) || hi == 0
    ensures hi1 == 0 && lo1 == Times(Units(R128(lo, hi)), b)
  {
    if hi == 1 && lo == 0 { return 0, b; }
    lo1 := MulHigh(lo, b);
    hi1 := 0;
  }

  // ----- the product of the program that prints the powers

  /**
   What a pair of words says with its sign dropped: the program tells negative factors but never gives
   the sign back.
   */
  function Magnitude(x: R128): nat {
    if I63 <= x.hi then W128 - Units(x) else Units(x)
  }

  /** Two's complement of both words. */
  method Negated(x: R128) returns (r: R128)
    requires I63 <= x.hi
    ensures Units(r) == W128 - Units(x)
  {
    if x.lo == 0 {
      r := R128(0, W64 - x.hi);
    } else {
      r := R128(W64 - x.lo, W64 - 1 - x.hi);
    }
  }

  method MulMagnitudes(a: R128, b: R128) returns (dst: R128)
    ensures Units(dst) == Times(Magnitude(a), Magnitude(b)) % W128
  {
    hide Times;
    var ta, tb := a, b;
    if I63 <= ta.hi { ta := Negated(ta); }
    if I63 <= tb.hi { tb := Negated(tb); }
    dst := MulPrecise(ta, tb);
  }

  /** A pair of words as the signed number it stands for. */
  function Signed(x: R128): int {
    if I63 <= x.hi then Units(x) - W128 else Units(x)
  }

  /** The product with its sign, truncated towards zero. */
  function SignedTimes(a: R128, b: R128): int {
    var p: int := Times(Magnitude(a), Magnitude(b));
    if (I63 <= a.hi) == (I63 <= b.hi) then p else -p
  }

  /**
   The product without its sign is the signed one exactly when the signs agree or it is its own negation
   in 128 bits.
   */
  lemma SignIsDropped(a: R128, b: R128)
    ensures var p := Times(Magnitude(a), Magnitude(b));
            p % W128 == SignedTimes(a, b) % W128 <==> (I63 <= a.hi) == (I63 <= b.hi) || 2 * p % W128 == 0
  {
    hide Times, Magnitude;
    OwnNegation(Times(Magnitude(a), Magnitude(b)));
  }

  lemma OwnNegation(p: int)
    requires 0 <= p
    ensures p % W128 == -p % W128 <==> 2 * p % W128 == 0
  {
    var q, r := p / W128, p % W128;
    assert p == q * W128 + r;
    assert -p == if r == 0 then -q * W128 else (-q - 1) * W128 + (W128 - r);
    Remainder(-p, if r == 0 then -q else -q - 1, if r == 0 then 0 else W128 - r);
    Remainder(2 * p, if 2 * r < W128 then 2 * q else 2 * q + 1, if 2 * r < W128 then 2 * r else 2 * r - W128);
  }

  lemma Remainder(x: int, q: int, r: int)
    requires x == q * W128 + r && 0 <= r < W128
    ensures x % W128 == r
  {
  }

  /** Minus one times one comes out as one. */
  method MinusOneTimesOne() returns (dst: R128)
    ensures dst == ONE
    ensures Signed(R128(0, W64 - 1)) == -Signed(ONE) && SignedTimes(R128(0, W64 - 1), ONE) == -Signed(ONE)
  {
    dst := MulMagnitudes(R128(0, W64 - 1), ONE);
  }
}
