/** The other build of the product: 64-bit words only, through a 256 by 256 bit multiplication row by row. */
module WideProduct {
  import opened Words
  import opened FixedPoint

  const W192 := W64 * W128
  const W256 := W128 * W128

  /** Four words, the lowest first. */
  datatype Words4 = Words4(d0: uint64, d1: uint64, d2: uint64, d3: uint64)

  function Value(x: Words4): nat {
    x.d0 + x.d1 * W64 + x.d2 * W128 + x.d3 * W192
  }

  /** A product of words added to two words: the result never needs a third. */
  method MulAdd(x: uint64, c: uint64, a: uint64, b: uint64) returns (hi: uint64, lo: uint64)
    ensures hi * W64 + lo == x + c + Product(a, b)
  {
    hide Product, U64;
    WordProduct(a, b);
    var h, l := Mul64(a, b);
    WrapIsSeen(x, c);
    var y := U64(x + c);
    hi := h + if y < c then 1 else 0;
    WrapIsSeen(y, l);
    lo := U64(y + l);
    hi := hi + if lo < l then 1 else 0;
  }

  lemma TimesWord(a: Words4, b: uint64)
    ensures Product(Value(a), b)
         == Product(a.d0, b) + Product(a.d1, b) * W64 + Product(a.d2, b) * W128 + Product(a.d3, b) * W192
  {
    assert a.d1 * W64 * b == a.d1 * b * W64;
    assert a.d2 * W128 * b == a.d2 * b * W128;
    assert a.d3 * W192 * b == a.d3 * b * W192;
  }

  /** One row: the product by one word added on, its lowest word done. */
  method Row(x: Words4, a: Words4, b: uint64) returns (out: uint64, r: Words4)
    ensures out + Value(r) * W64 == Value(x) + Product(Value(a), b)
  {
    hide Product;
    var hi, lo := MulAdd(x.d0, 0, a.d0, b);
    out := lo;
    var r0, r1, r2, r3;
    hi, r0 := MulAdd(x.d1, hi, a.d1, b);
    hi, r1 := MulAdd(x.d2, hi, a.d2, b);
    r3, r2 := MulAdd(x.d3, hi, a.d3, b);
    r := Words4(r0, r1, r2, r3);
    TimesWord(a, b);
  }

  /** A factor below 2^256 taken word by word. */
  lemma TimesWords(a: nat, b: Words4)
    ensures Product(a, Value(b))
         == Product(a, b.d0) + Product(a, b.d1) * W64 + Product(a, b.d2) * W128 + Product(a, b.d3) * W192
  {
    assert a * (b.d1 * W64) == a * b.d1 * W64;
    assert a * (b.d2 * W128) == a * b.d2 * W128;
    assert a * (b.d3 * W192) == a * b.d3 * W192;
  }

  /** The whole product of two 256-bit numbers, as its lower and upper half. */
  method Mul256(a: Words4, b: Words4) returns (rhi: Words4, rlo: Words4)
    ensures Value(rlo) + Value(rhi) * W256 == Product(Value(a), Value(b))
  {
    hide Product;
    var r := Words4(0, 0, 0, 0);
    var d0, d1, d2, d3;
    d0, r := Row(r, a, b.d0);
    d1, r := Row(r, a, b.d1);
    d2, r := Row(r, a, b.d2);
    d3, r := Row(r, a, b.d3);
    rlo := Words4(d0, d1, d2, d3);
    rhi := r;
    TimesWords(Value(a), b);
  }

  /** Bits 64 to 191 of a product are its second and third word. */
  lemma MiddleWords(lo: Words4, hi: Words4, p: nat)
    requires Value(lo) + Value(hi) * W256 == p
    ensures p / W64 % W128 == lo.d1 + lo.d2 * W64
  {
    var q := lo.d3 + Value(hi) * W64;
    assert p == lo.d0 + (lo.d1 + lo.d2 * W64 + q * W128) * W64;
    assert p / W64 == lo.d1 + lo.d2 * W64 + q * W128;
  }

  /** The Q64.64 product as the build without a 128-bit integer computes it: the same for all factors. */
  method MulPrecise(a: R128, b: R128) returns (dst: R128)
    ensures Units(dst) == Times(Units(a), Units(b)) % W128
  {
    hide Product;
    var rhi, rlo := Mul256(Words4(a.lo, a.hi, 0, 0), Words4(b.lo, b.hi, 0, 0));
    dst := R128(rlo.d1, rlo.d2);
    MiddleWords(rlo, rhi, Product(Units(a), Units(b)));
  }
}
