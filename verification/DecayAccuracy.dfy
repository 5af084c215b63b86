/**
 The decayed amounts: how far the two programs differ, how near they are to the exact decay, and what
 splitting a duration does.
 */
module DecayAccuracy {
  import opened Words
  import opened FixedPoint
  import opened DecayTables
  import opened Decay
  import opened DecayError

  // ----- one program against the other

  lemma SharesApart(amount: nat, f: nat, g: nat)
    requires f <= g <= f + 22 && amount < I63
    ensures Share(amount, f) <= Share(amount, g) <= Share(amount, f) + 11
    ensures amount < 0x800_0000_0000_0000 ==> Share(amount, g) <= Share(amount, f) + 1
  {
    hide Product;
    ProductUpTo(amount, f, amount, g);
    ProductUpTo(amount, g - f, amount, 22);
    assert Product(amount, g) == Product(amount, f) + Product(amount, g - f) && Product(amount, 22) == 22 * amount by {
      ProductSum(amount, f, g - f);
    }
  }

  lemma ProductSum(a: nat, b: nat, c: nat)
    ensures Product(a, b + c) == Product(a, b) + Product(a, c)
    ensures Product(a, 22) == 22 * a
  {
  }

  /**
   The windowed decay differs from the bit chain by at most 11 of the smallest units of an amount, by at
   most one below 2^59, and not at all after whole years.
   */
  lemma DecaysAgree(gdd: Amount, duration: Seconds)
    ensures var a, b := DecayBy(BitFactor, gdd, duration), DecayBy(WindowsFactor, gdd, duration);
            && -11 <= a - b <= 11
            && (gdd < 0x800_0000_0000_0000 ==> -1 <= a - b <= 1)
            && (duration % SECONDS_PER_YEAR == 0 ==> a == b)
  {
    hide BitFactor, WindowsFactor, Share, Halved;
    var r := duration % SECONDS_PER_YEAR;
    var left := Halved(gdd, duration / SECONDS_PER_YEAR);
    HalvedShrinks(gdd, duration / SECONDS_PER_YEAR);
    FactorsAgree(r);
    WholeYears();
    if BitFactor(r) <= WindowsFactor(r) {
      SharesApart(left, BitFactor(r), WindowsFactor(r));
    } else {
      SharesApart(left, WindowsFactor(r), BitFactor(r));
    }
  }

  // ----- against the exact decay

  /** The factor of n seconds with nothing dropped: the power of the factor of one. */
  function Second(n: nat): real {
    if n == 0 then UNIT else Scaled(P(0), Second(n - 1))
  }

  lemma {:induction false} SecondBelowUnit(n: nat)
    ensures 0.0 <= Second(n) <= UNIT
  {
    hide P, Scaled;
    if n != 0 {
      SecondBelowUnit(n - 1);
      PowerBelowUnit(0);
      ScaledUpTo(P(0), Second(n - 1), UNIT, UNIT);
      ScaledOne(UNIT);
    }
  }

  lemma {:induction false} SecondsAdd(a: nat, b: nat)
    ensures Second(a + b) == Scaled(Second(a), Second(b))
  {
    hide P, Scaled;
    if a == 0 {
      ScaledOne(Second(b));
    } else {
      SecondsAdd(a - 1, b);
      ScaledOrder(P(0), Second(a - 1), Second(b));
    }
  }

  /** Each power lacks at most one unit a second, because it is the truncated square of the one before. */
  lemma {:induction false} PowerIsNear(k: nat)
    requires k < BITS
    ensures Second(Pow2(k)) - (Pow2(k) - 1) as real <= P(k) <= Second(Pow2(k))
  {
    hide Power, Scaled;
    if k == 0 {
      ScaledOne(P(0));
      assert Second(1) == Scaled(P(0), Second(0));
    } else {
      PowerIsNear(k - 1);
      PowersAreSquares(k - 1);
      var n := Pow2(k - 1);
      SecondBelowUnit(n);
      TruncatedLoss(Power(k - 1), Second(n), (n - 1) as real, Power(k - 1), Second(n), (n - 1) as real);
      SecondsAdd(n, n);
    }
  }

  lemma {:induction false} OnesBelow(bits: nat)
    ensures Ones(bits) <= bits
  {
    if bits != 0 { OnesBelow(bits / 2); }
  }

  lemma {:induction false} ExactIsNear(bits: nat, i: nat)
    requires i <= BITS && bits < Pow2(BITS - i)
    ensures var n := Product(bits, Pow2(i));
            && Ones(bits) <= n
            && Second(n) - (n - Ones(bits)) as real <= Exact(bits, i) <= Second(n)
    decreases bits
  {
    hide P, Scaled, Power, Second, Exact, Ones, Product;
    if bits == 0 {
      NothingExact(i);
      NoOnes();
      NoSeconds(Pow2(i));
    } else {
      BitLeft(bits, BITS - i);
      ExactStep(bits, i);
      var h := bits / 2;
      ExactIsNear(h, i + 1);
      Doubled(h, bits % 2, Pow2(i));
      if bits % 2 == 1 {
        var m, n := Pow2(i), Product(h, Pow2(i + 1));
        PowerIsNear(i);
        PowerBelowUnit(i);
        ExactBelowUnit(h, i + 1);
        SecondBelowUnit(m);
        SecondBelowUnit(n);
        ScaledLoss(Second(m), (m - 1) as real, P(i), Second(n), (n - Ones(h)) as real, Exact(h, i + 1));
        SecondsAdd(m, n);
      }
    }
  }

  lemma NoSeconds(p: nat)
    ensures Product(0, p) == 0 && Second(0) == UNIT
  {
  }

  lemma Doubled(h: nat, bit: nat, p: nat)
    ensures Product(2 * h + bit, p) == Product(h, 2 * p) + Product(bit, p)
    ensures Product(1, p) == p && Product(0, p) == 0
  {
    assert (2 * h + bit) * p == h * (2 * p) + bit * p;
  }

  /** Factors that lack at most one unit a second. */
  ghost predicate Near(factor: nat -> nat) {
    forall r :: 0 <= r < SECONDS_PER_YEAR ==> IsNear(factor, r)
  }

  ghost predicate IsNear(factor: nat -> nat, r: nat) {
    Second(r) - r as real <= factor(r) as real <= Second(r)
  }

  /** What a chain over the set bits makes of the exact product is near. */
  lemma ChainIsNear(r: nat, factor: real)
    requires 0 < r < SECONDS_PER_YEAR && Exact(r, 0) - Lost(Ones(r) - 1) <= factor <= Exact(r, 0)
    ensures Second(r) - r as real <= factor <= Second(r)
  {
    hide Second, Exact, Ones, Product;
    YearFits();
    Wider();
    ExactIsNear(r, 0);
    Doubled(0, r, 1);
    WholeProduct(r);
    OnesPositive(r);
  }

  lemma Wider()
    ensures Pow2(SECOND_BITS) <= Pow2(BITS) && Pow2(0) == 1
  {
  }

  lemma WholeProduct(r: nat)
    ensures Product(r, 1) == r
  {
  }

  lemma BitsAreNear()
    ensures Near(BitFactor)
  {
    hide Second, Exact, Compound;
    forall r: nat | r < SECONDS_PER_YEAR ensures IsNear(BitFactor, r) {
      if r == 0 {
        WholeYears();
        NoSeconds(0);
      } else {
        ChainError(r, 0);
        ChainIsNear(r, BitFactor(r) as real);
      }
    }
  }

  lemma WindowsAreNear()
    ensures Near(WindowsFactor)
  {
    hide Second, Exact, WindowsFrom;
    assert Room(0) == 33554432;
    forall r: nat | r < SECONDS_PER_YEAR ensures IsNear(WindowsFactor, r) {
      if r == 0 {
        WholeYears();
        NoSeconds(0);
      } else {
        WindowChainError(r, 0);
        ChainIsNear(r, WindowsFactor(r) as real);
      }
    }
  }

  /** The share is the nearest whole amount, a half going up. */
  lemma ShareIsRounded(amount: nat, factor: nat)
    ensures Scaled(amount as real, factor as real) - 0.5 < Share(amount, factor) as real
         <= Scaled(amount as real, factor as real) + 0.5
  {
    var p := amount * factor;
    assert p as real == amount as real * factor as real;
    RoundedHalfUp(p, (p + I63) / W64);
  }

  lemma RoundedHalfUp(p: nat, t: nat)
    requires t == (p + I63) / W64
    ensures p as real / 18446744073709551616.0 - 0.5 < t as real <= p as real / 18446744073709551616.0 + 0.5
  {
    assert t * W64 <= p + I63 <= t * W64 + W64 - 1;
    assert (t * W64) as real == t as real * 18446744073709551616.0;
  }

  lemma ScaledSums(x: real, y: real, z: real)
    ensures Scaled(x + y, z) == Scaled(x, z) + Scaled(y, z)
    ensures Scaled(z, x + y) == Scaled(z, x) + Scaled(z, y)
    ensures Scaled(z, x - y) == Scaled(z, x) - Scaled(z, y)
  {
  }

  /** A missing unit a second is less than half of the smallest unit of such an amount. */
  lemma LittleIsMissing(gdd: nat, seconds: nat)
    requires Product(gdd, SECONDS_PER_YEAR) <= I63 && seconds < SECONDS_PER_YEAR
    ensures 0.0 <= Scaled(gdd as real, seconds as real) < 0.5
  {
    hide Product, Scaled;
    ProductUpTo(gdd, seconds, gdd, SECONDS_PER_YEAR - 1);
    OneMore(gdd, SECONDS_PER_YEAR - 1);
    ScaledWhole(gdd, seconds, Product(gdd, seconds));
  }

  lemma OneMore(a: nat, b: nat)
    ensures Product(a, b + 1) == Product(a, b) + a
    ensures a == 0 ==> Product(a, b) == 0
  {
  }

  lemma ScaledWhole(a: nat, b: nat, p: nat)
    requires p == Product(a, b)
    ensures 0.0 <= Scaled(a as real, b as real)
    ensures p < I63 ==> Scaled(a as real, b as real) < 0.5
  {
    assert p as real == a as real * b as real;
  }

  lemma ScaledNear(gdd: nat, factor: nat -> nat, r: nat)
    requires r < SECONDS_PER_YEAR && Near(factor)
    ensures Scaled(gdd as real, Second(r)) - Scaled(gdd as real, r as real) <= Scaled(gdd as real, factor(r) as real)
         <= Scaled(gdd as real, Second(r))
  {
    hide Scaled, Second;
    assert IsNear(factor, r);
    SecondBelowUnit(r);
    ScaledBetween(gdd as real, Second(r), r as real, factor(r) as real);
  }

  /** Within a year, what is left of an amount is less than one smallest unit from the exact decay. */
  lemma DecayIsAccurate(gdd: nat, factor: nat -> nat, seconds: nat)
    requires Product(gdd, SECONDS_PER_YEAR) <= I63 && seconds < SECONDS_PER_YEAR && Near(factor)
    ensures -1.0 < DecayBy(factor, gdd, seconds) as real - Scaled(gdd as real, Second(seconds)) < 1.0
  {
    hide Scaled, Second, Share, Near, Halved;
    HalvedShrinks(gdd, 0);
    ShareIsRounded(gdd, factor(seconds));
    ScaledNear(gdd, factor, seconds);
    LittleIsMissing(gdd, seconds);
  }

  /** The exact product of two near factors is near the factor of the sum. */
  lemma NearTwice(factor: nat -> nat, a: nat, b: nat)
    requires a + b < SECONDS_PER_YEAR && Near(factor)
    ensures Second(a + b) - (a + b) as real <= Scaled(factor(a) as real, factor(b) as real) <= Second(a + b)
  {
    hide Scaled, Second;
    assert IsNear(factor, a) && IsNear(factor, b);
    SecondBelowUnit(a);
    SecondBelowUnit(b);
    ScaledLoss(Second(a), a as real, factor(a) as real, Second(b), b as real, factor(b) as real);
    SecondsAdd(a, b);
  }

  /** Taking a share of a rounded share: the first rounding is at most a half more or less. */
  lemma ShareOfShare(gdd: nat, f: nat, g: nat)
    requires g as real <= UNIT
    ensures var twice := Scaled(gdd as real, Scaled(f as real, g as real));
            twice - 1.0 <= Share(Share(gdd, f), g) as real <= twice + 1.0
  {
    hide Scaled, Share;
    var x, y, z := gdd as real, f as real, g as real;
    var h := Share(gdd, f);
    ShareIsRounded(gdd, f);
    ShareIsRounded(h, g);
    ScaledOrder(x, y, z);
    ScaledUpTo(0.5, z, 0.5, UNIT);
    ScaledOne(0.5);
    var off := h as real - Scaled(x, y);
    ScaledSums(Scaled(x, y), off, z);
    OffScaled(off, z);
  }

  lemma OffScaled(off: real, z: real)
    requires -0.5 <= off <= 0.5 && 0.0 <= z <= UNIT
    ensures -0.5 <= Scaled(off, z) <= 0.5
  {
    if 0.0 <= off {
      ScaledUpTo(off, z, 0.5, UNIT);
    } else {
      ScaledUpTo(-off, z, 0.5, UNIT);
    }
  }

  /** Splitting a duration within a year changes what is left by at most one smallest unit. */
  lemma SplittingIsNearlyExact(gdd: nat, factor: nat -> nat, a: nat, b: nat)
    requires Product(gdd, SECONDS_PER_YEAR) <= I63 && a + b < SECONDS_PER_YEAR && Near(factor)
    ensures -1 <= DecayBy(factor, DecayBy(factor, gdd, a), b) as int - DecayBy(factor, gdd, a + b) as int <= 1
  {
    hide Scaled, Second, Share, Near, Halved, Product;
    var x, s := gdd as real, Second(a + b);
    var twice := Scaled(factor(a) as real, factor(b) as real);
    HalvedShrinks(gdd, 0);
    HalvedShrinks(Share(gdd, factor(a)), 0);
    NearBelowUnit(factor, b);
    ShareOfShare(gdd, factor(a), factor(b));
    ShareIsRounded(gdd, factor(a + b));
    ScaledNear(gdd, factor, a + b);
    NearTwice(factor, a, b);
    ScaledBetween(x, s, (a + b) as real, twice);
    LittleIsMissing(gdd, a + b);
  }

  lemma NearBelowUnit(factor: nat -> nat, r: nat)
    requires r < SECONDS_PER_YEAR && Near(factor)
    ensures factor(r) as real <= UNIT
  {
    hide Second;
    assert IsNear(factor, r);
    SecondBelowUnit(r);
  }

  lemma ScaledBetween(x: real, s: real, d: real, y: real)
    requires 0.0 <= x && s - d <= y <= s
    ensures Scaled(x, s) - Scaled(x, d) <= Scaled(x, y) <= Scaled(x, s)
  {
    hide Scaled;
    ScaledSums(y, s - y, x);
    ScaledUpTo(x, s - y, x, s - y);
    ScaledSums(s - d, y - (s - d), x);
    ScaledUpTo(x, y - (s - d), x, y - (s - d));
    ScaledSums(s, d, x);
  }
}
