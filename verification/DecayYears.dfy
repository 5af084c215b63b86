/** Decay across whole years: each halves the amount, and the accuracy of the parts of a year carries over. */
module DecayYears {
  import opened Words
  import opened FixedPoint
  import opened DecayTables
  import opened Decay
  import opened DecayError
  import opened DecayOrder
  import opened DecayAccuracy

  // ----- whole years

  lemma {:induction false} HalvedFirst(gdd: nat, years: nat)
    ensures Halved(gdd, years + 1) == Halved(gdd / 2, years)
  {
    if years != 0 { HalvedFirst(gdd, years - 1); }
  }

  lemma {:induction false} Pow2Doubles(a: nat, b: nat)
    requires a <= b
    ensures Pow2(a) <= Pow2(b)
  {
    if a < b { Pow2Doubles(a, b - 1); }
  }

  lemma Pow2Of64()
    ensures Pow2(63) == 0x8000_0000_0000_0000 && Pow2(64) == 0x1_0000_0000_0000_0000 && Pow2(0) == 1
  {
    Pow2Eight(0);
    Pow2Eight(8);
    Pow2Eight(16);
    Pow2Eight(24);
    Pow2Eight(32);
    Pow2Eight(40);
    Pow2Eight(48);
    Pow2Eight(56);
    assert Pow2(64) == 2 * Pow2(63);
  }

  lemma Pow2Eight(n: nat)
    ensures Pow2(n + 8) == 256 * Pow2(n)
  {
    assert Pow2(n + 8) == 4 * Pow2(n + 6) && Pow2(n + 6) == 4 * Pow2(n + 4);
    assert Pow2(n + 4) == 4 * Pow2(n + 2) && Pow2(n + 2) == 4 * Pow2(n);
  }

  lemma HalvedAway(gdd: nat, years: nat)
    requires gdd < 0x1_0000_0000_0000_0000
    ensures 64 <= years ==> Halved(gdd, years) == 0
    ensures 63 <= years && gdd < 0x8000_0000_0000_0000 ==> Halved(gdd, years) == 0
  {
    hide Halved, Pow2;
    HalvedIsQuotient(gdd, years);
    Pow2Of64();
    if 64 <= years { Pow2Doubles(64, years); }
    if 63 <= years { Pow2Doubles(63, years); }
    if gdd < Pow2(years) { SmallQuotient(gdd, Pow2(years)); }
  }

  lemma SmallQuotient(a: nat, b: nat)
    requires a < b
    ensures a / b == 0
  {
  }

  lemma ShareOfNothing(f: nat)
    ensures Share(0, f) == 0
  {
  }

  lemma YearMore(d: nat)
    ensures (d + 31556952) / SECONDS_PER_YEAR == d / SECONDS_PER_YEAR + 1
    ensures (d + 31556952) % SECONDS_PER_YEAR == d % SECONDS_PER_YEAR
  {
  }

  /** A year more leaves what the rest leaves of half the amount, whatever the factors and the rest. */
  lemma YearHalves(factor: nat -> nat, gdd: nat, d: nat)
    requires gdd < 0x1_0000_0000_0000_0000
    ensures DecayBy(factor, gdd, d + 31556952) == DecayBy(factor, gdd / 2, d)
  {
    hide Halved, Share;
    YearMore(d);
    var years := d / SECONDS_PER_YEAR;
    HalvedFirst(gdd, years);
    HalvedAway(gdd / 2, years);
    ShareOfNothing(factor(d % SECONDS_PER_YEAR));
  }

  /** Exactly k years leave the amount divided by 2^k, up to 63 of them, and nothing beyond. */
  lemma {:induction false} WholeYearsLeave(factor: nat -> nat, gdd: nat, k: nat)
    requires factor(0) == 0x1_0000_0000_0000_0000
    ensures DecayBy(factor, gdd, k * 31556952) == if k <= 63 then gdd / Pow2(k) else 0
  {
    hide Halved, Share;
    assert k * 31556952 / SECONDS_PER_YEAR == k && k * 31556952 % SECONDS_PER_YEAR == 0;
    HalvedIsQuotient(gdd, k);
    ShareShrinks(Halved(gdd, k), W64);
  }

  /** Whole years can be taken first: what they leave then decays for the rest. */
  lemma {:induction false} YearsFirst(factor: nat -> nat, gdd: nat, k: nat, d: nat)
    requires factor(0) == 0x1_0000_0000_0000_0000 && gdd < 0x1_0000_0000_0000_0000
    ensures DecayBy(factor, gdd, k * 31556952 + d) == DecayBy(factor, DecayBy(factor, gdd, k * 31556952), d)
  {
    hide DecayBy;
    if k == 0 {
      WholeYearsLeave(factor, gdd, 0);
      Pow2Of64();
      assert gdd / 1 == gdd;
    } else {
      YearHalves(factor, gdd, (k - 1) * 31556952 + d);
      YearHalves(factor, gdd, (k - 1) * 31556952);
      YearsFirst(factor, gdd / 2, k - 1, d);
      assert k * 31556952 == (k - 1) * 31556952 + 31556952;
    }
  }

  /** Both programs. */
  lemma BothHalve(gdd: Amount, d: nat, k: nat)
    ensures DecayBy(BitFactor, gdd, d + 31556952) == DecayBy(BitFactor, gdd / 2, d)
    ensures DecayBy(WindowsFactor, gdd, d + 31556952) == DecayBy(WindowsFactor, gdd / 2, d)
    ensures DecayBy(BitFactor, gdd, k * 31556952) == DecayBy(WindowsFactor, gdd, k * 31556952)
         == if k <= 63 then gdd / Pow2(k) else 0
  {
    hide DecayBy, BitFactor, WindowsFactor;
    WholeYears();
    YearHalves(BitFactor, gdd, d);
    YearHalves(WindowsFactor, gdd, d);
    WholeYearsLeave(BitFactor, gdd, k);
    WholeYearsLeave(WindowsFactor, gdd, k);
  }

  // ----- accuracy

  /** A half, so many times over, with nothing dropped. */
  function Halves(years: nat): real {
    if years == 0 then UNIT else Halves(years - 1) / 2.0
  }

  lemma HalfOf(x: real, y: real)
    ensures Scaled(x, y / 2.0) == Scaled(x, y) / 2.0
  {
  }

  lemma {:induction false} HalvesBelowUnit(years: nat)
    ensures 0.0 <= Halves(years) <= UNIT
  {
    if years != 0 { HalvesBelowUnit(years - 1); }
  }

  /** The shifts lose less than one smallest unit in all. */
  lemma {:induction false} HalvedIsNear(gdd: nat, years: nat)
    ensures Scaled(gdd as real, Halves(years)) - 1.0 < Halved(gdd, years) as real <= Scaled(gdd as real, Halves(years))
  {
    hide Scaled;
    if years == 0 {
      ScaledOne(gdd as real);
    } else {
      HalvedIsNear(gdd, years - 1);
      HalfOf(gdd as real, Halves(years - 1));
      var a := Halved(gdd, years - 1);
      assert a == 2 * (a / 2) + a % 2;
    }
  }

  lemma LittleLess(x: real, y: real, s: real)
    requires x - 1.0 < y <= x && 0.0 <= y && 0.0 <= s <= UNIT
    ensures Scaled(x, s) - 1.0 < Scaled(y, s) <= Scaled(x, s)
  {
    hide Scaled;
    var off := x - y;
    ScaledUpTo(off, s, off, UNIT);
    ScaledOne(off);
    ScaledSums(y, off, s);
  }

  /**
   After any number of years less than two smallest units are missing from the amount halved once for
   each and decayed exactly for the rest, and less than one is too much.
   */
  lemma AcrossYears(gdd: nat, factor: nat -> nat, d: nat)
    requires Product(gdd, SECONDS_PER_YEAR) <= I63 && Near(factor)
    ensures var exact := Scaled(Scaled(gdd as real, Halves(d / 31556952)), Second(d % 31556952));
            -2.0 < DecayBy(factor, gdd, d) as real - exact < 1.0
  {
    hide Scaled, Second, Share, Near, Halved, Halves, Product;
    var years, r := d / SECONDS_PER_YEAR, d % SECONDS_PER_YEAR;
    var left := Halved(gdd, years);
    HalvedShrinks(gdd, years);
    HalvedShrinks(left, 0);
    HalvedIsNear(gdd, years);
    SecondBelowUnit(r);
    LittleLess(Scaled(gdd as real, Halves(years)), left as real, Second(r));
    if years <= YEARS_MAX {
      ProductUpTo(left, SECONDS_PER_YEAR, gdd, SECONDS_PER_YEAR);
      DecayIsAccurate(left, factor, r);
    } else {
      Little(gdd);
      HalvedAway(gdd, years);
      ScaledNothing(Second(r));
    }
  }

  lemma Little(gdd: nat)
    requires Product(gdd, SECONDS_PER_YEAR) <= I63
    ensures gdd < 292277265000
  {
  }

  lemma ScaledNothing(x: real)
    ensures Scaled(0.0, x) == 0.0
  {
  }

  // ----- a year of seconds against a half

  /** One second at a time a year takes a half, to within 2^-39. */
  lemma YearIsHalf()
    ensures 9223372036854775808.0 - 21000000.0 <= Second(31556952) <= 9223372036854775808.0 + 11000000.0
  {
    hide WindowsFrom, Second, Scaled;
    WindowsAreNear();
    assert IsNear(WindowsFactor, 31556951);
    LastSecondIs();
    OneSecondMore(31556951);
    YearBounds(Second(31556951));
  }

  lemma OneSecondMore(n: nat)
    ensures Second(n + 1) == Scaled(P(0), Second(n))
  {
  }

  lemma YearBounds(s: real)
    requires 9223372239424913728.0 <= s <= 9223372239424913728.0 + 31556951.0
    ensures 9223372036854775808.0 - 21000000.0 <= Scaled(P(0), s) <= 9223372036854775808.0 + 11000000.0
  {
    assert P(0) == 18446743668527564940.0;
  }

  lemma Apart(a: real, b: real, h: real)
    requires -21000000.0 <= a - 9223372036854775808.0 <= 21000000.0 && -42000000.0 <= b - h <= 42000000.0
    requires 0.0 <= b <= UNIT
    ensures -42000000.0 <= Scaled(a, b) - h / 2.0 <= 42000000.0
  {
    var half, off := 9223372036854775808.0, a - 9223372036854775808.0;
    OffTimes(off, b);
    ScaledSums(half, off, b);
    assert Scaled(half, b) == b / 2.0;
  }

  lemma OffTimes(off: real, b: real)
    requires -21000000.0 <= off <= 21000000.0 && 0.0 <= b <= UNIT
    ensures -21000000.0 <= Scaled(off, b) <= 21000000.0
  {
    if 0.0 <= off {
      ScaledUpTo(off, b, off, UNIT);
    } else {
      ScaledUpTo(-off, b, -off, UNIT);
      assert Scaled(-off, b) == -Scaled(off, b);
    }
    ScaledOne(off);
    ScaledOne(-off);
  }

  /** So do years on years, each time over again. */
  lemma {:induction false} YearsAreHalves(years: nat)
    ensures -42000000.0 <= Second(31556952 * years) - Halves(years) <= 42000000.0
  {
    hide Second, Scaled;
    if years == 0 {
      NoSeconds(0);
    } else {
      YearsAreHalves(years - 1);
      YearIsHalf();
      SecondsAdd(31556952, 31556952 * (years - 1));
      SecondBelowUnit(31556952 * (years - 1));
      Apart(Second(31556952), Second(31556952 * (years - 1)), Halves(years - 1));
    }
  }

  lemma HardlyApart(x: real, a: real, b: real, s: real)
    requires 0.0 <= x < 292277265000.0 && -42000000.0 <= a - b <= 42000000.0 && 0.0 <= s <= UNIT
    ensures -1.0 < Scaled(Scaled(x, a), s) - Scaled(Scaled(x, b), s) < 1.0
  {
    var off := a - b;
    assert -1.0 < Scaled(x, off) < 1.0 by {
      assert -292277265000.0 * 42000000.0 <= x * off <= 292277265000.0 * 42000000.0 by { Bounded(x, off); }
    }
    ScaledSums(b, off, x);
    ScaledSums(Scaled(x, b), Scaled(x, off), s);
    OffScaledOne(Scaled(x, off), s);
  }

  lemma Bounded(x: real, off: real)
    requires 0.0 <= x < 292277265000.0 && -42000000.0 <= off <= 42000000.0
    ensures -292277265000.0 * 42000000.0 <= x * off <= 292277265000.0 * 42000000.0
  {
    TimesUpTo(x, off, 42000000.0);
    TimesUpTo(x, -42000000.0, off);
  }

  lemma OffScaledOne(off: real, s: real)
    requires -1.0 < off < 1.0 && 0.0 <= s <= UNIT
    ensures -1.0 < Scaled(off, s) < 1.0
  {
    if 0.0 <= off {
      ScaledUpTo(off, s, off, UNIT);
    } else {
      ScaledUpTo(-off, s, -off, UNIT);
      assert Scaled(-off, s) == -Scaled(off, s);
    }
    ScaledOne(off);
    ScaledOne(-off);
  }

  /**
   For any duration what is left of such an amount is less than three smallest units from the exact
   power of all its seconds.
   */
  lemma DecayIsAccurateForEver(gdd: nat, factor: nat -> nat, d: nat)
    requires Product(gdd, SECONDS_PER_YEAR) <= I63 && Near(factor)
    ensures -3.0 < DecayBy(factor, gdd, d) as real - Scaled(gdd as real, Second(d)) < 2.0
  {
    hide Scaled, Second, Near, Halves, Product, DecayBy;
    var years, r := d / 31556952, d % 31556952;
    AcrossYears(gdd, factor, d);
    Little(gdd);
    YearsAreHalves(years);
    SecondBelowUnit(r);
    HardlyApart(gdd as real, Second(31556952 * years), Halves(years), Second(r));
    assert d == 31556952 * years + r;
    SecondsAdd(31556952 * years, r);
    ScaledOrder(gdd as real, Second(31556952 * years), Second(r));
  }
}
