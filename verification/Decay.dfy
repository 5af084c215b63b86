/** Half of an amount is gone after a year: whole years are a shift, what is left of the last one a factor. */
module Decay {
  import opened Words
  import opened FixedPoint
  import opened DecayTables

  const SECONDS_PER_YEAR := 31556952
  const YEARS_MAX := 63
  /** The bits a second within a year has. */
  const SECOND_BITS := 25

  type Seconds = x: int64 | 0 <= x
  type Amount = x: int64 | 0 <= x

  /** The factor of a part of a year, one power for each of its bits. */
  function BitFactor(r: nat): nat {
    Compound(r, 0, W64)
  }

  /** The same with one table entry for five bits. */
  function WindowsFrom(r: nat, j: nat, factor: nat): nat
    decreases WINDOWS - j
  {
    if WINDOWS <= j then factor
    else WindowsFrom(r / WINDOW_SIZE, j + 1, Times(factor, WindowFactor(j, r % WINDOW_SIZE)))
  }

  function WindowsFactor(r: nat): nat {
    WindowsFrom(r, 0, W64)
  }

  /** 32^(5 - j): what the windows from j on can count. */
  function Room(j: nat): nat
    requires j <= WINDOWS
    decreases WINDOWS - j
  {
    if j == WINDOWS then 1 else WINDOW_SIZE * Room(j + 1)
  }

  /** An amount times a factor, a half rounded up. */
  function Share(amount: nat, factor: nat): nat {
    (Product(amount, factor) + I63) / W64
  }

  /** An amount shifted right once for every whole year. */
  function Halved(gdd: nat, years: nat): nat {
    if years == 0 then gdd else Halved(gdd, years - 1) / 2
  }

  lemma {:induction false} HalvedShrinks(gdd: nat, years: nat)
    ensures Halved(gdd, years) <= gdd
    ensures Halved(gdd, 0) == gdd
  {
    if years != 0 { HalvedShrinks(gdd, years - 1); }
  }

  /** What is left of an amount, given the factors of the parts of a year. */
  function DecayBy(factor: nat -> nat, gdd: nat, duration: nat): nat {
    if YEARS_MAX < duration / SECONDS_PER_YEAR then 0
    else Share(Halved(gdd, duration / SECONDS_PER_YEAR), factor(duration % SECONDS_PER_YEAR))
  }

  lemma TimesShrinks(factor: nat, b: nat)
    requires b <= W64
    ensures Times(factor, b) <= factor
  {
    ProductUpTo(factor, b, factor, W64);
    assert Product(factor, W64) == factor * W64;
  }

  lemma TimesOne(factor: nat)
    ensures Times(factor, W64) == factor && Times(W64, factor) == factor
  {
  }

  lemma ShareShrinks(amount: nat, factor: nat)
    requires factor <= W64
    ensures Share(amount, factor) <= amount
    ensures Share(amount, W64) == amount
  {
    ProductUpTo(amount, factor, amount, W64);
    assert Product(amount, W64) == amount * W64;
  }

  lemma TimesMonotone(a: nat, b: nat, factor: nat)
    requires a <= b
    ensures Times(a, factor) <= Times(b, factor)
  {
    hide Product;
    ProductUpTo(a, factor, b, factor);
  }

  // ----- the two programs

  /** The powers of the set bits compounded, the lowest bit first. */
  method BitChain(seconds: nat) returns (factor: R128)
    requires seconds < SECONDS_PER_YEAR
    ensures Units(factor) == BitFactor(seconds) <= W64
  {
    hide Times, Compound, Power, Pow2;
    factor := ONE;
    var exp: nat, i := seconds, 0;
    YearFits();
    while 0 < exp
      invariant i <= SECOND_BITS && exp < Pow2(SECOND_BITS - i)
      invariant Units(factor) <= W64 && Compound(exp, i, Units(factor)) == BitFactor(seconds)
    {
      BitLeft(exp, SECOND_BITS - i);
      BitTaken(exp, i, Units(factor));
      TimesShrinks(Units(factor), Power(i));
      if exp % 2 == 1 {
        factor := MulSpecialized(factor, R128(Power(i), 0));
      }
      exp := exp / 2;
      i := i + 1;
    }
    NoBits(exp, i, Units(factor));
  }

  lemma YearFits()
    ensures SECONDS_PER_YEAR < Pow2(SECOND_BITS)
    ensures SECONDS_PER_YEAR < WINDOW_SIZE * WINDOW_SIZE * WINDOW_SIZE * WINDOW_SIZE * WINDOW_SIZE
  {
    SmallPowers();
    assert Pow2(15) == 32768;
    assert Pow2(20) == 1048576;
  }

  lemma BitLeft(exp: nat, n: nat)
    requires 0 < exp < Pow2(n)
    ensures 0 < n && exp / 2 < Pow2(n - 1)
  {
  }

  /** One table entry for every five bits that are not all zero. */
  method WindowChain(seconds: nat) returns (factor: R128)
    requires seconds < SECONDS_PER_YEAR
    ensures Units(factor) == WindowsFactor(seconds) <= W64
  {
    hide Times, WindowsFrom, WindowFactor;
    factor := ONE;
    var rest: nat := seconds;
    for window := 0 to WINDOWS
      invariant Units(factor) <= W64 && WindowsFrom(rest, window, Units(factor)) == WindowsFactor(seconds)
    {
      var digit := rest % WINDOW_SIZE;
      WindowTaken(rest, window, Units(factor));
      if digit != 0 {
        factor := MulSpecialized(factor, R128(DECAY_WINDOW_FACTORS[window][digit], 0));
      }
      rest := rest / WINDOW_SIZE;
    }
    AllWindows(rest, Units(factor));
  }

  lemma WindowTaken(rest: nat, j: nat, factor: nat)
    requires j < WINDOWS
    ensures var digit := rest % WINDOW_SIZE;
            && WindowsFrom(rest, j, factor)
                == WindowsFrom(rest / WINDOW_SIZE, j + 1, Times(factor, WindowFactor(j, digit)))
            && Times(factor, WindowFactor(j, digit)) <= factor
            && (digit == 0 ==> Times(factor, WindowFactor(j, digit)) == factor)
            && (digit != 0 ==> WindowFactor(j, digit) == Units(R128(DECAY_WINDOW_FACTORS[j][digit], 0)))
  {
    hide Times;
    TimesShrinks(factor, WindowFactor(j, rest % WINDOW_SIZE));
    TimesOne(factor);
  }

  lemma AllWindows(rest: nat, factor: nat)
    ensures WindowsFrom(rest, WINDOWS, factor) == factor
  {
  }

  /** Balance times factor, rounded to the nearest whole. */
  method TakeShare(gdd: Amount, factor: R128) returns (r: Amount)
    requires Units(factor) <= W64
    ensures r == Share(gdd, Units(factor)) <= gdd
  {
    hide Times, Product;
    var gdd128 := MulPrecise(R128(0, gdd), factor);
    ghost var units := Product(gdd, Units(factor));
    WholeTimes(gdd, Units(factor));
    assert Units(gdd128) == units;
    ShareShrinks(gdd, Units(factor));
    gdd128 := R128(0, gdd128.hi + if gdd128.lo >= I63 then 1 else 0);
    r := gdd128.hi;
  }

  lemma WholeTimes(gdd: nat, factor: nat)
    requires gdd < I63 && factor <= W64
    ensures Times(gdd * W64, factor) == Product(gdd, factor) <= gdd * W64
  {
    ProductUpTo(gdd, factor, gdd, W64);
    assert Product(gdd, W64) == gdd * W64;
    assert gdd * W64 * factor == gdd * factor * W64;
  }

  method CalculateDecay(gdd: Amount, duration: Seconds) returns (r: Amount)
    ensures r == DecayBy(BitFactor, gdd, duration)
  {
    hide Compound, Share, Halved;
    HalvedShrinks(gdd, 0);
    ShareShrinks(gdd, W64);
    WholeYears();
    if duration == 0 { return gdd; }
    var gddTemp, left := gdd, duration;
    if duration >= SECONDS_PER_YEAR {
      var times := duration / SECONDS_PER_YEAR;
      if times > YEARS_MAX { return 0; }
      left := duration - times * SECONDS_PER_YEAR;
      HalvedShrinks(gdd, times);
      gddTemp := Halved(gdd, times);
      ShareShrinks(gddTemp, W64);
      if left == 0 { return gddTemp; }
    }
    var factor := BitChain(left);
    r := TakeShare(gddTemp, factor);
  }

  method CalculateDecayWindowed(gdd: Amount, duration: Seconds) returns (r: Amount)
    ensures r == DecayBy(WindowsFactor, gdd, duration)
  {
    hide WindowsFrom, Share, Halved;
    HalvedShrinks(gdd, 0);
    ShareShrinks(gdd, W64);
    WholeYears();
    if duration == 0 { return gdd; }
    var gddTemp, left := gdd, duration;
    if duration >= SECONDS_PER_YEAR {
      var times := duration / SECONDS_PER_YEAR;
      if times > YEARS_MAX { return 0; }
      left := duration - times * SECONDS_PER_YEAR;
      HalvedShrinks(gdd, times);
      gddTemp := Halved(gdd, times);
    }
    var factor := WindowChain(left);
    r := TakeShare(gddTemp, factor);
  }

  /** No part of a year takes nothing. */
  lemma WholeYears()
    ensures BitFactor(0) == W64 && WindowsFactor(0) == W64 && Pow2(0) == 1
  {
    forall j: nat, factor: nat | j < WINDOWS ensures Times(factor, WindowFactor(j, 0)) == factor {
      TimesOne(factor);
    }
  }
}
