/** An amount never grows as time passes, second by second and across the years. */
module DecayOrder {
  import opened Words
  import opened FixedPoint
  import opened DecayTables
  import opened Decay
  import opened DecayError

  // ----- the bit chain

  lemma {:induction false} CompoundMonotone(bits: nat, i: nat, a: nat, b: nat)
    requires a <= b
    ensures Compound(bits, i, a) <= Compound(bits, i, b)
    decreases bits
  {
    hide Times, Power;
    if bits != 0 && i < BITS {
      TimesMonotone(a, b, Power(i));
      CompoundMonotone(bits / 2, i + 1, if bits % 2 == 1 then Times(a, Power(i)) else a,
                       if bits % 2 == 1 then Times(b, Power(i)) else b);
    }
  }

  /** The powers below i, all of them compounded: the factor of 2^i - 1 seconds. */
  function Lower(i: nat): nat {
    if i == 0 then W64 else if BITS < i then 0 else Times(Lower(i - 1), Power(i - 1))
  }

  /** One second less than 2^i takes less than 2^i seconds do. */
  lemma LowerIsLarger(i: nat)
    requires i < SECOND_BITS
    ensures Power(i) <= Lower(i)
  {
  }

  /** With the lower bits all set against all clear, one second more never gives a larger factor. */
  lemma {:induction false} NextSecondFrom(seconds: nat, i: nat)
    requires i <= SECOND_BITS && seconds + 1 < Pow2(SECOND_BITS - i)
    ensures Compound(seconds + 1, i, W64) <= Compound(seconds, i, Lower(i))
    decreases SECOND_BITS - i
  {
    hide Times, Power, Compound;
    BitTaken(seconds, i, Lower(i));
    BitTaken(seconds + 1, i, W64);
    if seconds % 2 == 0 {
      LowerIsLarger(i);
      TimesOne(Power(i));
      CompoundMonotone(seconds / 2, i + 1, Power(i), Lower(i));
    } else {
      NextSecondFrom(seconds / 2, i + 1);
    }
  }

  // ----- the windows

  lemma {:induction false} WindowsMonotone(r: nat, j: nat, a: nat, b: nat)
    requires a <= b
    ensures WindowsFrom(r, j, a) <= WindowsFrom(r, j, b)
    decreases WINDOWS - j
  {
    hide Times, WindowFactor;
    if j < WINDOWS {
      var digit := r % WINDOW_SIZE;
      TimesMonotone(a, b, WindowFactor(j, digit));
      WindowsMonotone(r / WINDOW_SIZE, j + 1, Times(a, WindowFactor(j, digit)), Times(b, WindowFactor(j, digit)));
    }
  }

  /** The windows below j, all of them full. */
  function FullWindows(j: nat): nat
    requires j <= WINDOWS
  {
    if j == 0 then W64 else Times(FullWindows(j - 1), WindowFactor(j - 1, WINDOW_SIZE - 1))
  }

  lemma FullWindowsAre()
    ensures FullWindows(0) == 18446744073709551616
    ensures FullWindows(1) == 18446731513072103050
    ensures FullWindows(2) == 18446329577189546898
    ensures FullWindows(3) == 18433472252015697819
    ensures FullWindows(4) == 18026735730664827784
  {
    assert FullWindows(0) == W64;
    assert FullWindows(1) == Times(FullWindows(0), WindowFactor(0, 31));
    assert FullWindows(2) == Times(FullWindows(1), WindowFactor(1, 31));
    assert FullWindows(3) == Times(FullWindows(2), WindowFactor(2, 31));
    assert FullWindows(4) == Times(FullWindows(3), WindowFactor(3, 31));
  }

  lemma FullWindow0(c: nat)
    requires c < WINDOW_SIZE - 1
    ensures WindowFactor(0, c + 1) <= Times(18446744073709551616, WindowFactor(0, c))
  {
  }

  lemma FullWindow1(c: nat)
    requires c < WINDOW_SIZE - 1
    ensures WindowFactor(1, c + 1) <= Times(18446731513072103050, WindowFactor(1, c))
  {
  }

  lemma FullWindow2(c: nat)
    requires c < WINDOW_SIZE - 1
    ensures WindowFactor(2, c + 1) <= Times(18446329577189546898, WindowFactor(2, c))
  {
  }

  lemma FullWindow3(c: nat)
    requires c < WINDOW_SIZE - 1
    ensures WindowFactor(3, c + 1) <= Times(18433472252015697819, WindowFactor(3, c))
  {
  }

  lemma FullWindow4(c: nat)
    requires c < WINDOW_SIZE - 1
    ensures WindowFactor(4, c + 1) <= Times(18026735730664827784, WindowFactor(4, c))
  {
  }

  /** All windows below full and digit c take no more than digit c + 1 with all windows below empty. */
  lemma FullIsLarger(j: nat, c: nat)
    requires j < WINDOWS && c < WINDOW_SIZE - 1
    ensures WindowFactor(j, c + 1) <= Times(FullWindows(j), WindowFactor(j, c))
  {
    hide FullWindows, Times, WindowFactor;
    FullWindowsAre();
    match j
    case 0 => FullWindow0(c);
    case 1 => FullWindow1(c);
    case 2 => FullWindow2(c);
    case 3 => FullWindow3(c);
    case _ => FullWindow4(c);
  }

  lemma {:induction false} NextSecondInWindows(r: nat, j: nat)
    requires j <= WINDOWS && r + 1 < Room(j)
    ensures WindowsFrom(r + 1, j, W64) <= WindowsFrom(r, j, FullWindows(j))
    decreases WINDOWS - j
  {
    hide Times, WindowsFrom, WindowFactor;
    WindowTaken(r, j, FullWindows(j));
    WindowTaken(r + 1, j, W64);
    var digit := r % WINDOW_SIZE;
    if digit < WINDOW_SIZE - 1 {
      FullIsLarger(j, digit);
      TimesOne(WindowFactor(j, digit + 1));
      WindowsMonotone(r / WINDOW_SIZE, j + 1, WindowFactor(j, digit + 1),
          Times(FullWindows(j), WindowFactor(j, digit)));
      assert (r + 1) / WINDOW_SIZE == r / WINDOW_SIZE;
    } else {
      NextSecondInWindows(r / WINDOW_SIZE, j + 1);
      assert (r + 1) / WINDOW_SIZE == r / WINDOW_SIZE + 1;
    }
  }

  // ----- both

  /** Factors that start at 1, never grow within a year and never fall below a half. */
  ghost predicate Steady(factor: nat -> nat) {
    && factor(0) == W64
    && (forall r :: 0 <= r < SECONDS_PER_YEAR - 1 ==> factor(r + 1) <= factor(r))
    && (forall r :: 0 <= r < SECONDS_PER_YEAR ==> I63 <= factor(r) <= W64)
  }

  lemma {:induction false} NoLongerLess(factor: nat -> nat, r: nat, s: nat)
    requires forall r :: 0 <= r < SECONDS_PER_YEAR - 1 ==> factor(r + 1) <= factor(r)
    requires r <= s < SECONDS_PER_YEAR
    ensures factor(s) <= factor(r)
    decreases s - r
  {
    if r < s {
      NoLongerLess(factor, r, s - 1);
      assert factor(s - 1 + 1) <= factor(s - 1);
    }
  }

  lemma SteadyWhen(factor: nat -> nat)
    requires factor(0) == W64 && I63 <= factor(SECONDS_PER_YEAR - 1)
    requires forall r :: 0 <= r < SECONDS_PER_YEAR - 1 ==> factor(r + 1) <= factor(r)
    ensures Steady(factor)
  {
    forall r | 0 <= r < SECONDS_PER_YEAR ensures I63 <= factor(r) <= W64 {
      NoLongerLess(factor, 0, r);
      NoLongerLess(factor, r, SECONDS_PER_YEAR - 1);
    }
  }

  lemma WindowIs(r: nat, j: nat, factor: nat, next: nat)
    requires j < WINDOWS && next == Times(factor, WindowFactor(j, r % WINDOW_SIZE))
    ensures WindowsFrom(r, j, factor) == WindowsFrom(r / WINDOW_SIZE, j + 1, next)
  {
  }

  lemma LastSecondLowWindows()
    ensures WindowsFactor(31556951) == WindowsFrom(963, 3, 18446190198243083328)
  {
    hide WindowsFrom;
    WindowIs(31556951, 0, W64, 18446734754526109705);
    WindowIs(986154, 1, 18446734754526109705, 18446605096810120548);
    WindowIs(30817, 2, 18446605096810120548, 18446190198243083328);
  }

  lemma LastSecondIs()
    ensures WindowsFactor(31556951) == 9223372239424913728
  {
    hide WindowsFrom;
    LastSecondLowWindows();
    WindowIs(963, 3, 18446190198243083328, 18406403353938171014);
    WindowIs(30, 4, 18406403353938171014, 9223372239424913728);
    AllWindows(0, 9223372239424913728);
  }

  /**
   A second before the year is over a little more than half is left, with room for the other program's
   truncations.
   */
  lemma LastSecondOfWindows()
    ensures I63 + 22 <= WindowsFactor(SECONDS_PER_YEAR - 1)
  {
    hide WindowsFactor;
    LastSecondIs();
  }

  lemma LastSecondOfBits()
    ensures I63 <= BitFactor(SECONDS_PER_YEAR - 1)
  {
    hide BitFactor, WindowsFactor;
    LastSecondOfWindows();
    FactorsAgree(SECONDS_PER_YEAR - 1);
  }

  lemma BitsAreSteady()
    ensures Steady(BitFactor)
  {
    hide Compound;
    WholeYears();
    YearFits();
    LastSecondOfBits();
    forall r | 0 <= r < SECONDS_PER_YEAR - 1 ensures BitFactor(r + 1) <= BitFactor(r) {
      NextSecondFrom(r, 0);
    }
    SteadyWhen(BitFactor);
  }

  lemma WindowsAreSteady()
    ensures Steady(WindowsFactor)
  {
    hide WindowsFrom;
    WholeYears();
    LastSecondOfWindows();
    assert Room(0) == 33554432;
    forall r | 0 <= r < SECONDS_PER_YEAR - 1 ensures WindowsFactor(r + 1) <= WindowsFactor(r) {
      NextSecondInWindows(r, 0);
    }
    SteadyWhen(WindowsFactor);
  }

  lemma SharesOrdered(amount: nat, f: nat, g: nat)
    requires f <= g
    ensures Share(amount, f) <= Share(amount, g)
  {
    hide Product;
    ProductUpTo(amount, f, amount, g);
  }

  lemma AmountsOrdered(a: nat, b: nat, f: nat)
    requires a <= b
    ensures Share(a, f) <= Share(b, f)
  {
    hide Product;
    ProductUpTo(a, f, b, f);
  }

  /** At least half a unit of every unit: never less than the next whole year leaves. */
  lemma HalfIsLeft(amount: nat, f: nat)
    requires I63 <= f
    ensures amount / 2 <= Share(amount, f)
  {
    hide Product;
    ProductUpTo(amount, I63, amount, f);
    HalfUnits(amount);
  }

  lemma HalfUnits(amount: nat)
    ensures Product(amount, I63) == amount * I63
  {
  }

  lemma QuotientIs(a: nat, b: nat, q: nat, r: nat)
    requires r < b && a == Product(q, b) + r
    ensures a / b == q
  {
    hide Product;
    var x := a / b;
    DivisionSplits(a, b);
    NextMultiple(x, b);
    NextMultiple(q, b);
    if x < q {
      ProductUpTo(x + 1, b, q, b);
      assert false;
    }
    if q < x {
      ProductUpTo(q + 1, b, x, b);
      assert false;
    }
  }

  lemma DivisionSplits(a: nat, b: nat)
    requires 0 < b
    ensures a == Product(a / b, b) + a % b && a % b < b
  {
  }

  lemma NextMultiple(x: nat, b: nat)
    ensures Product(x + 1, b) == Product(x, b) + b
    ensures Product(2 * x, b) == Product(x, 2 * b)
  {
    assert 2 * x * b == x * (2 * b);
  }

  lemma DividedTwice(a: nat, b: nat)
    requires 0 < b
    ensures a / (2 * b) == a / b / 2
  {
    hide Product;
    var q, r := a / b, a % b;
    var h := q / 2;
    DivisionSplits(a, b);
    NextMultiple(h, b);
    NextMultiple(2 * h, b);
    QuotientIs(a, 2 * b, h, if q % 2 == 1 then b + r else r);
  }

  /** The shifts take the power of two out. */
  lemma {:induction false} HalvedIsQuotient(gdd: nat, years: nat)
    ensures Halved(gdd, years) == gdd / Pow2(years)
  {
    if years != 0 {
      HalvedIsQuotient(gdd, years - 1);
      DividedTwice(gdd, Pow2(years - 1));
    }
  }

  /** One second more never leaves more, at the end of a year neither. */
  lemma NextSecond(factor: nat -> nat, gdd: nat, duration: nat)
    requires Steady(factor)
    ensures DecayBy(factor, gdd, duration + 1) <= DecayBy(factor, gdd, duration)
  {
    hide Share;
    var years, r := duration / SECONDS_PER_YEAR, duration % SECONDS_PER_YEAR;
    var left := Halved(gdd, years);
    if r < SECONDS_PER_YEAR - 1 {
      SharesOrdered(left, factor(r + 1), factor(r));
    } else {
      assert Halved(gdd, years + 1) == left / 2;
      ShareShrinks(left / 2, W64);
      HalfIsLeft(left, factor(r));
    }
  }

  /** What is left of an amount never grows with the duration, whatever the years between. */
  lemma {:induction false} DecayNeverGrows(factor: nat -> nat, gdd: nat, d: nat, e: nat)
    requires Steady(factor) && d <= e
    ensures DecayBy(factor, gdd, e) <= DecayBy(factor, gdd, d)
    decreases e - d
  {
    hide DecayBy, Steady;
    if d < e {
      DecayNeverGrows(factor, gdd, d, e - 1);
      NextSecond(factor, gdd, e - 1);
    }
  }

  /** Both programs: never more than there was, and never more for a longer time or a smaller amount. */
  lemma DecayIsMonotone(gdd: Amount, less: Amount, d: Seconds, e: Seconds)
    requires d <= e && less <= gdd
    ensures DecayBy(BitFactor, less, e) <= DecayBy(BitFactor, gdd, d) <= gdd
    ensures DecayBy(WindowsFactor, less, e) <= DecayBy(WindowsFactor, gdd, d) <= gdd
  {
    hide DecayBy, Steady;
    BitsAreSteady();
    WindowsAreSteady();
    DecayNeverGrows(BitFactor, gdd, d, e);
    DecayNeverGrows(BitFactor, gdd, 0, d);
    DecayNeverGrows(WindowsFactor, gdd, d, e);
    DecayNeverGrows(WindowsFactor, gdd, 0, d);
    NothingPasses(BitFactor, gdd);
    NothingPasses(WindowsFactor, gdd);
    SmallerAmount(BitFactor, less, gdd, e);
    SmallerAmount(WindowsFactor, less, gdd, e);
  }

  lemma NothingPasses(factor: nat -> nat, gdd: nat)
    requires Steady(factor)
    ensures DecayBy(factor, gdd, 0) == gdd
  {
    hide Share, Halved;
    HalvedShrinks(gdd, 0);
    ShareShrinks(gdd, W64);
  }

  lemma SmallerAmount(factor: nat -> nat, less: nat, gdd: nat, d: nat)
    requires less <= gdd
    ensures DecayBy(factor, less, d) <= DecayBy(factor, gdd, d)
  {
    hide Share, Halved;
    HalvedOrdered(less, gdd, d / SECONDS_PER_YEAR);
    AmountsOrdered(Halved(less, d / SECONDS_PER_YEAR), Halved(gdd, d / SECONDS_PER_YEAR), factor(d % SECONDS_PER_YEAR));
  }

  lemma {:induction false} HalvedOrdered(a: nat, b: nat, years: nat)
    requires a <= b
    ensures Halved(a, years) <= Halved(b, years)
  {
    if years != 0 { HalvedOrdered(a, b, years - 1); }
  }
}
