/**
 How far the truncated factors are from the exact ones, in units of 2^-64: from the product of the
 powers they select, and from the power of the factor of one second.
 */
module DecayError {
  import opened Words
  import opened FixedPoint
  import opened DecayTables
  import opened Decay

  // ----- products with nothing dropped

  /** 1, in units of 2^-64. */
  const UNIT: real := 18446744073709551616.0
  /** What one truncation can take. */
  const LOSS: real := 18446744073709551615.0 / 18446744073709551616.0

  function Scaled(x: real, y: real): real {
    x * y / 18446744073709551616.0
  }

  lemma ScaledUpTo(x: real, y: real, u: real, v: real)
    requires 0.0 <= x <= u && 0.0 <= y <= v
    ensures 0.0 <= Scaled(x, y) <= Scaled(u, v)
  {
    assert x * y <= u * y;
    assert u * y <= u * v;
  }

  lemma ScaledOne(x: real)
    ensures Scaled(x, UNIT) == x && Scaled(UNIT, x) == x
  {
  }

  lemma ScaledOrder(x: real, y: real, z: real)
    ensures Scaled(Scaled(x, y), z) == Scaled(x, Scaled(y, z))
    ensures Scaled(x, y) == Scaled(y, x)
  {
    var m := 18446744073709551616.0;
    assert Scaled(Scaled(x, y), z) == x * y * z / m / m;
    assert Scaled(x, Scaled(y, z)) == x * (y * z) / m / m;
  }

  /** What two factors lack adds up at most. */
  lemma ScaledLoss(x: real, d: real, f: real, y: real, e: real, w: real)
    requires x - d <= f <= x <= UNIT && y - e <= w <= y <= UNIT && 0.0 <= d && 0.0 <= e && 0.0 <= f && 0.0 <= w
    ensures Scaled(x, y) - (d + e) <= Scaled(f, w) <= Scaled(x, y)
  {
    ScaledUpTo(f, w, x, y);
    LossOfProduct(x, d, f, y, e, w);
  }

  lemma TimesUpTo(a: real, b: real, c: real)
    requires 0.0 <= a && b <= c
    ensures a * b <= a * c
  {
    var more := c - b;
    assert 0.0 <= a * more;
    assert a * c == a * b + a * more;
  }

  lemma OneLoss(x: real, d: real, f: real, y: real)
    requires x - d <= f && 0.0 <= d && 0.0 <= y <= UNIT
    ensures x * y - d * 18446744073709551616.0 <= f * y
  {
    TimesUpTo(y, x - d, f);
    assert x * y - d * y <= f * y;
    TimesUpTo(d, y, 18446744073709551616.0);
    Chained(x * y, d * y, f * y, d);
  }

  lemma Chained(xy: real, dy: real, fy: real, d: real)
    requires xy - dy <= fy && dy <= d * 18446744073709551616.0
    ensures xy - d * 18446744073709551616.0 <= fy
  {
  }

  lemma LossOfProduct(x: real, d: real, f: real, y: real, e: real, w: real)
    requires x - d <= f <= UNIT && y - e <= w && y <= UNIT && 0.0 <= d && 0.0 <= e && 0.0 <= f && 0.0 <= y
    ensures x * y - (d + e) * 18446744073709551616.0 <= f * w
  {
    OneLoss(x, d, f, y);
    OneLoss(y, e, w, f);
    Summed(x * y, f * y, f * w, d, e);
  }

  lemma Summed(xy: real, fy: real, fw: real, d: real, e: real)
    requires xy - d * 18446744073709551616.0 <= fy && fy - e * 18446744073709551616.0 <= fw
    ensures xy - (d + e) * 18446744073709551616.0 <= fw
  {
  }

  /** A truncated product is below the exact one by less than a unit. */
  lemma Truncated(f: nat, w: nat)
    ensures Scaled(f as real, w as real) - LOSS <= Times(f, w) as real <= Scaled(f as real, w as real)
  {
    var p := f * w;
    assert p as real == f as real * w as real;
    Divided(p, p / W64);
  }

  lemma Divided(p: nat, t: nat)
    requires t == p / W64
    ensures p as real / 18446744073709551616.0 - LOSS <= t as real <= p as real / 18446744073709551616.0
  {
    assert t * W64 <= p <= t * W64 + W64 - 1;
    assert (t * W64) as real == t as real * 18446744073709551616.0;
  }

  lemma TruncatedLoss(f: nat, x: real, d: real, w: nat, y: real, e: real)
    requires x - d <= f as real <= x <= UNIT && y - e <= w as real <= y <= UNIT && 0.0 <= d && 0.0 <= e
    ensures Scaled(x, y) - (d + e + LOSS) <= Times(f, w) as real <= Scaled(x, y)
  {
    hide Times, Scaled;
    Truncated(f, w);
    ScaledLoss(x, d, f as real, y, e, w as real);
  }

  function Ones(bits: nat): nat {
    if bits == 0 then 0 else bits % 2 + Ones(bits / 2)
  }

  function P(i: nat): real
    requires i < BITS
  {
    Power(i) as real
  }

  lemma PowerBelowUnit(i: nat)
    requires i < BITS
    ensures 0.0 <= P(i) <= UNIT
  {
    hide Power;
  }

  /** The product of the powers that the set bits select. */
  function Exact(bits: nat, i: nat): real
    decreases bits
  {
    if bits == 0 || BITS <= i then UNIT
    else
      var rest := Exact(bits / 2, i + 1);
      if bits % 2 == 1 then Scaled(P(i), rest) else rest
  }

  lemma {:induction false} ExactBelowUnit(bits: nat, i: nat)
    ensures 0.0 <= Exact(bits, i) <= UNIT
    decreases bits
  {
    hide P, Scaled;
    if bits != 0 && i < BITS {
      ExactBelowUnit(bits / 2, i + 1);
      PowerBelowUnit(i);
      ScaledUpTo(P(i), Exact(bits / 2, i + 1), UNIT, UNIT);
      ScaledOne(UNIT);
    }
  }

  // ----- the bit chain

  /** What n truncations can take. */
  function Lost(n: int): real {
    n as real * LOSS
  }

  lemma {:induction false} CompoundError(bits: nat, i: nat, f: nat, x: real, e: real)
    requires x - e <= f as real <= x <= UNIT && 0.0 <= e
    ensures Scaled(x, Exact(bits, i)) - (e + Lost(Ones(bits)))
              <= Compound(bits, i, f) as real <= Scaled(x, Exact(bits, i))
    decreases bits
  {
    hide Times, Power, Scaled;
    if bits == 0 || BITS <= i {
      ScaledOne(x);
    } else if bits % 2 == 1 {
      PowerBelowUnit(i);
      TruncatedLoss(f, x, e, Power(i), P(i), 0.0);
      ScaledUpTo(x, P(i), UNIT, UNIT);
      ScaledOne(UNIT);
      CompoundError(bits / 2, i + 1, Times(f, Power(i)), Scaled(x, P(i)), e + LOSS);
      ScaledOrder(x, P(i), Exact(bits / 2, i + 1));
    } else {
      CompoundError(bits / 2, i + 1, f, x, e);
    }
  }

  /** From exactly 1 the first power is taken over whole. */
  lemma {:induction false} ChainError(bits: nat, i: nat)
    requires 0 < bits
    ensures Exact(bits, i) - Lost(Ones(bits) - 1) <= Compound(bits, i, W64) as real <= Exact(bits, i)
    decreases bits
  {
    hide Times, Power, Scaled;
    OnesPositive(bits);
    if i < BITS {
      if bits % 2 == 1 {
        TimesOne(Power(i));
        PowerBelowUnit(i);
        CompoundError(bits / 2, i + 1, Power(i), P(i), 0.0);
      } else {
        ChainError(bits / 2, i + 1);
      }
    }
  }

  lemma {:induction false} OnesPositive(bits: nat)
    requires 0 < bits
    ensures 1 <= Ones(bits)
  {
    if bits % 2 == 0 { OnesPositive(bits / 2); }
  }

  lemma {:induction false} OnesUpTo(bits: nat, n: nat)
    requires bits < Pow2(n)
    ensures Ones(bits) <= n
    ensures bits < Pow2(n) - 1 ==> Ones(bits) <= n - 1
  {
    if bits != 0 { OnesUpTo(bits / 2, n - 1); }
  }

  /** The bit-chain factor is less than 24 units below the exact product, and never above it. */
  lemma BitFactorError(r: nat)
    requires r < SECONDS_PER_YEAR
    ensures Exact(r, 0) - Lost(23) <= BitFactor(r) as real <= Exact(r, 0)
  {
    hide Compound, Exact;
    YearFits();
    if r == 0 {
      NothingExact(0);
      NoBits(0, 0, W64);
    } else {
      ChainError(r, 0);
      OnesUpTo(r, SECOND_BITS);
    }
  }

  lemma NothingExact(i: nat)
    ensures Exact(0, i) == UNIT
  {
  }

  // ----- the windows

  /** The lower m bits and the rest, apart. */
  lemma {:induction false} SplitBits(c: nat, h: nat, m: nat, i: nat)
    requires c < Pow2(m) && i + m <= BITS
    ensures Exact(c + Pow2(m) * h, i) == Scaled(Exact(c, i), Exact(h, i + m))
    ensures Ones(c + Pow2(m) * h) == Ones(c) + Ones(h)
    decreases m
  {
    hide P, Scaled, Power, Exact, Ones;
    if m == 0 {
      NothingExact(i);
      NoOnes();
      ScaledOne(Exact(h, i));
    } else {
      var half := Pow2(m - 1);
      assert Pow2(m) * h == 2 * (half * h);
      SplitBits(c / 2, h, m - 1, i + 1);
      ExactStep(c, i);
      ExactStep(c + Pow2(m) * h, i);
      assert (c + Pow2(m) * h) / 2 == c / 2 + half * h;
      ScaledOrder(P(i), Exact(c / 2, i + 1), Exact(h, i + m));
    }
  }

  lemma ExactStep(bits: nat, i: nat)
    requires i < BITS
    ensures Exact(bits, i) == if bits % 2 == 1 then Scaled(P(i), Exact(bits / 2, i + 1)) else Exact(bits / 2, i + 1)
    ensures Ones(bits) == bits % 2 + Ones(bits / 2)
  {
  }

  lemma SplitWindow(r: nat, j: nat)
    requires j < WINDOWS
    ensures Exact(r, 5 * j) == Scaled(Exact(r % 32, 5 * j), Exact(r / 32, 5 * j + 5))
    ensures Ones(r) == Ones(r % 32) + Ones(r / 32)
  {
    hide Exact, Ones, Scaled;
    SmallPowers();
    SplitBits(r % 32, r / 32, 5, 5 * j);
  }

  lemma WindowError(j: nat, c: nat)
    requires j < WINDOWS && 0 < c < WINDOW_SIZE
    ensures Exact(c, 5 * j) - Lost(Ones(c) - 1) <= WindowFactor(j, c) as real <= Exact(c, 5 * j) <= UNIT
    ensures 0.0 <= Lost(Ones(c) - 1)
  {
    hide Exact, WindowFactor, Compound;
    WindowsAreChains(j, c);
    ChainError(c, 5 * j);
    ExactBelowUnit(c, 5 * j);
    OnesPositive(c);
  }

  lemma {:induction false} WindowsFromError(r: nat, j: nat, f: nat, x: real, e: real)
    requires j <= WINDOWS && r < Room(j) && x - e <= f as real <= x <= UNIT && 0.0 <= e
    ensures Scaled(x, Exact(r, 5 * j)) - (e + Lost(Ones(r))) <= WindowsFrom(r, j, f) as real
         <= Scaled(x, Exact(r, 5 * j))
    decreases WINDOWS - j
  {
    hide Times, Scaled, Exact, Ones, WindowFactor;
    if j == WINDOWS {
      NothingExact(5 * j);
      ScaledOne(x);
      NoOnes();
    } else {
      var c, rest := r % WINDOW_SIZE, r / WINDOW_SIZE;
      SplitWindow(r, j);
      ScaledOrder(x, Exact(c, 5 * j), Exact(rest, 5 * j + 5));
      if c == 0 {
        NoDigit(j, f);
        ScaledOne(x);
        WindowsFromError(rest, j + 1, f, x, e);
      } else {
        WindowError(j, c);
        ScaledUpTo(x, Exact(c, 5 * j), UNIT, UNIT);
        ScaledOne(UNIT);
        TruncatedLoss(f, x, e, WindowFactor(j, c), Exact(c, 5 * j), Lost(Ones(c) - 1));
        LostSum(Ones(c) - 1, Ones(rest));
        WindowsFromError(rest, j + 1, Times(f, WindowFactor(j, c)), Scaled(x, Exact(c, 5 * j)), e + Lost(Ones(c)));
      }
    }
  }

  lemma NoOnes()
    ensures Ones(0) == 0 && Lost(0) == 0.0
  {
  }

  lemma LostSum(m: nat, n: nat)
    ensures Lost(m) + LOSS == Lost(m + 1)
    ensures Lost(m + 1) + Lost(n) == Lost(m + 1 + n)
    ensures 0.0 <= Lost(m)
  {
  }

  /** An empty window takes nothing. */
  lemma NoDigit(j: nat, f: nat)
    requires j < WINDOWS
    ensures Times(f, WindowFactor(j, 0)) == f
    ensures Exact(0, 5 * j) == UNIT && Ones(0) == 0
  {
    TimesOne(f);
  }

  /** From exactly 1 the first window that is not empty is taken over whole. */
  lemma {:induction false} WindowChainError(r: nat, j: nat)
    requires j <= WINDOWS && 0 < r < Room(j)
    ensures Exact(r, 5 * j) - Lost(Ones(r) - 1) <= WindowsFrom(r, j, W64) as real <= Exact(r, 5 * j)
    decreases WINDOWS - j
  {
    hide Times, Scaled, Exact, Ones, WindowFactor;
    var c, rest := r % WINDOW_SIZE, r / WINDOW_SIZE;
    SplitWindow(r, j);
    if c == 0 {
      NoDigit(j, W64);
      ScaledOne(Exact(rest, 5 * j + 5));
      WindowChainError(rest, j + 1);
    } else {
      WindowError(j, c);
      TimesOne(WindowFactor(j, c));
      LostSum(Ones(c) - 1, Ones(rest));
      WindowsFromError(rest, j + 1, WindowFactor(j, c), Exact(c, 5 * j), Lost(Ones(c) - 1));
    }
  }

  /** The windowed factor is less than 24 units below the exact product, and never above it. */
  lemma WindowsFactorError(r: nat)
    requires r < SECONDS_PER_YEAR
    ensures Exact(r, 0) - Lost(23) <= WindowsFactor(r) as real <= Exact(r, 0)
  {
    hide WindowsFrom, Exact;
    YearFits();
    assert Room(0) == 33554432;
    if r == 0 {
      NothingExact(0);
      WholeYears();
    } else {
      WindowChainError(r, 0);
      OnesUpTo(r, SECOND_BITS);
    }
  }

  // ----- how far the two are apart

  /** The two factors of any part of a year differ by at most 22 units. */
  lemma FactorsAgree(r: nat)
    requires r < SECONDS_PER_YEAR
    ensures -22 <= BitFactor(r) - WindowsFactor(r) <= 22
  {
    hide BitFactor, WindowsFactor;
    BitFactorError(r);
    WindowsFactorError(r);
    assert Lost(23) < 23.0;
  }
}
