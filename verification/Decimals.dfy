/** Decimal digits: what they write and what they are worth. */
module Decimals {
  import opened Words

  predicate IsDigit(c: char) {
    '0' <= c <= '9'
  }

  predicate IsNumeric(s: string) {
    forall i :: 0 <= i < |s| ==> IsDigit(s[i])
  }

  function DigitChar(d: nat): (c: char)
    requires d < 10
    ensures IsDigit(c) && DigitValue(c) == d
  {
    (48 + d) as char
  }

  function DigitValue(c: char): (d: nat)
    requires IsDigit(c)
    ensures d < 10
  {
    c as int - 48
  }

  function Ten(n: nat): (t: nat)
    ensures 0 < t
  {
    if n == 0 then 1 else 10 * Ten(n - 1)
  }

  /** What digits are worth, the last one counting ones. */
  function NatOf(s: string): nat
    requires IsNumeric(s)
  {
    if s == "" then 0 else 10 * NatOf(s[..|s| - 1]) + DigitValue(s[|s| - 1])
  }

  /** Digits are the characters 48 to 57; one more makes ten of what was and adds its own value. */
  lemma OneDigitMore(s: string, c: char)
    requires IsNumeric(s)
    ensures IsDigit(c) <==> 48 <= c as int <= 57
    ensures NatOf("") == 0 && (IsDigit(c) ==> NatOf(s + [c]) == 10 * NatOf(s) + (c as int - 48))
  {
    assert (s + [c])[..|s|] == s;
  }

  /** A number written without leading zeros. */
  function Digits(n: nat): (s: string)
    ensures 1 <= |s| && IsNumeric(s)
  {
    if n < 10 then [DigitChar(n)] else Digits(n / 10) + [DigitChar(n % 10)]
  }

  lemma {:induction false} DigitsAreWorth(n: nat)
    ensures NatOf(Digits(n)) == n
  {
    if n < 10 {
      assert NatOf("") == 0 && Digits(n)[..0] == "";
    } else {
      DigitsAreWorth(n / 10);
      assert Digits(n)[..|Digits(n)| - 1] == Digits(n / 10);
    }
  }

  lemma {:induction false} DigitsAreFew(n: nat, k: nat)
    requires n < Ten(k) && 1 <= k
    ensures |Digits(n)| <= k
    ensures Ten(k - 1) <= n ==> |Digits(n)| == k
  {
    if 10 <= n {
      DigitsAreFew(n / 10, k - 1);
    }
  }

  /** Four digits, leading zeros and all. */
  function Four(n: nat): (s: string)
    requires n < 10000
    ensures |s| == 4 && IsNumeric(s)
  {
    [DigitChar(n / 1000), DigitChar(n / 100 % 10), DigitChar(n / 10 % 10), DigitChar(n % 10)]
  }

  function Zeros(n: nat): (s: string)
    ensures |s| == n && IsNumeric(s)
  {
    seq(n, _ => '0')
  }

  /** Leading zeros up to five digits: then the last four are the fraction. */
  function Padded(s: string): string {
    if |s| < 5 then Zeros(5 - |s|) + s else s
  }

  lemma LastDigit(n: nat)
    requires 10 <= n
    ensures Digits(n) == Digits(n / 10) + [DigitChar(n % 10)]
  {
  }

  lemma FourOf(m: nat)
    ensures Four(m % 10000)
         == [DigitChar(m / 1000 % 10), DigitChar(m / 100 % 10), DigitChar(m / 10 % 10), DigitChar(m % 10)]
  {
    hide DigitChar;
    Tails(m, m / 10000, m % 10000);
  }

  lemma Tails(m: nat, h: nat, r: nat)
    requires m == 10000 * h + r && r < 10000
    ensures r / 1000 == m / 1000 % 10 && r / 100 % 10 == m / 100 % 10
    ensures r / 10 % 10 == m / 10 % 10 && r % 10 == m % 10
  {
    Shifted10(m, h, r);
    Shifted100(m, h, r);
    Shifted1000(m, h, r);
    LastOf(h, r / 1000);
    LastOf(10 * h, r / 100);
    LastOf(100 * h, r / 10);
  }

  lemma LastOf(k: nat, x: nat)
    ensures (10 * k + x) % 10 == x % 10
  {
  }

  lemma Shifted10(m: nat, h: nat, r: nat)
    requires m == 10000 * h + r
    ensures m / 10 == 1000 * h + r / 10
    ensures m % 10 == r % 10
  {
  }

  lemma Shifted100(m: nat, h: nat, r: nat)
    requires m == 10000 * h + r
    ensures m / 100 == 100 * h + r / 100
    ensures m % 100 == r % 100
  {
  }

  lemma Shifted1000(m: nat, h: nat, r: nat)
    requires m == 10000 * h + r
    ensures m / 1000 == 10 * h + r / 1000
    ensures m % 1000 == r % 1000
  {
  }

  lemma FourJoined(s: string, w: char, x: char, y: char, z: char)
    ensures s + [w] + [x] + [y] + [z] == s + [w, x, y, z]
  {
  }

  /** The digits of a number, filled up to five, are those of its whole part and the four of its fraction. */
  lemma PaddedSplits(m: nat)
    ensures Padded(Digits(m)) == Digits(m / 10000) + Four(m % 10000)
  {
    hide Digits, DigitChar, Four;
    if m < 10000 {
      FewDigits(m);
    } else {
      LastDigit(m);
      LastDigit(m / 10);
      LastDigit(m / 100);
      LastDigit(m / 1000);
      FourOf(m);
      FourJoined(Digits(m / 10000), DigitChar(m / 1000 % 10), DigitChar(m / 100 % 10), DigitChar(m / 10 % 10),
                 DigitChar(m % 10));
      Tenths(m);
    }
  }

  lemma Tenths(m: nat)
    ensures m / 10 / 10 == m / 100 && m / 100 / 10 == m / 1000 && m / 1000 / 10 == m / 10000
  {
  }

  lemma OnlyDigit(n: nat)
    requires n < 10
    ensures Digits(n) == [DigitChar(n)] && DigitChar(0) == '0'
  {
  }

  lemma FewDigits(m: nat)
    requires m < 10000
    ensures Padded(Digits(m)) == Digits(0) + Four(m)
  {
    hide Digits, DigitChar;
    OnlyDigit(0);
    if m < 10 {
      OnlyDigit(m);
    } else if m < 100 {
      LastDigit(m);
      OnlyDigit(m / 10);
    } else if m < 1000 {
      ThreeDigits(m);
    } else {
      FourDigits(m);
    }
  }

  lemma ThreeDigits(m: nat)
    requires 100 <= m < 1000
    ensures Digits(m) == Four(m)[1..] && Four(m)[0] == '0'
  {
    hide Digits, DigitChar;
    LastDigit(m);
    LastDigit(m / 10);
    Tenths(m);
    OnlyDigit(m / 100);
    OnlyDigit(0);
  }

  lemma FourDigits(m: nat)
    requires 1000 <= m < 10000
    ensures Digits(m) == Four(m)
  {
    hide Digits, DigitChar;
    LastDigit(m);
    LastDigit(m / 10);
    LastDigit(m / 100);
    Tenths(m);
    OnlyDigit(m / 1000);
  }

  lemma TenTimes(n: nat, t: nat)
    ensures n * (10 * t) == 10 * (n * t)
  {
  }

  lemma {:induction false} NatOfJoined(a: string, b: string)
    requires IsNumeric(a) && IsNumeric(b)
    ensures IsNumeric(a + b)
    ensures NatOf(a + b) == NatOf(a) * Ten(|b|) + NatOf(b)
  {
    if b == "" {
      assert a + b == a;
    } else {
      var init := b[..|b| - 1];
      NatOfJoined(a, init);
      assert (a + b)[..|a + b| - 1] == a + init;
      TenTimes(NatOf(a), Ten(|init|));
    }
  }

  lemma {:induction false} NatOfBelow(s: string)
    requires IsNumeric(s)
    ensures NatOf(s) < Ten(|s|)
  {
    if s != "" { NatOfBelow(s[..|s| - 1]); }
  }

  // ----- a fraction as ten-thousandths

  /** The first four digits, zeros behind them if there are fewer; the fifth rounds up from 5 on. */
  function TenThousandths(fraction: string): (u: nat)
    requires IsNumeric(fraction)
  {
    if |fraction| <= 4 then NatOf(fraction) * Ten(4 - |fraction|)
    else NatOf(fraction[..4]) + if DigitValue(fraction[4]) >= 5 then 1 else 0
  }

  lemma SmallTens()
    ensures Ten(0) == 1 && Ten(1) == 10 && Ten(2) == 100 && Ten(3) == 1000 && Ten(4) == 10000 && Ten(5) == 100000
  {
  }

  lemma TenThousandthsFit(fraction: string)
    requires IsNumeric(fraction)
    ensures TenThousandths(fraction) <= 10000
    ensures |fraction| <= 4 ==> TenThousandths(fraction) < 10000
  {
    SmallTens();
    var f := fraction;
    if |f| <= 4 {
      NatOfBelow(f);
    } else {
      NatOfBelow(f[..4]);
    }
  }

  /** The rounding of the whole fraction, however long, to the nearest ten-thousandth, a half going up. */
  lemma RoundsHalfUp(fraction: string)
    requires IsNumeric(fraction)
    ensures var n, t := NatOf(fraction), Ten(|fraction|);
            TenThousandths(fraction) * (2 * t) <= 2 * n * 10000 + t < (TenThousandths(fraction) + 1) * (2 * t)
  {
    if |fraction| <= 4 {
      ShortFraction(fraction);
    } else {
      LongFraction(fraction);
    }
  }

  lemma LongFraction(fraction: string)
    requires IsNumeric(fraction) && 4 < |fraction|
    ensures var n, t := NatOf(fraction), Ten(|fraction|);
            TenThousandths(fraction) * (2 * t) <= 2 * n * 10000 + t < (TenThousandths(fraction) + 1) * (2 * t)
  {
    hide NatOf, Ten;
    var first, digit, rest := fraction[..4], fraction[4..5], fraction[5..];
    assert fraction == first + (digit + rest);
    NatOfJoined(first, digit + rest);
    NatOfJoined(digit, rest);
    NatOfBelow(rest);
    OneDigit(digit);
    TenMore(|rest|);
    FifthDigitDecides(NatOf(first), DigitValue(fraction[4]), NatOf(rest), Ten(|rest|), NatOf(fraction),
        Ten(|fraction|));
  }

  lemma TenMore(n: nat)
    ensures Ten(n + 1) == 10 * Ten(n) && Ten(n + 5) == 100000 * Ten(n)
  {
    assert Ten(n + 5) == 10 * Ten(n + 4) && Ten(n + 4) == 10 * Ten(n + 3) && Ten(n + 3) == 10 * Ten(n + 2);
  }

  lemma OneDigit(s: string)
    requires IsNumeric(s) && |s| == 1
    ensures NatOf(s) == DigitValue(s[0])
  {
    assert s[..0] == "";
  }

  lemma ShortFraction(fraction: string)
    requires IsNumeric(fraction) && |fraction| <= 4
    ensures var n, t := NatOf(fraction), Ten(|fraction|);
            n * Ten(4 - |fraction|) * (2 * t) <= 2 * n * 10000 + t < (n * Ten(4 - |fraction|) + 1) * (2 * t)
  {
    SmallTens();
  }

  lemma Multiple(n: nat, t: nat)
    ensures n * (200000 * t) == 200000 * (n * t)
  {
  }

  lemma FifthDigitDecides(n: nat, d: nat, rest: nat, t: nat, all: nat, scale: nat)
    requires d < 10 && rest < t && scale == 100000 * t && all == n * (10 * t) + (d * t + rest)
    ensures var u := n + if d >= 5 then 1 else 0;
            u * (2 * scale) <= 2 * all * 10000 + scale < (u + 1) * (2 * scale)
  {
    TenTimes(n, t);
    Multiple(n, t);
    Multiple(n + 1, t);
    DigitTimes(d, t);
    Decided(n * t, d, d * t, rest, t);
    assert (n + 1) * t == n * t + t && (n + 2) * t == n * t + 2 * t;
    Multiple(n + 2, t);
  }

  lemma DigitTimes(d: nat, t: nat)
    requires d < 10
    ensures if d >= 5 then 5 * t <= d * t <= 9 * t else d * t <= 4 * t
  {
  }

  lemma Decided(nt: nat, d: nat, dt: nat, rest: nat, t: nat)
    requires rest < t && if d >= 5 then 5 * t <= dt <= 9 * t else dt <= 4 * t
    ensures var up, all := if d >= 5 then 1 else 0, 10 * nt + (dt + rest);
            200000 * (nt + up * t) <= 20000 * all + 100000 * t < 200000 * (nt + (up + 1) * t)
  {
  }
}
