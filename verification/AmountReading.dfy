/** Amounts read from text: whole units with up to four decimal places, kept as a count of ten-thousandths. */
module AmountReading {
  import opened Words
  import opened Decimals

  const SCALE := 10000
  /** The largest whole part whose ten-thousandths fit 64 bits whatever follows the point. */
  const WHOLE_MAX := 922337203685476

  // ----- what a text is made of

  /**
   A minus of the reader's own, then whatever the C library takes as an integer - blanks, a sign of
   its own and digits - and a fraction.
   */
  datatype Parts = Parts(minus: bool, spaces: string, sign: string, digits: string, point: bool, fraction: string)

  function Text(p: Parts): string {
    (if p.minus then "-" else "") + (p.spaces + (p.sign + (p.digits + Tail(p.point, p.fraction))))
  }

  function Tail(point: bool, fraction: string): string {
    if point then "." + fraction else ""
  }

  predicate IsSpace(c: char) {
    c == ' ' || '\t' <= c <= '\r'
  }

  predicate IsBlank(s: string) {
    forall i :: 0 <= i < |s| ==> IsSpace(s[i])
  }

  predicate WellFormed(p: Parts) {
    && IsBlank(p.spaces) && (p.sign == "" || p.sign == "+" || p.sign == "-")
    && IsNumeric(p.digits) && IsNumeric(p.fraction) && (!p.point ==> p.fraction == "")
    && (p.digits == "" ==> p.spaces == "" && p.sign == "" && p.point)
    && (p.spaces == "" && p.sign == "-" ==> p.minus)
  }

  /** The same on characters: blanks are 9 to 13 and 32, the sign is none, a plus or a minus. */
  lemma WellFormedSays(p: Parts)
    ensures WellFormed(p) <==>
              && (forall i :: 0 <= i < |p.spaces| ==> p.spaces[i] as int == 32 || 9 <= p.spaces[i] as int <= 13)
              && (p.sign == "" || p.sign == [43 as char] || p.sign == [45 as char])
              && (forall i :: 0 <= i < |p.digits| ==> 48 <= p.digits[i] as int <= 57)
              && (forall i :: 0 <= i < |p.fraction| ==> 48 <= p.fraction[i] as int <= 57)
              // no fraction without a point, nothing but a point and a fraction where there are no digits
              && (!p.point ==> p.fraction == "") && (p.digits == "" ==> p.spaces == p.sign == "" && p.point)
              // the first minus is the reader's own
              && (p.spaces == "" && p.sign == [45 as char] ==> p.minus)
  {
  }

  /** What the C library makes of an integer: the nearest one it can hold. */
  function Clamped(n: int): int64 {
    if n < -I63 then -I63 else if n < I63 then n else I63 - 1
  }

  function Whole(p: Parts): int64
    requires WellFormed(p)
  {
    Clamped(if p.sign == "-" then -(NatOf(p.digits) as int) else NatOf(p.digits))
  }

  /**
   The amount, if its whole part is not too large: the fraction is added to the signed whole part, and
   the reader's minus then applied to the sum.
   */
  function AmountOf(p: Parts): Option<int>
    requires WellFormed(p)
  {
    var fraction := TenThousandths(p.fraction);
    var whole := Whole(p) + fraction / SCALE;
    if whole > WHOLE_MAX || whole < -WHOLE_MAX then None
    else Some((if p.minus then -1 else 1) * (whole * SCALE + fraction % SCALE))
  }

  /** What the text says: its digits to the nearest ten-thousandth, with the signs it carries. */
  function Meaning(p: Parts): int
    requires WellFormed(p)
  {
    var magnitude := NatOf(p.digits) * SCALE + TenThousandths(p.fraction);
    if p.minus != (p.sign == "-") then -magnitude else magnitude
  }

  /**
   The amount read is the one the text says exactly when the C library sees no minus or the fraction
   rounds to nothing: behind a minus of the library's own the fraction counts the wrong way.
   */
  lemma ReadsWhatItSays(p: Parts)
    requires WellFormed(p) && AmountOf(p).Some?
    ensures AmountOf(p).value == Meaning(p) <==> p.sign != "-" || TenThousandths(p.fraction) == 0
  {
    hide NatOf, TenThousandths;
    TenThousandthsFit(p.fraction);
  }

  /** A text of such parts is refused exactly when its whole part, the carry of the fraction added, is too large. */
  lemma RefusedWhen(p: Parts)
    requires WellFormed(p)
    ensures var n, carry := NatOf(p.digits) as int, TenThousandths(p.fraction) / 10000;
            AmountOf(p).None? <==> 922337203685476 < if p.sign == "-" then n - carry else n + carry
  {
    hide NatOf, TenThousandths;
    TenThousandthsFit(p.fraction);
  }

  /** Of a text like " -1.5" the amount is minus a half. */
  lemma BlankBeforeMinus()
    ensures var p := Parts(false, " ", "-", "1", true, "5");
            Text(p) == " -1.5" && WellFormed(p) && Meaning(p) == -15000 && AmountOf(p) == Some(-5000)
  {
    assert NatOf("1") == 10 * NatOf("") + 1 && NatOf("5") == 10 * NatOf("") + 5;
    SmallTens();
  }

  // ----- taking a text apart

  function CountSpaces(s: string): (n: nat)
    ensures n <= |s| && IsBlank(s[..n])
    ensures n < |s| ==> !IsSpace(s[n])
  {
    if s == "" || !IsSpace(s[0]) then 0
    else
      var n := 1 + CountSpaces(s[1..]);
      assert s[..n] == [s[0]] + s[1..][..n - 1];
      n
  }

  function CountDigits(s: string): (n: nat)
    ensures n <= |s| && IsNumeric(s[..n])
    ensures n < |s| ==> !IsDigit(s[n])
  {
    if s == "" || !IsDigit(s[0]) then 0
    else
      var n := 1 + CountDigits(s[1..]);
      assert s[..n] == [s[0]] + s[1..][..n - 1];
      n
  }

  lemma {:induction false} SpacesAre(a: string, b: string)
    requires IsBlank(a) && (b != "" ==> !IsSpace(b[0]))
    ensures CountSpaces(a + b) == |a|
  {
    if a != "" {
      assert (a + b)[1..] == a[1..] + b;
      SpacesAre(a[1..], b);
    } else {
      assert a + b == b;
    }
  }

  lemma {:induction false} DigitsAre(a: string, b: string)
    requires IsNumeric(a) && (b != "" ==> !IsDigit(b[0]))
    ensures CountDigits(a + b) == |a|
  {
    if a != "" {
      assert (a + b)[1..] == a[1..] + b;
      DigitsAre(a[1..], b);
    } else {
      assert a + b == b;
    }
  }

  function SignOf(s: string): string {
    if s != "" && (s[0] == '+' || s[0] == '-') then [s[0]] else ""
  }

  /** The fraction and everything behind it. */
  function SplitTail(s: string): Option<(bool, string)> {
    if s == "" then Some((false, ""))
    else if s[0] == '.' && CountDigits(s[1..]) == |s| - 1 then Some((true, s[1..]))
    else None
  }

  function Spaces(a: string): string {
    a[..CountSpaces(a)]
  }

  function Sign(a: string): string {
    SignOf(a[CountSpaces(a)..])
  }

  /** Where the digits begin. */
  function Number(a: string): string {
    a[|Spaces(a)| + |Sign(a)|..]
  }

  function LeadingDigits(a: string): string {
    Number(a)[..CountDigits(Number(a))]
  }

  function Rest(a: string): string {
    Number(a)[CountDigits(Number(a))..]
  }

  /** The text behind the reader's own minus. */
  function Unsigned(s: string): string {
    if s != "" && s[0] == '-' then s[1..] else s
  }

  function Split(s: string): Option<Parts> {
    var a := Unsigned(s);
    var tail := SplitTail(Rest(a));
    if (LeadingDigits(a) == "" && (a == "" || a[0] != '.')) || tail.None? then None
    else Some(Parts(a != s, Spaces(a), Sign(a), LeadingDigits(a), tail.value.0, tail.value.1))
  }

  lemma TailIs(point: bool, fraction: string)
    requires IsNumeric(fraction) && (!point ==> fraction == "")
    ensures SplitTail(Tail(point, fraction)) == Some((point, fraction))
    ensures Tail(point, fraction) != "" ==> Tail(point, fraction)[0] == '.'
  {
    if point {
      assert (fraction + "") == fraction;
      DigitsAre(fraction, "");
      assert ("." + fraction)[1..] == fraction;
    }
  }

  lemma TailFits(s: string)
    ensures match SplitTail(s)
            case Some((point, fraction)) =>
              Tail(point, fraction) == s && IsNumeric(fraction) && (!point ==> fraction == "")
            case None => true
  {
  }

  lemma SignCut(b: string)
    ensures b == SignOf(b) + b[|SignOf(b)|..]
    ensures SignOf(b) == "" || SignOf(b) == "+" || SignOf(b) == "-"
    ensures SignOf(b) != "" ==> b != "" && SignOf(b) == [b[0]]
  {
  }

  lemma Cut(s: string, n: nat)
    requires n <= |s|
    ensures s == s[..n] + s[n..]
  {
  }

  lemma Pieces(a: string)
    ensures a == Spaces(a) + (Sign(a) + (LeadingDigits(a) + Rest(a)))
    ensures IsBlank(Spaces(a)) && IsNumeric(LeadingDigits(a))
    ensures Sign(a) == "" || Sign(a) == "+" || Sign(a) == "-"
    ensures Spaces(a) == "" && Sign(a) != "" ==> a != "" && Sign(a) == [a[0]]
    ensures a != "" && a[0] == '.' ==> Spaces(a) == "" && Sign(a) == "" && LeadingDigits(a) == "" && Rest(a) == a
  {
    hide CountSpaces, CountDigits, SignOf, IsBlank, IsNumeric;
    var b := a[CountSpaces(a)..];
    Cut(a, CountSpaces(a));
    SignCut(b);
    assert b[|Sign(a)|..] == Number(a);
    Cut(Number(a), CountDigits(Number(a)));
    if a != "" && a[0] == '.' { StartsWithPoint(a); }
  }

  lemma StartsWithPoint(a: string)
    requires a != "" && a[0] == '.'
    ensures CountSpaces(a) == 0 && a[0..] == a && SignOf(a) == "" && CountDigits(a) == 0
  {
  }

  lemma PiecesAre(spaces: string, sign: string, digits: string, rest: string)
    requires IsBlank(spaces) && (sign == "" || sign == "+" || sign == "-") && IsNumeric(digits)
    requires (rest != "" ==> rest[0] == '.') && (digits == "" ==> sign == "" && rest != "")
    ensures var a := spaces + (sign + (digits + rest));
            Spaces(a) == spaces && Sign(a) == sign && LeadingDigits(a) == digits && Rest(a) == rest
  {
    hide CountSpaces, CountDigits, Spaces, Sign, Number;
    NumberBegins(digits, rest);
    FrontIs(spaces, sign, digits + rest);
    DigitsAre(digits, rest);
  }

  lemma FrontIs(spaces: string, sign: string, c: string)
    requires IsBlank(spaces) && (sign == "" || sign == "+" || sign == "-")
    requires c != "" && !IsSpace(c[0]) && c[0] != '+' && c[0] != '-'
    ensures var a := spaces + (sign + c);
            Spaces(a) == spaces && Sign(a) == sign && Number(a) == c
  {
    hide CountSpaces, SignOf, IsSpace, IsBlank;
    var b := sign + c;
    SignIs(sign, c);
    SpacesAre(spaces, b);
    assert (spaces + b)[|spaces|..] == b;
    assert (spaces + b)[|spaces| + |sign|..] == b[|sign|..];
  }

  lemma NumberBegins(digits: string, rest: string)
    requires IsNumeric(digits) && (rest != "" ==> rest[0] == '.') && (digits == "" ==> rest != "")
    ensures var c := digits + rest;
            c != "" && !IsSpace(c[0]) && c[0] != '+' && c[0] != '-'
    ensures rest != "" ==> !IsDigit(rest[0])
  {
  }

  lemma SignIs(sign: string, c: string)
    requires (sign == "" || sign == "+" || sign == "-") && c != "" && !IsSpace(c[0]) && c[0] != '+' && c[0] != '-'
    ensures SignOf(sign + c) == sign && (sign + c)[|sign|..] == c
    ensures sign + c != "" && !IsSpace((sign + c)[0])
  {
  }

  lemma UnsignedFits(s: string)
    ensures s == (if Unsigned(s) != s then "-" else "") + Unsigned(s)
    ensures Unsigned(s) == s && s != "" ==> s[0] != '-'
  {
  }

  lemma UnsignedIs(minus: bool, a: string)
    requires !minus && a != "" ==> a[0] != '-'
    ensures var s := (if minus then "-" else "") + a;
            Unsigned(s) == a && (a != s <==> minus)
  {
    if minus {
      assert ("-" + a)[1..] == a;
      assert |"-" + a| == |a| + 1;
    } else {
      assert "" + a == a;
    }
  }

  lemma SplitFits(s: string)
    requires Split(s).Some?
    ensures WellFormed(Split(s).value) && Text(Split(s).value) == s
  {
    hide SplitTail, Tail, Spaces, Sign, LeadingDigits, Rest, Unsigned;
    var a := Unsigned(s);
    UnsignedFits(s);
    Pieces(a);
    TailFits(Rest(a));
    TailOfPoint(Rest(a));
  }

  lemma TailOfPoint(s: string)
    ensures s != "" && SplitTail(s).Some? ==> SplitTail(s).value.0
  {
  }

  lemma SplitIs(p: Parts)
    requires WellFormed(p)
    ensures Split(Text(p)) == Some(p)
  {
    hide SplitTail, Tail, Spaces, Sign, LeadingDigits, Rest, Unsigned, IsBlank, IsNumeric;
    var rest := Tail(p.point, p.fraction);
    var a := p.spaces + (p.sign + (p.digits + rest));
    TailIs(p.point, p.fraction);
    PointIsThere(p.point, p.fraction);
    PiecesAre(p.spaces, p.sign, p.digits, rest);
    Pieces(a);
    BeginsWith(p, a);
    UnsignedIs(p.minus, a);
  }

  lemma PointIsThere(point: bool, fraction: string)
    ensures point ==> Tail(point, fraction) != ""
  {
  }

  /** How the text behind the reader's own minus begins. */
  lemma BeginsWith(p: Parts, a: string)
    requires WellFormed(p) && a == p.spaces + (p.sign + (p.digits + Tail(p.point, p.fraction)))
    ensures !p.minus && a != "" ==> a[0] != '-'
    ensures p.digits == "" ==> a != "" && a[0] == '.'
  {
    if p.spaces != "" {
      assert a[0] == p.spaces[0];
    } else if p.sign != "" {
      assert a[0] == p.sign[0];
    } else if p.digits != "" {
      assert a[0] == p.digits[0];
    } else {
      assert a == Tail(p.point, p.fraction);
    }
  }

  /** Each text comes apart in one way, if any: exactly the well-formed parts that make it up. */
  lemma SplitIsExact(s: string, p: Parts)
    ensures Split(s) == Some(p) <==> WellFormed(p) && Text(p) == s
  {
    hide Split, WellFormed, Text;
    if Split(s) == Some(p) { SplitFits(s); }
    if WellFormed(p) { SplitIs(p); }
  }

  // ----- the reader

  /** The amount a text says, if it says one. */
  function Read(s: string): Option<int> {
    match Split(s)
    case Some(p) =>
      SplitFits(s);
      AmountOf(p)
    case None => None
  }

  /** The character at an index; a C string ends in a zero. */
  function At(s: string, i: nat): char {
    if i < |s| then s[i] else '\0'
  }

  /** The C library's integer: its value and where it ends, which is where it began when there are no digits. */
  function Strtoll(a: string): (r: (int64, nat))
    ensures r.1 <= |a|
    ensures r.1 == if LeadingDigits(a) == "" then 0 else |a| - |Rest(a)|
  {
    if LeadingDigits(a) == "" then (0, 0)
    else (Clamped(if Sign(a) == "-" then -(NatOf(LeadingDigits(a)) as int) else NatOf(LeadingDigits(a))),
        |a| - |Rest(a)|)
  }

  lemma NothingYet(s: string)
    requires IsNumeric(s)
    ensures NatOf(s[..0]) == 0 && Ten(0) == 1
  {
  }

  /** A digit behind digits is one of them. */
  lemma NextDigit(rest: string, k: nat)
    requires k <= CountDigits(rest) && k < |rest| && IsDigit(rest[k])
    ensures k < CountDigits(rest)
    ensures var all := rest[..CountDigits(rest)];
            NatOf(all[..k + 1]) == 10 * NatOf(all[..k]) + DigitValue(rest[k])
  {
    var all := rest[..CountDigits(rest)];
    assert k < CountDigits(rest);
    assert all[..k + 1][..k] == all[..k];
  }

  lemma StopsThere(rest: string, k: nat)
    requires k <= CountDigits(rest) && (k < |rest| ==> !IsDigit(rest[k]))
    ensures k == CountDigits(rest)
  {
    assert rest[..CountDigits(rest)] <= rest;
  }

  lemma TensUpTo4(k: nat)
    requires k <= 4
    ensures Ten(k) <= 10000
  {
    SmallTens();
  }

  lemma OneZeroMore(f: nat, k: nat)
    requires 0 < k
    ensures f * 10 * Ten(k - 1) == f * Ten(k)
  {
  }

  /** The first four digits, or fewer with zeros behind them, are the fraction before it is rounded. */
  lemma Rounded(all: string, taken: nat, fraction: nat)
    requires IsNumeric(all) && taken <= |all| && taken <= 4 && (taken < 4 ==> taken == |all|)
    requires fraction == NatOf(all[..taken]) * Ten(4 - taken)
    ensures TenThousandths(all) == fraction + if 4 < |all| && DigitValue(all[4]) >= 5 then 1 else 0
    ensures TenThousandths(all) <= SCALE
  {
    TenThousandthsFit(all);
    SmallTens();
    assert taken == |all| ==> all[..taken] == all;
  }

  /** The fraction behind the point: ten-thousandths, a carry, and where its digits end. */
  method ReadFraction(s: string, point: nat) returns (fraction: int64, carry: bool, end: nat)
    requires point <= |s|
    ensures end == point + CountDigits(s[point..]) <= |s|
    ensures var all := s[point..][..CountDigits(s[point..])];
            fraction == TenThousandths(all) % SCALE && (carry <==> TenThousandths(all) == SCALE)
  {
    hide NatOf, CountDigits, TenThousandths, Ten;
    var digits, p := 0, point;
    fraction := 0;
    ghost var rest := s[point..];
    ghost var n := CountDigits(rest);
    ghost var all := rest[..n];
    NothingYet(all);
    while IsDigit(At(s, p)) && digits < 4
      invariant 0 <= digits == p - point <= n && digits <= 4
      invariant 0 <= fraction == NatOf(all[..digits]) <= 9999
    {
      NextDigit(rest, digits);
      FourAtMost(all, digits + 1);
      fraction := fraction * 10 + DigitValue(At(s, p));
      p := p + 1;
      digits := digits + 1;
    }
    if digits < 4 { StopsThere(rest, digits); }
    ghost var taken := digits;
    FourAtMost(all, taken);
    fraction := PadWithZeros(fraction, digits);
    Rounded(all, taken, fraction);
    if !IsDigit(At(s, p)) {
      StopsThere(rest, p - point);
      return fraction, false, p;
    }
    NextDigit(rest, digits);
    fraction, carry := RoundUp(fraction, DigitValue(At(s, p)));
    end := SkipDigits(s, point, p);
  }

  /** The digits behind the fifth are stepped over. */
  method SkipDigits(s: string, point: nat, from: nat) returns (end: nat)
    requires point <= |s| && point <= from <= point + CountDigits(s[point..])
    ensures end == point + CountDigits(s[point..]) <= |s|
  {
    hide CountDigits;
    var p := from;
    ghost var rest := s[point..];
    while IsDigit(At(s, p))
      invariant point <= p <= point + CountDigits(rest)
      decreases |s| - p
    {
      NextDigit(rest, p - point);
      p := p + 1;
    }
    StopsThere(rest, p - point);
    end := p;
  }

  lemma FourAtMost(all: string, k: nat)
    requires IsNumeric(all) && k <= |all| && k <= 4
    ensures NatOf(all[..k]) <= 9999 && NatOf(all[..k]) < Ten(k)
  {
    NatOfBelow(all[..k]);
    TensUpTo4(k);
  }

  method PadWithZeros(fraction: int64, taken: nat) returns (padded: int64)
    requires taken <= 4 && 0 <= fraction < Ten(taken)
    ensures padded == fraction * Ten(4 - taken) <= 9999
  {
    hide Ten;
    SmallTens();
    var digits := taken;
    padded := fraction;
    while digits < 4
      invariant taken <= digits <= 4 && 0 <= padded < Ten(digits)
      invariant padded * Ten(4 - digits) == fraction * Ten(4 - taken)
    {
      OneZeroMore(padded, 4 - digits);
      TensUpTo4(digits + 1);
      TenGrows(digits);
      padded := padded * 10;
      digits := digits + 1;
    }
  }

  lemma TenGrows(k: nat)
    ensures Ten(k + 1) == 10 * Ten(k)
  {
  }

  method RoundUp(fraction: int64, roundDigit: nat) returns (rounded: int64, carry: bool)
    requires 0 <= fraction < SCALE
    ensures var u := fraction + if roundDigit >= 5 then 1 else 0;
            rounded == u % SCALE && (carry <==> u == SCALE)
  {
    rounded, carry := fraction, false;
    if roundDigit >= 5 {
      rounded := rounded + 1;
      if rounded >= SCALE { rounded, carry := 0, true; }
    }
  }

  /** Where the integer ends, the rest begins. */
  lemma RestBegins(a: string)
    requires LeadingDigits(a) != "" || (a != "" && a[0] == '.')
    ensures a[Strtoll(a).1..] == Rest(a)
    ensures Strtoll(a).1 == 0 <==> LeadingDigits(a) == ""
  {
    hide Spaces, Sign, LeadingDigits, Rest;
    Pieces(a);
    var front := Spaces(a) + (Sign(a) + LeadingDigits(a));
    assert a == front + Rest(a);
  }

  /** Splitting a text, as the reader goes about it. */
  lemma SplitGoes(s: string)
    ensures var a := Unsigned(s);
            if LeadingDigits(a) == "" && (a == "" || a[0] != '.') then Split(s) == None
            else
              var tail := SplitTail(Rest(a));
              && (tail.None? ==> Split(s) == None)
              && (tail.Some? ==> Split(s).Some? && WellFormed(Split(s).value))
              && (tail.Some? ==> Split(s).value.minus == (a != s) && Whole(Split(s).value) == Strtoll(a).0)
              && (tail.Some? ==> Split(s).value.fraction == tail.value.1)
  {
    hide SplitTail, Spaces, Sign, LeadingDigits, Rest, Unsigned, WellFormed;
    if Split(s).Some? {
      SplitFits(s);
      WholeIs(Split(s).value);
    }
  }

  lemma WholeIs(p: Parts)
    requires WellFormed(p)
    ensures p.digits == "" ==> Whole(p) == 0
  {
  }

  lemma NoFraction()
    ensures TenThousandths("") == 0
  {
  }

  lemma FractionFits(fraction: string)
    requires IsNumeric(fraction)
    ensures TenThousandths(fraction) <= SCALE
  {
    TenThousandthsFit(fraction);
  }

  method FromString(s: string) returns (r: Option<int64>)
    requires forall i :: 0 <= i < |s| ==> s[i] != '\0'
    ensures r == Read(s)
  {
    hide SplitTail, LeadingDigits, Rest, Split, Strtoll, Whole, TenThousandths, WellFormed, CountDigits;
    var p, negative := 0, false;
    if At(s, p) == '-' {
      negative := true;
      p := p + 1;
    }
    ghost var a := s[p..];
    assert a == Unsigned(s);
    SplitGoes(s);
    var integer := Strtoll(s[p..]);
    var integerPart: int, end := integer.0, p + integer.1;
    StrtollEnds(a);
    if end == p && At(s, p) != '.' { return None; }
    RestBegins(a);
    ghost var rest := Rest(a);
    SameTail(s, p, integer.1);
    p := end;
    assert s[p..] == rest;
    var fractionalPart: int := 0;
    TailGoes(rest);
    NoFraction();
    if At(s, p) == '.' {
      var carry;
      SameTail(s, p, 1);
      fractionalPart, carry, p := ReadFraction(s, p + 1);
      FractionFits(rest[1..][..CountDigits(rest[1..])]);
      if carry { integerPart := integerPart + 1; }
    }
    if At(s, p) != '\0' { return None; }
    if integerPart > WHOLE_MAX || integerPart < -WHOLE_MAX { return None; }
    if negative {
      integerPart := integerPart * -1;
      fractionalPart := fractionalPart * -1;
    }
    r := Some(integerPart * SCALE + fractionalPart);
  }

  lemma SameTail(s: string, p: nat, n: nat)
    requires p + n <= |s|
    ensures s[p..][n..] == s[p + n..]
  {
  }

  lemma StrtollEnds(a: string)
    ensures Strtoll(a).1 == 0 <==> LeadingDigits(a) == ""
    ensures Strtoll(a).1 <= |a|
  {
    hide Spaces, Sign, LeadingDigits, Rest;
    Pieces(a);
  }

  lemma TailGoes(rest: string)
    ensures if rest == "" then SplitTail(rest) == Some((false, ""))
            else if rest[0] != '.' then SplitTail(rest) == None
            else
              var n := CountDigits(rest[1..]);
              SplitTail(rest) == if n == |rest| - 1 then Some((true, rest[1..][..n])) else None
  {
    if rest != "" { assert rest[1..][..|rest| - 1] == rest[1..]; }
  }
}
