/** Amounts rounded to a number of decimal places and written into a buffer. */
module AmountPrinting {
  import opened Words
  import opened Decimals
  import opened AmountReading

  const PLACES := 4
  /** The largest magnitude the reader takes back. */
  const READABLE_MAX := 9223372036854769999

  function Magnitude(x: int): nat {
    if x < 0 then -x else x
  }

  /** The powers of ten up to that of all places. */
  const POW10 := [1, 10, 100, 1000, 10000]

  lemma Pow10IsTen(k: nat)
    requires k <= PLACES
    ensures POW10[k] == Ten(k)
    ensures k != 0 ==> POW10[k] == 10 || POW10[k] == 100 || POW10[k] == 1000 || POW10[k] == 10000
  {
    SmallTens();
  }

  /** Rounded to places is the nearest multiple of their unit, a half going away from zero. */
  predicate IsRounding(value: int, precision: nat, rounded: int)
    requires precision <= PLACES
  {
    var d: int, off: int := Ten(PLACES - precision), Magnitude(rounded) as int - Magnitude(value) as int;
    && rounded % d == 0
    && (0 < rounded ==> 0 < value) && (rounded < 0 ==> value < 0)
    && (if precision == PLACES then off == 0 else -d < 2 * off <= d)
  }

  function NearestMultiple(m: int, d: int): (r: int)
    requires 0 <= m && (d == 10 || d == 100 || d == 1000 || d == 10000)
    ensures 0 <= r && r % d == 0 && -d < 2 * (r - m) <= d
  {
    Nearest(m, d);
    (m + d / 2) / d * d
  }

  lemma Nearest(m: int, d: int)
    requires 0 <= m && (d == 10 || d == 100 || d == 1000 || d == 10000)
    ensures var r := (m + d / 2) / d * d;
            0 <= r && r % d == 0 && -d < 2 * (r - m) <= d
  {
    if d == 10 {
      Nearest10(m);
    } else if d == 100 {
      Nearest100(m);
    } else if d == 1000 {
      Nearest1000(m);
    } else {
      Nearest10000(m);
    }
  }

  lemma NearestIs(m: int, d: int, half: int)
    requires 0 <= m && (d == 10 || d == 100 || d == 1000 || d == 10000) && half == d / 2
    ensures (m + half) / d * d == NearestMultiple(m, d)
  {
  }

  lemma Nearest10(m: int)
    requires 0 <= m
    ensures var r := (m + 5) / 10 * 10;
            0 <= r && r % 10 == 0 && -10 < 2 * (r - m) <= 10
  {
  }

  lemma Nearest100(m: int)
    requires 0 <= m
    ensures var r := (m + 50) / 100 * 100;
            0 <= r && r % 100 == 0 && -100 < 2 * (r - m) <= 100
  {
  }

  lemma Nearest1000(m: int)
    requires 0 <= m
    ensures var r := (m + 500) / 1000 * 1000;
            0 <= r && r % 1000 == 0 && -1000 < 2 * (r - m) <= 1000
  {
  }

  lemma Nearest10000(m: int)
    requires 0 <= m
    ensures var r := (m + 5000) / 10000 * 10000;
            0 <= r && r % 10000 == 0 && -10000 < 2 * (r - m) <= 10000
  {
  }

  function Round(value: int64, precision: nat): Option<int64>
    requires precision <= PLACES
  {
    if precision == PLACES then Some(value)
    else
      Pow10IsTen(PLACES - precision);
      var m := NearestMultiple(Magnitude(value), Ten(PLACES - precision));
      if m >= I63 then None
      else Some(if value < 0 then -m else m)
  }

  method RoundToPrecision(value: int64, precision: uint8) returns (r: Option<int64>)
    ensures precision > PLACES ==> r == None
    ensures precision <= PLACES ==> r == Round(value, precision)
  {
    hide NearestMultiple, AsUnsigned, Negated, Ten;
    if precision > PLACES { return None; }
    if precision == PLACES { return Some(value); }
    var shift := PLACES - precision;
    Pow10IsTen(shift);
    var divisor := POW10[shift];
    var half := divisor / 2;
    var gdd := AsUnsigned(value);
    if value < 0 { gdd := Negated(gdd); }
    UnsignedMagnitude(value);
    NearestIs(gdd, divisor, half);
    var rounded: uint64 := (gdd + half) / divisor * divisor;
    if rounded > I63 - 1 { return None; }
    r := Some(if value < 0 then 0 - rounded as int else rounded);
  }

  /** The 64 bits of a signed word, and their negation: both wrap. */
  function AsUnsigned(value: int64): uint64 {
    value % W64
  }

  function Negated(word: uint64): uint64 {
    (W64 - word) % W64
  }

  /** Negating the unsigned copy gives the magnitude, that of the smallest signed word as well. */
  lemma UnsignedMagnitude(value: int64)
    ensures (if value < 0 then Negated(AsUnsigned(value)) else AsUnsigned(value)) == Magnitude(value)
  {
    if value < 0 {
      assert value % W64 == value + W64;
    }
  }

  /**
   The amount rounded is the only one that is nearest with so many places; there is none exactly when
   that one does not fit.
   */
  lemma RoundIsNearest(value: int64, precision: nat, rounded: int)
    requires precision <= PLACES
    ensures IsRounding(value, precision, rounded) && -I63 <= rounded < I63 <==>
              Round(value, precision).Some? && Round(value, precision).value == rounded
  {
    hide NearestMultiple, Ten;
    Pow10IsTen(PLACES - precision);
    if precision < PLACES {
      var d, m := Ten(PLACES - precision), Magnitude(value);
      var nearest := NearestMultiple(m, d);
      NegatedMultiple(nearest, d);
      if IsRounding(value, precision, rounded) {
        MagnitudeDivides(rounded, d);
        OneNearest(m, d, nearest, Magnitude(rounded));
      }
    } else {
      SmallTens();
    }
  }

  /** Two multiples this near to the same number are one. */
  lemma OneNearest(m: int, d: int, a: int, b: int)
    requires d == 10 || d == 100 || d == 1000 || d == 10000
    requires a % d == 0 == b % d && -d < 2 * (a - m) <= d && -d < 2 * (b - m) <= d
    ensures a == b && a != I63
  {
    assert a - b == d * (a / d - b / d);
    assert a / d - b / d == 0;
  }

  lemma NegatedMultiple(m: int, d: int)
    requires (d == 10 || d == 100 || d == 1000 || d == 10000) && m % d == 0
    ensures -m % d == 0
  {
  }

  /** An amount as text: a sign, the whole part, and as many places of the fraction. */
  function Written(value: int, precision: nat): string
    requires precision <= PLACES
  {
    var m := Magnitude(value);
    (if value < 0 then "-" else "") + Digits(m / SCALE)
    + if precision == 0 then "" else "." + Four(m % SCALE)[..precision]
  }

  // ----- writing

  /** Digits written into a buffer from an index on, and the zero behind them: the last digit first. */
  method WriteDigits(buffer: array<char>, at: nat, n: uint64, size: nat)
    requires size == |Digits(n)| && at + size < buffer.Length
    modifies buffer
    ensures buffer[at..at + size] == Digits(n) && buffer[at + size] == '\0'
    ensures forall i :: 0 <= i < buffer.Length && !(at <= i <= at + size) ==> buffer[i] == old(buffer[i])
  {
    var left: nat, i := n, size;
    buffer[at + size] := '\0';
    ghost var text := Digits(n);
    while 0 < i
      invariant 0 <= i <= size && (0 < i ==> Digits(left) == text[..i])
      invariant forall k :: i <= k < size ==> buffer[at + k] == text[k]
      invariant buffer[at + size] == '\0'
      invariant forall k :: 0 <= k < buffer.Length && !(at <= k <= at + size) ==> buffer[k] == old(buffer[k])
    {
      LastIs(left, text, i);
      i := i - 1;
      buffer[at + i] := DigitChar(left % 10);
      left := left / 10;
    }
  }

  lemma LastIs(left: nat, text: string, i: nat)
    requires 0 < i <= |text| && Digits(left) == text[..i]
    ensures text[i - 1] == DigitChar(left % 10)
    ensures 1 < i ==> Digits(left / 10) == text[..i - 1]
  {
    assert text[..i][i - 1] == text[i - 1];
    if 10 <= left {
      LastDigit(left);
      assert text[..i][..i - 1] == text[..i - 1];
    } else {
      OnlyDigit(left);
    }
  }

  /** Everything written before a sign: the text in full, all four places. */
  function Full(m: nat): (s: string)
    ensures |s| == |Digits(m / SCALE)| + 5
  {
    Digits(m / SCALE) + "." + Four(m % SCALE)
  }

  /** Room the printer asks for behind the sign, without the zero. */
  function Needed(m: nat, precision: nat): nat {
    if precision == 0 then |Digits(m / SCALE)| else |Full(m)|
  }

  lemma FullSize(m: nat)
    ensures |Full(m)| == if |Digits(m)| < 5 then 6 else |Digits(m)| + 1
  {
    PaddedSplits(m);
  }

  // ----- the printer

  /** The zeros in front and the digits behind them, moved up to make room. */
  method Pad(buffer: array<char>, at: nat, count: nat, m: nat)
    requires count == |Digits(m)| < 5 && at + 6 <= buffer.Length
    requires buffer[at..at + count] == Digits(m) && buffer[at + count] == '\0'
    modifies buffer
    ensures buffer[at..at + 5] == Padded(Digits(m)) && buffer[at + 5] == '\0'
    ensures forall i :: 0 <= i < buffer.Length && !(at <= i < at + 6) ==> buffer[i] == old(buffer[i])
  {
    hide Digits;
    var padding := 5 - count;
    forall i | at <= i < at + count + 1 {
      buffer[i + padding] := buffer[i];
    }
    forall i | at <= i < at + padding {
      buffer[i] := '0';
    }
    assert buffer[at..at + padding] == Zeros(padding);
    assert buffer[at + padding..at + 5] == old(buffer[at..at + count]);
    assert buffer[at..at + 5] == buffer[at..at + padding] + buffer[at + padding..at + 5];
  }

  /** The last four digits and the zero moved up by one, and the point put before them. */
  method InsertPoint(buffer: array<char>, at: nat, size: nat, ghost text: string)
    requires 5 <= size == |text| && at + size + 2 <= buffer.Length
    requires buffer[at..at + size] == text && buffer[at + size] == '\0'
    modifies buffer
    ensures buffer[at..at + size + 1] == text[..size - 4] + "." + text[size - 4..] && buffer[at + size + 1] == '\0'
    ensures forall i :: 0 <= i < buffer.Length && !(at <= i < at + size + 2) ==> buffer[i] == old(buffer[i])
  {
    var cursor := at + size;
    forall i | cursor - 4 <= i < cursor + 1 {
      buffer[i + 1] := buffer[i];
    }
    cursor := cursor + 1;
    buffer[cursor - 5] := '.';
    ghost var goal := text[..size - 4] + "." + text[size - 4..];
    forall i | 0 <= i < size + 1 ensures goal[i] == buffer[at + i] {
      assert i < size ==> old(buffer[at + i]) == text[i];
      assert 0 < i ==> old(buffer[at + i - 1]) == text[i - 1];
    }
    assert buffer[at..at + size + 1] == goal;
  }

  /** All digits of a magnitude with the point in them. */
  method WriteFull(buffer: array<char>, at: nat, m: uint64)
    requires at + |Full(m)| < buffer.Length
    modifies buffer
    ensures buffer[at..at + |Full(m)|] == Full(m) && buffer[at + |Full(m)|] == '\0'
    ensures forall i :: 0 <= i < buffer.Length && !(at <= i <= at + |Full(m)|) ==> buffer[i] == old(buffer[i])
  {
    hide Digits, Four;
    FullSize(m);
    PaddedSplits(m);
    var count := |Digits(m)|;
    WriteDigits(buffer, at, m, count);
    var size := count;
    if count < 5 {
      Pad(buffer, at, count, m);
      size := 5;
    }
    ghost var text := Padded(Digits(m));
    InsertPoint(buffer, at, size, text);
    assert text[..size - 4] == Digits(m / SCALE) && text[size - 4..] == Four(m % SCALE);
  }

  /** The text behind the sign. */
  function Unsigned(m: nat, precision: nat): string
    requires precision <= PLACES
  {
    if precision == 0 then Digits(m / SCALE) else Full(m)[..|Full(m)| - (PLACES - precision)]
  }

  lemma WrittenIsSigned(value: int, precision: nat)
    requires precision <= PLACES
    ensures Written(value, precision) == Signed(value) + Unsigned(Magnitude(value), precision)
  {
    hide Digits;
    var m := Magnitude(value);
    if precision != 0 {
      var whole := Digits(m / SCALE) + ".";
      assert Full(m) == whole + Four(m % SCALE);
      assert Full(m)[..|Full(m)| - (PLACES - precision)] == whole + Four(m % SCALE)[..precision];
    }
  }

  /** The part behind the sign, cut off after the places asked for. */
  method PrintUnsigned(buffer: array<char>, at: nat, m: uint64, precision: nat) returns (r: nat)
    requires at <= buffer.Length && precision <= PLACES
    modifies buffer
    ensures var room, text := at + Needed(m, precision), Unsigned(m, precision);
            && (buffer.Length <= room ==> r == room && buffer[..] == old(buffer[..]))
            && (room < buffer.Length ==>
                  && r == at + |text| < buffer.Length && buffer[at..r] == text && buffer[r] == '\0'
                  && forall i :: 0 <= i < buffer.Length && !(at <= i <= room) ==> buffer[i] == old(buffer[i]))
  {
    hide Digits, Full;
    var cursor := at;
    if precision == 0 {
      var size := |Digits(m / SCALE)|;
      if buffer.Length < cursor + size + 1 { return cursor + size; }
      WriteDigits(buffer, cursor, m / SCALE, size);
      return cursor + size;
    }
    var places := |Digits(m)|;
    FullSize(m);
    if places < 5 && buffer.Length < cursor + 7 { return cursor + 6; }
    if buffer.Length < cursor + places + 2 { return cursor + places + 1; }
    WriteFull(buffer, cursor, m);
    cursor := cursor + |Full(m)|;
    ghost var full := buffer[at..cursor];
    if precision != PLACES {
      cursor := cursor - (PLACES - precision);
      buffer[cursor] := '\0';
    }
    assert buffer[at..cursor] == full[..cursor - at];
    r := cursor;
  }

  /**
   Prints the rounded amount and a zero behind it where there is room for both, and answers the room
   it would take where there is not; the rest of the buffer stays as it was.
   */
  method ToString(buffer: array<char>, value: int64, precision0: uint8) returns (r: int)
    modifies buffer
    ensures buffer.Length == 0 ==> r == -1
    ensures var precision := if precision0 > PLACES then PLACES else precision0;
            buffer.Length != 0 ==>
              match Round(value, precision)
              case None => r == -2 && buffer[..] == old(buffer[..])
              case Some(rounded) =>
                var room, text := RoomFor(rounded, precision), Written(rounded, precision);
                && (buffer.Length <= room ==> r == room && buffer[1..] == old(buffer[1..]))
                && (room < buffer.Length ==>
                      && r == |text| < buffer.Length && buffer[..r] == text && buffer[r] == '\0'
                      && buffer[room + 1..] == old(buffer[room + 1..]))
  {
    hide Round, Written, Needed, Unsigned, AsUnsigned, Negated;
    if buffer.Length == 0 { return -1; }
    var precision := if precision0 > PLACES then PLACES else precision0;
    var rounding := RoundToPrecision(value, precision);
    if rounding == None { return -2; }
    var rounded := rounding.value;
    var negative := rounded < 0;
    var magnitude: uint64 := AsUnsigned(rounded);
    if negative { magnitude := Negated(magnitude); }
    UnsignedMagnitude(rounded);
    WrittenIsSigned(rounded, precision);
    var cursor := 0;
    if negative {
      buffer[cursor] := '-';
      cursor := cursor + 1;
    }
    assert buffer[..cursor] == Signed(rounded);
    r := PrintUnsigned(buffer, cursor, magnitude, precision);
    assert r < buffer.Length ==> buffer[..r] == buffer[..cursor] + buffer[cursor..r];
  }

  function Signed(value: int): string {
    if value < 0 then "-" else ""
  }

  function RoomFor(value: int, precision: nat): nat {
    |Signed(value)| + Needed(Magnitude(value), precision)
  }

  /**
   The room the printer asks for is that of the text with all four places, or of the whole part where no
   place is asked for.
   */
  lemma RoomIsOfAllPlaces(value: int, precision: nat)
    requires precision <= PLACES
    ensures RoomFor(value, precision) == |Written(value, if precision == 0 then 0 else 4)|
  {
    hide Digits, Four;
  }

  // ----- printed and read again

  lemma FourAreWorth(n: nat)
    requires n < 10000
    ensures NatOf(Four(n)[..1]) == n / 1000 && NatOf(Four(n)[..2]) == n / 100
    ensures NatOf(Four(n)[..3]) == n / 10 && NatOf(Four(n)) == n && NatOf(Four(n)[..0]) == 0
  {
    hide NatOf, DigitChar;
    var s := Four(n);
    assert s[..4] == s;
    DigitsTaken(s, 0);
    DigitsTaken(s, 1);
    DigitsTaken(s, 2);
    DigitsTaken(s, 3);
    Nested(n);
  }

  lemma Nested(n: nat)
    ensures n / 100 == 10 * (n / 1000) + n / 100 % 10 && n / 10 == 10 * (n / 100) + n / 10 % 10
              && n == 10 * (n / 10) + n % 10
  {
  }

  lemma DigitsTaken(s: string, k: nat)
    requires IsNumeric(s) && k < |s|
    ensures NatOf(s[..k + 1]) == 10 * NatOf(s[..k]) + DigitValue(s[k])
    ensures NatOf(s[..0]) == 0
  {
    assert s[..k + 1][..k] == s[..k];
  }

  /** Places that were rounded away are worth nothing. */
  lemma PlacesAreEnough(f: nat, precision: nat)
    requires f < SCALE && precision <= PLACES && f % Ten(PLACES - precision) == 0
    ensures TenThousandths(Four(f)[..precision]) == f
  {
    hide Four;
    FourAreWorth(f);
    SmallTens();
    assert Four(f)[..4] == Four(f);
    if precision == 0 || precision == 1 || precision == 2 || precision == 3 || precision == 4 {
    }
  }

  /**
   The text behind sign and whole part: nothing without places, else the point and exactly so many
   digits, which are the first ones of the fraction.
   */
  lemma PlacesPrinted(value: int, precision: nat)
    requires precision <= PLACES
    ensures var text, m := Written(value, precision), Magnitude(value);
            var whole := (if value < 0 then "-" else "") + Digits(m / 10000);
            && whole <= text
            && |text| == |whole| + (if precision == 0 then 0 else precision + 1)
            && (precision != 0 ==>
                  && text[|whole|] == '.' && IsNumeric(text[|whole| + 1..])
                  && NatOf(text[|whole| + 1..]) == m % 10000 / Ten(4 - precision))
  {
    hide Digits, Four, NatOf, Ten;
    var m := Magnitude(value);
    var text, whole := Written(value, precision), (if value < 0 then "-" else "") + Digits(m / 10000);
    var places := Four(m % 10000)[..precision];
    FourAreWorth(m % 10000);
    SmallTens();
    if precision == 0 {
      assert text == whole;
    } else {
      assert text == whole + ("." + places);
      assert text[|whole| + 1..] == places;
      assert precision == 4 ==> places == Four(m % 10000);
    }
  }

  function PartsOf(value: int, precision: nat): Parts
    requires precision <= PLACES
  {
    var m := Magnitude(value);
    Parts(value < 0, "", "", Digits(m / SCALE), precision != 0, Four(m % SCALE)[..precision])
  }

  lemma WrittenHasParts(value: int, precision: nat)
    requires precision <= PLACES
    ensures WellFormed(PartsOf(value, precision)) && Text(PartsOf(value, precision)) == Written(value, precision)
  {
    hide Digits, Four;
  }

  lemma MultipleOfPlaces(value: int, precision: nat)
    requires precision <= PLACES && value % Ten(PLACES - precision) == 0
    ensures Magnitude(value) % SCALE % Ten(PLACES - precision) == 0
  {
    hide Ten;
    Pow10IsTen(PLACES - precision);
    SmallTens();
    MultipleOfScale(Magnitude(value), Magnitude(value) / SCALE, Ten(PLACES - precision));
    MagnitudeDivides(value, Ten(PLACES - precision));
  }

  lemma MagnitudeDivides(value: int, d: int)
    requires (d == 1 || d == 10 || d == 100 || d == 1000 || d == 10000) && value % d == 0
    ensures Magnitude(value) % d == 0
  {
  }

  lemma MultipleOfScale(m: nat, q: nat, d: int)
    requires (d == 1 || d == 10 || d == 100 || d == 1000 || d == 10000) && q == m / SCALE
    ensures m % SCALE % d == m % d
  {
    var r := m % SCALE;
    if d == 10 {
      Shifted10(m, q, r);
    } else if d == 100 {
      Shifted100(m, q, r);
    } else if d == 1000 {
      Shifted1000(m, q, r);
    }
  }

  /** Digits of a 64-bit magnitude are taken whole, and refused when the whole part is too large. */
  lemma PartsAreWorth(value: int, precision: nat)
    requires precision <= PLACES && Magnitude(value) <= I63 && value % Ten(PLACES - precision) == 0
    ensures WellFormed(PartsOf(value, precision))
    ensures AmountOf(PartsOf(value, precision)) == if Magnitude(value) <= READABLE_MAX then Some(value) else None
  {
    hide Digits, Four, TenThousandths, NatOf, Ten;
    WrittenHasParts(value, precision);
    MultipleOfPlaces(value, precision);
    PlacesAreEnough(Magnitude(value) % SCALE, precision);
    DigitsAreWorth(Magnitude(value) / SCALE);
  }

  /**
   What is printed reads back as the amount rounded - with all four places as the amount itself -
   exactly when the rounded magnitude is one the reader takes; it refuses the others.
   */
  lemma RoundTrip(value: int64, precision: nat)
    requires precision <= PLACES && Round(value, precision).Some?
    ensures var rounded := Round(value, precision).value;
            && Read(Written(rounded, precision))
                == (if -9223372036854769999 <= rounded <= 9223372036854769999 then Some(rounded) else None)
            && (precision == PLACES ==> rounded == value)
  {
    hide Written, WellFormed, Text, AmountOf, Split;
    var rounded := Round(value, precision).value;
    RoundIsNearest(value, precision, rounded);
    WrittenHasParts(rounded, precision);
    PartsAreWorth(rounded, precision);
    SplitIs(PartsOf(rounded, precision));
  }

  lemma ReadIsReadable(p: Parts)
    requires WellFormed(p) && AmountOf(p).Some?
    ensures Magnitude(AmountOf(p).value) <= READABLE_MAX
  {
    hide TenThousandths;
  }

  /** Whatever is read can be printed, and reads the same again. */
  lemma ReadAgain(s: string)
    requires Read(s).Some?
    ensures -I63 <= Read(s).value < I63
    ensures Read(Written(Read(s).value, PLACES)) == Read(s)
  {
    hide Written, WellFormed, AmountOf, Split;
    SplitFits(s);
    ReadIsReadable(Split(s).value);
    RoundTrip(Read(s).value, PLACES);
  }
}
