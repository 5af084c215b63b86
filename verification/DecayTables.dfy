/** The tables of decay factors, and the two programs that print them. */
module DecayTables {
  import opened Words
  import opened FixedPoint

  /** Entry i is the factor of 2^i seconds, in units of 2^-64. */
  const DECAY_POWERS: seq<uint64> := [
    18446743668527564940, 18446743263345587163, 18446742452981658309, 18446740832253907398,
    18446737590798832767, 18446731107890392267, 18446718142080346313, 18446692210487594564,
    18446640347411451525, 18446536621696605848, 18446329172016664620, 18445914279655690837,
    18445084522928643346, 18443425121448271984, 18440106766335414243, 18433471847125226169,
    18420209169759874097, 18393712435208807257, 18340833254760868098, 18235530516106764452,
    18026735334708307356, 17616289656815978922, 16823221487369777986, 15342587292489394070,
    12760787697116905635, 8827449548832185865, 4224261215193812073, 967345930690427918,
    50727550937131514, 139498028150492, 1054912443, 0
  ]

  /** Entry c of window j is the factor of c * 32^j seconds; the factor of none would be exactly 1. */
  const DECAY_WINDOW_FACTORS: seq<seq<uint64>> := [
    [
      0, 18446743668527564940, 18446743263345587163, 18446742858163618286,
      18446742452981658309, 18446742047799707232, 18446741642617765054, 18446741237435831776,
      18446740832253907398, 18446740427071991920, 18446740021890085341, 18446739616708187663,
      18446739211526298884, 18446738806344419006, 18446738401162548026, 18446737995980685947,
      18446737590798832767, 18446737185616988487, 18446736780435153107, 18446736375253326627,
      18446735970071509047, 18446735564889700367, 18446735159707900586, 18446734754526109705,
      18446734349344327723, 18446733944162554642, 18446733538980790460, 18446733133799035179,
      18446732728617288797, 18446732323435551316, 18446731918253822732, 18446731513072103050
    ],
    [
      0, 18446731107890392267, 18446718142080346313, 18446705176279413747,
      18446692210487594564, 18446679244704888756, 18446666278931296319, 18446653313166817243,
      18446640347411451525, 18446627381665199157, 18446614415928060133, 18446601450200034445,
      18446588484481122090, 18446575518771323058, 18446562553070637346, 18446549587379064944,
      18446536621696605848, 18446523656023260051, 18446510690359027547, 18446497724703908328,
      18446484759057902390, 18446471793421009725, 18446458827793230328, 18446445862174564189,
      18446432896565011306, 18446419930964571671, 18446406965373245277, 18446393999791032116,
      18446381034217932186, 18446368068653945477, 18446355103099071985, 18446342137553311701
    ],
    [
      0, 18446329172016664620, 18445914279655690837, 18445499396626420375,
      18445084522928643346, 18444669658562149868, 18444254803526730063, 18443839957822174058,
      18443425121448271984, 18443010294404813977, 18442595476691590178, 18442180668308390734,
      18441765869255005793, 18441351079531225511, 18440936299136840048, 18440521528071639569,
      18440106766335414243, 18439692013927954243, 18439277270849049749, 18438862537098490943,
      18438447812676068014, 18438033097581571155, 18437618391814790563, 18437203695375516440,
      18436789008263538994, 18436374330478648436, 18435959662020634982, 18435545002889288855,
      18435130353084400278, 18434715712605759483, 18434301081453156706, 18433886459626382186
    ],
    [
      0, 18433471847125226169, 18420209169759874097, 18406956034742938873,
      18393712435208807257, 18380478364296805743, 18367253815151197000, 18354038780921176327,
      18340833254760868098, 18327637229829322220, 18314450699290510586, 18301273656313323535,
      18288106094071566313, 18274948005743955540, 18261799384514115668, 18248660223570575459,
      18235530516106764452, 18222410255321009437, 18209299434416530932, 18196198046601439662,
      18183106085088733040, 18170023543096291654, 18156950413846875747, 18143886690568121716,
      18130832366492538593, 18117787434857504547, 18104751888905263377, 18091725721882921013,
      18078708927042442016, 18065701497640646084, 18052703426939204557, 18039714708204636929
    ],
    [
      0, 18026735334708307356, 17616289656815978922, 17215189301377912781,
      16823221487369777986, 16440178278518672654, 16065856472994338283, 15700057495611963861,
      15342587292489394070, 14993256228102857962, 14651878984686606850, 14318274463923093616,
      13992265690871540739, 13673679720083931792, 13362347543858621587, 13058104002582894116,
      12760787697116905635, 12470240903172533159, 12186309487641706924, 11908842826829839573,
      11637693726550975433, 11372718344042270932, 11113776111656382281, 10860729662291279777,
      10613444756517929730, 10371790211367185761, 10135637830738111368, 9904862337390815887,
      9679341306487726470, 9458955100648040196, 9243586806480903142, 9033122172563647674
    ]
  ]

  const DECAY_FACTOR_PER_SECOND := 18446743668527564940
  const BITS := 32
  const WINDOW_BITS := 5
  const WINDOWS := 5
  const WINDOW_SIZE := 32

  function Pow2(n: nat): (p: nat)
    ensures 0 < p
  {
    if n == 0 then 1 else 2 * Pow2(n - 1)
  }

  function Power(i: nat): uint64
    requires i < BITS
  {
    DECAY_POWERS[i]
  }

  /** A factor compounded with the powers that the set bits select, from power i on, truncated at every step. */
  function Compound(bits: nat, i: nat, factor: nat): nat
    decreases bits
  {
    if bits == 0 || BITS <= i then factor
    else Compound(bits / 2, i + 1, if bits % 2 == 1 then Times(factor, Power(i)) else factor)
  }

  /** Each power is the truncated square of the one before. */
  lemma PowersAreSquares(k: nat)
    requires k < BITS - 1
    ensures Power(k + 1) == Times(Power(k), Power(k))
  {
  }

  /** The factor of c * 32^j seconds, with the one the table leaves out. */
  function WindowFactor(j: nat, c: nat): nat
    requires j < WINDOWS && c < WINDOW_SIZE
  {
    if c == 0 then W64 else DECAY_WINDOW_FACTORS[j][c]
  }

  lemma Window0(c: nat, t: nat, top: nat)
    requires t < 5 && top == [1, 2, 4, 8, 16][t] && top <= c < 2 * top
    ensures WindowFactor(0, c) == Times(WindowFactor(0, c - top), Power(0 + t))
  {
  }

  lemma Window1(c: nat, t: nat, top: nat)
    requires t < 5 && top == [1, 2, 4, 8, 16][t] && top <= c < 2 * top
    ensures WindowFactor(1, c) == Times(WindowFactor(1, c - top), Power(5 + t))
  {
  }

  lemma Window2(c: nat, t: nat, top: nat)
    requires t < 5 && top == [1, 2, 4, 8, 16][t] && top <= c < 2 * top
    ensures WindowFactor(2, c) == Times(WindowFactor(2, c - top), Power(10 + t))
  {
  }

  lemma Window3(c: nat, t: nat, top: nat)
    requires t < 5 && top == [1, 2, 4, 8, 16][t] && top <= c < 2 * top
    ensures WindowFactor(3, c) == Times(WindowFactor(3, c - top), Power(15 + t))
  {
  }

  lemma Window4(c: nat, t: nat, top: nat)
    requires t < 5 && top == [1, 2, 4, 8, 16][t] && top <= c < 2 * top
    ensures WindowFactor(4, c) == Times(WindowFactor(4, c - top), Power(20 + t))
  {
  }

  /** The digit's highest bit: the entry is the one without it, times the bit's power. */
  lemma WindowGrows(j: nat, c: nat, t: nat)
    requires j < WINDOWS && t < WINDOW_BITS && Pow2(t) <= c < 2 * Pow2(t)
    ensures c < WINDOW_SIZE
    ensures WindowFactor(j, c) == Times(WindowFactor(j, c - Pow2(t)), Power(WINDOW_BITS * j + t))
  {
    hide WindowFactor, Times;
    SmallPowers();
    match j
    case 0 => Window0(c, t, Pow2(t));
    case 1 => Window1(c, t, Pow2(t));
    case 2 => Window2(c, t, Pow2(t));
    case 3 => Window3(c, t, Pow2(t));
    case _ => Window4(c, t, Pow2(t));
  }

  lemma SmallPowers()
    ensures Pow2(0) == 1 && Pow2(1) == 2 && Pow2(2) == 4 && Pow2(3) == 8 && Pow2(4) == 16 && Pow2(5) == 32
  {
  }

  /** The highest bit is the last power compounded. */
  lemma {:induction false} HighestBitLast(c: nat, t: nat, i: nat, factor: nat)
    requires Pow2(t) <= c < 2 * Pow2(t) && i + t < BITS
    ensures Compound(c, i, factor) == Times(Compound(c - Pow2(t), i, factor), Power(i + t))
  {
    hide Times;
    if 0 < t {
      HighestBitLast(c / 2, t - 1, i + 1, if c % 2 == 1 then Times(factor, Power(i)) else factor);
      assert (c - Pow2(t)) / 2 == c / 2 - Pow2(t - 1) && (c - Pow2(t)) % 2 == c % 2;
    } else {
      assert Compound(0, i + 1, Times(factor, Power(i))) == Times(factor, Power(i));
    }
  }

  /** Each window factor is the chain of the powers its digit selects. */
  lemma {:induction false} WindowsAreChains(j: nat, c: nat)
    requires j < WINDOWS && c < WINDOW_SIZE
    ensures WindowFactor(j, c) == Compound(c, WINDOW_BITS * j, W64)
    decreases c
  {
    hide Times;
    if c != 0 {
      hide WindowFactor, Compound;
      SmallPowers();
      var t := if c < 2 then 0 else if c < 4 then 1 else if c < 8 then 2 else if c < 16 then 3 else 4;
      WindowsAreChains(j, c - Pow2(t));
      WindowGrows(j, c, t);
      HighestBitLast(c, t, WINDOW_BITS * j, W64);
    }
  }

  // ----- the programs

  lemma PowerIsEntry(i: nat)
    requires i < BITS
    ensures DECAY_POWERS[..i] + [Power(i)] == DECAY_POWERS[..i + 1]
    ensures |DECAY_POWERS| == BITS && Power(0) == DECAY_FACTOR_PER_SECOND
  {
  }

  /** Squares the factor of one second again and again. */
  method PrintPowers() returns (table: seq<uint64>)
    ensures table == DECAY_POWERS
  {
    hide Times, Power;
    table := [];
    PowerIsEntry(0);
    var base := R128(DECAY_FACTOR_PER_SECOND, 0);
    for i := 0 to BITS
      invariant table == DECAY_POWERS[..i]
      invariant i < BITS ==> base == R128(Power(i), 0)
    {
      PowerIsEntry(i);
      table := table + [base.lo];
      if i + 1 < BITS { PowersAreSquares(i); }
      base := MulMagnitudes(base, base);
    }
  }

  lemma HalvedAgain(c: nat, bit: nat)
    requires c < WINDOW_SIZE && bit < WINDOW_BITS
    ensures c / Pow2(bit + 1) == c / Pow2(bit) / 2
    ensures c / Pow2(0) == c && c / Pow2(WINDOW_BITS) == 0
  {
    hide Pow2;
    SmallPowers();
    if bit == 0 || bit == 1 || bit == 2 || bit == 3 || bit == 4 {
    }
  }

  /** One entry: the powers of the digit's bits, the lowest first, from exactly 1. */
  method PrintEntry(j: nat, c: nat) returns (entry: uint64)
    requires j < WINDOWS && 1 <= c < WINDOW_SIZE
    ensures entry == DECAY_WINDOW_FACTORS[j][c]
  {
    hide Times, Compound, Pow2, Power;
    var hi, lo := 1, 0;
    WindowsAreChains(j, c);
    HalvedAgain(c, 0);
    for bit := 0 to WINDOW_BITS
      invariant hi == 0 || (hi == 1 && lo == 0)
      invariant Compound(c / Pow2(bit), WINDOW_BITS * j + bit, Units(R128(lo, hi))) == Compound(c, WINDOW_BITS * j, W64)
    {
      HalvedAgain(c, bit);
      BitTaken(c / Pow2(bit), WINDOW_BITS * j + bit, Units(R128(lo, hi)));
      if c / Pow2(bit) % 2 == 1 {
        hi, lo := MulQ64(hi, lo, Power(WINDOW_BITS * j + bit));
      }
    }
    NoBits(c / Pow2(WINDOW_BITS), WINDOW_BITS * j + WINDOW_BITS, Units(R128(lo, hi)));
    entry := lo;
  }

  lemma BitTaken(bits: nat, i: nat, factor: nat)
    requires i < BITS
    ensures Compound(bits, i, factor)
         == Compound(bits / 2, i + 1, if bits % 2 == 1 then Times(factor, Power(i)) else factor)
  {
    hide Times;
  }

  lemma NoBits(bits: nat, i: nat, factor: nat)
    requires bits == 0
    ensures Compound(bits, i, factor) == factor
  {
  }

  method PrintWindow(j: nat) returns (row: seq<uint64>)
    requires j < WINDOWS
    ensures row == DECAY_WINDOW_FACTORS[j]
  {
    row := [0];
    for c := 1 to WINDOW_SIZE
      invariant row == DECAY_WINDOW_FACTORS[j][..c]
    {
      var entry := PrintEntry(j, c);
      row := row + [entry];
    }
  }

  method PrintWindows() returns (table: seq<seq<uint64>>)
    ensures table == DECAY_WINDOW_FACTORS
  {
    table := [];
    for j := 0 to WINDOWS
      invariant table == DECAY_WINDOW_FACTORS[..j]
    {
      var row := PrintWindow(j);
      table := table + [row];
    }
  }
}
