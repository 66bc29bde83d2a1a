/** Conversions between ticks and Q64.96 sqrt prices. */
module TickMath {
  import opened Results
  import opened Bits
  import opened FullMath

  const MIN_TICK: int := -887272
  const MAX_TICK: int := 887272
  const MIN_SQRT_RATIO: int := 4295128739
  const MAX_SQRT_RATIO: int := 1461446703485210103287273052203988822378723970342
  const Q32: int := 0x1_00000000
  const Q128: int := 0x1_00000000000000000000000000000000
  const MAX_UINT256: int := 0xFFFFFFFFFFFFFFFFFFFFFFFFFFFFFFFFFFFFFFFFFFFFFFFFFFFFFFFFFFFFFFFF

  const BITS: nat := 20

  /** The multiplier for bit i of the tick: 2^128 / sqrt(1.0001^(2^i)), as rounded in the contract. */
  function Factor(i: nat): nat
    requires i < BITS
  {
    match i
    case 0 => 0xFFFCB933BD6FAD37AA2D162D1A594001
    case 1 => 0xFFF97272373D413259A46990580E213A
    case 2 => 0xFFF2E50F5F656932EF12357CF3C7FDCC
    case 3 => 0xFFE5CACA7E10E4E61C3624EAA0941CD0
    case 4 => 0xFFCB9843D60F6159C9DB58835C926644
    case 5 => 0xFF973B41FA98C081472E6896DFB254C0
    case 6 => 0xFF2EA16466C96A3843EC78B326B52861
    case 7 => 0xFE5DEE046A99A2A811C461F1969C3053
    case 8 => 0xFCBE86C7900A88AEDCFFC83B479AA3A4
    case 9 => 0xF987A7253AC413176F2B074CF7815E54
    case 10 => 0xF3392B0822B70005940C7A398E4B70F3
    case 11 => 0xE7159475A2C29B7443B29C7FA6E889D9
    case 12 => 0xD097F3BDFD2022B8845AD8F792AA5825
    case 13 => 0xA9F746462D870FDF8A65DC1F90E061E5
    case 14 => 0x70D869A156D2A1B890BB3DF62BAF32F7
    case 15 => 0x31BE135F97D08FD981231505542FCFA6
    case 16 => 0x9AA508B5B7A84E1C677DE54F3E99BC9
    case 17 => 0x5D6AF8DEDB81196699C329225EE604
    case 18 => 0x2216E584F5FA1EA926041BEDFE98
    case _ => 0x48A170391F7DC42444E8FA2
  }

  function Scale(x: nat, i: nat): nat
    requires i < BITS
  {
    x * Factor(i) / Q128
  }

  /** The ratio after multiplying in the factors of the set bits of `rest`, whose lowest bit is bit i of the tick. */
  function Chain(rest: nat, i: nat, x: nat): nat
    requires i <= BITS
    decreases BITS - i, rest
  {
    if i == BITS then x
    else Chain(rest / 2, i + 1, if rest % 2 == 1 then Scale(x, i) else x)
  }

  function Abs(x: int): nat {
    if x < 0 then -x else x
  }

  /** The Q128.128 ratio inverted for positive ticks and rounded up to Q64.96. */
  function Finish(x: nat, positive: bool): int
    requires positive ==> x > 0
  {
    var ratio := if positive then MAX_UINT256 / x else x;
    ratio / Q32 + if ratio % Q32 == 0 then 0 else 1
  }

  /** The sqrt price of a tick. */
  function Ratio(tick: int): int
    requires MIN_TICK <= tick <= MAX_TICK
  {
    ChainBounds(Abs(tick), 0, Q128);
    Finish(Chain(Abs(tick), 0, Q128), tick > 0)
  }

  method GetSqrtRatioAtTick(tick: int) returns (r: Result<int>)
    ensures r == if MIN_TICK <= tick <= MAX_TICK then Ok(Ratio(tick)) else Err(TickOutOfRange)
  {
    hide Chain;
    var absTick := Abs(tick);
    if absTick > MAX_TICK {
      return Err(TickOutOfRange);
    }
    var ratio := MultiplySetBits(absTick);
    ChainBounds(absTick, 0, Q128);
    if tick > 0 {
      ratio := MAX_UINT256 / ratio;
    }
    r := Ok(ratio / Q32 + if ratio % Q32 == 0 then 0 else 1);
  }

  /** The loop over the factor table. */
  method MultiplySetBits(absTick: nat) returns (ratio: nat)
    ensures ratio == Chain(absTick, 0, Q128)
  {
    hide Factor, Scale, And, Bit, Chain;
    ratio := if And(absTick, 1) != 0 then Factor(0) else Q128;
    ghost var rest: nat := absTick;
    BitTail(rest, 0);
    TestBit(absTick, 0);
    FirstLink();
    ChainStep(rest, 0, Q128);
    rest := rest / 2;
    ShiftedBits(absTick, absTick, 0);
    for i := 1 to BITS
      invariant Chain(absTick, 0, Q128) == Chain(rest, i, ratio)
      invariant forall k: nat :: Bit(rest, k) == Bit(absTick, i + k)
    {
      TestBit(absTick, i);
      BitTail(rest, 0);
      ShiftedBits(absTick, rest, i);
      ChainStep(rest, i, ratio);
      assert Bit(rest, 0) == Bit(absTick, i + 0);
      if And(absTick, Pow2(i)) != 0 {
        ratio := Scale(ratio, i);
      }
      rest := rest / 2;
    }
    ChainEnd(rest, ratio);
  }

  lemma ChainStep(rest: nat, i: nat, x: nat)
    requires i < BITS
    ensures Chain(rest, i, x) == Chain(rest / 2, i + 1, if rest % 2 == 1 then Scale(x, i) else x)
  {
  }

  lemma ChainEnd(rest: nat, x: nat)
    ensures Chain(rest, BITS, x) == x
  {
  }

  lemma BitTail(x: int, k: nat)
    ensures Bit(x, 0) <==> x % 2 == 1
    ensures Bit(x / 2, k) == Bit(x, k + 1)
  {
  }

  lemma ShiftedBits(x: int, rest: int, i: nat)
    requires forall k: nat :: Bit(rest, k) == Bit(x, i + k)
    ensures forall k: nat :: Bit(rest / 2, k) == Bit(x, i + 1 + k)
  {
    forall k: nat ensures Bit(rest / 2, k) == Bit(x, i + 1 + k) {
      BitTail(rest, k);
      assert Bit(rest, k + 1) == Bit(x, i + (k + 1));
    }
  }

  lemma FirstLink()
    ensures Scale(Q128, 0) == Factor(0)
    ensures AllOnes(0) == Q128
  {
  }

  // ---- Lower bound on the chain ----

  /** The chain of the factors 0..i-1, all applied. */
  function AllOnes(i: nat): nat
    requires i <= BITS
  {
    if i == 0 then Q128 else Scale(AllOnes(i - 1), i - 1)
  }

  lemma ScaleMonotone(x: nat, y: nat, i: nat)
    requires x <= y && i < BITS
    ensures Scale(x, i) <= Scale(y, i)
  {
    MulMono(x, y, Factor(i));
  }

  lemma ScaleShrinks(x: nat, i: nat)
    requires i < BITS
    ensures Scale(x, i) <= x
  {
    MulMono(Factor(i), Q128, x);
  }

  const CHAIN_MIN: nat := 0x10000000000000  // 2^52
  const GAP_SCALE: nat := 0x2000000         // 2^25
  const GAP: nat := 1600                    // 1600 / 2^25 is a little less than sqrt(1.0001) - 1

  const ROOT: nat := 0x1000346d6ff11672ae55ad00f5c38565c  // 2^128 times the square root of 1.0001, rounded down

  /** One link of the all-ones chain; factor i alone shrinks a ratio by one half-tick more than factors 0..i-1
      together. */
  lemma AllOnesStep(i: nat, x: nat, next: nat)
    requires i < BITS && AllOnes(i) == x
    requires next * Q128 <= x * Factor(i) < next * Q128 + Q128
    requires GAP_SCALE * x >= (GAP_SCALE + GAP) * Factor(i)
    requires -3 * Q128 <= Q128 * x - ROOT * Factor(i) <= 3 * Q128
    ensures AllOnes(i + 1) == next
    ensures FactorGap(i) && FactorFits(i)
  {
  }

  /** Undoing factor i and applying factors 0..i-1 multiplies by the square root of 1.0001, up to 3 units. */
  predicate FactorFits(i: nat)
    requires i < BITS
  {
    -3 * Q128 <= Q128 * AllOnes(i) - ROOT * Factor(i) <= 3 * Q128
  }

  predicate FactorGap(i: nat)
    requires i < BITS
  {
    GAP_SCALE * AllOnes(i) >= (GAP_SCALE + GAP) * Factor(i)
  }

  lemma AllOnesBounds()
    ensures AllOnes(BITS) >= CHAIN_MIN
    ensures forall i :: 0 <= i < BITS ==> FactorGap(i) && FactorFits(i)
  {
    hide AllOnes, FactorGap, FactorFits;
    FirstLink();
    AllOnesStep(0, 0x100000000000000000000000000000000, 0xFFFCB933BD6FAD37AA2D162D1A594001);
    AllOnesStep(1, 0xFFFCB933BD6FAD37AA2D162D1A594001, 0xFFF62BBB6D458EC3C792106391DC463E);
    AllOnesStep(2, 0xFFF62BBB6D458EC3C792106391DC463E, 0xFFE9114B9CF28D394C3203DBD44EB085);
    AllOnesStep(3, 0xFFE9114B9CF28D394C3203DBD44EB085, 0xFFCEDE6F1D8BE90B88F350424E84E5B7);
    AllOnesStep(4, 0xFFCEDE6F1D8BE90B88F350424E84E5B7, 0xFF9A80C1ADA7480B1DAA871D7C4D9B36);
    AllOnesStep(5, 0xFF9A80C1ADA7480B1DAA871D7C4D9B36, 0xFF31E58D5A53C84FC142023EC1B1DFD7);
    AllOnesStep(6, 0xFF31E58D5A53C84FC142023EC1B1DFD7, 0xFE612F8183B1EA21B72FB71B03542AE4);
    AllOnesStep(7, 0xFE612F8183B1EA21B72FB71B03542AE4, 0xFCC1C2F380536BC67EE1FF564D1080B2);
    AllOnesStep(8, 0xFCC1C2F380536BC67EE1FF564D1080B2, 0xF98AD8C8D7ECC0A3F8A42C9724CFFB6A);
    AllOnesStep(9, 0xF98AD8C8D7ECC0A3F8A42C9724CFFB6A, 0xF33C480189B415235AD119427D89A1F6);
    AllOnesStep(10, 0xF33C480189B415235AD119427D89A1F6, 0xE71889A85903FD03CB7CC40BDF371A9C);
    AllOnesStep(11, 0xE71889A85903FD03CB7CC40BDF371A9C, 0xD09A9F3E93DB5812D4820C2FC67A3E3A);
    AllOnesStep(12, 0xD09A9F3E93DB5812D4820C2FC67A3E3A, 0xA9F973345B9E647C4163AF91D00B255F);
    AllOnesStep(13, 0xA9F973345B9E647C4163AF91D00B255F, 0x70D9DB6485F04DDD567E07C7B89F8E7C);
    AllOnesStep(14, 0x70D9DB6485F04DDD567E07C7B89F8E7C, 0x31BEB65D91AF63AE717A760BE3B374DC);
    AllOnesStep(15, 0x31BEB65D91AF63AE717A760BE3B374DC, 0x9AA7036FD2355429C4030B032E1CF71);
    AllOnesStep(16, 0x9AA7036FD2355429C4030B032E1CF71, 0x5D6C2AF97AAA8DE0E5A6BF23F5E547);
    AllOnesStep(17, 0x5D6C2AF97AAA8DE0E5A6BF23F5E547, 0x221755388A6658E120F4A3C503CF);
    AllOnesStep(18, 0x221755388A6658E120F4A3C503CF, 0x48A25E36942A4FC0C1F899F);
    AllOnesStep(19, 0x48A25E36942A4FC0C1F899F, 0x149B7873D84D48);
  }

  lemma AllOnesLarge(i: nat)
    requires i <= BITS
    ensures AllOnes(i) >= CHAIN_MIN
    decreases BITS - i
  {
    if i == BITS {
      AllOnesBounds();
    } else {
      AllOnesLarge(i + 1);
      ScaleShrinks(AllOnes(i), i);
    }
  }

  lemma {:induction false} ChainBounds(rest: nat, i: nat, x: nat)
    requires i <= BITS && AllOnes(i) <= x
    ensures CHAIN_MIN <= Chain(rest, i, x) <= x
    decreases BITS - i
  {
    hide Factor, Scale;
    if i == BITS {
      AllOnesLarge(BITS);
    } else {
      var y := if rest % 2 == 1 then Scale(x, i) else x;
      ScaleMonotone(AllOnes(i), x, i);
      ScaleShrinks(x, i);
      ChainBounds(rest / 2, i + 1, y);
    }
  }

  // ---- Strict monotonicity ----

  /** The relative gap between two ratios survives one multiplication up to one unit of GAP_SCALE. */
  lemma GapSurvivesScale(x: nat, y: nat, gap: nat, i: nat)
    requires i < BITS && gap > 0
    requires GAP_SCALE * x >= (GAP_SCALE + gap) * y
    requires Scale(y, i) >= GAP_SCALE
    ensures GAP_SCALE * Scale(x, i) >= (GAP_SCALE + gap - 1) * Scale(y, i)
  {
    FloorBounds(x * Factor(i));
    FloorBounds(y * Factor(i));
    GapArithmetic(GAP_SCALE, gap, Q128, x, y, Factor(i), Scale(x, i), Scale(y, i));
  }

  lemma GapArithmetic(k: nat, gap: nat, d: nat, x: nat, y: nat, m: nat, x': nat, y': nat)
    requires d > 0 && gap > 0
    requires x * m < x' * d + d && y' * d <= y * m
    requires k * x >= (k + gap) * y && y' >= k
    ensures k * x' >= (k + gap - 1) * y'
  {
    var a, b := k * x' + k, (k + gap) * y';
    assert a * d >= b * d by {
      MulMono(x * m, x' * d + d, k);
      MulAssoc(k, x, m);
      MulMono((k + gap) * y, k * x, m);
      MulAssoc(k + gap, y, m);
      MulMono(y' * d, y * m, k + gap);
      MulAssoc(k + gap, y', d);
      Spread(k, x', d);
    }
    MulCancel(b, a, d);
    assert b == (k + gap - 1) * y' + y';
  }

  lemma Spread(k: int, x: int, d: int)
    ensures (k * x + k) * d == k * (x * d + d)
  {
  }

  lemma FloorBounds(n: nat)
    ensures n / Q128 * Q128 <= n < n / Q128 * Q128 + Q128
  {
  }

  lemma {:induction false} GapSurvivesChain(rest: nat, i: nat, x: nat, y: nat, gap: nat)
    requires i <= BITS && gap >= BITS - i && AllOnes(i) <= y
    requires GAP_SCALE * x >= (GAP_SCALE + gap) * y
    ensures GAP_SCALE * Chain(rest, i, x) >= (GAP_SCALE + gap - (BITS - i)) * Chain(rest, i, y)
    decreases BITS - i
  {
    hide Factor, Scale, AllOnes;
    if i < BITS {
      AllOnesNext(i);
      ChainStep(rest, i, x);
      ChainStep(rest, i, y);
      AllOnesLarge(i + 1);
      ScaleMonotone(AllOnes(i), y, i);
      ScaleShrinks(AllOnes(i), i);
      if rest % 2 == 1 {
        GapSurvivesScale(x, y, gap, i);
        GapSurvivesChain(rest / 2, i + 1, Scale(x, i), Scale(y, i), gap - 1);
      } else {
        MulMono(GAP_SCALE + gap - 1, GAP_SCALE + gap, y);
        GapSurvivesChain(rest / 2, i + 1, x, y, gap - 1);
      }
    }
  }

  lemma AllOnesNext(i: nat)
    requires i < BITS
    ensures AllOnes(i + 1) == Scale(AllOnes(i), i)
  {
  }

  const FINAL_GAP: nat := GAP - BITS

  /** Adding one to the tick carries through its trailing ones: factors 0..i-1 give way to factor i. */
  lemma {:induction false} CarryKeepsGap(rest: nat, i: nat)
    requires i < BITS && rest + 1 < Pow2(BITS - i)
    ensures GAP_SCALE * Chain(rest, i, AllOnes(i)) >= (GAP_SCALE + FINAL_GAP) * Chain(rest + 1, i, Q128)
    decreases BITS - i
  {
    hide Factor, Scale;
    var x := AllOnes(i);
    AllOnesNext(i);
    AllOnesBounds();
    ScaleOne(i);
    ChainStep(rest, i, x);
    ChainStep(rest + 1, i, Q128);
    if rest % 2 == 0 {
      assert (rest + 1) / 2 == rest / 2;
      AllOnesAtMostOne(i);
      ScaleMonotone(x, Q128, i);
      ChainBounds(rest / 2, i + 1, Scale(Q128, i));
      assert FactorGap(i);
      GapSurvivesChain(rest / 2, i + 1, x, Factor(i), GAP);
      MulMono(GAP_SCALE + FINAL_GAP, GAP_SCALE + GAP - (BITS - (i + 1)), Chain(rest / 2, i + 1, Factor(i)));
    } else {
      assert (rest + 1) / 2 == rest / 2 + 1;
      assert i + 1 < BITS;
      CarryKeepsGap(rest / 2, i + 1);
    }
  }

  lemma ScaleOne(i: nat)
    requires i < BITS
    ensures Scale(Q128, i) == Factor(i)
  {
  }

  lemma AllOnesAtMostOne(i: nat)
    requires i <= BITS
    ensures AllOnes(i) <= Q128
  {
    if i > 0 {
      AllOnesAtMostOne(i - 1);
      ScaleShrinks(AllOnes(i - 1), i - 1);
    }
  }

  lemma ChainGap(t: nat)
    requires t < MAX_TICK
    ensures GAP_SCALE * Chain(t, 0, Q128) >= (GAP_SCALE + FINAL_GAP) * Chain(t + 1, 0, Q128)
    ensures CHAIN_MIN <= Chain(t + 1, 0, Q128) <= Q128 && CHAIN_MIN <= Chain(t, 0, Q128) <= Q128
  {
    assert Pow2(5) == 32 && Pow2(10) == 1024 && Pow2(15) == 32768 && Pow2(BITS) == 1048576;
    FirstLink();
    CarryKeepsGap(t, 0);
    ChainBounds(t, 0, Q128);
    ChainBounds(t + 1, 0, Q128);
  }

  /** A gap in the chain shows after rounding up to Q64.96. */
  lemma NegativeSide(x: nat, y: nat)
    requires GAP_SCALE * x >= (GAP_SCALE + FINAL_GAP) * y && CHAIN_MIN <= y
    ensures Finish(y, false) < Finish(x, false)
  {
    assert x - y >= Q32;
  }

  lemma PositiveSide(x: nat, y: nat)
    requires GAP_SCALE * x >= (GAP_SCALE + FINAL_GAP) * y && CHAIN_MIN <= y && 0 < x <= Q128
    ensures Finish(x, true) < Finish(y, true)
    ensures Finish(Q128, false) < Finish(y, true)
  {
    var a, b := FloorDiv(MAX_UINT256, x), FloorDiv(MAX_UINT256, y);
    FloorGalois(MAX_UINT256, x, Q128 - 1);
    MulMono(x, Q128, Q128 - 1);
    QuotientGap(GAP_SCALE, FINAL_GAP, MAX_UINT256, x, y, a, b);
    assert b >= a + Q32 + 1;
  }

  lemma QuotientGap(k: nat, gap: nat, n: nat, x: nat, y: nat, a: nat, b: nat)
    requires y > 0 && k > 0
    requires k * x >= (k + gap) * y
    requires a * x <= n < b * y + y
    ensures k * (b + 1) > (k + gap) * a
  {
    SwapLast(k + gap, a, y);
    MulMono((k + gap) * y, k * x, a);
    SwapLast(k, x, a);
    MulAssoc(k, a, x);
    QuotientAbove(k, n, a * x, b, y);
    MulCancel((k + gap) * a, k * (b + 1), y);
  }

  lemma SwapLast(a: int, b: int, c: int)
    ensures a * b * c == a * c * b
  {
  }

  lemma QuotientAbove(k: nat, n: nat, least: nat, b: nat, y: nat)
    requires k > 0 && least <= n < b * y + y
    ensures k * least < k * (b + 1) * y
  {
    MulMono(least + 1, b * y + y, k);
    assert (b * y + y) * k == k * (b + 1) * y;
    assert (least + 1) * k == k * least + k;
  }

  /** Consecutive ticks have strictly increasing sqrt prices. */
  lemma RatioStep(t: int)
    requires MIN_TICK <= t < MAX_TICK
    ensures Ratio(t) < Ratio(t + 1)
  {
    hide Chain, Finish, AllOnes;
    var x, y := Chain(Abs(t), 0, Q128), Chain(Abs(t + 1), 0, Q128);
    if t < 0 {
      ChainGap(Abs(t + 1));
      NegativeSide(y, x);
    } else {
      ChainGap(t);
      NoBitsLeft(0, Q128);
      PositiveSide(x, y);
    }
  }

  lemma {:induction false} RatioStrictlyIncreasing(a: int, b: int)
    requires MIN_TICK <= a < b <= MAX_TICK
    ensures Ratio(a) < Ratio(b)
    decreases b - a
  {
    RatioStep(b - 1);
    if a < b - 1 { RatioStrictlyIncreasing(a, b - 1); }
  }

  /** One link of a chain with known values. */
  lemma Link(rest: nat, i: nat, x: nat, next: nat)
    requires i < BITS
    requires if rest % 2 == 1 then next * Q128 <= x * Factor(i) < next * Q128 + Q128 else next == x
    ensures Chain(rest, i, x) == Chain(rest / 2, i + 1, next)
  {
    if rest % 2 == 1 {
      hide Factor;
      ScaleIs(x * Factor(i), next);
    }
  }

  lemma ScaleIs(n: nat, q: nat)
    requires q * Q128 <= n < q * Q128 + Q128
    ensures n / Q128 == q
  {
  }

  lemma LastTick()
    ensures Chain(MAX_TICK, 0, Q128) == 0x1000276A221A17501
  {
    hide Chain;
    Link(887272, 0, 0x100000000000000000000000000000000, 0x100000000000000000000000000000000);
    Link(443636, 1, 0x100000000000000000000000000000000, 0x100000000000000000000000000000000);
    Link(221818, 2, 0x100000000000000000000000000000000, 0x100000000000000000000000000000000);
    Link(110909, 3, 0x100000000000000000000000000000000, 0xFFE5CACA7E10E4E61C3624EAA0941CD0);
    Link(55454, 4, 0xFFE5CACA7E10E4E61C3624EAA0941CD0, 0xFFE5CACA7E10E4E61C3624EAA0941CD0);
    Link(27727, 5, 0xFFE5CACA7E10E4E61C3624EAA0941CD0, 0xFF7D10C63A977157DA4140DEB6F31A7B);
    Link(13863, 6, 0xFF7D10C63A977157DA4140DEB6F31A7B, 0xFEAC1D4052F7714818B490C1138EA058);
    Link(6931, 7, 0xFEAC1D4052F7714818B490C1138EA058, 0xFD0C3654DA9E033741D1A9F93707F6F6);
    Link(3465, 8, 0xFD0C3654DA9E033741D1A9F93707F6F6, 0xF9D459C5817DBAFA9E376AE84DCFEB8B);
    Link(1732, 9, 0xF9D459C5817DBAFA9E376AE84DCFEB8B, 0xF9D459C5817DBAFA9E376AE84DCFEB8B);
    Link(866, 10, 0xF9D459C5817DBAFA9E376AE84DCFEB8B, 0xF9D459C5817DBAFA9E376AE84DCFEB8B);
    Link(433, 11, 0xF9D459C5817DBAFA9E376AE84DCFEB8B, 0xE183AC4E25D5949966242A64E9C80E2F);
    Link(216, 12, 0xE183AC4E25D5949966242A64E9C80E2F, 0xE183AC4E25D5949966242A64E9C80E2F);
    Link(108, 13, 0xE183AC4E25D5949966242A64E9C80E2F, 0xE183AC4E25D5949966242A64E9C80E2F);
    Link(54, 14, 0xE183AC4E25D5949966242A64E9C80E2F, 0xE183AC4E25D5949966242A64E9C80E2F);
    Link(27, 15, 0xE183AC4E25D5949966242A64E9C80E2F, 0x2BD1A4C5D2A1181ACA1EF15E64C2E3CF);
    Link(13, 16, 0x2BD1A4C5D2A1181ACA1EF15E64C2E3CF, 0x1A785CBBDC050483E3BE5812760BE73);
    Link(6, 17, 0x1A785CBBDC050483E3BE5812760BE73, 0x1A785CBBDC050483E3BE5812760BE73);
    Link(3, 18, 0x1A785CBBDC050483E3BE5812760BE73, 0x3865A6455D07D2BC87C5956D2E);
    Link(1, 19, 0x3865A6455D07D2BC87C5956D2E, 0x1000276A221A17501);
    ChainEnd(0, 0x1000276A221A17501);
  }

  lemma RatioEnds()
    ensures Ratio(MIN_TICK) == MIN_SQRT_RATIO
    ensures Ratio(MAX_TICK) == MAX_SQRT_RATIO
    ensures Ratio(0) == 0x1_000000000000000000000000
  {
    hide Chain;
    NoBitsLeft(0, Q128);
    LastTick();
  }

  lemma {:induction false} NoBitsLeft(i: nat, x: nat)
    requires i <= BITS
    ensures Chain(0, i, x) == x
    decreases BITS - i
  {
    if i < BITS { NoBitsLeft(i + 1, x); }
  }

  /** The price one tick above parity. */
  lemma RatioOfOne()
    ensures Ratio(1) == 0x1000346d6ff11672ae55ad010
  {
    hide Chain;
    Link(1, 0, Q128, 0xfffcb933bd6fad37aa2d162d1a594001);
    NoBitsLeft(1, 0xfffcb933bd6fad37aa2d162d1a594001);
  }

  lemma RatioRange(t: int)
    requires MIN_TICK <= t <= MAX_TICK
    ensures MIN_SQRT_RATIO <= Ratio(t) <= MAX_SQRT_RATIO
    ensures t < MAX_TICK ==> Ratio(t) < Ratio(t + 1)
  {
    hide Ratio;
    RatioEnds();
    if t > MIN_TICK { RatioStrictlyIncreasing(MIN_TICK, t); }
    if t < MAX_TICK {
      RatioStrictlyIncreasing(t, MAX_TICK);
      RatioStep(t);
    }
  }

  // ---- The tick of a price ----

  /** The greatest tick at or below `from` whose sqrt price does not exceed the price. */
  function TickBelow(price: int, from: int): int
    requires MIN_TICK <= from <= MAX_TICK
    decreases from - MIN_TICK
  {
    if from == MIN_TICK || Ratio(from) <= price then from else TickBelow(price, from - 1)
  }

  lemma {:induction false} TickBelowBrackets(price: int, from: int)
    requires MIN_TICK <= from < MAX_TICK && MIN_SQRT_RATIO <= price < Ratio(from + 1)
    ensures var t := TickBelow(price, from);
            MIN_TICK <= t <= from && Ratio(t) <= price < Ratio(t + 1)
    decreases from - MIN_TICK
  {
    hide Ratio;
    RatioEnds();
    if from > MIN_TICK && price < Ratio(from) { TickBelowBrackets(price, from - 1); }
  }

  function TickAt(price: int): (t: int)
    requires MIN_SQRT_RATIO <= price < MAX_SQRT_RATIO
    ensures MIN_TICK <= t < MAX_TICK
    ensures Ratio(t) <= price < Ratio(t + 1)
  {
    RatioEnds();
    TickBelowBrackets(price, MAX_TICK - 1);
    TickBelow(price, MAX_TICK - 1)
  }

  /** A price lies in the bracket of exactly one tick. */
  lemma TickIsUnique(price: int, t: int)
    requires MIN_TICK <= t < MAX_TICK
    requires Ratio(t) <= price < Ratio(t + 1)
    ensures MIN_SQRT_RATIO <= price < MAX_SQRT_RATIO && TickAt(price) == t
  {
    hide Ratio;
    RatioRange(t);
    RatioRange(t + 1);
    var u := TickAt(price);
    if u + 1 < t { RatioStrictlyIncreasing(u + 1, t); }
    if t + 1 < u { RatioStrictlyIncreasing(t + 1, u); }
  }

  /** The tick search inverts the ratio on every tick but the last. */
  lemma TickOfRatio(t: int)
    requires MIN_TICK <= t < MAX_TICK
    ensures MIN_SQRT_RATIO <= Ratio(t) < MAX_SQRT_RATIO && TickAt(Ratio(t)) == t
  {
    hide Ratio;
    RatioRange(t);
    TickIsUnique(Ratio(t), t);
  }

  method GetTickAtSqrtRatio(price: int) returns (r: Result<int>)
    ensures r == if MIN_SQRT_RATIO <= price < MAX_SQRT_RATIO then Ok(TickAt(price)) else Err(PriceOutOfRange)
  {
    hide Ratio;
    if !(MIN_SQRT_RATIO <= price < MAX_SQRT_RATIO) {
      return Err(PriceOutOfRange);
    }
    RatioEnds();
    var low, high := MIN_TICK, MAX_TICK;
    while low < high
      invariant MIN_TICK <= low <= high <= MAX_TICK
      invariant Ratio(low) <= price
      invariant high < MAX_TICK ==> price < Ratio(high + 1)
    {
      var mid := (low + high + 1) / 2;
      var ratio := GetSqrtRatioAtTick(mid);
      if ratio.value <= price {
        low := mid;
      } else {
        high := mid - 1;
      }
    }
    TickIsUnique(price, low);
    r := Ok(low);
  }
}
