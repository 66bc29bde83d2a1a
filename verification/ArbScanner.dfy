/** The profit of trading one size against both pools, and the integer ternary search for the size with the greatest. */
module ArbScanner {
  import opened Results
  import opened FullMath
  import opened RealMath
  import opened V3Models
  import opened TickBitmap
  import opened TickMath
  import opened SqrtPriceMath
  import opened SwapMath
  import opened SwapSimulator
  import UniswapV2Math

  const USDC_UNIT := 1_000_000
  const WETH_UNIT := 1_000_000_000_000_000_000
  const SEARCH_ITERATIONS := 200

  datatype Direction = V3ToV2 | V2ToV3

  datatype Reserves = Reserves(reserveUsdc: nat, reserveWeth: nat)

  function Smallest(direction: Direction): int {
    if direction == V3ToV2 then USDC_UNIT else WETH_UNIT / 1000
  }

  function Largest(direction: Direction, reserves: Reserves): int {
    FloorDiv(if direction == V3ToV2 then reserves.reserveUsdc else reserves.reserveWeth, 4)
  }

  /** Sizes are searched from 1 USDC or 0.001 WETH up to a quarter of the reserve they are paid from or taken from. */
  lemma SearchRange(reserves: Reserves)
    ensures Smallest(V3ToV2) == 1_000_000 && Smallest(V2ToV3) == 1_000_000_000_000_000
    ensures forall x: int :: x <= Largest(V3ToV2, reserves) <==> 4 * x <= reserves.reserveUsdc
    ensures forall x: int :: x <= Largest(V2ToV3, reserves) <==> 4 * x <= reserves.reserveWeth
  {
  }

  // ---- The profit of a size ----

  /** What a candidate is quoted against: a V3 pool with its window, and the V2 reserves. */
  datatype Market = Market(pool: PoolState, window: Option<TickWindow>, usdcIsToken0: bool, reserves: Reserves)

  /** The exact outcome of one candidate size. */
  datatype ArbLeg = ArbLeg(profit: int, v3Out: int, v2In: int, v2Out: int, exact: bool)

  predicate Quotable(market: Market) {
    AtTick(market.pool.tick, market.pool.price)
  }

  /** The exact profit of one size, or None when it cannot be quoted in full. */
  function Evaluate(direction: Direction, amountIn: int, market: Market): Result<Option<ArbLeg>>
    requires Quotable(market)
  {
    var r := market.reserves;
    var paysUsdc := direction == V3ToV2;
    if market.window.None? || amountIn <= 0 then Ok(None)
    else
      var quote :- Simulation(market.pool, market.window.value, paysUsdc == market.usdcIsToken0, amountIn, None);
      if quote.limitReason.Some? || quote.amountInConsumed != amountIn then Ok(None)
      else if paysUsdc then
        match UniswapV2Math.GetAmountOut(quote.amountOut, r.reserveWeth, r.reserveUsdc)
        case Err(_) => Ok(None)
        case Ok(usdcOut) => Ok(Some(ArbLeg(usdcOut - amountIn, quote.amountOut, quote.amountOut, usdcOut, quote.exact)))
      else
        match UniswapV2Math.GetAmountIn(amountIn, r.reserveUsdc, r.reserveWeth)
        case Err(_) => Ok(None)
        case Ok(cost) => Ok(Some(ArbLeg(quote.amountOut - cost, quote.amountOut, cost, amountIn, quote.exact)))
  }

  /** What a quoted leg settles to: the V3 pool takes the whole size in USDC and the pair takes the WETH it gives, at
      the greatest USDC output the pair accepts; or the pair gives the whole size in WETH for an input it accepts, at
      most one unit above the least such, and the V3 pool takes that WETH. Only USDC is left, and the profit is its
      change. */
  lemma LegsSettle(amountIn: int, market: Market)
    requires Quotable(market) && market.window.Some?
    ensures var r := market.reserves;
            var leg := Evaluate(V3ToV2, amountIn, market);
            leg.Ok? && leg.value.Some? ==>
              var q := Simulation(market.pool, market.window.value, market.usdcIsToken0, amountIn, None);
              var weth, usdc := leg.value.value.v2In, leg.value.value.v2Out;
              && amountIn > 0 && q.Ok? && q.value.limitReason == None
              && q.value.amountInConsumed == amountIn && q.value.amountOut == weth == leg.value.value.v3Out
              && (forall y :: UniswapV2Math.InvariantHolds(r.reserveWeth, r.reserveUsdc, weth, y) <==> 0 < y <= usdc)
              && leg.value.value.profit == usdc - amountIn && leg.value.value.exact == q.value.exact
    ensures var r := market.reserves;
            var leg := Evaluate(V2ToV3, amountIn, market);
            leg.Ok? && leg.value.Some? ==>
              var q := Simulation(market.pool, market.window.value, !market.usdcIsToken0, amountIn, None);
              var cost, usdc := leg.value.value.v2In, leg.value.value.v3Out;
              && leg.value.value.v2Out == amountIn > 0 && q.Ok? && q.value.limitReason == None
              && q.value.amountInConsumed == amountIn && q.value.amountOut == usdc
              && UniswapV2Math.InvariantHolds(r.reserveUsdc, r.reserveWeth, cost, amountIn)
              && (forall x :: UniswapV2Math.InvariantHolds(r.reserveUsdc, r.reserveWeth, x, amountIn) ==> x >= cost - 1)
              && leg.value.value.profit == usdc - cost && leg.value.value.exact == q.value.exact
  {
    hide Simulation, UniswapV2Math.InvariantHolds, AtTick;
    var r := market.reserves;
    var out, back := Evaluate(V3ToV2, amountIn, market), Evaluate(V2ToV3, amountIn, market);
    if out.Ok? && out.value.Some? {
      var weth := out.value.value.v2In;
      forall y { UniswapV2Math.OutIsGreatestAccepted(r.reserveWeth, r.reserveUsdc, weth, y); }
    }
    if back.Ok? && back.value.Some? {
      forall x { UniswapV2Math.InIsAccepted(r.reserveUsdc, r.reserveWeth, x, amountIn); }
    }
  }

  const PROFIT_FLOOR: int := -10_000_000_000_000_000_000_000_000_000_000_000_000_000

  function ProfitOrFloor(direction: Direction, amountIn: int, market: Market): int
    requires Quotable(market)
  {
    var leg := Evaluate(direction, amountIn, market);
    if leg.Ok? && leg.value.Some? then leg.value.value.profit else PROFIT_FLOOR
  }

  /** The profit as a function of the size. */
  function ProfitOf(direction: Direction, market: Market): int -> int
    requires Quotable(market)
  {
    x => ProfitOrFloor(direction, x, market)
  }

  // ---- The search as a function ----

  /** One pass: compares the two inner thirds and drops the outer third on the worse side. */
  function Narrow(profit: int -> int, lo: int, hi: int): (range: (int, int))
    requires hi - lo > 2
    ensures lo <= range.0 <= range.1 <= hi && range.1 - range.0 == hi - lo - FloorDiv(hi - lo, 3)
  {
    var third := FloorDiv(hi - lo, 3);
    if profit(lo + third) < profit(hi - third) then (lo + third, hi) else (lo, hi - third)
  }

  function Narrowed(profit: int -> int, lo: int, hi: int, passes: nat): (range: (int, int))
    ensures hi - lo <= 2 ==> range == (lo, hi)
    ensures lo <= hi ==> lo <= range.0 <= range.1 <= hi
    decreases passes
  {
    if passes == 0 || hi - lo <= 2 then (lo, hi)
    else
      var (nextLo, nextHi) := Narrow(profit, lo, hi);
      Narrowed(profit, nextLo, nextHi, passes - 1)
  }

  /** The first size in the range that no other beats. */
  function FirstBest(profit: int -> int, lo: int, hi: int): (best: int)
    requires lo <= hi
    ensures lo <= best <= hi
    ensures forall x :: lo <= x <= hi ==> profit(x) <= profit(best)
    ensures forall x :: lo <= x < best ==> profit(x) < profit(best)
    decreases hi - lo
  {
    if lo == hi then lo
    else
      var before := FirstBest(profit, lo, hi - 1);
      if profit(hi) > profit(before) then hi else before
  }

  function Search(profit: int -> int, lo: int, hi: int): Result<int> {
    if lo > hi then Err(EmptyRange)
    else
      var (a, b) := Narrowed(profit, lo, hi, SEARCH_ITERATIONS);
      Ok(FirstBest(profit, a, b))
  }

  // ---- The search as the program runs it ----

  method BestSize(direction: Direction, reserves: Reserves, profit: int -> int) returns (best: Result<int>)
    ensures best == Search(profit, Smallest(direction), Largest(direction, reserves))
  {
    hide Narrow, FirstBest, Narrowed, Search, FloorDiv;
    var lo, hi;
    if direction == V3ToV2 {
      lo, hi := USDC_UNIT, FloorDiv(reserves.reserveUsdc, 4);
    } else {
      lo, hi := WETH_UNIT / 1000, FloorDiv(reserves.reserveWeth, 4);
    }
    ghost var start := (lo, hi);
    assert start == (Smallest(direction), Largest(direction, reserves));
    for pass := 0 to SEARCH_ITERATIONS
      invariant start.0 <= start.1 <==> lo <= hi
      invariant Narrowed(profit, start.0, start.1, SEARCH_ITERATIONS)
          == Narrowed(profit, lo, hi, SEARCH_ITERATIONS - pass)
    {
      NarrowedStep(profit, lo, hi, SEARCH_ITERATIONS - pass);
      if hi - lo <= 2 {
        break;
      }
      var third := FloorDiv(hi - lo, 3);
      var m1, m2 := lo + third, hi - third;
      NarrowValue(profit, lo, hi);
      if profit(m1) < profit(m2) {
        lo := m1;
      } else {
        hi := m2;
      }
    }
    NarrowedStep(profit, lo, hi, 0);
    SearchEnds(profit, start.0, start.1, lo, hi);
    if lo > hi {
      return Err(EmptyRange);
    }
    best := Ok(FirstBest(profit, lo, hi));
  }

  lemma SearchEnds(profit: int -> int, lo: int, hi: int, a: int, b: int)
    requires Narrowed(profit, lo, hi, SEARCH_ITERATIONS) == (a, b) && (lo <= hi <==> a <= b)
    ensures Search(profit, lo, hi) == if a > b then Err(EmptyRange) else Ok(FirstBest(profit, a, b))
  {
    hide Narrowed;
  }

  lemma NarrowedStep(profit: int -> int, lo: int, hi: int, passes: nat)
    ensures passes == 0 || hi - lo <= 2 ==> Narrowed(profit, lo, hi, passes) == (lo, hi)
    ensures passes > 0 && hi - lo > 2 ==>
              Narrowed(profit, lo, hi, passes)
              == Narrowed(profit, Narrow(profit, lo, hi).0, Narrow(profit, lo, hi).1, passes - 1)
  {
    hide Narrow;
  }

  lemma NarrowValue(profit: int -> int, lo: int, hi: int)
    requires hi - lo > 2
    ensures var third := FloorDiv(hi - lo, 3);
            Narrow(profit, lo, hi)
            == if profit(lo + third) < profit(hi - third) then (lo + third, hi) else (lo, hi - third)
  {
  }

  // ---- It finds the peak ----

  /** Strictly rising up to `peak`, never rising after it. */
  predicate Peaked(profit: int -> int, lo: int, hi: int, peak: int) {
    && lo <= peak <= hi
    && (forall x :: lo <= x < peak ==> profit(x) < profit(x + 1))
    && (forall x :: peak <= x < hi ==> profit(x) >= profit(x + 1))
  }

  lemma {:induction false} Rises(profit: int -> int, lo: int, hi: int, peak: int, x: int, y: int)
    requires Peaked(profit, lo, hi, peak) && lo <= x <= y <= peak
    ensures x < y ==> profit(x) < profit(y)
    decreases y - x
  {
    if x < y { Rises(profit, lo, hi, peak, x, y - 1); }
  }

  lemma {:induction false} Falls(profit: int -> int, lo: int, hi: int, peak: int, x: int, y: int)
    requires Peaked(profit, lo, hi, peak) && peak <= x <= y <= hi
    ensures profit(x) >= profit(y)
    decreases y - x
  {
    if x < y { Falls(profit, lo, hi, peak, x, y - 1); }
  }

  /** A pass never drops the peak. */
  lemma NarrowKeepsPeak(profit: int -> int, lo: int, hi: int, peak: int)
    requires Peaked(profit, lo, hi, peak) && hi - lo > 2
    ensures var (a, b) := Narrow(profit, lo, hi); Peaked(profit, a, b, peak)
  {
    var third := FloorDiv(hi - lo, 3);
    var m1, m2 := lo + third, hi - third;
    if peak < m1 { Falls(profit, lo, hi, peak, m1, m2); }
    if peak > m2 { Rises(profit, lo, hi, peak, m1, m2); }
  }

  lemma {:induction false} NarrowedKeepsPeak(profit: int -> int, lo: int, hi: int, passes: nat, peak: int)
    requires Peaked(profit, lo, hi, peak)
    ensures var (a, b) := Narrowed(profit, lo, hi, passes); Peaked(profit, a, b, peak)
    decreases passes
  {
    hide Narrow, Peaked;
    NarrowedStep(profit, lo, hi, passes);
    if passes > 0 && hi - lo > 2 {
      NarrowKeepsPeak(profit, lo, hi, peak);
      var (a, b) := Narrow(profit, lo, hi);
      NarrowedKeepsPeak(profit, a, b, passes - 1, peak);
    }
  }

  /** On every profit that strictly rises to a peak and never rises after it, the search returns the peak, which
      nothing beats. */
  lemma SearchFindsPeak(profit: int -> int, lo: int, hi: int, peak: int)
    requires Peaked(profit, lo, hi, peak)
    ensures Search(profit, lo, hi) == Ok(peak)
    ensures forall x :: lo <= x <= hi ==> profit(x) <= profit(peak)
  {
    hide Narrowed;
    NarrowedKeepsPeak(profit, lo, hi, SEARCH_ITERATIONS, peak);
    var (a, b) := Narrowed(profit, lo, hi, SEARCH_ITERATIONS);
    var best := FirstBest(profit, a, b);
    if best < peak { Rises(profit, a, b, peak, best, peak); }
    forall x | lo <= x <= hi ensures profit(x) <= profit(peak) {
      if x <= peak { Rises(profit, lo, hi, peak, x, peak); } else { Falls(profit, lo, hi, peak, peak, x); }
    }
  }

  /** Diminishing returns: each further unit adds no more than the one before. */
  predicate Concave(profit: int -> int, lo: int, hi: int) {
    forall x :: lo < x < hi ==> profit(x + 1) - profit(x) <= profit(x) - profit(x - 1)
  }

  lemma {:induction false} ConcaveFalls(profit: int -> int, lo: int, hi: int)
    requires lo < hi && Concave(profit, lo, hi) && profit(lo) >= profit(lo + 1)
    ensures Peaked(profit, lo, hi, lo)
    decreases hi - lo
  {
    if lo + 1 < hi {
      assert profit(lo + 2) - profit(lo + 1) <= profit(lo + 1) - profit(lo) by {
        var x := lo + 1;
        assert profit(x + 1) - profit(x) <= profit(x) - profit(x - 1);
      }
      ConcaveFalls(profit, lo + 1, hi);
    }
  }

  lemma {:induction false} ConcaveHasPeak(profit: int -> int, lo: int, hi: int) returns (peak: int)
    requires lo <= hi && Concave(profit, lo, hi)
    ensures Peaked(profit, lo, hi, peak)
    decreases hi - lo
  {
    if lo == hi {
      peak := lo;
    } else if profit(lo) < profit(lo + 1) {
      peak := ConcaveHasPeak(profit, lo + 1, hi);
    } else {
      ConcaveFalls(profit, lo, hi);
      peak := lo;
    }
  }

  /** With diminishing returns up to some size, and one flat floor for the sizes beyond that cannot be quoted, the
      search returns a size no other beats. */
  lemma SearchMaximisesConcave(profit: int -> int, lo: int, last: int, hi: int, floor: int)
    requires lo <= last <= hi && Concave(profit, lo, last)
    requires (forall x :: lo <= x <= last ==> profit(x) >= floor) && (forall x :: last < x <= hi ==> profit(x) == floor)
    ensures var best := Search(profit, lo, hi);
            best.Ok? && lo <= best.value <= hi && forall x :: lo <= x <= hi ==> profit(x) <= profit(best.value)
  {
    hide Search;
    var peak := ConcaveHasPeak(profit, lo, last);
    assert Peaked(profit, lo, hi, peak);
    SearchFindsPeak(profit, lo, hi, peak);
  }

  // ---- The pass limit never cuts it short ----

  function Power(base: nat, k: nat): (p: nat)
    ensures base > 0 ==> p > 0
  {
    if k == 0 then 1 else base * Power(base, k - 1)
  }

  /** A pass leaves at most two thirds of what the width exceeds 2 by. */
  lemma NarrowShrinks(profit: int -> int, lo: int, hi: int)
    requires hi - lo > 2
    ensures var (a, b) := Narrow(profit, lo, hi); 0 <= 3 * (b - a - 2) <= 2 * (hi - lo - 2)
  {
  }

  lemma ShrinksStep(old3: nat, new3: int, twos: nat, threes: nat)
    requires 3 * new3 <= 2 * old3 && old3 * (2 * twos) < 3 * threes
    ensures new3 * twos < threes
  {
    assert 3 * new3 * twos <= 2 * old3 * twos;
    assert 2 * old3 * twos == old3 * (2 * twos);
    assert 3 * new3 * twos == 3 * (new3 * twos);
  }

  lemma PowerNext(base: nat, k: nat)
    ensures Power(base, k + 1) == base * Power(base, k)
  {
  }

  lemma {:induction false} EnoughPasses(profit: int -> int, lo: int, hi: int, passes: nat)
    requires hi - lo > 2 ==> (hi - lo - 2) * Power(2, passes) < Power(3, passes)
    ensures var (a, b) := Narrowed(profit, lo, hi, passes); b - a <= 2
    decreases passes
  {
    hide Narrow, Narrowed, FloorDiv;
    NarrowedStep(profit, lo, hi, passes);
    if hi - lo > 2 {
      if passes > 0 {
        PowerNext(2, passes - 1);
        PowerNext(3, passes - 1);
        hide Power;
        NarrowShrinks(profit, lo, hi);
        var (a, b) := Narrow(profit, lo, hi);
        ShrinksStep(hi - lo - 2, b - a - 2, Power(2, passes - 1), Power(3, passes - 1));
        EnoughPasses(profit, a, b, passes - 1);
      }
    }
  }

  lemma {:induction false} PowerAdds(base: nat, j: nat, k: nat)
    ensures Power(base, j + k) == Power(base, j) * Power(base, k)
  {
    if j > 0 {
      PowerAdds(base, j - 1, k);
      PowerNext(base, j - 1 + k);
      PowerNext(base, j - 1);
      hide Power;
      MulAssoc(base, Power(base, j - 1), Power(base, k));
    } else {
      assert Power(base, 0) == 1;
    }
  }

  /** For reserves that fit in 112 bits, 189 of the 200 passes always bring the width down to 2. */
  lemma CapNeverReached(profit: int -> int, direction: Direction, reserves: Reserves)
    requires reserves.reserveUsdc < Power(2, 112) && reserves.reserveWeth < Power(2, 112)
    ensures var (a, b) := Narrowed(profit, Smallest(direction), Largest(direction, reserves), 189); b - a <= 2
    ensures Narrowed(profit, Smallest(direction), Largest(direction, reserves), SEARCH_ITERATIONS)
         == Narrowed(profit, Smallest(direction), Largest(direction, reserves), 189)
  {
    hide Narrowed, Power;
    var lo, hi := Smallest(direction), Largest(direction, reserves);
    WidthFits(direction, reserves);
    if hi - lo > 2 { WidthWorks(hi - lo - 2); }
    EnoughPasses(profit, lo, hi, 189);
    MorePasses(profit, lo, hi, 189, SEARCH_ITERATIONS);
  }

  lemma WidthFits(direction: Direction, reserves: Reserves)
    requires reserves.reserveUsdc < Power(2, 112) && reserves.reserveWeth < Power(2, 112)
    ensures Largest(direction, reserves) - Smallest(direction) < Power(2, 110)
  {
    hide Power, FloorDiv;
    Quadruple(110);
    FloorGalois(if direction == V3ToV2 then reserves.reserveUsdc else reserves.reserveWeth, 4, Power(2, 110));
  }

  lemma Quadruple(k: nat)
    ensures Power(2, k + 2) == 4 * Power(2, k)
  {
    assert Power(2, k + 2) == 2 * Power(2, k + 1);
  }

  lemma WidthWorks(width: nat)
    requires width < Power(2, 110)
    ensures width * Power(2, 189) < Power(3, 189)
  {
    hide Power;
    PowerAdds(2, 110, 189);
    ThreeOutgrowsTwo(15);
    assert Power(2, 189) > 0;
    MulMono(width, Power(2, 110), Power(2, 189));
  }

  /** 3^12 exceeds 2^19, and 3^9 exceeds 2^14. */
  lemma {:induction false} ThreeOutgrowsTwo(n: nat)
    ensures Power(2, 19 * n + 14) < Power(3, 12 * n + 9)
  {
    SmallPowers();
    hide Power;
    if n > 0 {
      ThreeOutgrowsTwo(n - 1);
      PowerAdds(2, 19, 19 * (n - 1) + 14);
      PowerAdds(3, 12, 12 * (n - 1) + 9);
      var a, b := Power(2, 19 * (n - 1) + 14), Power(3, 12 * (n - 1) + 9);
      assert 524288 * a < 531441 * b;
    }
  }

  lemma SmallPowers()
    ensures Power(2, 14) == 16384 && Power(2, 19) == 524288
    ensures Power(3, 9) == 19683 && Power(3, 12) == 531441
  {
  }

  lemma {:induction false} MorePasses(profit: int -> int, lo: int, hi: int, few: nat, many: nat)
    requires few <= many
    requires var (a, b) := Narrowed(profit, lo, hi, few); b - a <= 2
    ensures Narrowed(profit, lo, hi, many) == Narrowed(profit, lo, hi, few)
    decreases few
  {
    hide Narrow;
    NarrowedStep(profit, lo, hi, few);
    NarrowedStep(profit, lo, hi, many);
    if few > 0 && hi - lo > 2 {
      var (a, b) := Narrow(profit, lo, hi);
      MorePasses(profit, a, b, few - 1, many - 1);
    }
  }

  // ---- How far rounding can lead it astray ----

  /** Diminishing returns of a real profit. */
  ghost predicate ConcaveReal(g: int -> real, lo: int, hi: int) {
    forall x :: lo < x < hi ==> g(x + 1) - g(x) <= g(x) - g(x - 1)
  }

  /** The integer profit is within an error of the real one. */
  ghost predicate Near(profit: int -> int, g: int -> real, lo: int, hi: int, e: real) {
    forall x :: lo <= x <= hi ==> -e <= profit(x) as real - g(x) <= e
  }

  lemma ConcaveAt(g: int -> real, lo: int, hi: int, x: int)
    requires ConcaveReal(g, lo, hi) && lo < x < hi
    ensures g(x + 1) - g(x) <= g(x) - g(x - 1)
  {
  }

  /** To the right of a size the real profit gains at most its last gain there, over and over. */
  lemma {:induction false} ChordRight(g: int -> real, lo: int, hi: int, b: int, c: int)
    requires ConcaveReal(g, lo, hi) && lo < b <= c <= hi
    ensures c > b ==> g(c) - g(c - 1) <= g(b) - g(b - 1)
    ensures g(c) - g(b) <= (g(b) - g(b - 1)) * (c - b) as real
    decreases c - b
  {
    hide ConcaveReal;
    if c > b {
      ChordRight(g, lo, hi, b, c - 1);
      ConcaveAt(g, lo, hi, c - 1);
      OneMore(g(b) - g(b - 1), c - b);
    }
  }

  /** To the left of a size it lost at least that gain, over and over. */
  lemma {:induction false} ChordLeft(g: int -> real, lo: int, hi: int, a: int, b: int)
    requires ConcaveReal(g, lo, hi) && lo <= a < b <= hi
    ensures g(b) - g(b - 1) <= g(a + 1) - g(a)
    ensures g(b) - g(a) >= (g(b) - g(b - 1)) * (b - a) as real
    decreases b - a
  {
    hide ConcaveReal;
    if a + 1 < b {
      ChordLeft(g, lo, hi, a + 1, b);
      ConcaveAt(g, lo, hi, a + 1);
      OneMore(g(b) - g(b - 1), b - a);
    }
  }

  lemma OneMore(d: real, k: int)
    ensures d * k as real == d * (k - 1) as real + d
  {
  }

  /** The dropped left third: nothing there beats the first probe by more than the second probe's shortfall. */
  lemma LeftDropped(g: int -> real, lo: int, hi: int, x: int, m1: int, m2: int, loss: real)
    requires ConcaveReal(g, lo, hi) && lo <= x < m1 < m2 <= hi && m1 - x <= m2 - m1
    requires g(m1) - g(m2) <= loss && loss >= 0.0
    ensures g(x) - g(m1) <= loss
  {
    hide ConcaveReal;
    var d := g(m1) - g(m1 - 1);
    ChordLeft(g, lo, hi, x, m1);
    ChordRight(g, lo, hi, m1, m2);
    Negated(d, (m1 - x) as real);
    Negated(d, (m2 - m1) as real);
    ChordLoss(-d, (m1 - x) as real, (m2 - m1) as real, g(x) - g(m1), g(m1) - g(m2), loss);
  }

  lemma RightDropped(g: int -> real, lo: int, hi: int, m1: int, m2: int, x: int, loss: real)
    requires ConcaveReal(g, lo, hi) && lo <= m1 < m2 < x <= hi && x - m2 <= m2 - m1
    requires g(m2) - g(m1) <= loss && loss >= 0.0
    ensures g(x) - g(m2) <= loss
  {
    hide ConcaveReal;
    var d := g(m2) - g(m2 - 1);
    ChordLeft(g, lo, hi, m1, m2);
    ChordRight(g, lo, hi, m2, x);
    ChordLoss(d, (x - m2) as real, (m2 - m1) as real, g(x) - g(m2), g(m2) - g(m1), loss);
  }

  lemma Negated(d: real, k: real)
    ensures -d * k == -(d * k)
  {
  }

  /** A gain along a shorter chord is at most a bounded gain along a longer one of the same slope, or none. */
  lemma ChordLoss(d: real, short: real, long: real, gain: real, other: real, loss: real)
    requires 0.0 <= short <= long && gain <= d * short && d * long <= other <= loss && loss >= 0.0
    ensures gain <= loss
  {
    if d <= 0.0 { ProductSign(-d, short); } else { ScaleReal(short, long, d); }
  }

  lemma NearAt(profit: int -> int, g: int -> real, lo: int, hi: int, e: real, x: int)
    requires Near(profit, g, lo, hi, e) && lo <= x <= hi
    ensures -e <= profit(x) as real - g(x) <= e
  {
  }

  /** A pass keeps some size within twice the error of any size in the range. */
  lemma NarrowNearly(profit: int -> int, g: int -> real, lo: int, hi: int, e: real, x: int) returns (y: int)
    requires hi - lo > 2 && ConcaveReal(g, lo, hi) && Near(profit, g, lo, hi, e) && e >= 0.0 && lo <= x <= hi
    ensures var (a, b) := Narrow(profit, lo, hi); a <= y <= b && g(y) >= g(x) - 2.0 * e
  {
    hide FloorDiv, ConcaveReal, Near, Narrow;
    var third := FloorDiv(hi - lo, 3);
    var m1, m2 := lo + third, hi - third;
    ThirdOf(hi - lo);
    NarrowValue(profit, lo, hi);
    NearAt(profit, g, lo, hi, e, m1);
    NearAt(profit, g, lo, hi, e, m2);
    y := x;
    if profit(m1) < profit(m2) {
      if x < m1 {
        LeftDropped(g, lo, hi, x, m1, m2, 2.0 * e);
        y := m1;
      }
    } else if x > m2 {
      RightDropped(g, lo, hi, m1, m2, x, 2.0 * e);
      y := m2;
    }
  }

  lemma ThirdOf(width: int)
    requires width > 2
    ensures var third := FloorDiv(width, 3); 0 < third && 3 * third <= width
  {
  }

  /** Twice the error for every pass. */
  function Loss(passes: nat, e: real): real {
    passes as real * (2.0 * e)
  }

  lemma LossNext(passes: nat, e: real)
    requires e >= 0.0
    ensures Loss(passes, e) >= 0.0
    ensures passes > 0 ==> Loss(passes, e) == Loss(passes - 1, e) + 2.0 * e
  {
    ProductSign(passes as real, 2.0 * e);
    OneMore(2.0 * e, passes);
  }

  lemma {:induction false} NarrowedNearly(profit: int -> int, g: int -> real, lo: int, hi: int, e: real, passes: nat,
                                          x: int)
    returns (y: int)
    requires ConcaveReal(g, lo, hi) && Near(profit, g, lo, hi, e) && e >= 0.0 && lo <= x <= hi
    ensures var (a, b) := Narrowed(profit, lo, hi, passes); a <= y <= b && g(y) >= g(x) - Loss(passes, e)
    decreases passes
  {
    hide Narrow, FloorDiv, ConcaveReal, Near, Narrowed, Loss;
    NarrowedStep(profit, lo, hi, passes);
    LossNext(passes, e);
    y := x;
    if passes > 0 && hi - lo > 2 {
      var z := NarrowNearly(profit, g, lo, hi, e, x);
      var (a, b) := Narrow(profit, lo, hi);
      SubRange(profit, g, lo, hi, e, a, b);
      y := NarrowedNearly(profit, g, a, b, e, passes - 1, z);
    }
  }

  lemma SubRange(profit: int -> int, g: int -> real, lo: int, hi: int, e: real, a: int, b: int)
    requires ConcaveReal(g, lo, hi) && Near(profit, g, lo, hi, e) && lo <= a && b <= hi
    ensures ConcaveReal(g, a, b) && Near(profit, g, a, b, e)
  {
  }

  /** When rounding keeps the profit within `e` of one with diminishing returns, no size beats the result by more than
      twice that for every pass, and once more. */
  lemma SearchNearlyMaximises(profit: int -> int, g: int -> real, lo: int, hi: int, e: real, x: int)
    requires ConcaveReal(g, lo, hi) && Near(profit, g, lo, hi, e) && e >= 0.0 && lo <= x <= hi
    ensures var best := Search(profit, lo, hi);
            && best.Ok? && lo <= best.value <= hi
            && profit(x) as real <= profit(best.value) as real + Loss(SEARCH_ITERATIONS + 1, e)
  {
    hide Narrowed, FirstBest, ConcaveReal, Near, Loss;
    LossNext(SEARCH_ITERATIONS + 1, e);
    var y := NarrowedNearly(profit, g, lo, hi, e, SEARCH_ITERATIONS, x);
    var (a, b) := Narrowed(profit, lo, hi, SEARCH_ITERATIONS);
    NearAt(profit, g, lo, hi, e, x);
    NearAt(profit, g, lo, hi, e, y);
    assert profit(y) <= profit(FirstBest(profit, a, b));
  }

  // ---- Where it fails ----

  /** Both legs of this market are quoted exactly, yet rounding makes the profit fall for seven sizes before it
      jumps. */
  const SAW_PRICE: nat := 0x32990e2f11966705f6a46eba1
  const SAW_LIQUIDITY: nat := 1_000_000_000_000_000_000
  const SAW_WINDOW: TickWindow := TickWindow(0, 16384, map[], map[], 0, 0)
  const SAW_RESERVES: Reserves := Reserves(4_000_036, 99_000)

  function SawPool(): PoolState {
    PoolState(SAW_PRICE, TickAt(SAW_PRICE), SAW_LIQUIDITY, 500, 0)
  }

  function SawMarket(): Market {
    Market(SawPool(), Some(SAW_WINDOW), false, SAW_RESERVES)
  }

  lemma SawSearch(tick: int)
    requires 0 <= tick < MAX_TICK
    ensures NextInitializedTickWithinOneWord(SAW_WINDOW, tick, false) == Ok((255 * 16384, false))
  {
  }

  /** The V3 step of one of these sizes, toward the price limit. */
  function SawStep(x: nat): Result<SwapStep> {
    ComputeSwapStep(SAW_PRICE, MAX_SQRT_RATIO - 1, SAW_LIQUIDITY, x, 500)
  }

  lemma SawPriceAtTick()
    ensures Quotable(SawMarket()) && 0 <= SawPool().tick < MAX_TICK
  {
    hide Ratio;
    RatioEnds();
    var t := TickAt(SAW_PRICE);
    if t + 1 < 0 { RatioStrictlyIncreasing(t + 1, 0); }
  }

  /** Any size up to 1 000 009 stops short, is consumed whole, and buys what its one step delivers. */
  lemma SawQuote(x: nat)
    requires 0 < x <= 1_000_009
    ensures Quotable(SawMarket())
    ensures SawStep(x).Ok?
    ensures var q := Simulation(SawPool(), SAW_WINDOW, false, x, None);
            && q.Ok? && q.value.limitReason == None && q.value.amountInConsumed == x
                 && q.value.amountOut == SawStep(x).value.amountOut
  {
    hide NextInitializedTickWithinOneWord, ComputeSwapStep, Ratio, TickAt, Run, Budget;
    SawPriceAtTick();
    RatioEnds();
    SawSearch(SawPool().tick);
    ExactInputStepContract(false, SAW_PRICE, MAX_SQRT_RATIO - 1, SAW_LIQUIDITY, x, 500);
    Amount1Order(SAW_PRICE, MAX_SQRT_RATIO - 1, SAW_LIQUIDITY, 1_000_009);
    var o, s := OrderFor(SawPool(), SAW_WINDOW, false, x, None), Start(SawPool(), x);
    StartLive(SawPool(), SAW_WINDOW, false, x, None);
    Unroll(o, s);
    Unroll(o, Iterate(o, s).value.loop);
  }

  lemma SawSteps()
    ensures SawStep(1_000_000).Ok? && SawStep(1_000_000).value.amountOut == 99_944
    ensures SawStep(1_000_006).Ok? && SawStep(1_000_006).value.amountOut == 99_944
    ensures SawStep(1_000_008).Ok? && SawStep(1_000_008).value.amountOut == 99_945
  {
    hide ComputeSwapStep;
    SawStepIs(1_000_000, 999_500, 250548529965892579905438727686, 99_944);
    SawStepIs(1_000_006, 999_505, 250548529965892580301579540257, 99_944);
    SawStepIs(1_000_008, 999_507, 250548529965892580460035865286, 99_945);
  }

  lemma SawStepIs(x: nat, budget: nat, next: nat, bought: nat)
    requires budget * 1_000_000 <= x * 999_500 < budget * 1_000_000 + 1_000_000 && budget <= 1_000_009
    requires next > SAW_PRICE
    requires (next - SAW_PRICE) * SAW_LIQUIDITY <= budget * Q96 < (next - SAW_PRICE) * SAW_LIQUIDITY + SAW_LIQUIDITY
    requires next < 0x40000000000000000000000000000000
    requires bought * (SAW_PRICE * next)
        <= SAW_LIQUIDITY * Q96 * (next - SAW_PRICE) < bought * (SAW_PRICE * next) + SAW_PRICE * next
    ensures SawStep(x).Ok? && SawStep(x).value.amountOut == bought
  {
    hide CeilDiv, FloorDiv, GetAmount0Delta, GetAmount1Delta;
    FloorIs(x * (FEE_DENOMINATOR - 500), FEE_DENOMINATOR, budget);
    DeltasAreRounded(false, SAW_PRICE, MAX_SQRT_RATIO - 1, SAW_LIQUIDITY);
    Amount1Order(SAW_PRICE, MAX_SQRT_RATIO - 1, SAW_LIQUIDITY, budget);
    FloorIs(budget * Q96, SAW_LIQUIDITY, next - SAW_PRICE);
    DeltasAreRounded(false, SAW_PRICE, next, SAW_LIQUIDITY);
    FloorIs(SAW_LIQUIDITY * Q96 * (next - SAW_PRICE), SAW_PRICE * next, bought);
  }

  lemma SawBuys(x: nat)
    requires 1_000_000 <= x <= 1_000_006
    ensures SawStep(x).Ok? && SawStep(x).value.amountOut == 99_944
  {
    hide ComputeSwapStep;
    SawSteps();
    ExactInputStepMonotone(false, SAW_PRICE, MAX_SQRT_RATIO - 1, SAW_LIQUIDITY, 1_000_000, x, 500);
    ExactInputStepMonotone(false, SAW_PRICE, MAX_SQRT_RATIO - 1, SAW_LIQUIDITY, x, 1_000_006, 500);
  }

  lemma SawProfitIs(x: nat, bought: nat, paidOut: nat)
    requires 0 < x <= 1_000_009 && bought > 0 && SawStep(x).Ok? && SawStep(x).value.amountOut == bought
    requires var d := 99_000 * 1000 + bought * 997; paidOut * d <= bought * 997 * 4_000_036 < paidOut * d + d
    ensures Quotable(SawMarket()) && ProfitOrFloor(V3ToV2, x, SawMarket()) == paidOut - x
  {
    hide Simulation, SawStep, FloorDiv, Quotable;
    SawQuote(x);
    var n, d := bought * 997 * 4_000_036, 99_000 * 1000 + bought * 997;
    FloorIs(n, d, paidOut);
    assert UniswapV2Math.GetAmountOut(bought, 99_000, 4_000_036) == Ok(FloorDiv(n, d));
  }

  /** The profits: falling by one from the smallest size to the seventh, and two higher than the first at the ninth. */
  lemma SawProfits(x: nat)
    requires 1_000_000 <= x <= 1_000_006
    ensures Quotable(SawMarket())
    ensures ProfitOrFloor(V3ToV2, x, SawMarket()) == 2_006_503 - x
    ensures ProfitOrFloor(V3ToV2, 1_000_008, SawMarket()) == 1_006_505
  {
    hide SawStep, ProfitOrFloor;
    SawBuys(x);
    SawSteps();
    SawProfitIs(x, 99_944, 2_006_503);
    SawProfitIs(1_000_008, 99_945, 2_006_513);
  }

  /** On a market with both legs quoted in full, rounding leads the search away from the best size. */
  lemma RoundingMissesTheBest()
    ensures Quotable(SawMarket())
    ensures var profit := ProfitOf(V3ToV2, SawMarket());
            var lo, hi := Smallest(V3ToV2), Largest(V3ToV2, SAW_RESERVES);
            && lo == 1_000_000 && hi == 1_000_009
            && Search(profit, lo, hi) == Ok(lo)
            && profit(lo) == 1_006_503 && profit(1_000_008) == 1_006_505
  {
    hide ProfitOrFloor, Narrow, Narrowed;
    SawPriceAtTick();
    var profit := ProfitOf(V3ToV2, SawMarket());
    forall x: int | 1_000_000 <= x <= 1_000_006 ensures profit(x) == 2_006_503 - x {
      SawProfits(x);
    }
    SawProfits(1_000_000);
    SawNarrows(profit);
    assert FirstBest(profit, 1_000_000, 1_000_002) == 1_000_000;
  }

  lemma SawNarrows(profit: int -> int)
    requires forall x :: 1_000_000 <= x <= 1_000_006 ==> profit(x) == 2_006_503 - x
    ensures Narrowed(profit, 1_000_000, 1_000_009, SEARCH_ITERATIONS) == (1_000_000, 1_000_002)
  {
    NarrowedStep(profit, 1_000_000, 1_000_009, 200);
    NarrowedStep(profit, 1_000_000, 1_000_006, 199);
    NarrowedStep(profit, 1_000_000, 1_000_004, 198);
    NarrowedStep(profit, 1_000_000, 1_000_003, 197);
    NarrowedStep(profit, 1_000_000, 1_000_002, 196);
  }
}
