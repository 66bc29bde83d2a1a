/** The pool's exact holdings along the price axis, and why no swap takes more than it pays for. */
module SwapConservation {
  import opened Results
  import opened RealMath
  import opened FullMath
  import opened V3Models
  import opened TickBitmap
  import opened TickMath
  import opened SqrtPriceMath
  import opened SwapMath
  import opened SwapSimulator

  // ---- Exact amounts ----

  /** Per unit of liquidity, the pool holds 2^96/price of token0 and price/2^96 of token1, up to a constant. */
  function Coord(zero: bool, price: int): real
    requires price > 0
  {
    if zero then Q96 as real / price as real else price as real / Q96 as real
  }

  lemma QuotientOrder(n: int, d: int, v: int)
    requires d > 0
    ensures v * d <= n ==> v as real <= n as real / d as real
    ensures n <= v * d ==> n as real / d as real <= v as real
  {
    var q := n as real / d as real;
    assert q * d as real == n as real;
    assert (v * d) as real == v as real * d as real;
    if v * d <= n && v as real > q {
      ScaleRealStrict(q, v as real, d as real);
    }
    if n <= v * d && v as real < q {
      ScaleRealStrict(v as real, q, d as real);
    }
  }

  function Exact(zero: bool, lo: int, hi: int, liquidity: int): real
    requires 0 < lo && 0 < hi
  {
    liquidity as real * if zero then Coord(true, lo) - Coord(true, hi) else Coord(false, hi) - Coord(false, lo)
  }

  lemma ExactQuotient(lo: int, hi: int, liquidity: int)
    requires 0 < lo && 0 < hi
    ensures lo * hi > 0
    ensures Exact(true, lo, hi, liquidity) == (liquidity * Q96 * (hi - lo)) as real / (lo * hi) as real
    ensures Exact(false, lo, hi, liquidity) == (liquidity * (hi - lo)) as real / Q96 as real
  {
    ProductPositive(lo, hi);
    Exact0(lo as real, hi as real, liquidity as real, Q96 as real);
    Exact1(lo as real, hi as real, liquidity as real, Q96 as real);
    CastProduct(liquidity, Q96);
    CastProduct(liquidity * Q96, hi - lo);
    CastProduct(liquidity, hi - lo);
    CastProduct(lo, hi);
  }

  lemma CastProduct(a: int, b: int)
    ensures (a * b) as real == a as real * b as real
  {
  }

  /** Rounded amounts bracket the exact ones. */
  lemma RoundingBrackets(lo: int, hi: int, liquidity: nat)
    requires 0 < lo <= hi
    ensures Amount0(lo, hi, liquidity, false) as real <= Exact(true, lo, hi, liquidity)
        <= Amount0(lo, hi, liquidity, true) as real
    ensures Amount1(lo, hi, liquidity, false) as real <= Exact(false, lo, hi, liquidity)
        <= Amount1(lo, hi, liquidity, true) as real
  {
    hide Exact, Amount0, Amount1;
    ExactQuotient(lo, hi, liquidity);
    Amount0Order(lo, hi, liquidity, Amount0(lo, hi, liquidity, false));
    Amount0Order(lo, hi, liquidity, Amount0(lo, hi, liquidity, true));
    Amount1Order(lo, hi, liquidity, Amount1(lo, hi, liquidity, false));
    Amount1Order(lo, hi, liquidity, Amount1(lo, hi, liquidity, true));
    QuotientOrder(liquidity * Q96 * (hi - lo), lo * hi, Amount0(lo, hi, liquidity, false));
    QuotientOrder(liquidity * Q96 * (hi - lo), lo * hi, Amount0(lo, hi, liquidity, true));
    QuotientOrder(liquidity * (hi - lo), Q96, Amount1(lo, hi, liquidity, false));
    QuotientOrder(liquidity * (hi - lo), Q96, Amount1(lo, hi, liquidity, true));
  }

  lemma Exact0(lo: real, hi: real, l: real, q: real)
    requires lo > 0.0 && hi > 0.0
    ensures lo * hi > 0.0 && l * (q / lo - q / hi) == l * q * (hi - lo) / (lo * hi)
  {
    var a, b := q / lo, q / hi;
    assert a * lo == q && b * hi == q;
    assert (a - b) * (lo * hi) == q * (hi - lo) by {
      assert a * (lo * hi) == a * lo * hi;
      assert b * (lo * hi) == b * hi * lo;
    }
    assert l * (a - b) * (lo * hi) == l * q * (hi - lo);
  }

  lemma Exact1(lo: real, hi: real, l: real, q: real)
    requires q > 0.0
    ensures l * (hi / q - lo / q) == l * (hi - lo) / q
  {
    var a, b := hi / q, lo / q;
    assert a * q == hi && b * q == lo;
    assert l * (a - b) * q == l * (a * q - b * q);
  }

  // ---- Liquidity profiles ----

  /** The change of in-range liquidity a loaded window records at a tick. */
  function NetAt(window: TickWindow, tick: int): int {
    if Initialized(window, tick) && tick in window.ticks then window.ticks[tick].liquidityNet else 0
  }

  /** `profile` gives the in-range liquidity at every tick: it changes only at initialized ticks, by their net
      liquidity. */
  ghost predicate Profile(window: TickWindow, profile: int -> int) {
    forall t {:trigger NetAt(window, t)} ::
      t % window.tickSpacing != 0 || Loaded(window, t) ==> profile(t) == profile(t - 1) + NetAt(window, t)
  }

  /** Between two ticks with no initialized tick in (a, b], the profile is flat. */
  lemma {:induction false} FlatProfile(window: TickWindow, profile: int -> int, a: int, b: int)
    requires Profile(window, profile) && a <= b
    requires forall t :: a < t <= b ==> !Initialized(window, t)
    requires forall t :: a < t <= b ==> t % window.tickSpacing != 0 || Loaded(window, t)
    ensures forall t :: a <= t <= b ==> profile(t) == profile(a)
    decreases b - a
  {
    if a < b {
      FlatProfile(window, profile, a, b - 1);
      assert NetAt(window, b) == 0;
    }
  }

  // ---- Holdings of a profile at a price ----

  /** Exact holdings from MIN_TICK up to a tick, relative to those at MIN_TICK. */
  function Below(zero: bool, profile: int -> int, tick: int): real
    requires MIN_TICK <= tick <= MAX_TICK
    decreases tick - MIN_TICK
  {
    RatioRange(tick);
    if tick == MIN_TICK then 0.0
    else
      RatioRange(tick - 1);
      Below(zero, profile, tick - 1) + Between(zero, profile(tick - 1), Ratio(tick - 1), Ratio(tick))
  }

  /** The change of exact holdings when the price moves across flat liquidity. */
  function Between(zero: bool, liquidity: int, from: int, to: int): real
    requires from > 0 && to > 0
  {
    liquidity as real * (Coord(zero, to) - Coord(zero, from))
  }

  function Holdings(zero: bool, profile: int -> int, tick: int, price: int): real
    requires AtTick(tick, price)
  {
    RatioRange(tick);
    Below(zero, profile, tick) + Between(zero, profile(tick), Ratio(tick), price)
  }

  lemma BetweenAdds(zero: bool, liquidity: int, a: int, b: int, c: int)
    requires a > 0 && b > 0 && c > 0
    ensures Between(zero, liquidity, a, c) == Between(zero, liquidity, a, b) + Between(zero, liquidity, b, c)
    ensures Between(zero, liquidity, a, b) == -Between(zero, liquidity, b, a)
    ensures Between(zero, liquidity, a, a) == 0.0
  {
    var l, x, y, z := liquidity as real, Coord(zero, a), Coord(zero, b), Coord(zero, c);
    assert l * (z - x) == l * (y - x) + l * (z - y);
  }

  lemma {:induction false} FlatBelow(zero: bool, profile: int -> int, a: int, b: int, liquidity: int)
    requires MIN_TICK <= a <= b <= MAX_TICK
    requires forall t :: a <= t < b ==> profile(t) == liquidity
    ensures Ratio(a) > 0 && Ratio(b) > 0
    ensures Below(zero, profile, b) == Below(zero, profile, a) + Between(zero, liquidity, Ratio(a), Ratio(b))
    decreases b - a
  {
    hide Ratio, Between;
    RatioRange(a);
    RatioRange(b);
    if a == b {
      BetweenAdds(zero, liquidity, Ratio(a), Ratio(a), Ratio(a));
    } else {
      RatioRange(b - 1);
      FlatBelow(zero, profile, a, b - 1, liquidity);
      BetweenAdds(zero, liquidity, Ratio(a), Ratio(b - 1), Ratio(b));
    }
  }

  /** Across a flat stretch of ticks, holdings change as across one segment. */
  lemma FlatHoldings(zero: bool, profile: int -> int, t: int, p: int, u: int, q: int, liquidity: int)
    requires AtTick(t, p) && AtTick(u, q)
    requires forall v :: t <= v <= u || u <= v <= t ==> profile(v) == liquidity
    ensures p > 0 && q > 0
    ensures Holdings(zero, profile, u, q) == Holdings(zero, profile, t, p) + Between(zero, liquidity, p, q)
  {
    hide Ratio, Between;
    RatioRange(t);
    RatioRange(u);
    var rt, ru := Ratio(t), Ratio(u);
    if t <= u {
      FlatBelow(zero, profile, t, u, liquidity);
    } else {
      FlatBelow(zero, profile, u, t, liquidity);
      BetweenAdds(zero, liquidity, ru, rt, ru);
    }
    BetweenAdds(zero, liquidity, rt, ru, q);
    BetweenAdds(zero, liquidity, rt, p, q);
  }

  /** Holdings agree on the two ticks that share an edge. */
  lemma EdgeHoldings(zero: bool, profile: int -> int, tick: int)
    requires MIN_TICK < tick < MAX_TICK
    ensures AtTick(tick, Ratio(tick)) && AtTick(tick - 1, Ratio(tick))
    ensures Holdings(zero, profile, tick, Ratio(tick)) == Holdings(zero, profile, tick - 1, Ratio(tick))
  {
    hide Ratio, Between;
    RatioRange(tick - 1);
    RatioRange(tick);
    BetweenAdds(zero, profile(tick), Ratio(tick), Ratio(tick), Ratio(tick));
  }

  // ---- One pass ----

  /** What the pool receives, net of fees, of one token between two loop states. */
  function Received(zero: bool, o: Order, s: Loop, t: Loop): real {
    if zero == o.down then ((t.inTotal - t.feePaid) - (s.inTotal - s.feePaid)) as real
    else (s.outTotal - t.outTotal) as real
  }

  /** A step's rounded amounts favour the pool. */
  lemma StepConserves(zero: bool, down: bool, from: int, to: int, liquidity: nat, amountIn: int, amountOut: int)
    requires Toward(down, from, to)
    requires amountIn == AmountIn(down, from, to, liquidity) && amountOut <= AmountOut(down, from, to, liquidity)
    ensures (if zero == down then amountIn as real else -(amountOut as real)) >= Between(zero, liquidity, from, to)
  {
    hide Coord, Amount0, Amount1, Between, Exact;
    var lo, hi := if down then to else from, if down then from else to;
    RoundingBrackets(lo, hi, liquidity);
    ExactIsBetween(lo, hi, liquidity);
  }

  lemma ExactIsBetween(lo: int, hi: int, liquidity: int)
    requires lo > 0 && hi > 0
    ensures Exact(true, lo, hi, liquidity) == Between(true, liquidity, hi, lo) == -Between(true, liquidity, lo, hi)
    ensures Exact(false, lo, hi, liquidity) == Between(false, liquidity, lo, hi) == -Between(false, liquidity, hi, lo)
  {
    hide Coord;
    BetweenAdds(true, liquidity, hi, lo, hi);
    BetweenAdds(false, liquidity, lo, hi, lo);
  }

  /** The profile is flat over the ticks a pass moves through, and the pass ends on its profile. */
  lemma PassProfile(o: Order, s: Loop, profile: int -> int, found: int, initialized: bool)
    requires Live(o, s) && Profile(o.window, profile)
    requires NextInitializedTickWithinOneWord(o.window, s.tick, o.down) == Ok((found, initialized))
    ensures var n := Clamp(found);
            && (o.down ==> forall t :: n <= t <= s.tick ==> profile(t) == profile(s.tick))
            && (!o.down ==> forall t :: s.tick <= t < n ==> profile(t) == profile(s.tick))
            && (n == found ==> profile(n) == profile(n - 1) + NetAt(o.window, n))
            && (n == found ==> (initialized <==> Initialized(o.window, n)))
  {
    hide NextInitializedTickWithinOneWord, Ratio, Initialized, NetAt, Loaded;
    var n := Clamp(found);
    if o.down {
      SearchDown(o.window, s.tick);
      if n <= s.tick { FlatProfile(o.window, profile, n, s.tick); }
    } else {
      SearchUp(o.window, s.tick);
      if s.tick < n { FlatProfile(o.window, profile, s.tick, n - 1); }
    }
    assert n == found ==> profile(n) == profile(n - 1) + NetAt(o.window, n);
  }

  /** Where a pass leaves the tick, relative to the tick it aimed for. */
  lemma PassTick(o: Order, s: Loop, found: int, initialized: bool, step: SwapStep)
    requires Live(o, s) && !Done(o, s)
    requires NextInitializedTickWithinOneWord(o.window, s.tick, o.down) == Ok((found, initialized))
    requires Toward(o.down, s.price, step.priceNext) && Toward(o.down, step.priceNext, Target(o, Clamp(found)))
    requires step.priceNext != Ratio(Clamp(found)) && step.priceNext != s.price
    ensures MIN_SQRT_RATIO <= step.priceNext < MAX_SQRT_RATIO
    ensures var u := TickAt(step.priceNext); if o.down then Clamp(found) <= u <= s.tick else s.tick <= u < Clamp(found)
  {
    hide NextInitializedTickWithinOneWord, Ratio, TickAt;
    var n := Clamp(found);
    TargetAhead(o, s, found, initialized);
    RatioRange(s.tick);
    RatioRange(s.tick + 1);
    RatioRange(n);
    RatioEnds();
    var u := TickAt(step.priceNext);
    if o.down {
      if s.tick < u { RatioMonotone(s.tick + 1, u); }
      if u < n { RatioMonotone(u + 1, n); }
    } else {
      if u < s.tick { RatioMonotone(u + 1, s.tick); }
      if n <= u { RatioMonotone(n, u); }
    }
  }

  lemma RatioMonotone(a: int, b: int)
    requires MIN_TICK <= a <= b <= MAX_TICK
    ensures Ratio(a) <= Ratio(b)
  {
    if a < b { RatioStrictlyIncreasing(a, b); }
  }

  /** One pass never lets the pool's exact holdings fall short of what it receives, and stays on the profile. */
  lemma PassConserves(o: Order, s: Loop, profile: int -> int)
    requires Live(o, s) && !Done(o, s) && Profile(o.window, profile) && profile(s.tick) == s.liquidity
    requires Iterate(o, s).Ok?
    ensures var t := Iterate(o, s).value.loop;
            && AtTick(t.tick, t.price)
            && profile(t.tick) == t.liquidity
            && forall zero :: Received(zero, o, s, t)
                 >= Holdings(zero, profile, t.tick, t.price) - Holdings(zero, profile, s.tick, s.price)
  {
    hide NextInitializedTickWithinOneWord, ComputeSwapStep, Ratio, TickAt, Target, Holdings, Between, AmountIn,
        AmountOut,
         Budget, FeeOn, Initialized, OutputOverflows;
    var search := NextInitializedTickWithinOneWord(o.window, s.tick, o.down);
    if search.Ok? {
      var (found, initialized) := search.value;
      var n := Clamp(found);
      var t := Iterate(o, s).value.loop;
      TargetAhead(o, s, found, initialized);
      StepOf(o, s, found, initialized);
      PassProfile(o, s, profile, found, initialized);
      var step := ComputeSwapStep(s.price, Target(o, n), s.liquidity, s.remaining, o.feePips).value;
      if step.priceNext == Ratio(n) {
        EdgeHoldings(true, profile, n);
        EdgeHoldings(false, profile, n);
      } else if step.priceNext != s.price {
        PassTick(o, s, found, initialized, step);
      }
      var u := if step.priceNext != Ratio(n) then t.tick else if o.down then n else n - 1;
      forall zero: bool ensures Received(zero, o, s, t)
          >= Holdings(zero, profile, t.tick, t.price) - Holdings(zero, profile, s.tick, s.price) {
        FlatHoldings(zero, profile, s.tick, s.price, u, step.priceNext, s.liquidity);
        StepConserves(zero, o.down, s.price, step.priceNext, s.liquidity, step.amountIn, step.amountOut);
      }
    }
  }

  // ---- Whole runs ----

  /** The profile is non-negative on every tick between two ticks. */
  ghost predicate NonNegativeBetween(profile: int -> int, a: int, b: int) {
    forall t :: a <= t <= b || b <= t <= a ==> profile(t) >= 0
  }

  lemma PassVisits(o: Order, s: Loop, profile: int -> int)
    requires Live(o, s) && !Done(o, s) && Profile(o.window, profile) && profile(s.tick) == s.liquidity
    requires Iterate(o, s).Ok?
    ensures var t := Iterate(o, s).value.loop;
            (if o.down then t.tick <= s.tick else s.tick <= t.tick) && NonNegativeBetween(profile, s.tick, t.tick)
  {
    hide NextInitializedTickWithinOneWord, ComputeSwapStep, Ratio, TickAt, Target, Initialized, OutputOverflows,
         ExactInputStep, ExactOutputStep, StepBounds;
    PassConserves(o, s, profile);
    var search := NextInitializedTickWithinOneWord(o.window, s.tick, o.down);
    if search.Ok? {
      var (found, initialized) := search.value;
      var n := Clamp(found);
      TargetAhead(o, s, found, initialized);
      StepOf(o, s, found, initialized);
      PassProfile(o, s, profile, found, initialized);
      var step := ComputeSwapStep(s.price, Target(o, n), s.liquidity, s.remaining, o.feePips).value;
      if step.priceNext != Ratio(n) && step.priceNext != s.price {
        StepToward(o, s, Target(o, n), step);
        PassTick(o, s, found, initialized, step);
      }
    }
  }

  lemma StepToward(o: Order, s: Loop, target: int, step: SwapStep)
    requires StepBounds(o, s, target, step)
    ensures Toward(o.down, s.price, step.priceNext) && Toward(o.down, step.priceNext, target)
  {
  }

  /** Over a whole swap the pool receives at least what its exact holdings gain, in each token. */
  lemma {:induction false} RunConserves(o: Order, s: Loop, profile: int -> int)
    requires Live(o, s) && Profile(o.window, profile) && profile(s.tick) == s.liquidity
    requires Run(o, s).Ok?
    ensures var r := Run(o, s).value;
            var t := r.loop;
            && AtTick(t.tick, t.price)
            && (forall zero :: Received(zero, o, s, t)
                 >= Holdings(zero, profile, t.tick, t.price) - Holdings(zero, profile, s.tick, s.price))
            && profile(t.tick) == t.liquidity
            && (if o.down then t.tick <= s.tick else s.tick <= t.tick)
            && NonNegativeBetween(profile, s.tick, t.tick)
    decreases Rank(o, s)
  {
    hide Run, Iterate, Ratio, Profile, Holdings, Live, AtTick;
    Unroll(o, s);
    LiveAtTick(o, s);
    if !Done(o, s) {
      PassConserves(o, s, profile);
      PassVisits(o, s, profile);
      var u := Iterate(o, s).value.loop;
      if !Iterate(o, s).value.exhausted {
        RunConserves(o, u, profile);
        ReceivedAdds(o, s, u, Run(o, u).value.loop);
      }
    }
  }

  lemma LiveAtTick(o: Order, s: Loop)
    requires Live(o, s)
    ensures AtTick(s.tick, s.price)
  {
  }

  lemma ReceivedAdds(o: Order, s: Loop, t: Loop, u: Loop)
    ensures forall zero :: Received(zero, o, s, u) == Received(zero, o, s, t) + Received(zero, o, t, u)
  {
  }

  // ---- The two tokens trade off along the price axis ----

  const SPREAD0: real := Q96 as real * Q96 as real
  const SPREAD1: real := MAX_SQRT_RATIO as real * MAX_SQRT_RATIO as real

  /** A fall d0 of token0 and a rise d1 of token1 that vanish together. */
  predicate Spread(d0: real, d1: real) {
    0.0 <= d0 <= SPREAD0 * d1 && 0.0 <= d1 <= SPREAD1 * d0
  }

  lemma CoordSpread(a: int, b: int)
    requires 0 < a <= b <= MAX_SQRT_RATIO
    ensures Spread(Coord(true, a) - Coord(true, b), Coord(false, b) - Coord(false, a))
  {
    CoordTimes(a);
    CoordTimes(b);
    hide Coord, Spread, Bounded, Scaled;
    var x, y, q, m := Casts(a, b);
    var u, v, r, s := Coord(true, a), Coord(true, b), Coord(false, a), Coord(false, b);
    SpreadOf(u, v, r, s, x, y, q, m);
    SpreadIs(u - v, s - r, q, m);
  }

  lemma Casts(a: int, b: int) returns (x: real, y: real, q: real, m: real)
    requires 0 < a <= b <= MAX_SQRT_RATIO
    ensures x == a as real && y == b as real && q == Q96 as real && m == MAX_SQRT_RATIO as real
    ensures 1.0 <= x <= y <= m && 1.0 <= q
  {
    x, y, q, m := a as real, b as real, Q96 as real, MAX_SQRT_RATIO as real;
  }

  predicate Bounded(d0: real, d1: real, q: real, m: real) {
    0.0 <= d0 <= q * q * d1 && 0.0 <= d1 <= m * m * d0
  }

  lemma SpreadIs(d0: real, d1: real, q: real, m: real)
    requires q == Q96 as real && m == MAX_SQRT_RATIO as real
    requires Bounded(d0, d1, q, m)
    ensures Spread(d0, d1)
  {
    assert q * q == SPREAD0 && m * m == SPREAD1;
  }

  predicate Scaled(u: real, x: real, product: real) {
    u * x == product
  }

  lemma CoordTimes(p: int)
    requires p > 0
    ensures Scaled(Coord(true, p), p as real, Q96 as real) && Scaled(Coord(false, p), Q96 as real, p as real)
  {
    Undivide(Q96 as real, p as real);
    Undivide(p as real, Q96 as real);
  }

  lemma SpreadOf(u: real, v: real, r: real, s: real, x: real, y: real, q: real, m: real)
    requires 1.0 <= x <= y <= m && 1.0 <= q && Scaled(u, x, q) && Scaled(v, y, q) && Scaled(r, q, x) && Scaled(s, q, y)
    ensures Bounded(u - v, s - r, q, m)
  {
    MulRange(x, y, m);
    assert (u - v) * (x * y) == q * (y - x) by {
      assert u * (x * y) == u * x * y;
      assert v * (x * y) == v * y * x;
    }
    assert (s - r) * q == y - x;
    SpreadCore(u - v, s - r, y - x, x * y, q, m * m);
  }

  lemma SpreadCore(d0: real, d1: real, z: real, xy: real, q: real, mm: real)
    requires d0 * xy == q * z && d1 * q == z && z >= 0.0 && 1.0 <= xy <= mm && q >= 1.0
    ensures 0.0 <= d0 <= q * q * d1 && 0.0 <= d1 <= mm * d0
  {
    assert q * z >= 0.0;
    if d0 < 0.0 { ScaleRealStrict(d0, 0.0, xy); }
    if d1 < 0.0 { ScaleRealStrict(d1, 0.0, q); }
    ScaleReal(1.0, xy, d0);
    assert q * q * d1 == q * z;
    ScaleReal(xy, mm, d0);
    ScaleReal(1.0, q, z);
    ScaleReal(1.0, q, d1);
    assert 0.0 <= d1;
    assert d1 <= z;
    assert z <= q * z;
    calc {
      d1;
    <=
      q * z;
    ==
      d0 * xy;
    <= { assert xy * d0 <= mm * d0; }
      mm * d0;
    }
  }

  lemma MulRange(x: real, y: real, m: real)
    requires 1.0 <= x <= m && 1.0 <= y <= m
    ensures 1.0 <= x * y <= m * m
  {
    ScaleReal(1.0, x, y);
    ScaleReal(x, m, y);
    ScaleReal(y, m, m);
  }

  lemma SpreadAdds(a0: real, a1: real, b0: real, b1: real)
    requires Spread(a0, a1) && Spread(b0, b1)
    ensures Spread(a0 + b0, a1 + b1)
  {
    assert SPREAD0 * (a1 + b1) == SPREAD0 * a1 + SPREAD0 * b1;
    assert SPREAD1 * (a0 + b0) == SPREAD1 * a0 + SPREAD1 * b0;
  }

  lemma BetweenSpread(liquidity: nat, from: int, to: int)
    requires 0 < from <= to <= MAX_SQRT_RATIO
    ensures Spread(-Between(true, liquidity, from, to), Between(false, liquidity, from, to))
  {
    CoordSpread(from, to);
    hide Coord;
    var l, d0, d1 := liquidity as real, Coord(true, from) - Coord(true, to), Coord(false, to) - Coord(false, from);
    assert l >= 0.0;
    SpreadScales(l, d0, d1, SPREAD0, SPREAD1);
    Opposite(l, Coord(true, to), Coord(true, from));
  }

  lemma SpreadScales(l: real, d0: real, d1: real, s0: real, s1: real)
    requires l >= 0.0 && 0.0 <= d0 <= s0 * d1 && 0.0 <= d1 <= s1 * d0
    ensures 0.0 <= l * d0 <= s0 * (l * d1) && 0.0 <= l * d1 <= s1 * (l * d0)
  {
    ScaleReal(d0, s0 * d1, l);
    ScaleReal(d1, s1 * d0, l);
    assert s0 * d1 * l == s0 * (l * d1);
    assert s1 * d0 * l == s1 * (l * d0);
  }

  lemma Opposite(l: real, a: real, b: real)
    ensures l * (a - b) == -(l * (b - a))
  {
  }

  lemma {:induction false} BelowSpread(profile: int -> int, a: int, b: int)
    requires MIN_TICK <= a <= b <= MAX_TICK && forall t :: a <= t < b ==> profile(t) >= 0
    ensures Spread(Below(true, profile, a) - Below(true, profile, b),
        Below(false, profile, b) - Below(false, profile, a))
    decreases b - a
  {
    hide Ratio, Between, Spread, Below;
    if a == b {
      NoSpread();
    } else {
      RatioRange(b - 1);
      RatioRange(b);
      BelowNext(true, profile, b);
      BelowNext(false, profile, b);
      BelowSpread(profile, a, b - 1);
      BetweenSpread(profile(b - 1), Ratio(b - 1), Ratio(b));
      SpreadAdds(Below(true, profile, a) - Below(true, profile, b - 1),
          Below(false, profile, b - 1) - Below(false, profile, a),
                 -Between(true, profile(b - 1), Ratio(b - 1), Ratio(b)),
                     Between(false, profile(b - 1), Ratio(b - 1), Ratio(b)));
    }
  }

  lemma BelowNext(zero: bool, profile: int -> int, t: int)
    requires MIN_TICK < t <= MAX_TICK
    ensures Ratio(t - 1) > 0 && Ratio(t) > 0
    ensures Below(zero, profile, t)
        == Below(zero, profile, t - 1) + Between(zero, profile(t - 1), Ratio(t - 1), Ratio(t))
  {
    hide Ratio, Between;
    RatioRange(t - 1);
    RatioRange(t);
  }

  lemma NoSpread()
    ensures Spread(0.0, 0.0)
  {
  }

  /** As the price rises over non-negative liquidity, token0 falls, token1 rises, and neither moves without the
      other. */
  lemma HoldingsSpread(profile: int -> int, t: int, p: int, u: int, q: int)
    requires AtTick(t, p) && AtTick(u, q) && p <= q && NonNegativeBetween(profile, t, u)
    ensures Spread(Holdings(true, profile, t, p) - Holdings(true, profile, u, q),
        Holdings(false, profile, u, q) - Holdings(false, profile, t, p))
  {
    hide Ratio, Between, Spread, Below;
    RatioRange(t);
    RatioRange(t + 1);
    RatioRange(u);
    RatioRange(u + 1);
    var rt, ru := Ratio(t), Ratio(u);
    if t == u {
      BetweenAdds(true, profile(t), rt, p, q);
      BetweenAdds(false, profile(t), rt, p, q);
      BetweenSpread(profile(t), p, q);
    } else if t < u {
      var next := Ratio(t + 1);
      RatioMonotone(t + 1, u);
      UpToEdge(true, profile, t, p);
      UpToEdge(false, profile, t, p);
      BetweenSpread(profile(t), p, next);
      BelowSpread(profile, t + 1, u);
      BetweenSpread(profile(u), ru, q);
      SpreadAdds(-Between(true, profile(t), p, next), Between(false, profile(t), p, next),
                 Below(true, profile, t + 1) - Below(true, profile, u),
                     Below(false, profile, u) - Below(false, profile, t + 1));
      SpreadAdds(-Between(true, profile(t), p, next) + Below(true, profile, t + 1) - Below(true, profile, u),
                 Between(false, profile(t), p, next) + Below(false, profile, u) - Below(false, profile, t + 1),
                 -Between(true, profile(u), ru, q), Between(false, profile(u), ru, q));
    } else {
      RatioMonotone(u + 1, t);
      if u + 1 < t { RatioStrictlyIncreasing(u + 1, t); }
      EdgeHoldings(true, profile, t);
      EdgeHoldings(false, profile, t);
      NoSpread();
    }
  }

  /** Holdings measured from the upper edge of the tick. */
  lemma UpToEdge(zero: bool, profile: int -> int, t: int, p: int)
    requires AtTick(t, p)
    ensures p > 0 && Ratio(t + 1) > 0
    ensures Holdings(zero, profile, t, p) == Below(zero, profile, t + 1) - Between(zero, profile(t), p, Ratio(t + 1))
  {
    hide Ratio, Between;
    RatioRange(t);
    RatioRange(t + 1);
    BetweenAdds(zero, profile(t), Ratio(t), p, Ratio(t + 1));
  }

  /** If one token's exact holdings did not rise, the other's did not fall. */
  lemma Tradeoff(zero: bool, profile: int -> int, t: int, p: int, u: int, q: int)
    requires AtTick(t, p) && AtTick(u, q) && NonNegativeBetween(profile, t, u)
    requires Holdings(zero, profile, u, q) <= Holdings(zero, profile, t, p)
    ensures Holdings(!zero, profile, u, q) >= Holdings(!zero, profile, t, p)
  {
    hide Holdings, AtTick;
    if p <= q {
      HoldingsSpread(profile, t, p, u, q);
    } else {
      HoldingsSpread(profile, u, q, t, p);
    }
  }
}
