/** Swapping an output straight back never returns more than was put in. */
module SwapRoundTrip {
  import opened Results
  import opened V3Models
  import opened TickMath
  import opened SwapSimulator
  import opened SwapConservation

  // ---- The profile a window and a known liquidity determine ----

  function Distance(a: int, b: int): nat {
    if a < b then b - a else a - b
  }

  /** In-range liquidity at a tick, summing the window's net liquidity away from a tick where it is known. */
  function LiquidityAt(window: TickWindow, known: int, liquidity: int, tick: int): int
    decreases Distance(known, tick)
  {
    if tick == known then liquidity
    else if tick > known then LiquidityAt(window, known, liquidity, tick - 1) + NetAt(window, tick)
    else LiquidityAt(window, known, liquidity, tick + 1) - NetAt(window, tick + 1)
  }

  function ProfileFrom(window: TickWindow, known: int, liquidity: int): int -> int {
    t => LiquidityAt(window, known, liquidity, t)
  }

  lemma ProfileFromIsProfile(window: TickWindow, known: int, liquidity: int)
    ensures Profile(window, ProfileFrom(window, known, liquidity))
  {
    forall t ensures LiquidityAt(window, known, liquidity, t)
        == LiquidityAt(window, known, liquidity, t - 1) + NetAt(window, t) {
      if t <= known {
        assert LiquidityAt(window, known, liquidity, t - 1)
            == LiquidityAt(window, known, liquidity, t) - NetAt(window, t);
      }
    }
  }

  // ---- Round trip ----

  /** Two opposite runs, the second fed with at most what the first paid out, on one profile. */
  lemma RunRoundTrip(o: Order, s: Loop, p: Order, u: Loop, profile: int -> int)
    requires Live(o, s) && Profile(o.window, profile) && profile(s.tick) == s.liquidity
    requires Run(o, s).Ok?
    requires p.window == o.window && p.down == !o.down && Live(p, u)
    requires var t := Run(o, s).value.loop; u.tick == t.tick && u.price == t.price && u.liquidity == t.liquidity
    requires Run(p, u).Ok?
    requires Run(p, u).value.loop.inTotal - u.inTotal <= Run(o, s).value.loop.outTotal - s.outTotal
    ensures var t, v := Run(o, s).value.loop, Run(p, u).value.loop;
            v.outTotal - u.outTotal <= (t.inTotal - s.inTotal) - (t.feePaid - s.feePaid)
  {
    hide Run, Ratio, Holdings, Profile, Live, AtTick;
    var t, v := Run(o, s).value.loop, Run(p, u).value.loop;
    RunConserves(o, s, profile);
    RunConserves(p, u, profile);
    RunBounds(p, u);
    LiveAtTick(o, s);
    assert NonNegativeBetween(profile, s.tick, v.tick);
    var paid := !o.down;
    assert Received(paid, p, u, v) + Received(paid, o, s, t)
        >= Holdings(paid, profile, v.tick, v.price) - Holdings(paid, profile, s.tick, s.price);
    Tradeoff(paid, profile, s.tick, s.price, v.tick, v.price);
    assert Received(!paid, p, u, v) + Received(!paid, o, s, t) >= 0.0;
  }

  /** The pool state a completed quote leaves behind. */
  function StateAfter(state: PoolState, q: SwapQuote): PoolState
    requires q.priceAfter >= 0 && q.liquidityAfter >= 0
  {
    PoolState(q.priceAfter, q.tickAfter, q.liquidityAfter, state.feePips, state.blockNumber)
  }

  /** When a swap's output is swapped back from the price, tick and liquidity it left, at most the input less its fee
      comes back: whatever ticks are crossed, whatever the limits, and even where the window cuts either swap
      short. */
  lemma RoundTripNeverProfits(state: PoolState, window: TickWindow, zeroForOne: bool, amountIn: int,
                              limit: Option<nat>, backLimit: Option<nat>)
    requires AtTick(state.tick, state.price) && amountIn > 0
    requires Simulation(state, window, zeroForOne, amountIn, limit).Ok?
    ensures var q := Simulation(state, window, zeroForOne, amountIn, limit).value;
            && q.priceAfter >= 0 && q.liquidityAfter >= 0
            && var after := StateAfter(state, q);
            && AtTick(after.tick, after.price)
            && var back := Simulation(after, window, !zeroForOne, q.amountOut, backLimit);
            q.amountOut > 0 && back.Ok? ==>
              back.value.amountOut <= q.amountInConsumed - q.feePaid <= amountIn
  {
    hide Run, Ratio, Profile;
    var q := Simulation(state, window, zeroForOne, amountIn, limit).value;
    var o, s := OrderFor(state, window, zeroForOne, amountIn, limit), Start(state, amountIn);
    StartLive(state, window, zeroForOne, amountIn, limit);
    RunBounds(o, s);
    ProfileFromIsProfile(window, state.tick, state.liquidity);
    RunConserves(o, s, ProfileFrom(window, state.tick, state.liquidity));
    QuoteFacts(state, window, zeroForOne, amountIn, limit);
    var after := StateAfter(state, q);
    var back := Simulation(after, window, !zeroForOne, q.amountOut, backLimit);
    if q.amountOut > 0 && back.Ok? {
      var p, u := OrderFor(after, window, !zeroForOne, q.amountOut, backLimit), Start(after, q.amountOut);
      StartLive(after, window, !zeroForOne, q.amountOut, backLimit);
      RunBounds(p, u);
      RunRoundTrip(o, s, p, u, ProfileFrom(window, state.tick, state.liquidity));
    }
  }
}
