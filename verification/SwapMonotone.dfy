/** A larger exact input never buys less, spends less or moves the price less. */
module SwapMonotone {
  import opened Results
  import opened V3Models
  import opened TickBitmap
  import opened TickMath
  import opened SwapMath
  import opened SwapSimulator

  /** The two states agree except for what remains and what has been paid or charged so far. */
  predicate SameBut(s: Loop, t: Loop) {
    t == s.(remaining := t.remaining)
  }

  /** `b` has gone at least as far as `a`. */
  predicate NoLess(o: Order, a: Loop, b: Loop) {
    && a.outTotal <= b.outTotal && a.inTotal <= b.inTotal && a.crossed <= b.crossed
    && Toward(o.down, a.price, b.price)
  }

  lemma CrossedGrows(o: Order, s: Loop)
    requires Live(o, s) && !Done(o, s)
    ensures Iterate(o, s).Ok? ==> s.crossed <= Iterate(o, s).value.loop.crossed
  {
    hide NextInitializedTickWithinOneWord, ComputeSwapStep, Ratio, TickAt, Target;
  }

  lemma {:induction false} RunNoLess(o: Order, s: Loop)
    requires Live(o, s)
    ensures Run(o, s).Ok? ==> NoLess(o, s, Run(o, s).value.loop)
    decreases Rank(o, s)
  {
    hide Iterate, Ratio;
    RunBounds(o, s);
    Unroll(o, s);
    if !Done(o, s) {
      CrossedGrows(o, s);
      var r := Iterate(o, s);
      if r.Ok? && !r.value.exhausted { RunNoLess(o, r.value.loop); }
    }
  }

  /** One pass with more remaining: the same pass when the step reaches its target, and otherwise no less, after which
      the smaller swap is done. */
  lemma PassMonotone(o: Order, s: Loop, t: Loop)
    requires Live(o, s) && Live(o, t) && o.exactIn && SameBut(s, t) && 0 < s.remaining <= t.remaining && !Done(o, s)
    ensures var a, b := Iterate(o, s), Iterate(o, t);
            || (&& (a.Err? <==> b.Err?)
                && (a.Ok? ==> && a.value.exhausted == b.value.exhausted && SameBut(a.value.loop, b.value.loop)
                              && b.value.loop.remaining - a.value.loop.remaining == t.remaining - s.remaining))
            || (&& a.Ok? && !a.value.exhausted && a.value.loop.remaining == 0
                && (b.Ok? ==> NoLess(o, a.value.loop, b.value.loop)))
  {
    hide NextInitializedTickWithinOneWord, ComputeSwapStep, Ratio, TickAt, Target, AtTick,
         ExactInputStep, ExactOutputStep, OutputOverflows;
    var search := NextInitializedTickWithinOneWord(o.window, s.tick, o.down);
    if search.Ok? {
      var (found, initialized) := search.value;
      var n := Clamp(found);
      TargetAhead(o, s, found, initialized);
      StepOf(o, s, found, initialized);
      StepOf(o, t, found, initialized);
      ExactInputStepMonotone(o.down, s.price, Target(o, n), s.liquidity, s.remaining, t.remaining, o.feePips);
      RangeOfLive(o, s);
    }
  }

  lemma RangeOfLive(o: Order, s: Loop)
    requires Live(o, s)
    ensures MIN_SQRT_RATIO <= s.price <= MAX_SQRT_RATIO
  {
    hide Ratio;
    RatioRange(s.tick);
    RatioRange(s.tick + 1);
  }

  /** The coupling of two whole runs. If the larger swap completes without error, so does the smaller. */
  lemma {:induction false} RunMonotone(o: Order, s: Loop, t: Loop)
    requires Live(o, s) && Live(o, t) && o.exactIn && SameBut(s, t) && s.remaining <= t.remaining
    ensures Run(o, t).Ok? ==> Run(o, s).Ok? && NoLess(o, Run(o, s).value.loop, Run(o, t).value.loop)
    decreases Rank(o, s)
  {
    hide Iterate, Run, Ratio;
    Unroll(o, s);
    Unroll(o, t);
    RangeOfLive(o, s);
    if Done(o, s) {
      RunNoLess(o, t);
    } else {
      PassMonotone(o, s, t);
      IterateLive(o, t);
      var a, b := Iterate(o, s), Iterate(o, t);
      if b.Ok? && !b.value.exhausted {
        if SameBut(a.value.loop, b.value.loop) && a.value.loop.remaining <= b.value.loop.remaining {
          RunMonotone(o, a.value.loop, b.value.loop);
        } else {
          RunNoLess(o, b.value.loop);
          Unroll(o, a.value.loop);
        }
      } else if b.Ok? && !a.value.exhausted {
        Unroll(o, a.value.loop);
      }
    }
  }

  /** On one pool state and limit, a larger exact input never gives less output, consumes less or moves the price
      less. */
  lemma QuoteMonotone(state: PoolState, window: TickWindow, zeroForOne: bool, small: int, large: int,
                      limit: Option<nat>)
    requires AtTick(state.tick, state.price) && 0 < small <= large
    requires Simulation(state, window, zeroForOne, large, limit).Ok?
    ensures var a, b := Simulation(state, window, zeroForOne, small, limit),
        Simulation(state, window, zeroForOne, large, limit);
            && a.Ok?
            && a.value.amountOut <= b.value.amountOut
            && a.value.amountInConsumed <= b.value.amountInConsumed
            && a.value.ticksCrossed <= b.value.ticksCrossed
            && (if zeroForOne then b.value.priceAfter <= a.value.priceAfter
                 else a.value.priceAfter <= b.value.priceAfter)
  {
    hide Run, Ratio;
    StartLive(state, window, zeroForOne, small, limit);
    StartLive(state, window, zeroForOne, large, limit);
    var o := OrderFor(state, window, zeroForOne, small, limit);
    RunMonotone(o, Start(state, small), Start(state, large));
    RunBounds(o, Start(state, small));
    RunBounds(o, Start(state, large));
  }
}
