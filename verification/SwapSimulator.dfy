/** The pool's swap loop over a loaded tick window. */
module SwapSimulator {
  import opened Results
  import opened V3Models
  import opened FullMath
  import opened TickBitmap
  import opened TickMath
  import opened SqrtPriceMath
  import opened SwapMath

  datatype PoolState = PoolState(price: nat, tick: int, liquidity: nat, feePips: FeePips, blockNumber: int)

  /** What stays fixed while one swap runs. */
  datatype Order = Order(window: TickWindow, down: bool, limit: nat, feePips: FeePips, exactIn: bool)

  /** The variables of the swap loop. */
  datatype Loop = Loop(
    remaining: int,
    price: nat,
    tick: int,
    liquidity: nat,
    inTotal: int,
    outTotal: int,
    feePaid: int,
    crossed: nat)

  /** The loop variables after one or more passes; `exhausted` when the window ran out. */
  datatype Outcome = Outcome(loop: Loop, exhausted: bool)

  /** The price lies in its tick's bracket; it sits on the upper edge right after a downward cross. */
  predicate AtTick(tick: int, price: int) {
    MIN_TICK <= tick < MAX_TICK && Ratio(tick) <= price <= Ratio(tick + 1)
  }

  predicate Live(o: Order, s: Loop) {
    && AtTick(s.tick, s.price)
    && (if o.down then MIN_SQRT_RATIO < o.limit <= s.price else s.price <= o.limit < MAX_SQRT_RATIO)
    && (if o.exactIn then s.remaining >= 0 else s.remaining <= 0)
  }

  predicate Done(o: Order, s: Loop) {
    s.remaining == 0 || s.price == o.limit
  }

  // ---- One pass of the loop ----

  function Clamp(tick: int): (t: int)
    ensures MIN_TICK <= t <= MAX_TICK
  {
    if tick > MAX_TICK then MAX_TICK else if tick < MIN_TICK then MIN_TICK else tick
  }

  function Target(o: Order, tickNext: int): (t: nat)
    requires MIN_TICK <= tickNext <= MAX_TICK
  {
    RatioRange(tickNext);
    var p := Ratio(tickNext);
    if o.down then (if p > o.limit then p else o.limit) else (if p < o.limit then p else o.limit)
  }

  /** The tick the loop moves to when a step reaches the next tick's price. */
  function TickPast(o: Order, tickNext: int): int {
    if o.down then tickNext - 1 else tickNext
  }

  /** The running totals after a step. */
  function Pay(o: Order, s: Loop, step: SwapStep): Loop {
    s.(remaining := if o.exactIn then s.remaining - (step.amountIn + step.feeAmount) else s.remaining + step.amountOut,
       price := step.priceNext,
       inTotal := s.inTotal + (step.amountIn + step.feeAmount),
       outTotal := s.outTotal + step.amountOut,
       feePaid := s.feePaid + step.feeAmount)
  }

  /** Crossing the next tick once its price is reached. */
  function Cross(o: Order, s: Loop, tickNext: int, initialized: bool): Result<Outcome> {
    if !initialized then
      Ok(Outcome(s.(tick := TickPast(o, tickNext)), false))
    else
      match o.window.LiquidityNet(tickNext)
      case Err(_) => Ok(Outcome(s.(tick := TickPast(o, tickNext)), true))
      case Ok(net) =>
        var liquidity := s.liquidity + if o.down then -net else net;
        if liquidity < 0 then Err(LiquidityUnderflow)
        else Ok(Outcome(s.(tick := TickPast(o, tickNext), liquidity := liquidity, crossed := s.crossed + 1), false))
  }

  function TickOfPrice(price: int): Result<int> {
    if MIN_SQRT_RATIO <= price < MAX_SQRT_RATIO then Ok(TickAt(price)) else Err(PriceOutOfRange)
  }

  function Iterate(o: Order, s: Loop): Result<Outcome> {
    match NextInitializedTickWithinOneWord(o.window, s.tick, o.down)
    case Err(_) => Ok(Outcome(s, true))
    case Ok((found, initialized)) =>
      var tickNext := Clamp(found);
      var step :- ComputeSwapStep(s.price, Target(o, tickNext), s.liquidity, s.remaining, o.feePips);
      var paid := Pay(o, s, step);
      if step.priceNext == Ratio(tickNext) then
        Cross(o, paid, tickNext, initialized)
      else if step.priceNext != s.price then
        var tick :- TickOfPrice(step.priceNext);
        Ok(Outcome(paid.(tick := tick), false))
      else
        Ok(Outcome(paid, false))
  }

  // ---- What one pass keeps ----

  /** The next tick lies strictly ahead (or at the current tick when moving down), and its price is on the way. */
  lemma TargetAhead(o: Order, s: Loop, found: int, initialized: bool)
    requires Live(o, s)
    requires NextInitializedTickWithinOneWord(o.window, s.tick, o.down) == Ok((found, initialized))
    ensures var n := Clamp(found);
            && (if o.down then n <= s.tick else s.tick < n)
            && Toward(o.down, s.price, Target(o, n)) && Toward(o.down, Target(o, n), o.limit)
            && (if o.down then Ratio(n) <= Target(o, n) else Target(o, n) <= Ratio(n))
            && (Target(o, n) == Ratio(n) || Target(o, n) == o.limit)
            && (Ratio(n) == Target(o, n) ==> MIN_TICK < n < MAX_TICK && n == found)
            && s.price <= MAX_UINT160 && Target(o, n) <= MAX_UINT160
  {
    hide NextInitializedTickWithinOneWord, Ratio;
    var n := Clamp(found);
    RatioEnds();
    RatioRange(s.tick);
    RatioRange(s.tick + 1);
    if o.down {
      SearchDown(o.window, s.tick);
      if n < s.tick { RatioStrictlyIncreasing(n, s.tick); }
    } else {
      SearchUp(o.window, s.tick);
      if s.tick + 1 < n { RatioStrictlyIncreasing(s.tick + 1, n); }
    }
  }

  /** A step's amounts never leave the remaining amount on the wrong side of zero, and falling short of the target
      uses it up. */
  lemma StepOf(o: Order, s: Loop, found: int, initialized: bool)
    requires Live(o, s) && !Done(o, s)
    requires NextInitializedTickWithinOneWord(o.window, s.tick, o.down) == Ok((found, initialized))
    ensures Toward(o.down, s.price, Target(o, Clamp(found)))
    ensures var target := Target(o, Clamp(found));
            var r := ComputeSwapStep(s.price, target, s.liquidity, s.remaining, o.feePips);
            && (o.exactIn ==>
                 r.Ok? && ExactInputStep(o.down, s.price, target, s.liquidity, s.remaining, o.feePips, r.value))
            && (!o.exactIn && r.Ok? ==>
                 ExactOutputStep(o.down, s.price, target, s.liquidity, -s.remaining, o.feePips, r.value))
            && (r.Err? <==> !o.exactIn && OutputOverflows(o.down, s.price, target, s.liquidity, -s.remaining))
            && (r.Ok? ==> StepBounds(o, s, target, r.value))
  {
    hide NextInitializedTickWithinOneWord, Ratio, ComputeSwapStep, Target, Budget, AmountIn, AmountOut, CeilDiv;
    TargetAhead(o, s, found, initialized);
    var target := Target(o, Clamp(found));
    var r := ComputeSwapStep(s.price, target, s.liquidity, s.remaining, o.feePips);
    if o.exactIn {
      ExactInputStepContract(o.down, s.price, target, s.liquidity, s.remaining, o.feePips);
    } else {
      ExactOutputStepContract(o.down, s.price, target, s.liquidity, -s.remaining, o.feePips);
    }
    if r.Ok? {
      var step := r.value;
      DeltasAreRounded(o.down, s.price, step.priceNext, s.liquidity);
      DeltasAreRounded(o.down, s.price, target, s.liquidity);
      FeeCoversShare(step.amountIn, o.feePips);
      if o.exactIn {
        BudgetAndFee(step.amountIn, s.remaining, o.feePips);
        WholeRemainderPaysShare(step.amountIn, s.remaining, o.feePips);
      }
    }
  }

  /** Amounts of one step against what remains, and the fee's share. */
  ghost predicate StepBounds(o: Order, s: Loop, target: int, step: SwapStep) {
    && Toward(o.down, s.price, step.priceNext) && Toward(o.down, step.priceNext, target)
    && step.amountIn >= 0 && step.amountOut >= 0 && step.feeAmount >= 0
    && (o.exactIn ==> step.amountIn + step.feeAmount <= s.remaining)
    && (!o.exactIn ==> step.amountOut <= -s.remaining)
    && (step.priceNext != target ==> Pay(o, s, step).remaining == 0)
    && step.feeAmount * FEE_DENOMINATOR >= o.feePips * (step.amountIn + step.feeAmount)
  }

  /** What bounds the number of passes still to come. */
  function Rank(o: Order, s: Loop): int {
    if Done(o, s) then 0 else 1 + if o.down then s.tick - MIN_TICK else MAX_TICK - s.tick
  }

  /** One pass keeps the price in its tick's bracket and within the limit, and makes progress. */
  lemma IterateLive(o: Order, s: Loop)
    requires Live(o, s) && !Done(o, s)
    ensures var r := Iterate(o, s);
            && (r.Ok? && !r.value.exhausted ==> Live(o, r.value.loop) && 0 <= Rank(o, r.value.loop) < Rank(o, s))
            && (r.Ok? ==> PassBounds(o, s, r.value.loop))
  {
    hide NextInitializedTickWithinOneWord, Ratio, ComputeSwapStep, TickAt, Target, ExactInputStep, ExactOutputStep,
        OutputOverflows;
    RatioRange(s.tick);
    var search := NextInitializedTickWithinOneWord(o.window, s.tick, o.down);
    if search.Ok? {
      var (found, initialized) := search.value;
      var n := Clamp(found);
      TargetAhead(o, s, found, initialized);
      StepOf(o, s, found, initialized);
      var r := ComputeSwapStep(s.price, Target(o, n), s.liquidity, s.remaining, o.feePips);
      RatioEnds();
      if r.Ok? && r.value.priceNext == Ratio(n) {
        if o.down { RatioRange(n - 1); } else { RatioRange(n); }
      }
    }
  }

  /** What one pass adds to the totals. */
  ghost predicate PassBounds(o: Order, s: Loop, t: Loop) {
    && Toward(o.down, s.price, t.price) && Toward(o.down, t.price, o.limit)
    && s.outTotal <= t.outTotal && 0 <= t.feePaid - s.feePaid <= t.inTotal - s.inTotal
    && (if o.exactIn then t.remaining == s.remaining - (t.inTotal - s.inTotal) >= 0
        else t.remaining == s.remaining + (t.outTotal - s.outTotal) <= 0)
    && (t.feePaid - s.feePaid) * FEE_DENOMINATOR >= o.feePips * (t.inTotal - s.inTotal)
  }

  /** The swap loop as a function of its state. */
  function Run(o: Order, s: Loop): Result<Outcome>
    requires Live(o, s)
    decreases Rank(o, s)
  {
    if Done(o, s) then
      Ok(Outcome(s, false))
    else
      var r :- Iterate(o, s);
      if r.exhausted then
        Ok(r)
      else
        IterateLive(o, s);
        Run(o, r.loop)
  }

  /** Over a whole run: totals, price bounds, fee share, and why it stopped. */
  lemma {:induction false} RunBounds(o: Order, s: Loop)
    requires Live(o, s)
    ensures var r := Run(o, s);
            r.Ok? ==>
              PassBounds(o, s, r.value.loop) && (r.value.exhausted || (Done(o, r.value.loop) && Live(o, r.value.loop)))
    decreases Rank(o, s)
  {
    hide Iterate, Ratio;
    RatioRange(s.tick);
    if !Done(o, s) {
      IterateLive(o, s);
      var r := Iterate(o, s);
      if r.Ok? && !r.value.exhausted {
        RunBounds(o, r.value.loop);
        SharesAdd(o.feePips, s, r.value.loop, Run(o, r.value.loop));
      }
    }
  }

  lemma SharesAdd(feePips: FeePips, s: Loop, t: Loop, r: Result<Outcome>)
    requires (t.feePaid - s.feePaid) * FEE_DENOMINATOR >= feePips * (t.inTotal - s.inTotal)
    requires r.Ok? ==>
               (r.value.loop.feePaid - t.feePaid) * FEE_DENOMINATOR >= feePips * (r.value.loop.inTotal - t.inTotal)
    ensures r.Ok? ==>
              (r.value.loop.feePaid - s.feePaid) * FEE_DENOMINATOR >= feePips * (r.value.loop.inTotal - s.inTotal)
  {
    if r.Ok? {
      var a, b := t.inTotal - s.inTotal, r.value.loop.inTotal - t.inTotal;
      assert feePips * (a + b) == feePips * a + feePips * b;
    }
  }

  // ---- The quote ----

  function ChosenLimit(zeroForOne: bool, limit: Option<nat>): nat {
    if limit.Some? then limit.value else if zeroForOne then MIN_SQRT_RATIO + 1 else MAX_SQRT_RATIO - 1
  }

  predicate ValidLimit(state: PoolState, zeroForOne: bool, limit: nat) {
    if zeroForOne then MIN_SQRT_RATIO < limit < state.price else state.price < limit < MAX_SQRT_RATIO
  }

  function OrderFor(state: PoolState, window: TickWindow, zeroForOne: bool, amountSpecified: int,
                    limit: Option<nat>): Order {
    Order(window, zeroForOne, ChosenLimit(zeroForOne, limit), state.feePips, amountSpecified > 0)
  }

  function Start(state: PoolState, amountSpecified: int): Loop {
    Loop(amountSpecified, state.price, state.tick, state.liquidity, 0, 0, 0, 0)
  }

  function QuoteOf(state: PoolState, o: Order, amountSpecified: int, end: Outcome): SwapQuote {
    var s := end.loop;
    SwapQuote(o.down,
              if o.exactIn then amountSpecified else s.inTotal,
              if o.exactIn then amountSpecified - s.remaining else s.inTotal,
              s.outTotal, s.feePaid, state.price, s.price, s.tick, s.crossed,
              if end.exhausted then Some(WindowLimit) else if s.remaining != 0 then Some(PriceLimit) else None,
              state.blockNumber, o.window.blockNumber == state.blockNumber, s.liquidity)
  }

  /** The whole simulation as a function. */
  function Simulation(state: PoolState, window: TickWindow, zeroForOne: bool, amountSpecified: int,
                      limit: Option<nat>): Result<SwapQuote>
    requires AtTick(state.tick, state.price)
  {
    var o := OrderFor(state, window, zeroForOne, amountSpecified, limit);
    if !ValidLimit(state, zeroForOne, o.limit) then
      Err(InvalidPriceLimit)
    else
      var end :- Run(o, Start(state, amountSpecified));
      Ok(QuoteOf(state, o, amountSpecified, end))
  }

  lemma StartLive(state: PoolState, window: TickWindow, zeroForOne: bool, amountSpecified: int, limit: Option<nat>)
    requires AtTick(state.tick, state.price)
    requires ValidLimit(state, zeroForOne, ChosenLimit(zeroForOne, limit))
    ensures Live(OrderFor(state, window, zeroForOne, amountSpecified, limit), Start(state, amountSpecified))
  {
  }

  lemma Unroll(o: Order, s: Loop)
    requires Live(o, s)
    ensures Done(o, s) ==> Run(o, s) == Ok(Outcome(s, false))
    ensures !Done(o, s) && (Iterate(o, s).Err? || Iterate(o, s).value.exhausted) ==> Run(o, s) == Iterate(o, s)
    ensures !Done(o, s) && Iterate(o, s).Ok? && !Iterate(o, s).value.exhausted ==>
              && Live(o, Iterate(o, s).value.loop)
              && Run(o, s) == Run(o, Iterate(o, s).value.loop)
              && 0 <= Rank(o, Iterate(o, s).value.loop) < Rank(o, s)
  {
    hide Iterate;
    if !Done(o, s) { IterateLive(o, s); }
  }

  /** The simulation is its run, read off as a quote. */
  lemma SimulationIs(state: PoolState, window: TickWindow, zeroForOne: bool, amountSpecified: int, limit: Option<nat>)
    requires AtTick(state.tick, state.price)
    ensures var o, s := OrderFor(state, window, zeroForOne, amountSpecified, limit), Start(state, amountSpecified);
            if !ValidLimit(state, zeroForOne, o.limit) then
              Simulation(state, window, zeroForOne, amountSpecified, limit) == Err(InvalidPriceLimit)
            else
              && Live(o, s)
              && Simulation(state, window, zeroForOne, amountSpecified, limit)
                 == if Run(o, s).Err? then Err(Run(o, s).error)
                     else Ok(QuoteOf(state, o, amountSpecified, Run(o, s).value))
  {
    hide Run;
  }

  method Simulate(state: PoolState, window: TickWindow, zeroForOne: bool, amountSpecified: int, limit: Option<nat>)
    returns (r: Result<SwapQuote>)
    requires AtTick(state.tick, state.price)
    ensures r == Simulation(state, window, zeroForOne, amountSpecified, limit)
  {
    hide Ratio, ComputeSwapStep, NextInitializedTickWithinOneWord, TickAt, Run, Live, Rank, Clamp, Target, AtTick,
        Simulation;
    SimulationIs(state, window, zeroForOne, amountSpecified, limit);
    var priceLimit := if limit.Some? then limit.value else if zeroForOne then MIN_SQRT_RATIO + 1
        else MAX_SQRT_RATIO - 1;
    if zeroForOne && !(MIN_SQRT_RATIO < priceLimit < state.price) {
      return Err(InvalidPriceLimit);
    }
    if !zeroForOne && !(state.price < priceLimit < MAX_SQRT_RATIO) {
      return Err(InvalidPriceLimit);
    }
    var exactIn := amountSpecified > 0;
    var remaining := amountSpecified;
    var amountInTotal, amountOut, feePaid := 0, 0, 0;
    var price, tick := state.price, state.tick;
    var liquidity: nat := state.liquidity;
    var ticksCrossed: nat := 0;
    var limitReason: Option<LimitReason> := None;

    var o := OrderFor(state, window, zeroForOne, amountSpecified, limit);
    ghost var s := Start(state, amountSpecified);
    while remaining != 0 && price != priceLimit
      invariant limitReason == None
      invariant s == Loop(remaining, price, tick, liquidity, amountInTotal, amountOut, feePaid, ticksCrossed)
      invariant Live(o, s) && Run(o, s) == Run(o, Start(state, amountSpecified))
      decreases Rank(o, s)
    {
      ghost var next := Iterate(o, s);
      Unroll(o, s);
      var priceStart := price;
      var search := NextInitializedTickWithinOneWord(window, tick, zeroForOne);
      if search.Err? {
        limitReason := Some(WindowLimit);
        break;
      }
      var (found, initialized) := search.value;
      var tickNext := Clamp(found);
      var ratio := GetSqrtRatioAtTick(tickNext);
      var priceNext := ratio.value;
      var target := Target(o, tickNext);
      var stepped := ComputeSwapStep(price, target, liquidity, remaining, state.feePips);
      if stepped.Err? {
        return Err(stepped.error);
      }
      var step := stepped.value;
      price := step.priceNext;
      if exactIn {
        remaining := remaining - (step.amountIn + step.feeAmount);
      } else {
        remaining := remaining + step.amountOut;
      }
      amountInTotal := amountInTotal + (step.amountIn + step.feeAmount);
      amountOut := amountOut + step.amountOut;
      feePaid := feePaid + step.feeAmount;

      if price == priceNext {
        if initialized {
          var net := window.LiquidityNet(tickNext);
          if net.Err? {
            limitReason := Some(WindowLimit);
            tick := if zeroForOne then tickNext - 1 else tickNext;
            s := next.value.loop;
            break;
          }
          var liquidityNet := if zeroForOne then -net.value else net.value;
          if liquidity + liquidityNet < 0 {
            return Err(LiquidityUnderflow);
          }
          liquidity := liquidity + liquidityNet;
          ticksCrossed := ticksCrossed + 1;
        }
        tick := if zeroForOne then tickNext - 1 else tickNext;
      } else if price != priceStart {
        var t := GetTickAtSqrtRatio(price);
        if t.Err? {
          return Err(t.error);
        }
        tick := t.value;
      }
      s := next.value.loop;
    }

    if limitReason == None { Unroll(o, s); }
    if limitReason == None && remaining != 0 {
      limitReason := Some(PriceLimit);
    }
    r := Ok(SwapQuote(zeroForOne,
                      if exactIn then amountSpecified else amountInTotal,
                      if exactIn then amountSpecified - remaining else amountInTotal,
                      amountOut, feePaid, state.price, price, tick, ticksCrossed, limitReason,
                      state.blockNumber, window.blockNumber == state.blockNumber, liquidity));
  }

  method SimulateExactInput(state: PoolState, window: TickWindow, zeroForOne: bool, amountIn: int, limit: Option<nat>)
    returns (r: Result<SwapQuote>)
    requires AtTick(state.tick, state.price)
    ensures r == if amountIn <= 0 then Err(AmountNotPositive)
        else Simulation(state, window, zeroForOne, amountIn, limit)
  {
    if amountIn <= 0 {
      return Err(AmountNotPositive);
    }
    r := Simulate(state, window, zeroForOne, amountIn, limit);
  }

  method SimulateExactOutput(state: PoolState, window: TickWindow, zeroForOne: bool, amountOut: int, limit: Option<nat>)
    returns (r: Result<SwapQuote>)
    requires AtTick(state.tick, state.price)
    ensures r == if amountOut <= 0 then Err(AmountNotPositive)
        else Simulation(state, window, zeroForOne, -amountOut, limit)
  {
    if amountOut <= 0 {
      return Err(AmountNotPositive);
    }
    r := Simulate(state, window, zeroForOne, -amountOut, limit);
  }

  /** What a quote promises: the price stays between start and limit, no more is spent or delivered than asked, the
      limit reason is truthful, and the fee is at least its share of the input. */
  lemma QuoteFacts(state: PoolState, window: TickWindow, zeroForOne: bool, amountSpecified: int, limit: Option<nat>)
    requires AtTick(state.tick, state.price)
    ensures var r := Simulation(state, window, zeroForOne, amountSpecified, limit);
            var stop := ChosenLimit(zeroForOne, limit);
            r.Ok? ==>
              var q := r.value;
              && (if zeroForOne then stop <= q.priceAfter <= q.priceBefore else q.priceBefore <= q.priceAfter <= stop)
              && q.priceBefore == state.price
              && 0 <= q.amountInConsumed && 0 <= q.amountOut && 0 <= q.feePaid <= q.amountInConsumed
              && q.feePaid * FEE_DENOMINATOR >= state.feePips * q.amountInConsumed
              && (amountSpecified > 0 ==> q.amountInConsumed <= amountSpecified)
              && (amountSpecified <= 0 ==> q.amountOut <= -amountSpecified)
              && (q.limitReason == None ==>
                    if amountSpecified > 0 then q.amountInConsumed == amountSpecified
                        else q.amountOut == -amountSpecified)
              && (q.limitReason == Some(PriceLimit) ==> q.priceAfter == stop)
              && (q.limitReason != Some(WindowLimit) ==> AtTick(q.tickAfter, q.priceAfter))
  {
    hide Ratio, Run;
    if Simulation(state, window, zeroForOne, amountSpecified, limit).Ok? {
      var o := OrderFor(state, window, zeroForOne, amountSpecified, limit);
      var s := Start(state, amountSpecified);
      StartLive(state, window, zeroForOne, amountSpecified, limit);
      RunBounds(o, s);
    }
  }
}
