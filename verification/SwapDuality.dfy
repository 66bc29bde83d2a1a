/** When paying an exact-output quote's input as an exact-input swap buys at least the same output. */
module SwapDuality {
  import opened Results
  import opened FullMath
  import opened V3Models
  import opened TickBitmap
  import opened TickMath
  import opened SqrtPriceMath
  import opened SwapMath
  import opened SwapSimulator
  import opened SwapMonotone

  // ---- The pass that serves the quote ----

  /** The pass delivers everything that is still asked before it reaches its target. */
  predicate ServesShort(o: Order, s: Loop)
    requires !o.exactIn
  {
    match NextInitializedTickWithinOneWord(o.window, s.tick, o.down)
    case Err(_) => false
    case Ok((found, _)) =>
      var target := Target(o, Clamp(found));
      Toward(o.down, s.price, target) && -s.remaining < AmountOut(o.down, s.price, target, s.liquidity)
  }

  /** The loop state at the pass that serves an exact-output run short of a target, if one does. */
  function Serving(o: Order, s: Loop): Option<Loop>
    requires Live(o, s) && !o.exactIn
    decreases Rank(o, s)
  {
    if Done(o, s) then None
    else if ServesShort(o, s) then Some(s)
    else
      var r := Iterate(o, s);
      if r.Err? || r.value.exhausted then None
      else
        IterateLive(o, s);
        Serving(o, r.value.loop)
  }

  /** The step of a pass. */
  function StepAt(o: Order, s: Loop): Result<SwapStep> {
    var (found, _) :- NextInitializedTickWithinOneWord(o.window, s.tick, o.down);
    ComputeSwapStep(s.price, Target(o, Clamp(found)), s.liquidity, s.remaining, o.feePips)
  }

  /** Paying this step's input moves far enough again: always upward, at a target it pays for, and while the product
      fits uint256; where the fallback formula is used instead, exactly when its price is not above the step's. */
  predicate Covers(down: bool, price: nat, target: nat, liquidity: nat, step: SwapStep)
    requires Toward(down, price, target) && price > 0
  {
    var n := liquidity * Q96;
    || !down
    || AmountIn(down, price, target, liquidity) <= step.amountIn
    || n + step.amountIn * price < U256
    || n <= step.priceNext * (FloorDiv(n, price) + step.amountIn)
  }

  predicate PassCovers(o: Order, s: Loop) {
    var r := StepAt(o, s);
    r.Ok? &&
    var (found, _) := NextInitializedTickWithinOneWord(o.window, s.tick, o.down).value;
    var target := Target(o, Clamp(found));
    s.price > 0 && Toward(o.down, s.price, target) && Covers(o.down, s.price, target, s.liquidity, r.value)
  }

  /** Where the same input pays for the whole way to an initialized tick, crossing it does not underflow liquidity. */
  predicate PassLands(o: Order, s: Loop) {
    var r := StepAt(o, s);
    r.Ok? &&
    var (found, initialized) := NextInitializedTickWithinOneWord(o.window, s.tick, o.down).value;
    var n := Clamp(found);
    var target := Target(o, n);
    Toward(o.down, s.price, target)
    && (target == Ratio(n) && AmountIn(o.down, s.price, target, s.liquidity) <= r.value.amountIn ==>
         Cross(o, s, n, initialized).Ok?)
  }

  /** A step that costs nothing delivers nothing. */
  lemma FreeStepDeliversNothing(down: bool, from: int, to: int, liquidity: nat)
    requires Toward(down, from, to)
    ensures AmountIn(down, from, to, liquidity) <= 0 ==> AmountOut(down, from, to, liquidity) <= 0
  {
    var lo, hi := if down then to else from, if down then from else to;
    Amount0Order(lo, hi, liquidity, 0);
    Amount0Order(lo, hi, liquidity, 1);
    Amount1Order(lo, hi, liquidity, 0);
    Amount1Order(lo, hi, liquidity, 1);
    ProductPositive(lo, hi);
    assert liquidity * Q96 * (hi - lo) == liquidity * (hi - lo) * Q96;
  }

  /** A run that takes no input delivers no output. */
  lemma {:induction false} FreeRunDeliversNothing(o: Order, s: Loop)
    requires Live(o, s) && Run(o, s).Ok?
    ensures Run(o, s).value.loop.inTotal <= s.inTotal ==> Run(o, s).value.loop.outTotal <= s.outTotal
    decreases Rank(o, s)
  {
    hide Run, Ratio, Iterate;
    Unroll(o, s);
    if !Done(o, s) {
      IterateLive(o, s);
      FreePassDeliversNothing(o, s);
      if !Iterate(o, s).value.exhausted {
        RunBounds(o, Iterate(o, s).value.loop);
        FreeRunDeliversNothing(o, Iterate(o, s).value.loop);
      }
    }
  }

  lemma FreePassDeliversNothing(o: Order, s: Loop)
    requires Live(o, s) && !Done(o, s)
    ensures var r := Iterate(o, s);
            r.Ok? && r.value.loop.inTotal <= s.inTotal ==> r.value.loop.outTotal <= s.outTotal
  {
    hide NextInitializedTickWithinOneWord, ComputeSwapStep, Ratio, TickAt, Target, AmountIn, AmountOut, Budget, FeeOn;
    var search := NextInitializedTickWithinOneWord(o.window, s.tick, o.down);
    if search.Ok? {
      var (found, initialized) := search.value;
      StepOf(o, s, found, initialized);
      var r := ComputeSwapStep(s.price, Target(o, Clamp(found)), s.liquidity, s.remaining, o.feePips);
      if r.Ok? {
        FreeStepDeliversNothing(o.down, s.price, r.value.priceNext, s.liquidity);
      }
    }
  }

  // ---- One step, asked for and paid for ----

  /** The largest input an amount plus its own fee buys is that amount. */
  lemma BudgetOfCost(amountIn: nat, feePips: FeePips)
    ensures Budget(amountIn + FeeOn(amountIn, feePips), feePips) == amountIn
  {
    FeeCoversShare(amountIn, feePips);
    FeeCoversShare(amountIn + 1, feePips);
    BudgetAndFee(amountIn, amountIn + FeeOn(amountIn, feePips), feePips);
    BudgetAndFee(amountIn + 1, amountIn + FeeOn(amountIn, feePips), feePips);
    FeeMonotone(amountIn, feePips);
  }

  lemma FeeMonotone(amountIn: nat, feePips: FeePips)
    ensures FeeOn(amountIn, feePips) <= FeeOn(amountIn + 1, feePips)
  {
    var rest := FEE_DENOMINATOR - feePips;
    var f := FeeOn(amountIn + 1, feePips);
    CeilGalois((amountIn + 1) * feePips, rest, f);
    CeilGalois(amountIn * feePips, rest, f);
    assert (amountIn + 1) * feePips == amountIn * feePips + feePips;
  }

  /** Paying exactly what an exact-output step charged spends it all, and delivers as much iff the step is covered. */
  lemma ServedAgain(down: bool, price: nat, target: nat, liquidity: nat, asked: nat, feePips: FeePips, a: SwapStep,
                    b: SwapStep)
    requires Toward(down, price, target) && price <= MAX_UINT160 && target <= MAX_UINT160 && price > 0
    requires 0 < asked < AmountOut(down, price, target, liquidity)
    requires ComputeSwapStep(price, target, liquidity, -(asked as int), feePips) == Ok(a)
    requires ComputeSwapStep(price, target, liquidity, a.amountIn + a.feeAmount, feePips) == Ok(b)
    requires a.amountIn >= 0
    ensures a.amountOut == asked && b.amountIn + b.feeAmount == a.amountIn + a.feeAmount
    ensures asked <= b.amountOut <==> Covers(down, price, target, liquidity, a)
    ensures b.priceNext == target <==> AmountIn(down, price, target, liquidity) <= a.amountIn
  {
    hide ComputeSwapStep, AmountIn, AmountOut, FeeOn, Budget, CeilDiv, Fits256;
    var paid := a.amountIn + a.feeAmount;
    ExactOutputStepContract(down, price, target, liquidity, asked, feePips);
    BudgetOfCost(a.amountIn, feePips);
    ExactInputStepContract(down, price, target, liquidity, paid, feePips);
    AmountsMonotone(down, price, a.priceNext, target, liquidity);
    FreeStepDeliversNothing(down, price, a.priceNext, liquidity);
    if b.priceNext != target {
      if down && !Fits256(price, liquidity, a.amountIn) {
        StepPrice(down, price, target, liquidity, paid, feePips);
        FallbackReached(price, liquidity, a.amountIn, a.priceNext, b.priceNext);
        FallbackServes(price, target, liquidity, asked, a.priceNext, b.priceNext);
      } else {
        FitsUnfolds(price, liquidity, a.amountIn);
        assert Toward(down, a.priceNext, b.priceNext);
        AmountsMonotone(down, price, a.priceNext, b.priceNext, liquidity);
      }
    }
  }

  lemma FitsUnfolds(price: nat, liquidity: nat, amount: nat)
    ensures Fits256(price, liquidity, amount) <==> liquidity * Q96 + amount * price < U256
  {
  }

  /** The fallback price is not above another exactly when that one's share of the fallback denominator covers the
      liquidity. */
  lemma FallbackReached(price: nat, liquidity: nat, amount: nat, quoted: int, reached: int)
    requires price > 0 && liquidity > 0 && amount > 0 && !Fits256(price, liquidity, amount)
    requires GetNextSqrtPriceFromInput(price, liquidity, amount, true) == Ok(reached)
    ensures !(liquidity * Q96 + amount * price < U256)
    ensures reached <= quoted <==> liquidity * Q96 <= quoted * (FloorDiv(liquidity * Q96, price) + amount)
  {
    hide FloorDiv, CeilDiv, MulDivRoundingUp;
    var n := liquidity * Q96;
    var f := FloorDiv(n, price);
    FloorGalois(n, price, 0);
    FallbackFormula(price, liquidity, amount);
    CeilGalois(n, f + amount, quoted);
  }

  lemma FallbackFormula(price: nat, liquidity: nat, amount: nat)
    requires price > 0 && liquidity > 0 && amount > 0 && !Fits256(price, liquidity, amount)
    ensures var d := FloorDiv(liquidity * Q96, price) + amount;
            d > 0 && GetNextSqrtPriceFromInput(price, liquidity, amount, true) == Ok(CeilDiv(liquidity * Q96, d))
  {
    hide FloorDiv, CeilDiv, MulDivRoundingUp;
    FloorGalois(liquidity * Q96, price, 0);
  }

  /** The quoted price is the nearest that delivers what is asked, so another delivers it iff it is not nearer. */
  lemma FallbackServes(price: nat, target: nat, liquidity: nat, asked: nat, quoted: int, reached: int)
    requires 0 < quoted <= price && 0 < reached <= price
    requires asked <= AmountOut(true, price, quoted, liquidity) && Nearest(true, price, liquidity, asked, quoted)
    ensures asked <= AmountOut(true, price, reached, liquidity) <==> reached <= quoted
  {
    hide AmountOut, AmountIn;
    if reached <= quoted {
      AmountsMonotone(true, price, quoted, reached, liquidity);
    }
  }

  // ---- One pass, asked for and paid for ----

  lemma TargetOf(o: Order, p: Order, n: int)
    requires MIN_TICK <= n <= MAX_TICK && p == o.(exactIn := p.exactIn)
    ensures Target(o, n) == Target(p, n)
  {
  }

  /** An exact-input step whose budget covers an exact-output step that reaches its target is that step. */
  lemma StepAlike(down: bool, price: nat, target: nat, liquidity: nat, asked: nat, paid: nat, feePips: FeePips,
                  a: SwapStep, b: SwapStep)
    requires Toward(down, price, target)
    requires ExactOutputStep(down, price, target, liquidity, asked, feePips, a)
    requires ExactInputStep(down, price, target, liquidity, paid, feePips, b)
    requires a.amountIn + a.feeAmount <= paid && a.amountIn >= 0
    requires AmountOut(down, price, target, liquidity) <= asked
    ensures a == b
  {
    hide AmountIn, AmountOut, Budget, FeeOn;
    BudgetAndFee(a.amountIn, paid, feePips);
  }

  /** A pass that does not serve short moves both swaps alike, whenever what remains to pay covers it. */
  lemma PassAlike(o: Order, s: Loop, t: Loop)
    requires !o.exactIn && Live(o, s) && Live(o.(exactIn := true), t) && SameBut(s, t)
    requires s.remaining < 0 <= t.remaining && !Done(o, s) && !ServesShort(o, s)
    requires Iterate(o, s).Ok? && Iterate(o, s).value.loop.inTotal - s.inTotal <= t.remaining
    ensures var a, b := Iterate(o, s).value, Iterate(o.(exactIn := true), t);
            t.remaining > 0 ==>
              && b.Ok? && a.exhausted == b.value.exhausted && SameBut(a.loop, b.value.loop)
              && b.value.loop.remaining == t.remaining - (a.loop.inTotal - s.inTotal)
  {
    hide NextInitializedTickWithinOneWord, ComputeSwapStep, Ratio, TickAt, Target, AmountIn, AmountOut, Budget, FeeOn;
    var p := o.(exactIn := true);
    var search := NextInitializedTickWithinOneWord(o.window, s.tick, o.down);
    if search.Ok? && t.remaining > 0 {
      var (found, initialized) := search.value;
      var target := Target(o, Clamp(found));
      TargetAhead(o, s, found, initialized);
      TargetOf(o, p, Clamp(found));
      StepOf(o, s, found, initialized);
      StepOf(p, t, found, initialized);
      var a := ComputeSwapStep(s.price, target, s.liquidity, s.remaining, o.feePips).value;
      var b := ComputeSwapStep(t.price, target, t.liquidity, t.remaining, o.feePips).value;
      assert Iterate(o, s).value.loop.inTotal == s.inTotal + a.amountIn + a.feeAmount;
      StepAlike(o.down, s.price, target, s.liquidity, -s.remaining, t.remaining, o.feePips, a, b);
    }
  }

  /** At the pass that serves short, paying exactly its charge ends the paid swap too: it errs iff the pass does not
      land, and otherwise delivers as much iff the pass is covered. */
  lemma PassServes(o: Order, s: Loop, t: Loop)
    requires !o.exactIn && Live(o, s) && Live(o.(exactIn := true), t) && SameBut(s, t)
    requires s.remaining < 0 < t.remaining && !Done(o, s) && ServesShort(o, s)
    requires Iterate(o, s).Ok? && Iterate(o, s).value.loop.inTotal - s.inTotal == t.remaining
    ensures var a, b := Iterate(o, s).value, Iterate(o.(exactIn := true), t);
            && a.loop.remaining == 0
            && (b.Ok? <==> PassLands(o, s))
            && (b.Ok? ==>
                 b.value.loop.remaining == 0 && (a.loop.outTotal <= b.value.loop.outTotal <==> PassCovers(o, s)))
  {
    hide NextInitializedTickWithinOneWord, ComputeSwapStep, Ratio, TickAt, Target, AmountIn, AmountOut, Budget, FeeOn,
        Covers;
    var p := o.(exactIn := true);
    var (found, initialized) := NextInitializedTickWithinOneWord(o.window, s.tick, o.down).value;
    var target := Target(o, Clamp(found));
    TargetAhead(o, s, found, initialized);
    TargetOf(o, p, Clamp(found));
    StepOf(o, s, found, initialized);
    StepOf(p, t, found, initialized);
    var a := ComputeSwapStep(s.price, target, s.liquidity, s.remaining, o.feePips).value;
    var b := ComputeSwapStep(t.price, target, t.liquidity, t.remaining, o.feePips).value;
    assert Iterate(o, s).value.loop.inTotal == s.inTotal + a.amountIn + a.feeAmount;
    ServedAgain(o.down, s.price, target, s.liquidity, -s.remaining, o.feePips, a, b);
    PaidPassLands(p, t, found, initialized, b);
    assert PassLands(o, s) <==>
        (target == Ratio(Clamp(found)) && b.priceNext == target ==> Cross(o, s, Clamp(found), initialized).Ok?);
  }

  /** An exact-input pass errs only by crossing a tick that underflows liquidity. */
  lemma PaidPassLands(p: Order, t: Loop, found: int, initialized: bool, b: SwapStep)
    requires p.exactIn && Live(p, t) && !Done(p, t)
    requires NextInitializedTickWithinOneWord(p.window, t.tick, p.down) == Ok((found, initialized))
    requires StepAt(p, t) == Ok(b)
    ensures Iterate(p, t).Ok? <==>
            (Target(p, Clamp(found)) == Ratio(Clamp(found)) && b.priceNext == Target(p, Clamp(found)) ==>
                Cross(p, t, Clamp(found), initialized).Ok?)
    ensures Iterate(p, t).Ok? ==> Iterate(p, t).value.loop.outTotal == t.outTotal + b.amountOut
    ensures Iterate(p, t).Ok? ==> Iterate(p, t).value.loop.remaining == t.remaining - (b.amountIn + b.feeAmount)
  {
    hide NextInitializedTickWithinOneWord, ComputeSwapStep, Ratio, TickAt, Target;
    var n := Clamp(found);
    TargetAhead(p, t, found, initialized);
    StepOf(p, t, found, initialized);
    RatioEnds();
    RatioRange(t.tick);
    RatioRange(t.tick + 1);
    CrossDepends(p, t, Pay(p, t, b), n, initialized);
  }

  lemma CrossDepends(o: Order, s: Loop, t: Loop, n: int, initialized: bool)
    requires s.liquidity == t.liquidity
    ensures Cross(o, s, n, initialized).Ok? <==> Cross(o, t, n, initialized).Ok?
    ensures Cross(o, t, n, initialized).Ok? ==>
              var r := Cross(o, t, n, initialized).value.loop; r.outTotal == t.outTotal && r.remaining == t.remaining
  {
  }

  // ---- Whole runs ----

  /** The coupling of two whole runs, the second paying exactly what the first charged. */
  lemma {:induction false} RunDual(o: Order, s: Loop, t: Loop)
    requires !o.exactIn && Live(o, s) && Live(o.(exactIn := true), t) && SameBut(s, t)
    requires Run(o, s).Ok? && Run(o, s).value.loop.inTotal - s.inTotal == t.remaining
    ensures var r := Run(o.(exactIn := true), t);
            match Serving(o, s)
            case None => r.Ok? && r.value.loop.outTotal == Run(o, s).value.loop.outTotal
            case Some(u) =>
              && Live(o, u)
              && (r.Ok? <==> PassLands(o, u))
              && (r.Ok? ==> (Run(o, s).value.loop.outTotal <= r.value.loop.outTotal <==> PassCovers(o, u)))
    decreases Rank(o, s)
  {
    hide Iterate, Run, Ratio, ServesShort, PassLands, PassCovers;
    var p := o.(exactIn := true);
    Unroll(o, s);
    Unroll(p, t);
    if t.remaining == 0 {
      FreeRunDeliversNothing(o, s);
      RunBounds(o, s);
      FreeRunServesNone(o, s);
    } else if !Done(o, s) {
      var a := Iterate(o, s).value;
      IterateLive(o, s);
      if !a.exhausted { RunBounds(o, a.loop); Unroll(o, a.loop); }
      if ServesShort(o, s) {
        ServedPassDelivers(o, s);
        PassServes(o, s, t);
        PaidRunEnds(p, t);
      } else {
        PassAlike(o, s, t);
        if !a.exhausted { RunDual(o, a.loop, Iterate(p, t).value.loop); }
      }
    }
  }

  /** A run whose first pass leaves nothing to pay ends with that pass. */
  lemma PaidRunEnds(p: Order, t: Loop)
    requires Live(p, t) && !Done(p, t)
    requires Iterate(p, t).Ok? ==> Iterate(p, t).value.loop.remaining == 0
    ensures Run(p, t).Ok? <==> Iterate(p, t).Ok?
    ensures Run(p, t).Ok? ==> Run(p, t).value.loop.outTotal == Iterate(p, t).value.loop.outTotal
  {
    hide Iterate, Run;
    Unroll(p, t);
    if Iterate(p, t).Ok? && !Iterate(p, t).value.exhausted { Unroll(p, Iterate(p, t).value.loop); }
  }

  /** A run that charges nothing delivers nothing, so no pass of it serves. */
  lemma {:induction false} FreeRunServesNone(o: Order, s: Loop)
    requires Live(o, s) && !o.exactIn && Run(o, s).Ok? && Run(o, s).value.loop.inTotal <= s.inTotal
    ensures Serving(o, s) == None
    decreases Rank(o, s)
  {
    hide Iterate, Run, Ratio, ServesShort;
    Unroll(o, s);
    if !Done(o, s) {
      var a := Iterate(o, s).value;
      IterateLive(o, s);
      FreePassDeliversNothing(o, s);
      if !a.exhausted { RunBounds(o, a.loop); }
      if ServesShort(o, s) {
        ServedPassDelivers(o, s);
      } else if !a.exhausted {
        FreeRunServesNone(o, a.loop);
      }
    }
  }

  lemma ServedPassDelivers(o: Order, s: Loop)
    requires Live(o, s) && !Done(o, s) && !o.exactIn && ServesShort(o, s) && Iterate(o, s).Ok?
    ensures Iterate(o, s).value.loop.outTotal > s.outTotal && Iterate(o, s).value.loop.remaining == 0
  {
    hide NextInitializedTickWithinOneWord, ComputeSwapStep, Ratio, TickAt, Target, AmountIn, AmountOut;
    var (found, initialized) := NextInitializedTickWithinOneWord(o.window, s.tick, o.down).value;
    StepOf(o, s, found, initialized);
  }

  // ---- Quotes ----

  /** What decides whether paying a quote's input buys its output again: nothing, unless its last pass stopped short
      of a target; then that pass must land, and be covered. */
  predicate QuoteCovered(state: PoolState, window: TickWindow, zeroForOne: bool, asked: int, limit: Option<nat>)
    requires AtTick(state.tick, state.price) && asked > 0
  {
    var o := OrderFor(state, window, zeroForOne, -asked, limit);
    if !ValidLimit(state, zeroForOne, o.limit) then true
    else
      StartLive(state, window, zeroForOne, -asked, limit);
      match Serving(o, Start(state, -asked))
      case None => true
      case Some(u) => PassLands(o, u) && PassCovers(o, u)
  }

  /** An exact-output quote's input, swapped as exact input, succeeds and buys at least the quoted output exactly when
      the quote is covered. */
  lemma QuoteDual(state: PoolState, window: TickWindow, zeroForOne: bool, asked: int, limit: Option<nat>)
    requires AtTick(state.tick, state.price) && asked > 0
    requires Simulation(state, window, zeroForOne, -asked, limit).Ok?
    ensures var quoted := Simulation(state, window, zeroForOne, -asked, limit).value;
            var bought := Simulation(state, window, zeroForOne, quoted.amountIn, limit);
            if quoted.amountIn > 0 then
              bought.Ok? && bought.value.amountOut >= quoted.amountOut <==>
                  QuoteCovered(state, window, zeroForOne, asked, limit)
            else quoted.amountOut <= 0
  {
    hide Run, Ratio, Serving, PassLands, PassCovers;
    var q := Simulation(state, window, zeroForOne, -asked, limit).value;
    StartLive(state, window, zeroForOne, -asked, limit);
    var o := OrderFor(state, window, zeroForOne, -asked, limit);
    if q.amountIn > 0 {
      StartLive(state, window, zeroForOne, q.amountIn, limit);
      RunDual(o, Start(state, -asked), Start(state, q.amountIn));
    } else {
      FreeRunDeliversNothing(o, Start(state, -asked));
    }
  }

  /** Swapping token1 in, every pass is covered. */
  lemma UpwardCovers(o: Order, s: Loop)
    requires Live(o, s) && !o.exactIn && !o.down && !Done(o, s) && Iterate(o, s).Ok? && ServesShort(o, s)
    ensures PassCovers(o, s)
  {
    hide NextInitializedTickWithinOneWord, ComputeSwapStep, Ratio, TickAt, Target;
    RatioRange(s.tick);
  }

  // ---- The overflow branch really does break it ----

  const HIGH_PRICE: nat := 0x8000000000000000040000000000000000000000
  const DEEP_LIQUIDITY: nat := 0x80000000000000000000000000000000
  const ASKED: int := 0x3ffffffff000000001ffffffffffffffffe0000000000000
  const PAID: int := 0x400832336b515216cb9f2effe

  /** One word covers every non-negative tick at this spacing, and no tick in it is initialized. */
  const BARE_WINDOW: TickWindow := TickWindow(0, 16384, map[], map[], 0, 0)

  lemma BareSearch(tick: int)
    requires 0 <= tick < MAX_TICK
    ensures NextInitializedTickWithinOneWord(BARE_WINDOW, tick, true) == Ok((0, false))
  {
  }

  /** A pass in the bare window that stops short of tick zero. */
  lemma BarePass(o: Order, s: Loop, step: SwapStep)
    requires o.window == BARE_WINDOW && o.down && o.limit == MIN_SQRT_RATIO + 1
    requires Live(o, s) && !Done(o, s) && s.price == HIGH_PRICE
    requires ComputeSwapStep(s.price, Q96, s.liquidity, s.remaining, o.feePips) == Ok(step)
    requires Q96 < step.priceNext < HIGH_PRICE && Pay(o, s, step).remaining == 0
    ensures Run(o, s).Ok? && Run(o, s).value.loop.inTotal == s.inTotal + step.amountIn + step.feeAmount
    ensures Run(o, s).value.loop.outTotal == s.outTotal + step.amountOut
    ensures Run(o, s).value.loop.remaining == 0 && !Run(o, s).value.exhausted
  {
    hide NextInitializedTickWithinOneWord, ComputeSwapStep, Ratio, TickAt;
    RatioEnds();
    if s.tick + 1 < 0 { RatioStrictlyIncreasing(s.tick + 1, 0); }
    BareSearch(s.tick);
    Unroll(o, s);
    Unroll(o, Iterate(o, s).value.loop);
  }

  const QUOTED_NEXT: nat := 0x20000000000000000000000000400000
  const FALLBACK_NEXT: nat := 0x20000000000000000000000008000001
  const NET_INPUT: nat := 0x3ffffffff0000000000000000
  const BOUGHT: nat := 0x3ffffffff000000001fffffffffffffffbffffff80000000

  /** The exact-output step of the counterexample, toward tick zero with a fee of 500. */
  lemma QuotedStep()
    ensures ComputeSwapStep(HIGH_PRICE, Q96, DEEP_LIQUIDITY, -ASKED, 500)
            == Ok(SwapStep(QUOTED_NEXT, NET_INPUT, ASKED, PAID - NET_INPUT))
  {
    hide CeilDiv, FloorDiv, GetAmount0Delta, GetAmount1Delta;
    DeltasAreRounded(true, HIGH_PRICE, Q96, DEEP_LIQUIDITY);
    FloorIs(DEEP_LIQUIDITY * (HIGH_PRICE - Q96), Q96, DEEP_LIQUIDITY * (HIGH_PRICE - Q96) / Q96);
    CeilIs(ASKED * Q96, DEEP_LIQUIDITY, HIGH_PRICE - QUOTED_NEXT);
    DeltasAreRounded(true, HIGH_PRICE, QUOTED_NEXT, DEEP_LIQUIDITY);
    CeilIs(DEEP_LIQUIDITY * Q96 * (HIGH_PRICE - QUOTED_NEXT), QUOTED_NEXT * HIGH_PRICE, NET_INPUT);
    FloorIs(DEEP_LIQUIDITY * (HIGH_PRICE - QUOTED_NEXT), Q96, ASKED);
    CeilIs(NET_INPUT * 500, FEE_DENOMINATOR - 500, PAID - NET_INPUT);
  }

  /** The exact-input step of what the quote charged: the product overflows and the fallback formula stops early. */
  lemma BoughtStep()
    ensures ComputeSwapStep(HIGH_PRICE, Q96, DEEP_LIQUIDITY, PAID, 500)
            == Ok(SwapStep(FALLBACK_NEXT, NET_INPUT, BOUGHT, PAID - NET_INPUT))
  {
    hide CeilDiv, FloorDiv, GetAmount0Delta, GetAmount1Delta;
    FloorIs(PAID * (FEE_DENOMINATOR - 500), FEE_DENOMINATOR, NET_INPUT);
    DeltasAreRounded(true, HIGH_PRICE, Q96, DEEP_LIQUIDITY);
    Amount0Order(Q96, HIGH_PRICE, DEEP_LIQUIDITY, NET_INPUT);
    FloorIs(DEEP_LIQUIDITY * Q96, HIGH_PRICE, 0xFFFFFFFFFFFFFFFF);
    CeilIs(DEEP_LIQUIDITY * Q96, 0xFFFFFFFFFFFFFFFF + NET_INPUT, FALLBACK_NEXT);
    DeltasAreRounded(true, HIGH_PRICE, FALLBACK_NEXT, DEEP_LIQUIDITY);
    CeilIs(DEEP_LIQUIDITY * Q96 * (HIGH_PRICE - FALLBACK_NEXT), FALLBACK_NEXT * HIGH_PRICE, NET_INPUT);
    FloorIs(DEEP_LIQUIDITY * (HIGH_PRICE - FALLBACK_NEXT), Q96, BOUGHT);
  }

  function DeepState(): PoolState {
    PoolState(HIGH_PRICE, TickAt(HIGH_PRICE), DEEP_LIQUIDITY, 500, 0)
  }

  /** Without the condition the claim fails: here the exact-input swap of the quoted input buys less than the quoted
      output. */
  lemma OverflowBreaksDuality()
    ensures AtTick(DeepState().tick, DeepState().price)
    ensures var quoted := Simulation(DeepState(), BARE_WINDOW, true, -ASKED, None);
            && quoted.Ok? && quoted.value.amountOut == ASKED && quoted.value.amountIn == PAID
            && quoted.value.limitReason == None
            && var bought := Simulation(DeepState(), BARE_WINDOW, true, PAID, None);
            && bought.Ok? && bought.value.amountOut < ASKED
            && !QuoteCovered(DeepState(), BARE_WINDOW, true, ASKED, None)
  {
    hide Run, Ratio, ComputeSwapStep, Serving, PassLands, PassCovers;
    var state := DeepState();
    QuotedStep();
    BoughtStep();
    StartLive(state, BARE_WINDOW, true, -ASKED, None);
    StartLive(state, BARE_WINDOW, true, PAID, None);
    BarePass(OrderFor(state, BARE_WINDOW, true, -ASKED, None), Start(state, -ASKED),
        SwapStep(QUOTED_NEXT, NET_INPUT, ASKED, PAID - NET_INPUT));
    BarePass(OrderFor(state, BARE_WINDOW, true, PAID, None), Start(state, PAID),
        SwapStep(FALLBACK_NEXT, NET_INPUT, BOUGHT, PAID - NET_INPUT));
    QuoteDual(state, BARE_WINDOW, true, ASKED, None);
  }
}
