/** One swap step toward a target price. */
module SwapMath {
  import opened Results
  import opened FullMath
  import opened SqrtPriceMath

  const FEE_DENOMINATOR: int := 1_000_000

  /** A fee in hundredths of a basis point; a pool's fee is always below 100%. */
  type FeePips = f: int | 0 <= f < FEE_DENOMINATOR

  datatype SwapStep = SwapStep(priceNext: nat, amountIn: int, amountOut: int, feeAmount: int)

  // ---- The program's function ----

  function InputDelta(zeroForOne: bool, current: int, next: int, liquidity: nat): Result<int> {
    if zeroForOne then GetAmount0Delta(next, current, liquidity, true)
    else GetAmount1Delta(current, next, liquidity, true)
  }

  function OutputDelta(zeroForOne: bool, current: int, next: int, liquidity: nat): Result<int> {
    if zeroForOne then GetAmount1Delta(next, current, liquidity, false)
    else GetAmount0Delta(current, next, liquidity, false)
  }

  /** What an exact-input step may spend before the fee. */
  function Budget(remaining: nat, feePips: FeePips): (b: nat)
    ensures b <= remaining
  {
    var b := FloorDiv(remaining * (FEE_DENOMINATOR - feePips), FEE_DENOMINATOR);
    assert b >= 0 by { FloorGalois(remaining * (FEE_DENOMINATOR - feePips), FEE_DENOMINATOR, 0); }
    assert b <= remaining by {
      MulMono(FEE_DENOMINATOR - feePips, FEE_DENOMINATOR, remaining);
    }
    b
  }

  /** A non-negative remaining amount asks for an exact-input step, a negative one for an exact-output step. */
  function ComputeSwapStep(current: nat, target: nat, liquidity: nat, remaining: int,
                           feePips: FeePips): Result<SwapStep> {
    var zeroForOne := current >= target;
    var exactIn := remaining >= 0;
    if exactIn then
      var budget := Budget(remaining, feePips);
      var mostIn :- InputDelta(zeroForOne, current, target, liquidity);
      var next :- if budget >= mostIn then Ok(target)
                  else GetNextSqrtPriceFromInput(current, liquidity, budget, zeroForOne);
      var reached := target == next;
      var amountIn :- if reached then Ok(mostIn) else InputDelta(zeroForOne, current, next, liquidity);
      var amountOut :- OutputDelta(zeroForOne, current, next, liquidity);
      var fee := if !reached then remaining - amountIn
                 else CeilDiv(amountIn * feePips, FEE_DENOMINATOR - feePips);
      Ok(SwapStep(next, amountIn, amountOut, fee))
    else
      var mostOut :- OutputDelta(zeroForOne, current, target, liquidity);
      var next :- if -remaining >= mostOut then Ok(target)
                  else GetNextSqrtPriceFromOutput(current, liquidity, -remaining, zeroForOne);
      var reached := target == next;
      var amountIn :- InputDelta(zeroForOne, current, next, liquidity);
      var amountOut :- if reached then Ok(mostOut) else OutputDelta(zeroForOne, current, next, liquidity);
      Ok(SwapStep(next, amountIn, if amountOut > -remaining then -remaining else amountOut,
                  CeilDiv(amountIn * feePips, FEE_DENOMINATOR - feePips)))
  }

  // ---- What a step promises ----

  /** `to` lies on the swap's side of `from`; `down` swaps token0 in and lowers the price. */
  predicate Toward(down: bool, from: int, to: int) {
    if down then 0 < to <= from else 0 < from <= to
  }

  function AmountIn(down: bool, from: int, to: int, liquidity: nat): int
    requires Toward(down, from, to)
  {
    if down then Amount0(to, from, liquidity, true) else Amount1(from, to, liquidity, true)
  }

  function AmountOut(down: bool, from: int, to: int, liquidity: nat): int
    requires Toward(down, from, to)
  {
    if down then Amount1(to, from, liquidity, false) else Amount0(from, to, liquidity, false)
  }

  function FeeOn(amountIn: int, feePips: FeePips): int {
    CeilDiv(amountIn * feePips, FEE_DENOMINATOR - feePips)
  }

  /** An exact-input step reaches the target iff the budget pays for it, and otherwise spends all that remains. */
  ghost predicate ExactInputStep(down: bool, price: int, target: int, liquidity: nat, remaining: nat,
                                 feePips: FeePips, s: SwapStep)
    requires Toward(down, price, target)
  {
    var budget := Budget(remaining, feePips);
    && Toward(down, price, s.priceNext) && Toward(down, s.priceNext, target)
    && s.amountIn == AmountIn(down, price, s.priceNext, liquidity) <= budget
    && s.amountOut == AmountOut(down, price, s.priceNext, liquidity)
    && (s.priceNext == target <==> AmountIn(down, price, target, liquidity) <= budget)
    && s.feeAmount == (if s.priceNext == target then FeeOn(s.amountIn, feePips) else remaining - s.amountIn)
  }

  /** No price further along would have been affordable. */
  ghost predicate Furthest(down: bool, price: int, target: int, liquidity: nat, budget: nat, next: int)
    requires Toward(down, price, target)
  {
    forall q :: Toward(down, price, q) && Toward(down, next, q) && q != next && Toward(down, q, target)
                ==> AmountIn(down, price, q, liquidity) > budget
  }

  /** An exact-output step delivers what is asked, or everything up to the target. */
  ghost predicate ExactOutputStep(down: bool, price: int, target: int, liquidity: nat, asked: nat, feePips: FeePips,
                                  s: SwapStep)
    requires Toward(down, price, target)
  {
    && Toward(down, price, s.priceNext) && Toward(down, s.priceNext, target)
    && s.amountIn == AmountIn(down, price, s.priceNext, liquidity)
    && s.amountOut <= AmountOut(down, price, s.priceNext, liquidity)
    && s.feeAmount == FeeOn(s.amountIn, feePips)
    && (if AmountOut(down, price, target, liquidity) <= asked
        then s.priceNext == target && s.amountOut == AmountOut(down, price, target, liquidity)
        else s.amountOut == asked)
  }

  /** No nearer price would have delivered what is asked. */
  ghost predicate Nearest(down: bool, price: int, liquidity: nat, asked: nat, next: int)
  {
    forall q :: Toward(down, price, q) && Toward(down, q, next) && q != next
                ==> AmountOut(down, price, q, liquidity) < asked
  }

  lemma DeltasAreRounded(down: bool, from: int, to: int, liquidity: nat)
    requires Toward(down, from, to)
    ensures InputDelta(down, from, to, liquidity) == Ok(AmountIn(down, from, to, liquidity))
    ensures OutputDelta(down, from, to, liquidity) == Ok(AmountOut(down, from, to, liquidity))
    ensures from == to ==> && InputDelta(!down, from, to, liquidity) == Ok(0) == Ok(AmountIn(down, from, to, liquidity))
                           && OutputDelta(!down, from, to, liquidity) == Ok(0)
                                == Ok(AmountOut(down, from, to, liquidity))
    ensures AmountIn(down, from, to, liquidity) >= 0 && AmountOut(down, from, to, liquidity) >= 0
  {
    var lo, hi := if down then to else from, if down then from else to;
    Amount0DeltaRoundsOnce(lo, hi, liquidity, true);
    Amount0DeltaRoundsOnce(lo, hi, liquidity, false);
    Amount1DeltaRoundsOnce(lo, hi, liquidity, true);
    Amount1DeltaRoundsOnce(lo, hi, liquidity, false);
    Amount0NonNegative(lo, hi, liquidity, true);
    Amount0NonNegative(lo, hi, liquidity, false);
    Amount1Monotone(lo, lo, hi, liquidity, true);
    Amount1Monotone(lo, lo, hi, liquidity, false);
    NoMoveIsFree(from, liquidity);
  }

  lemma NoMoveIsFree(price: int, liquidity: nat)
    requires price > 0
    ensures forall up :: Amount0(price, price, liquidity, up) == 0 == Amount1(price, price, liquidity, up)
  {
    ProductPositive(price, price);
    Amount0Order(price, price, liquidity, 0);
    Amount0NonNegative(price, price, liquidity, true);
    Amount0NonNegative(price, price, liquidity, false);
    Amount0Order(price, price, liquidity, 1);
    assert liquidity * Q96 * (price - price) == 0;
  }

  lemma NoLiquidityNoAmounts(down: bool, from: int, to: int)
    requires Toward(down, from, to)
    ensures AmountIn(down, from, to, 0) == 0 == AmountOut(down, from, to, 0)
  {
    var lo, hi := if down then to else from, if down then from else to;
    ProductPositive(lo, hi);
    FloorGalois(0, lo * hi, 1);
    CeilGalois(0, lo * hi, 0);
    CeilGalois(0, lo * hi, -1);
    assert 0 * Q96 * (hi - lo) == 0 == 0 * (hi - lo);
  }

  lemma AmountsMonotone(down: bool, from: int, mid: int, to: int, liquidity: nat)
    requires Toward(down, from, mid) && Toward(down, mid, to)
    ensures AmountIn(down, from, mid, liquidity) <= AmountIn(down, from, to, liquidity)
    ensures AmountOut(down, from, mid, liquidity) <= AmountOut(down, from, to, liquidity)
  {
    var lo, hi := if down then to else from, if down then from else to;
    Amount0Monotone(lo, mid, hi, liquidity, true);
    Amount0Monotone(lo, mid, hi, liquidity, false);
    Amount1Monotone(lo, mid, hi, liquidity, true);
    Amount1Monotone(lo, mid, hi, liquidity, false);
  }

  /** The exact-input step never raises and never overshoots; without the overflow branch it goes as far as the budget
      allows. */
  lemma ExactInputStepContract(down: bool, price: nat, target: nat, liquidity: nat, remaining: nat, feePips: FeePips)
    requires Toward(down, price, target) && price <= MAX_UINT160 && target <= MAX_UINT160
    ensures var r := ComputeSwapStep(price, target, liquidity, remaining, feePips);
            var budget := Budget(remaining, feePips);
            && r.Ok? && ExactInputStep(down, price, target, liquidity, remaining, feePips, r.value)
            && ((down ==> Fits256(price, liquidity, budget))
                ==> Furthest(down, price, target, liquidity, budget, r.value.priceNext))
  {
    hide GetAmount0Delta, GetAmount1Delta, Amount0, Amount1, GetNextSqrtPriceFromInput, Budget, CeilDiv;
    var budget := Budget(remaining, feePips);
    DeltasAreRounded(down, price, target, liquidity);
    if AmountIn(down, price, target, liquidity) > budget {
      var next := InputMove(down, price, target, liquidity, budget);
      DeltasAreRounded(down, price, next, liquidity);
      var i, o := AmountIn(down, price, next, liquidity), AmountOut(down, price, next, liquidity);
      assert ComputeSwapStep(price, target, liquidity, remaining, feePips) == Ok(SwapStep(next, i, o, remaining - i));
      assert ExactInputStep(down, price, target, liquidity, remaining, feePips, SwapStep(next, i, o, remaining - i));
    } else {
      var i, o := AmountIn(down, price, target, liquidity), AmountOut(down, price, target, liquidity);
      assert ComputeSwapStep(price, target, liquidity, remaining, feePips)
          == Ok(SwapStep(target, i, o, FeeOn(i, feePips)));
      assert ExactInputStep(down, price, target, liquidity, remaining, feePips,
          SwapStep(target, i, o, FeeOn(i, feePips)));
      assert Furthest(down, price, target, liquidity, budget, target);
    }
  }

  lemma InputMove(down: bool, price: nat, target: nat, liquidity: nat, budget: nat) returns (next: int)
    requires Toward(down, price, target) && target <= MAX_UINT160
    requires AmountIn(down, price, target, liquidity) > budget
    ensures GetNextSqrtPriceFromInput(price, liquidity, budget, price >= target) == Ok(next)
    ensures Toward(down, price, next) && Toward(down, next, target) && next != target
    ensures AmountIn(down, price, next, liquidity) <= budget
    ensures (down ==> Fits256(price, liquidity, budget)) ==> Furthest(down, price, target, liquidity, budget, next)
  {
    NoMoveIsFree(price, liquidity);
    NoLiquidityNoAmounts(down, price, target);
    if down {
      NextPriceFromInput0(price, liquidity, budget);
      next := GetNextSqrtPriceFromAmount0RoundingUp(price, liquidity, budget, true).value;
      if next <= target {
        Amount0Monotone(next, target, price, liquidity, true);
        assert false;
      }
    } else {
      NextPriceFromInput1(price, liquidity, budget);
      next := price + FloorDiv(budget * Q96, liquidity);
    }
  }

  /** When the exact-output step raises: only swapping up, short of the target, with a product beyond uint256. */
  predicate OutputOverflows(down: bool, price: nat, target: nat, liquidity: nat, asked: nat)
    requires Toward(down, price, target)
  {
    !down && price != target && asked < AmountOut(down, price, target, liquidity) && asked * price >= U256
  }

  /** The exact-output step raises exactly when OutputOverflows; otherwise it delivers, moving no further than
      needed. */
  lemma ExactOutputStepContract(down: bool, price: nat, target: nat, liquidity: nat, asked: nat, feePips: FeePips)
    requires Toward(down, price, target) && price <= MAX_UINT160 && target <= MAX_UINT160 && asked > 0
    ensures var r := ComputeSwapStep(price, target, liquidity, 0 - asked, feePips);
            && (r.Err? <==> OutputOverflows(down, price, target, liquidity, asked))
            && (r.Ok? ==> ExactOutputStep(down, price, target, liquidity, asked, feePips, r.value))
            && (r.Ok? && asked < AmountOut(down, price, target, liquidity) ==>
                 Nearest(down, price, liquidity, asked, r.value.priceNext))
  {
    DeltasAreRounded(down, price, target, liquidity);
    if asked < AmountOut(down, price, target, liquidity) {
      OutputMove(down, price, target, liquidity, asked);
      var r := GetNextSqrtPriceFromOutput(price, liquidity, asked, price >= target);
      if r.Ok? {
        DeltasAreRounded(down, price, r.value, liquidity);
      }
    }
  }

  lemma OutputMove(down: bool, price: nat, target: nat, liquidity: nat, asked: nat)
    requires Toward(down, price, target)
    requires 0 < asked < AmountOut(down, price, target, liquidity)
    ensures var r := GetNextSqrtPriceFromOutput(price, liquidity, asked, price >= target);
            && (r.Err? <==> OutputOverflows(down, price, target, liquidity, asked))
            && (r.Ok? ==> && Toward(down, price, r.value) && Toward(down, r.value, target)
                          && asked <= AmountOut(down, price, r.value, liquidity)
                          && Nearest(down, price, liquidity, asked, r.value))
  {
    NoMoveIsFree(price, liquidity);
    NoLiquidityNoAmounts(down, price, target);
    if down {
      NextPriceFromOutput1(price, liquidity, asked);
    } else {
      OutputBelowReserve(price, target, liquidity, asked);
      if asked * price < U256 {
        NextPriceFromOutput0(price, liquidity, asked);
      }
    }
  }

  // ---- Fees ----

  /** The fee on an input covers its share of input plus fee, and is the least integer that does. */
  lemma FeeCoversShare(amountIn: nat, feePips: FeePips)
    ensures FeeOn(amountIn, feePips) >= 0
    ensures FeeOn(amountIn, feePips) * FEE_DENOMINATOR >= feePips * (amountIn + FeeOn(amountIn, feePips))
    ensures forall fee :: fee * FEE_DENOMINATOR >= feePips * (amountIn + fee) ==> FeeOn(amountIn, feePips) <= fee
  {
    var rest := FEE_DENOMINATOR - feePips;
    assert amountIn * feePips >= 0;
    CeilGalois(amountIn * feePips, rest, -1);
    var f := FeeOn(amountIn, feePips);
    assert f * rest == f * FEE_DENOMINATOR - feePips * f;
    forall fee | fee * FEE_DENOMINATOR >= feePips * (amountIn + fee) ensures FeeOn(amountIn, feePips) <= fee {
      CeilGalois(amountIn * feePips, rest, fee);
      assert fee * rest == fee * FEE_DENOMINATOR - feePips * fee;
    }
  }

  /** An input fits the budget exactly when input plus its fee fits what remains. */
  lemma BudgetAndFee(amountIn: nat, remaining: nat, feePips: FeePips)
    ensures amountIn <= Budget(remaining, feePips) <==> amountIn + FeeOn(amountIn, feePips) <= remaining
  {
    var rest := FEE_DENOMINATOR - feePips;
    FloorGalois(remaining * rest, FEE_DENOMINATOR, amountIn);
    CeilGalois(amountIn * feePips, rest, remaining - amountIn);
    assert (remaining - amountIn) * rest == remaining * rest - amountIn * FEE_DENOMINATOR + amountIn * feePips;
  }

  /** Spending the whole remainder on an input within the budget pays at least the fee share. */
  lemma WholeRemainderPaysShare(amountIn: nat, remaining: nat, feePips: FeePips)
    requires amountIn <= Budget(remaining, feePips)
    ensures (remaining - amountIn) * FEE_DENOMINATOR >= feePips * remaining
  {
    FloorGalois(remaining * (FEE_DENOMINATOR - feePips), FEE_DENOMINATOR, amountIn);
    assert remaining * (FEE_DENOMINATOR - feePips) == remaining * FEE_DENOMINATOR - feePips * remaining;
  }

  // ---- Larger inputs ----

  /** With more remaining, an exact-input step never spends less, delivers less or stops sooner. */
  lemma ExactInputStepMonotone(down: bool, price: nat, target: nat, liquidity: nat, small: nat, large: nat,
                               feePips: FeePips)
    requires Toward(down, price, target) && price <= MAX_UINT160 && target <= MAX_UINT160 && small <= large
    ensures var a := ComputeSwapStep(price, target, liquidity, small, feePips);
            var b := ComputeSwapStep(price, target, liquidity, large, feePips);
            && a.Ok? && b.Ok?
            && (a.value.priceNext == target ==> a == b)
            && Toward(down, a.value.priceNext, b.value.priceNext)
            && a.value.amountIn + a.value.feeAmount <= b.value.amountIn + b.value.feeAmount
            && a.value.amountOut <= b.value.amountOut
  {
    hide GetNextSqrtPriceFromInput, AmountIn, AmountOut, FeeOn, Budget, Furthest;
    ExactInputStepContract(down, price, target, liquidity, small, feePips);
    ExactInputStepContract(down, price, target, liquidity, large, feePips);
    var a := ComputeSwapStep(price, target, liquidity, small, feePips).value;
    var b := ComputeSwapStep(price, target, liquidity, large, feePips).value;
    hide ComputeSwapStep;
    BudgetMonotone(small, large, feePips);
    DeltasAreRounded(down, price, target, liquidity);
    DeltasAreRounded(down, price, a.priceNext, liquidity);
    if a.priceNext != target {
      BudgetAndFee(AmountIn(down, price, target, liquidity), small, feePips);
      if b.priceNext != target {
        StepPrice(down, price, target, liquidity, small, feePips);
        StepPrice(down, price, target, liquidity, large, feePips);
        NextPriceMonotone(down, price, liquidity, Budget(small, feePips), Budget(large, feePips), a.priceNext,
            b.priceNext);
      }
      AmountsMonotone(down, price, a.priceNext, b.priceNext, liquidity);
    }
  }

  lemma BudgetMonotone(small: nat, large: nat, feePips: FeePips)
    requires small <= large
    ensures Budget(small, feePips) <= Budget(large, feePips)
  {
    var rest := FEE_DENOMINATOR - feePips;
    MulMono(small, large, rest);
    FloorGalois(small * rest, FEE_DENOMINATOR, Budget(small, feePips));
    FloorGalois(large * rest, FEE_DENOMINATOR, Budget(small, feePips));
  }

  /** A step that stops short ends at the price its budget moves to. */
  lemma StepPrice(down: bool, price: nat, target: nat, liquidity: nat, remaining: nat, feePips: FeePips)
    requires Toward(down, price, target) && price <= MAX_UINT160 && target <= MAX_UINT160
    requires AmountIn(down, price, target, liquidity) > Budget(remaining, feePips)
    ensures ComputeSwapStep(price, target, liquidity, remaining, feePips).Ok? && liquidity > 0 && price > 0
    ensures GetNextSqrtPriceFromInput(price, liquidity, Budget(remaining, feePips), down)
            == Ok(ComputeSwapStep(price, target, liquidity, remaining, feePips).value.priceNext)
  {
    hide GetAmount0Delta, GetAmount1Delta, Amount0, Amount1, GetNextSqrtPriceFromInput, Budget, CeilDiv;
    DeltasAreRounded(down, price, target, liquidity);
    var next := InputMove(down, price, target, liquidity, Budget(remaining, feePips));
    DeltasAreRounded(down, price, next, liquidity);
    assert GetNextSqrtPriceFromInput(price, 0, Budget(remaining, feePips), down).Err? by {
      InputNeedsLiquidity(price, Budget(remaining, feePips), down);
    }
  }

  lemma InputNeedsLiquidity(price: nat, amount: nat, down: bool)
    ensures GetNextSqrtPriceFromInput(price, 0, amount, down).Err?
  {
  }

  lemma NextPriceMonotone(down: bool, price: nat, liquidity: nat, small: nat, large: nat, a: int, b: int)
    requires price > 0 && liquidity > 0 && small <= large
    requires GetNextSqrtPriceFromInput(price, liquidity, small, down) == Ok(a)
    requires GetNextSqrtPriceFromInput(price, liquidity, large, down) == Ok(b)
    ensures if down then b <= a else a <= b
  {
    if down {
      NextPriceFromInput0Antitone(price, liquidity, small, large);
    } else {
      NextPriceFromInput1(price, liquidity, small);
      NextPriceFromInput1(price, liquidity, large);
      NextPriceFromInput1Monotone(liquidity, small, large);
    }
  }
}
