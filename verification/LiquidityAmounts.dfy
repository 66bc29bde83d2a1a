/** Liquidity bought by token amounts, and the amounts a position holds. */
module LiquidityAmounts {
  import opened Results
  import opened FullMath
  import opened SqrtPriceMath

  const MAX_UINT128: int := 0xFFFFFFFFFFFFFFFFFFFFFFFFFFFFFFFF

  function Min(a: int, b: int): int {
    if b < a then b else a
  }

  function Sorted(a: nat, b: nat): (nat, nat) {
    if a <= b then (a, b) else (b, a)
  }

  function GetLiquidityForAmount0(a: nat, b: nat, amount0: nat): Result<int> {
    var (lo, hi) := Sorted(a, b);
    var intermediate :- MulDiv(lo, hi, Q96);
    var liquidity :- MulDiv(amount0, intermediate, hi - lo);
    Ok(Min(liquidity, MAX_UINT128))
  }

  function GetLiquidityForAmount1(a: nat, b: nat, amount1: nat): Result<int> {
    var (lo, hi) := Sorted(a, b);
    var liquidity :- MulDiv(amount1, Q96, hi - lo);
    Ok(Min(liquidity, MAX_UINT128))
  }

  function GetLiquidityForAmounts(price: nat, a: nat, b: nat, amount0: nat, amount1: nat): Result<int> {
    var (lo, hi) := Sorted(a, b);
    if price <= lo then
      GetLiquidityForAmount0(lo, hi, amount0)
    else if price < hi then
      var liquidity0 :- GetLiquidityForAmount0(price, hi, amount0);
      var liquidity1 :- GetLiquidityForAmount1(lo, price, amount1);
      Ok(Min(liquidity0, liquidity1))
    else
      GetLiquidityForAmount1(lo, hi, amount1)
  }

  /** Token amounts of a position: rounded up as a mint charges, or down as a burn pays. */
  function GetAmountsForLiquidity(price: nat, a: nat, b: nat, liquidity: int, roundUp: bool): Result<(int, int)> {
    var (lo, hi) := Sorted(a, b);
    if liquidity <= 0 then
      Ok((0, 0))
    else if price <= lo then
      var amount0 :- GetAmount0Delta(lo, hi, liquidity, roundUp);
      Ok((amount0, 0))
    else if price < hi then
      var amount0 :- GetAmount0Delta(price, hi, liquidity, roundUp);
      var amount1 :- GetAmount1Delta(lo, price, liquidity, roundUp);
      Ok((amount0, amount1))
    else
      var amount1 :- GetAmount1Delta(lo, hi, liquidity, roundUp);
      Ok((0, amount1))
  }

  /** A price clamped into a range. */
  function Within(price: int, lo: int, hi: int): (p: int)
    requires lo <= hi
    ensures lo <= p <= hi
  {
    if price <= lo then lo else if price < hi then price else hi
  }

  /** In all three price cases a position holds token0 above the clamped price and token1 below it. */
  lemma AmountsOfPosition(price: nat, lo: nat, hi: nat, liquidity: int, roundUp: bool)
    requires 0 < lo <= hi && liquidity >= 0
    ensures var p := Within(price, lo, hi);
            GetAmountsForLiquidity(price, lo, hi, liquidity, roundUp)
            == Ok((Amount0(p, hi, liquidity, roundUp), Amount1(lo, p, liquidity, roundUp)))
  {
    hide Amount0, Amount1, GetAmount0Delta, GetAmount1Delta;
    var p := Within(price, lo, hi);
    NothingBetween(lo, liquidity, roundUp);
    NothingBetween(hi, liquidity, roundUp);
    NoLiquidityNothing(lo, p, hi, roundUp);
    Amount0DeltaRoundsOnce(p, hi, liquidity, roundUp);
    Amount1DeltaRoundsOnce(lo, p, liquidity, roundUp);
  }

  lemma NothingBetween(price: nat, liquidity: nat, roundUp: bool)
    requires price > 0
    ensures Amount0(price, price, liquidity, roundUp) == 0 == Amount1(price, price, liquidity, roundUp)
  {
    ProductPositive(price, price);
    Amount0Order(price, price, liquidity, 0);
    Amount0Order(price, price, liquidity, 1);
    Amount0NonNegative(price, price, liquidity, roundUp);
    assert liquidity * Q96 * (price - price) == 0;
  }

  lemma NoLiquidityNothing(lo: nat, p: nat, hi: nat, roundUp: bool)
    requires 0 < lo <= p <= hi
    ensures Amount0(p, hi, 0, roundUp) == 0 == Amount1(lo, p, 0, roundUp)
  {
    ProductPositive(p, hi);
    Amount0Order(p, hi, 0, 0);
    Amount0Order(p, hi, 0, 1);
    Amount0NonNegative(p, hi, 0, roundUp);
    assert 0 * Q96 * (hi - p) == 0;
    assert 0 * (p - lo) == 0;
  }

  // ---- Minting never needs more than was offered ----

  lemma Liquidity0Affordable(lo: nat, hi: nat, amount0: nat, liquidity: nat)
    requires 0 < lo < hi
    requires GetLiquidityForAmount0(lo, hi, amount0).Ok? && liquidity <= GetLiquidityForAmount0(lo, hi, amount0).value
    ensures Amount0(lo, hi, liquidity, true) <= amount0
  {
    var intermediate := FloorDiv(lo * hi, Q96);
    FloorGalois(amount0 * intermediate, hi - lo, liquidity);
    FloorGalois(lo * hi, Q96, intermediate);
    Amount0Order(lo, hi, liquidity, amount0);
    hide FloorDiv, Amount0;
    CoveredProduct(liquidity, hi - lo, amount0, intermediate, lo * hi);
  }

  lemma CoveredProduct(liquidity: nat, width: nat, amount: nat, intermediate: int, product: int)
    requires liquidity * width <= amount * intermediate && intermediate * Q96 <= product
    ensures liquidity * Q96 * width <= amount * product
  {
    MulMono(liquidity * width, amount * intermediate, Q96);
    MulMono(intermediate * Q96, product, amount);
    assert liquidity * Q96 * width == liquidity * width * Q96;
    assert amount * intermediate * Q96 == intermediate * Q96 * amount;
  }

  /** Token1 buys exactly the greatest liquidity it can pay for, up to the uint128 cap. */
  lemma Liquidity1Greatest(lo: nat, hi: nat, amount1: nat)
    requires 0 < lo < hi
    ensures var r := GetLiquidityForAmount1(lo, hi, amount1);
            && r.Ok? && 0 <= r.value <= MAX_UINT128
            && forall liquidity: nat :: liquidity <= MAX_UINT128 ==>
                 (liquidity <= r.value <==> Amount1(lo, hi, liquidity, true) <= amount1)
  {
    forall liquidity: nat | liquidity <= MAX_UINT128
      ensures liquidity <= GetLiquidityForAmount1(lo, hi, amount1).value <==>
                Amount1(lo, hi, liquidity, true) <= amount1
    {
      FloorGalois(amount1 * Q96, hi - lo, liquidity);
      Amount1Order(lo, hi, liquidity, amount1);
    }
    FloorGalois(amount1 * Q96, hi - lo, 0);
  }

  lemma Liquidity0Exists(lo: nat, hi: nat, amount0: nat)
    requires 0 < lo < hi
    ensures var r := GetLiquidityForAmount0(lo, hi, amount0); r.Ok? && 0 <= r.value <= MAX_UINT128
  {
    var intermediate := FloorDiv(lo * hi, Q96);
    ProductPositive(lo, hi);
    assert amount0 * intermediate >= 0;
  }

  /** The liquidity computed from two amounts always needs, rounded up, at most those amounts. */
  lemma MintAffordable(price: nat, lo: nat, hi: nat, amount0: nat, amount1: nat)
    requires 0 < lo < hi
    ensures var r := GetLiquidityForAmounts(price, lo, hi, amount0, amount1);
            && r.Ok? && 0 <= r.value <= MAX_UINT128
            && var need := GetAmountsForLiquidity(price, lo, hi, r.value, true);
               need.Ok? && 0 <= need.value.0 <= amount0 && 0 <= need.value.1 <= amount1
  {
    hide Amount0, Amount1, GetLiquidityForAmount0, GetLiquidityForAmount1, GetAmountsForLiquidity;
    var p := Within(price, lo, hi);
    if p < hi { Liquidity0Exists(p, hi, amount0); }
    if lo < p { Liquidity1Greatest(lo, p, amount1); }
    var liquidity := GetLiquidityForAmounts(price, lo, hi, amount0, amount1).value;
    AmountsOfPosition(price, lo, hi, liquidity, true);
    Amount0NonNegative(p, hi, liquidity, true);
    Amount1Monotone(lo, lo, p, liquidity, true);
    NothingBetween(lo, liquidity, true);
    NothingBetween(hi, liquidity, true);
    if p < hi { Liquidity0Affordable(p, hi, amount0, liquidity); }
  }

  /** Token0 buys the greatest liquidity it can pay for, up to the cap and the rounding of the product of the prices. */
  lemma Liquidity0NearlyGreatest(lo: nat, hi: nat, amount0: nat, liquidity: nat)
    requires 0 < lo < hi && liquidity <= MAX_UINT128 && Amount0(lo, hi, liquidity, true) <= amount0
    ensures var r := GetLiquidityForAmount0(lo, hi, amount0);
            r.Ok? && (liquidity <= r.value || (liquidity - r.value - 1) * (hi - lo) < amount0)
  {
    Liquidity0Exists(lo, hi, amount0);
    var intermediate := FloorDiv(lo * hi, Q96);
    Amount0Order(lo, hi, liquidity, amount0);
    var bought := FloorDiv(amount0 * intermediate, hi - lo);
    hide FloorDiv, Amount0;
    AlmostCovered(liquidity, hi - lo, amount0, intermediate, lo * hi, bought);
  }

  lemma AlmostCovered(liquidity: nat, width: nat, amount: nat, intermediate: int, product: int, bought: int)
    requires width > 0 && liquidity * Q96 * width <= amount * product
    requires product < intermediate * Q96 + Q96 && amount * intermediate < bought * width + width
    ensures liquidity <= bought || (liquidity - bought - 1) * width < amount
  {
    MulMono(product, intermediate * Q96 + Q96, amount);
    assert liquidity * Q96 * width == liquidity * width * Q96;
    assert amount * product <= (amount * intermediate + amount) * Q96;
    MulCancel(liquidity * width, amount * intermediate + amount, Q96);
    assert (liquidity - bought - 1) * width == liquidity * width - bought * width - width;
  }

  /** No affordable liquidity up to the cap exceeds the computed one by more than the rounding of token0's share; once
      the price has left the range upward, none exceeds it at all. */
  lemma MintNearlyGreatest(price: nat, lo: nat, hi: nat, amount0: nat, amount1: nat, liquidity: nat)
    requires 0 < lo < hi && liquidity <= MAX_UINT128
    requires var need := GetAmountsForLiquidity(price, lo, hi, liquidity, true);
             need.Ok? && need.value.0 <= amount0 && need.value.1 <= amount1
    ensures var r := GetLiquidityForAmounts(price, lo, hi, amount0, amount1);
            var p := Within(price, lo, hi);
            r.Ok? && (liquidity <= r.value || (p < hi && (liquidity - r.value - 1) * (hi - p) < amount0))
  {
    hide Amount0, Amount1, GetLiquidityForAmount0, GetLiquidityForAmount1, GetAmountsForLiquidity;
    var p := Within(price, lo, hi);
    AmountsOfPosition(price, lo, hi, liquidity, true);
    if p < hi { Liquidity0NearlyGreatest(p, hi, amount0, liquidity); }
    if lo < p { Liquidity1Greatest(lo, p, amount1); }
  }

  /** Minting charges at most one raw unit per token more than burning would return. */
  lemma MintBurnGap(price: nat, lo: nat, hi: nat, liquidity: int)
    requires 0 < lo <= hi && liquidity >= 0
    ensures var up := GetAmountsForLiquidity(price, lo, hi, liquidity, true);
            var down := GetAmountsForLiquidity(price, lo, hi, liquidity, false);
            && up.Ok? && down.Ok?
            && 0 <= up.value.0 - down.value.0 <= 1 && 0 <= up.value.1 - down.value.1 <= 1
            && down.value.0 >= 0 && down.value.1 >= 0
  {
    hide GetAmountsForLiquidity;
    var p := Within(price, lo, hi);
    AmountsOfPosition(price, lo, hi, liquidity, true);
    AmountsOfPosition(price, lo, hi, liquidity, false);
    ProductPositive(p, hi);
    FloorCeilGap(liquidity * Q96 * (hi - p), p * hi);
    FloorCeilGap(liquidity * (p - lo), Q96);
    Amount0NonNegative(p, hi, liquidity, false);
    Amount1Monotone(lo, lo, p, liquidity, false);
  }
}
