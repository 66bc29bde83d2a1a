/** Token deltas between two sqrt prices, and the price a given token amount moves to. */
module SqrtPriceMath {
  import opened Results
  import opened FullMath

  const Q96: int := 0x1_000000000000000000000000
  const U256: int := 0x1_0000000000000000000000000000000000000000000000000000000000000000
  const MAX_UINT160: int := 0xFFFFFFFFFFFFFFFFFFFFFFFFFFFFFFFFFFFFFFFF

  // ---- The program's functions ----

  function GetNextSqrtPriceFromAmount0RoundingUp(price: nat, liquidity: nat, amount: nat, add: bool): (r: Result<int>)
    ensures r.Ok? ==> r.value >= 0
  {
    if amount == 0 then
      Ok(price)
    else
      var numerator1: nat := liquidity * Q96;
      var product: nat := amount * price;
      assert numerator1 * price >= 0;
      var productFits := product < U256;
      if add then
        if productFits && numerator1 + product < U256 then
          MulDivRoundingUp(numerator1, price, numerator1 + product)
        else
          var quotient :- DivFloor(numerator1, price);
          DivRoundingUp(numerator1, quotient + amount)
      else if !productFits || numerator1 <= product then
        Err(InsufficientLiquidity)
      else
        MulDivRoundingUp(numerator1, price, numerator1 - product)
  }

  function GetNextSqrtPriceFromAmount1RoundingDown(price: nat, liquidity: nat, amount: nat, add: bool): (r: Result<int>)
    ensures r.Ok? ==> r.value >= 0
  {
    if add then
      var quotient :- if amount <= MAX_UINT160 then DivFloor(amount * Q96, liquidity)
                      else MulDiv(amount, Q96, liquidity);
      if price + quotient > MAX_UINT160 then Err(PriceOverflow) else Ok(price + quotient)
    else
      var quotient :- if amount <= MAX_UINT160 then DivRoundingUp(amount * Q96, liquidity)
                      else MulDivRoundingUp(amount, Q96, liquidity);
      if price <= quotient then Err(InsufficientLiquidity) else Ok(price - quotient)
  }

  function GetNextSqrtPriceFromInput(price: nat, liquidity: nat, amountIn: nat, zeroForOne: bool): (r: Result<int>)
    ensures r.Ok? ==> r.value >= 0
  {
    if price <= 0 || liquidity <= 0 then Err(PriceOrLiquidity)
    else if zeroForOne then GetNextSqrtPriceFromAmount0RoundingUp(price, liquidity, amountIn, true)
    else GetNextSqrtPriceFromAmount1RoundingDown(price, liquidity, amountIn, true)
  }

  function GetNextSqrtPriceFromOutput(price: nat, liquidity: nat, amountOut: nat, zeroForOne: bool): (r: Result<int>)
    ensures r.Ok? ==> r.value >= 0
  {
    if price <= 0 || liquidity <= 0 then Err(PriceOrLiquidity)
    else if zeroForOne then GetNextSqrtPriceFromAmount1RoundingDown(price, liquidity, amountOut, false)
    else GetNextSqrtPriceFromAmount0RoundingUp(price, liquidity, amountOut, false)
  }

  function GetAmount0Delta(a: int, b: int, liquidity: nat, roundUp: bool): Result<int> {
    var lo, hi := if a > b then b else a, if a > b then a else b;
    if lo <= 0 then
      Err(RatioNotPositive)
    else
      var numerator1 := liquidity * Q96;
      var numerator2 := hi - lo;
      if roundUp then
        var inner :- MulDivRoundingUp(numerator1, numerator2, hi);
        DivRoundingUp(inner, lo)
      else
        var inner :- MulDiv(numerator1, numerator2, hi);
        DivFloor(inner, lo)
  }

  function GetAmount1Delta(a: int, b: int, liquidity: nat, roundUp: bool): Result<int> {
    var diff := if a > b then a - b else b - a;
    if roundUp then MulDivRoundingUp(liquidity, diff, Q96) else MulDiv(liquidity, diff, Q96)
  }

  // ---- What a move between two prices costs and pays, rounded once ----

  /** Token0 between two prices: liquidity * 2^96 * (hi - lo) / (lo * hi). */
  function Amount0(lo: int, hi: int, liquidity: nat, roundUp: bool): int
    requires 0 < lo <= hi
  {
    ProductPositive(lo, hi);
    if roundUp then CeilDiv(liquidity * Q96 * (hi - lo), lo * hi)
    else FloorDiv(liquidity * Q96 * (hi - lo), lo * hi)
  }

  /** Token1 between two prices: liquidity * (hi - lo) / 2^96. */
  function Amount1(lo: int, hi: int, liquidity: nat, roundUp: bool): int
    requires 0 < lo <= hi
  {
    if roundUp then CeilDiv(liquidity * (hi - lo), Q96) else FloorDiv(liquidity * (hi - lo), Q96)
  }

  /** The program rounds the token0 delta twice; the result equals rounding once. */
  lemma Amount0DeltaRoundsOnce(lo: int, hi: int, liquidity: nat, roundUp: bool)
    requires 0 < lo <= hi
    ensures GetAmount0Delta(lo, hi, liquidity, roundUp) == Ok(Amount0(lo, hi, liquidity, roundUp))
    ensures GetAmount0Delta(hi, lo, liquidity, roundUp) == Ok(Amount0(lo, hi, liquidity, roundUp))
  {
    var n := liquidity * Q96 * (hi - lo);
    FloorOfFloor(n, hi, lo);
    CeilOfCeil(n, hi, lo);
    assert hi * lo == lo * hi;
  }

  lemma Amount1DeltaRoundsOnce(lo: int, hi: int, liquidity: nat, roundUp: bool)
    requires 0 < lo <= hi
    ensures GetAmount1Delta(lo, hi, liquidity, roundUp) == Ok(Amount1(lo, hi, liquidity, roundUp))
    ensures GetAmount1Delta(hi, lo, liquidity, roundUp) == Ok(Amount1(lo, hi, liquidity, roundUp))
  {
  }

  /** Order between an integer amount and a rounded delta, without division. */
  lemma Amount0Order(lo: int, hi: int, liquidity: nat, x: int)
    requires 0 < lo <= hi
    ensures Amount0(lo, hi, liquidity, true) <= x <==> liquidity * Q96 * (hi - lo) <= x * (lo * hi)
    ensures x <= Amount0(lo, hi, liquidity, false) <==> x * (lo * hi) <= liquidity * Q96 * (hi - lo)
  {
    ProductPositive(lo, hi);
    CeilGalois(liquidity * Q96 * (hi - lo), lo * hi, x);
    FloorGalois(liquidity * Q96 * (hi - lo), lo * hi, x);
  }

  lemma Amount1Order(lo: int, hi: int, liquidity: nat, x: int)
    requires 0 < lo <= hi
    ensures Amount1(lo, hi, liquidity, true) <= x <==> liquidity * (hi - lo) <= x * Q96
    ensures x <= Amount1(lo, hi, liquidity, false) <==> x * Q96 <= liquidity * (hi - lo)
  {
    CeilGalois(liquidity * (hi - lo), Q96, x);
    FloorGalois(liquidity * (hi - lo), Q96, x);
  }

  // ---- Paying token0 in: the price falls ----

  predicate Fits256(price: nat, liquidity: nat, amount: nat) {
    liquidity * Q96 + amount * price < U256
  }

  /** The price after paying token0 in is affordable, and without the overflow branch it is the lowest affordable
      one. */
  lemma NextPriceFromInput0(price: nat, liquidity: nat, amount: nat)
    requires price > 0 && liquidity > 0
    ensures var r := GetNextSqrtPriceFromAmount0RoundingUp(price, liquidity, amount, true);
            && r.Ok? && 0 < r.value <= price
            && Amount0(r.value, price, liquidity, true) <= amount
            && (Fits256(price, liquidity, amount) ==>
                  forall q :: 0 < q < r.value ==> Amount0(q, price, liquidity, true) > amount)
  {
    var n := liquidity * Q96;
    var product := amount * price;
    if amount == 0 {
      Amount0Order(price, price, liquidity, 0);
      forall q | 0 < q < price ensures Amount0(q, price, liquidity, true) > 0 {
        Amount0Order(q, price, liquidity, 0);
        ProductPositive(n, price - q);
      }
    } else if Fits256(price, liquidity, amount) {
      var next := CeilDiv(n * price, n + product);
      assert product >= 0;
      CeilGalois(n * price, n + product, 0);
      ProductPositive(n, price);
      Input0Affordable(price, liquidity, amount, price);
      Input0Affordable(price, liquidity, amount, next);
      Amount0Order(price, price, liquidity, amount);
      forall q | 0 < q < next ensures Amount0(q, price, liquidity, true) > amount {
        Input0Affordable(price, liquidity, amount, q);
      }
    } else {
      FallbackAffordable(price, liquidity, amount);
    }
  }

  lemma Input0Affordable(price: nat, liquidity: nat, amount: nat, q: int)
    requires 0 < q <= price && liquidity > 0
    ensures liquidity * Q96 + amount * price > 0
    ensures CeilDiv(liquidity * Q96 * price, liquidity * Q96 + amount * price) <= q
            <==> Amount0(q, price, liquidity, true) <= amount
  {
    var n := liquidity * Q96;
    var d := n + amount * price;
    assert amount * price >= 0;
    CeilGalois(n * price, d, q);
    Amount0Order(q, price, liquidity, amount);
    InputExpansion(n, price, amount, q);
  }

  lemma InputExpansion(n: int, price: int, x: int, q: int)
    ensures q * (n + x * price) == q * n + x * (q * price)
    ensures n * (price - q) == n * price - q * n
  {
  }

  lemma FallbackAffordable(price: nat, liquidity: nat, amount: nat)
    requires price > 0 && liquidity > 0 && amount > 0
    ensures var d := FloorDiv(liquidity * Q96, price) + amount;
            && d > 0
            && var q := CeilDiv(liquidity * Q96, d);
            0 < q <= price && Amount0(q, price, liquidity, true) <= amount
  {
    var n := liquidity * Q96;
    var f := FloorDiv(n, price);
    FloorGalois(n, price, 0);
    var d := f + amount;
    var q := CeilDiv(n, d);
    CeilGalois(n, d, 0);
    CeilGalois(n, d, price);
    hide FloorDiv, CeilDiv, Amount0;
    FallbackReaches(n, f, price, amount);
    assert q > 0;
    FallbackArithmetic(n, f, price, amount, q);
    Amount0Order(q, price, liquidity, amount);
  }

  lemma FallbackReaches(n: int, f: int, price: int, amount: int)
    requires n < f * price + price && price > 0 && amount > 0
    ensures n <= price * (f + amount)
  {
    MulMono(1, amount, price);
    assert price * (f + amount) == f * price + amount * price;
  }

  lemma FallbackArithmetic(n: int, f: int, price: int, amount: int, q: int)
    requires f * price <= n <= q * (f + amount) && price > 0 && q > 0
    ensures n * (price - q) <= amount * (q * price)
  {
    MulMono(n, q * (f + amount), price);
    assert q * (f + amount) * price == q * (f * price) + amount * (q * price);
    MulMono(f * price, n, q);
    assert f * price * q == q * (f * price);
    assert n * (price - q) == n * price - n * q;
  }

  /** A larger input never leaves a higher price, even where only the larger one takes the overflow branch. */
  lemma NextPriceFromInput0Antitone(price: nat, liquidity: nat, small: nat, large: nat)
    requires price > 0 && liquidity > 0 && small <= large
    ensures var s := GetNextSqrtPriceFromAmount0RoundingUp(price, liquidity, small, true);
            var l := GetNextSqrtPriceFromAmount0RoundingUp(price, liquidity, large, true);
            s.Ok? && l.Ok? && l.value <= s.value
  {
    NextPriceFromInput0(price, liquidity, small);
    NextPriceFromInput0(price, liquidity, large);
    if small != large && small != 0 {
      var n := liquidity * Q96;
      var s := GetNextSqrtPriceFromAmount0RoundingUp(price, liquidity, small, true).value;
      MulMono(small, large, price);
      FloorGalois(n, price, 0);
      if Fits256(price, liquidity, large) {
        CeilGalois(n * price, n + small * price, s);
        CeilGalois(n * price, n + large * price, s);
        MulMono(n + small * price, n + large * price, s);
      } else if Fits256(price, liquidity, small) {
        CeilGalois(n * price, n + small * price, s);
        SwitchToFallback(n, price, small, large, s);
        CeilGalois(n, FloorDiv(n, price) + large, s);
      } else {
        var d := FloorDiv(n, price);
        CeilGalois(n, d + small, s);
        CeilGalois(n, d + large, s);
        MulMono(d + small, d + large, s);
      }
    }
  }

  lemma SwitchToFallback(n: int, price: int, small: int, large: int, q: int)
    requires price > 0 && q > 0 && small < large
    requires n * price <= q * (n + small * price)
    ensures n <= q * (FloorDiv(n, price) + large)
  {
    var d := FloorDiv(n, price) + large;
    assert d * price >= n + small * price by {
      MulMono(small + 1, large, price);
      assert d * price == FloorDiv(n, price) * price + large * price;
      assert (small + 1) * price == small * price + price;
    }
    MulMono(n + small * price, d * price, q);
    assert q * d * price == d * price * q;
    MulCancel(n, q * d, price);
  }

  // ---- Paying token1 in: the price rises ----

  /** The price after paying token1 in is the highest affordable one, unless it leaves uint160. */
  lemma NextPriceFromInput1(price: nat, liquidity: nat, amount: nat)
    requires price > 0 && liquidity > 0
    ensures var r := GetNextSqrtPriceFromAmount1RoundingDown(price, liquidity, amount, true);
            var top := price + FloorDiv(amount * Q96, liquidity);
            && r == (if top > MAX_UINT160 then Err(PriceOverflow) else Ok(top))
            && price <= top
            && forall q :: price <= q ==> (q <= top <==> Amount1(price, q, liquidity, true) <= amount)
  {
    hide FloorDiv, Amount1;
    var top := price + FloorDiv(amount * Q96, liquidity);
    forall q | price <= q ensures q <= top <==> Amount1(price, q, liquidity, true) <= amount {
      Input1Affordable(price, liquidity, amount, q);
    }
  }

  lemma Input1Affordable(price: nat, liquidity: nat, amount: nat, q: int)
    requires 0 < price <= q && liquidity > 0
    ensures q - price <= FloorDiv(amount * Q96, liquidity) <==> Amount1(price, q, liquidity, true) <= amount
  {
    FloorGalois(amount * Q96, liquidity, q - price);
    Amount1Order(price, q, liquidity, amount);
    assert (q - price) * liquidity == liquidity * (q - price);
  }

  lemma NextPriceFromInput1Monotone(liquidity: nat, small: nat, large: nat)
    requires liquidity > 0 && small <= large
    ensures FloorDiv(small * Q96, liquidity) <= FloorDiv(large * Q96, liquidity)
  {
    FloorGalois(large * Q96, liquidity, FloorDiv(small * Q96, liquidity));
  }

  // ---- Taking token1 out: the price falls ----

  /** The price after taking token1 out is the highest one that covers the amount; it fails iff no price does. */
  lemma NextPriceFromOutput1(price: nat, liquidity: nat, amount: nat)
    requires price > 0 && liquidity > 0
    ensures var r := GetNextSqrtPriceFromAmount1RoundingDown(price, liquidity, amount, false);
            var next := price - CeilDiv(amount * Q96, liquidity);
            && r == (if next <= 0 then Err(InsufficientLiquidity) else Ok(next))
            && next <= price
            && forall q :: 0 < q <= price ==> (q <= next <==> amount <= Amount1(q, price, liquidity, false))
  {
    hide CeilDiv, Amount1;
    var next := price - CeilDiv(amount * Q96, liquidity);
    Output1Covered(price, liquidity, amount, price);
    Output1NonNegative(liquidity, amount);
    forall q | 0 < q <= price ensures q <= next <==> amount <= Amount1(q, price, liquidity, false) {
      Output1Covered(price, liquidity, amount, q);
    }
  }

  lemma Output1NonNegative(liquidity: nat, amount: nat)
    requires liquidity > 0
    ensures CeilDiv(amount * Q96, liquidity) >= 0
  {
    CeilGalois(amount * Q96, liquidity, -1);
  }

  lemma Output1Covered(price: nat, liquidity: nat, amount: nat, q: int)
    requires 0 < q <= price && liquidity > 0
    ensures CeilDiv(amount * Q96, liquidity) <= price - q <==> amount <= Amount1(q, price, liquidity, false)
  {
    CeilGalois(amount * Q96, liquidity, price - q);
    Amount1Order(q, price, liquidity, amount);
    assert (price - q) * liquidity == liquidity * (price - q);
  }

  // ---- Taking token0 out: the price rises ----

  /** The price after taking token0 out is the lowest one that covers the amount. */
  lemma NextPriceFromOutput0(price: nat, liquidity: nat, amount: nat)
    requires price > 0 && liquidity > 0 && amount > 0
    requires amount * price < U256 && amount * price < liquidity * Q96
    ensures var r := GetNextSqrtPriceFromAmount0RoundingUp(price, liquidity, amount, false);
            && r.Ok? && price <= r.value
            && forall q :: price <= q ==> (r.value <= q <==> amount <= Amount0(price, q, liquidity, false))
  {
    var n := liquidity * Q96;
    var d := n - amount * price;
    var next := CeilDiv(n * price, d);
    forall q | price <= q ensures next <= q <==> amount <= Amount0(price, q, liquidity, false) {
      Output0Covered(price, liquidity, amount, q);
    }
    CeilGalois(n * price, d, price - 1);
    assert amount * price >= 0;
    MulMono(d, n, price - 1);
    assert n * (price - 1) < n * price;
  }

  lemma Output0Covered(price: nat, liquidity: nat, amount: nat, q: int)
    requires 0 < price <= q
    requires amount * price < liquidity * Q96
    ensures CeilDiv(liquidity * Q96 * price, liquidity * Q96 - amount * price) <= q
            <==> amount <= Amount0(price, q, liquidity, false)
  {
    var n := liquidity * Q96;
    CeilGalois(n * price, n - amount * price, q);
    Amount0Order(price, q, liquidity, amount);
    OutputExpansion(n, price, amount, q);
  }

  lemma OutputExpansion(n: int, price: int, x: int, q: int)
    ensures q * (n - x * price) == q * n - x * (price * q)
    ensures n * (q - price) == q * n - n * price
  {
  }

  /** An amount below what some higher price pays never asks for more than the pool's virtual reserve. */
  lemma OutputBelowReserve(price: nat, target: int, liquidity: nat, amount: nat)
    requires 0 < price <= target
    requires 0 < amount < Amount0(price, target, liquidity, false)
    ensures amount * price < liquidity * Q96
  {
    var n := liquidity * Q96;
    Amount0Order(price, target, liquidity, amount);
    assert n * (target - price) == n * target - n * price;
    assert amount * (price * target) == amount * price * target;
    if amount * price >= n {
      MulMono(n, amount * price, target);
      assert n * price <= 0;
      ProductPositive(amount, price);
      if n > 0 { ProductPositive(n, price); }
      assert n == 0;
      ProductPositive(amount * price, target);
    }
  }

  // ---- Moving further never costs or pays less ----

  lemma Amount0Monotone(lo: int, mid: int, hi: int, liquidity: nat, roundUp: bool)
    requires 0 < lo <= mid <= hi
    ensures 0 <= Amount0(mid, hi, liquidity, roundUp) <= Amount0(lo, hi, liquidity, roundUp)
    ensures 0 <= Amount0(lo, mid, liquidity, roundUp) <= Amount0(lo, hi, liquidity, roundUp)
  {
    var n := liquidity * Q96;
    Amount0NonNegative(mid, hi, liquidity, roundUp);
    Amount0NonNegative(lo, mid, liquidity, roundUp);
    var upAll, downMid, downLow := Amount0(lo, hi, liquidity, true),
        Amount0(mid, hi, liquidity, false), Amount0(lo, mid, liquidity, false);
    Amount0NonNegative(lo, hi, liquidity, true);
    Amount0NonNegative(mid, hi, liquidity, false);
    Amount0NonNegative(lo, mid, liquidity, false);
    Amount0Order(lo, hi, liquidity, upAll);
    Amount0Order(mid, hi, liquidity, upAll);
    Amount0Order(lo, mid, liquidity, upAll);
    Amount0Order(lo, hi, liquidity, downMid);
    Amount0Order(mid, hi, liquidity, downMid);
    Amount0Order(lo, hi, liquidity, downLow);
    Amount0Order(lo, mid, liquidity, downLow);
    LowerEnd(n, lo, mid, hi, upAll, downMid);
    UpperEnd(n, lo, mid, hi, upAll, downLow);
  }

  lemma Amount0NonNegative(lo: int, hi: int, liquidity: nat, roundUp: bool)
    requires 0 < lo <= hi
    ensures Amount0(lo, hi, liquidity, roundUp) >= 0
  {
    ProductPositive(lo, hi);
    var n := liquidity * Q96 * (hi - lo);
    assert n >= 0;
    FloorGalois(n, lo * hi, 0);
    CeilGalois(n, lo * hi, -1);
  }

  lemma LowerEnd(n: int, lo: int, mid: int, hi: int, up: int, down: int)
    requires n >= 0 && 0 < lo <= mid <= hi && up >= 0 && down >= 0
    ensures n * (hi - lo) <= up * (lo * hi) ==> n * (hi - mid) <= up * (mid * hi)
    ensures down * (mid * hi) <= n * (hi - mid) ==> down * (lo * hi) <= n * (hi - lo)
  {
    MulMono(hi - mid, hi - lo, n);
    MulMono(lo, mid, hi);
    MulMono(lo * hi, mid * hi, up);
    MulMono(lo * hi, mid * hi, down);
  }

  lemma UpperEnd(n: int, lo: int, mid: int, hi: int, up: int, down: int)
    requires n >= 0 && 0 < lo <= mid <= hi
    ensures n * (hi - lo) <= up * (lo * hi) ==> n * (mid - lo) <= up * (lo * mid)
    ensures down * (lo * mid) <= n * (mid - lo) ==> down * (lo * hi) <= n * (hi - lo)
  {
    CrossScale(n, lo, mid, hi);
    if n * (hi - lo) <= up * (lo * hi) {
      MulMono(n * (hi - lo), up * (lo * hi), mid);
      SwapFactors(up, lo, mid, hi);
      MulCancel(n * (mid - lo), up * (lo * mid), hi);
    }
    if down * (lo * mid) <= n * (mid - lo) {
      MulMono(down * (lo * mid), n * (mid - lo), hi);
      SwapFactors(down, lo, mid, hi);
      MulCancel(down * (lo * hi), n * (hi - lo), mid);
    }
  }

  lemma CrossScale(n: int, lo: int, mid: int, hi: int)
    requires n >= 0 && 0 < lo <= mid <= hi
    ensures n * (mid - lo) * hi <= n * (hi - lo) * mid
  {
    assert n * (hi - lo) * mid - n * (mid - lo) * hi == n * lo * (hi - mid);
    assert n * lo >= 0;
    assert n * lo * (hi - mid) >= 0;
  }

  lemma SwapFactors(x: int, lo: int, mid: int, hi: int)
    ensures x * (lo * hi) * mid == x * (lo * mid) * hi
  {
  }

  lemma Amount1Monotone(lo: int, mid: int, hi: int, liquidity: nat, roundUp: bool)
    requires 0 < lo <= mid <= hi
    ensures 0 <= Amount1(mid, hi, liquidity, roundUp) <= Amount1(lo, hi, liquidity, roundUp)
    ensures 0 <= Amount1(lo, mid, liquidity, roundUp) <= Amount1(lo, hi, liquidity, roundUp)
  {
    MulMono(0, hi - mid, liquidity);
    MulMono(hi - mid, hi - lo, liquidity);
    MulMono(0, mid - lo, liquidity);
    MulMono(mid - lo, hi - lo, liquidity);
  }
}
