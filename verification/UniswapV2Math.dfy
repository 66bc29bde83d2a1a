/** Exact constant-product swaps with a 0.30% fee, and the pair's own check of them. */
module UniswapV2Math {
  import opened Results
  import opened FullMath

  const FEE_NUMERATOR := 997
  const FEE_DENOMINATOR := 1000

  function GetAmountOut(amountIn: int, reserveIn: int, reserveOut: int): Result<int> {
    if amountIn <= 0 || reserveIn <= 0 || reserveOut <= 0 then Err(AmountOutOfReserves)
    else
      var amountInWithFee := amountIn * FEE_NUMERATOR;
      var numerator := amountInWithFee * reserveOut;
      Ok(FloorDiv(numerator, reserveIn * FEE_DENOMINATOR + amountInWithFee))
  }

  function GetAmountIn(amountOut: int, reserveIn: int, reserveOut: int): Result<int> {
    if amountOut <= 0 || reserveIn <= 0 || amountOut >= reserveOut then Err(AmountOutOfReserves)
    else
      var numerator := reserveIn * amountOut * FEE_DENOMINATOR;
      var denominator := (reserveOut - amountOut) * FEE_NUMERATOR;
      Ok(FloorDiv(numerator, denominator) + 1)
  }

  /** The pair's K check with the fee taken off the input. */
  predicate InvariantHolds(reserveIn: int, reserveOut: int, amountIn: int, amountOut: int) {
    if amountOut <= 0 || amountOut >= reserveOut || amountIn <= 0 then false
    else
      var balanceIn := reserveIn + amountIn;
      var balanceOut := reserveOut - amountOut;
      var adjustedIn := balanceIn * 1000 - amountIn * 3;
      adjustedIn * balanceOut * 1000 >= reserveIn * reserveOut * (1000 * 1000)
  }

  // ---- The check, multiplied out ----

  lemma CheckExpands(a: int, b: int, x: int, y: int)
    ensures ((a + x) * 1000 - x * 3) * (b - y) * 1000 - a * b * (1000 * 1000)
         == 1000 * (x * 997 * b - y * (a * 1000 + x * 997))
    ensures x * 997 * b - y * (a * 1000 + x * 997) == x * ((b - y) * 997) - a * y * 1000
  {
    var d := a * 1000 + x * 997;
    assert (a + x) * 1000 - x * 3 == d;
    Distribute(d, b, y);
    Distribute(x * 997, b, y);
    assert (a * 1000) * b == a * b * 1000;
    assert d * b == (a * 1000) * b + (x * 997) * b;
    assert d * y == (a * 1000) * y + (x * 997) * y;
    assert x * ((b - y) * 997) == (x * 997) * (b - y);
  }

  lemma Distribute(d: int, b: int, y: int)
    ensures d * (b - y) == d * b - d * y
  {
  }

  /** The check accepts an output exactly when it is positive and at most what GetAmountOut gives. */
  lemma OutIsGreatestAccepted(reserveIn: int, reserveOut: int, amountIn: int, amountOut: int)
    requires amountIn > 0 && reserveIn > 0 && reserveOut > 0
    ensures InvariantHolds(reserveIn, reserveOut, amountIn, amountOut)
       <==> 0 < amountOut <= GetAmountOut(amountIn, reserveIn, reserveOut).value
  {
    var d := reserveIn * 1000 + amountIn * 997;
    var n := amountIn * 997 * reserveOut;
    hide FloorDiv;
    CheckExpands(reserveIn, reserveOut, amountIn, amountOut);
    FloorGalois(n, d, amountOut);
    OutputBelowReserve(reserveIn, reserveOut, amountIn);
  }

  /** A pair never pays out its whole reserve. */
  lemma OutputBelowReserve(reserveIn: int, reserveOut: int, amountIn: int)
    requires amountIn > 0 && reserveIn > 0 && reserveOut > 0
    ensures 0 <= GetAmountOut(amountIn, reserveIn, reserveOut).value < reserveOut
  {
    var a := amountIn * 997;
    var d := reserveIn * 1000 + a;
    hide FloorDiv;
    assert a * reserveOut >= 0;
    FloorGalois(a * reserveOut, d, 0);
    FloorGalois(a * reserveOut, d, reserveOut);
    assert reserveOut * d == reserveOut * (reserveIn * 1000) + a * reserveOut;
    assert reserveOut * (reserveIn * 1000) > 0;
  }

  /** The check accepts an input for an output below the reserve exactly when it is worth that output after the fee. */
  lemma AcceptedInputs(reserveIn: int, reserveOut: int, amountIn: int, amountOut: int)
    requires amountIn > 0 && reserveIn > 0 && 0 < amountOut < reserveOut
    ensures InvariantHolds(reserveIn, reserveOut, amountIn, amountOut)
       <==> amountIn * ((reserveOut - amountOut) * 997) >= reserveIn * amountOut * 1000
  {
    CheckExpands(reserveIn, reserveOut, amountIn, amountOut);
  }

  /** GetAmountIn is always accepted, nothing more than one unit cheaper is, and one unit cheaper is accepted only
      when the division behind it is exact. */
  lemma InIsAccepted(reserveIn: int, reserveOut: int, amountIn: int, amountOut: int)
    requires reserveIn > 0 && 0 < amountOut < reserveOut
    ensures var least := GetAmountIn(amountOut, reserveIn, reserveOut).value;
            var exact := reserveIn * amountOut * 1000 % ((reserveOut - amountOut) * 997) == 0;
            && least > 0
            && (InvariantHolds(reserveIn, reserveOut, amountIn, amountOut) <==>
                 amountIn >= if exact then least - 1 else least)
  {
    var n, d := reserveIn * amountOut * 1000, (reserveOut - amountOut) * 997;
    assert reserveIn * amountOut > 0;
    CeilFromFloor(n, d);
    assert FloorDiv(n, d) == n / d;
    hide FloorDiv, CeilDiv;
    CeilGalois(n, d, amountIn);
    CeilGalois(n, d, 0);
    FloorGalois(n, d, 0);
    if amountIn > 0 { AcceptedInputs(reserveIn, reserveOut, amountIn, amountOut); }
  }

  /** Asking for an output and paying its price delivers at least that output. */
  lemma OutOfInCovers(reserveIn: int, reserveOut: int, amountOut: int)
    requires reserveIn > 0 && 0 < amountOut < reserveOut
    ensures var x := GetAmountIn(amountOut, reserveIn, reserveOut).value;
            GetAmountOut(x, reserveIn, reserveOut).Ok? && GetAmountOut(x, reserveIn, reserveOut).value >= amountOut
  {
    hide GetAmountOut, InvariantHolds;
    var x := GetAmountIn(amountOut, reserveIn, reserveOut).value;
    InIsAccepted(reserveIn, reserveOut, x, amountOut);
    OutIsGreatestAccepted(reserveIn, reserveOut, x, amountOut);
    OutIsOk(x, reserveIn, reserveOut);
  }

  lemma OutIsOk(amountIn: int, reserveIn: int, reserveOut: int)
    ensures GetAmountOut(amountIn, reserveIn, reserveOut).Ok? <==> amountIn > 0 && reserveIn > 0 && reserveOut > 0
  {
  }

  /** Pricing the output an input bought asks for at most one unit more than that input. */
  lemma InOfOutIsClose(reserveIn: int, reserveOut: int, amountIn: int)
    requires amountIn > 0 && reserveIn > 0 && reserveOut > 0
    ensures var y := GetAmountOut(amountIn, reserveIn, reserveOut).value;
            y > 0 ==>
              GetAmountIn(y, reserveIn, reserveOut).Ok? && GetAmountIn(y, reserveIn, reserveOut).value <= amountIn + 1
  {
    hide FloorDiv, InvariantHolds;
    var y := GetAmountOut(amountIn, reserveIn, reserveOut).value;
    if y > 0 {
      OutputBelowReserve(reserveIn, reserveOut, amountIn);
      OutIsGreatestAccepted(reserveIn, reserveOut, amountIn, y);
      InIsAccepted(reserveIn, reserveOut, amountIn, y);
    }
  }

  /** A larger input never buys less. */
  lemma OutIsMonotone(reserveIn: int, reserveOut: int, less: int, more: int)
    requires 0 < less <= more && reserveIn > 0 && reserveOut > 0
    ensures GetAmountOut(less, reserveIn, reserveOut).value <= GetAmountOut(more, reserveIn, reserveOut).value
  {
    hide GetAmountOut, InvariantHolds;
    OutIsOk(less, reserveIn, reserveOut);
    OutIsOk(more, reserveIn, reserveOut);
    var y := GetAmountOut(less, reserveIn, reserveOut).value;
    OutputBelowReserve(reserveIn, reserveOut, more);
    if y > 0 {
      OutputBelowReserve(reserveIn, reserveOut, less);
      OutIsGreatestAccepted(reserveIn, reserveOut, less, y);
      AcceptedInputs(reserveIn, reserveOut, less, y);
      AcceptedInputs(reserveIn, reserveOut, more, y);
      var d := (reserveOut - y) * 997;
      assert less * d <= more * d;
      OutIsGreatestAccepted(reserveIn, reserveOut, more, y);
    }
  }

  /** An accepted swap, or a paid one that returns nothing, strictly raises the reserve product and keeps both
      reserves positive. */
  lemma ProductRises(reserveIn: int, reserveOut: int, amountIn: int, amountOut: int)
    requires reserveIn > 0 && reserveOut > 0 && amountIn > 0
    requires InvariantHolds(reserveIn, reserveOut, amountIn, amountOut) || amountOut == 0
    ensures reserveOut - amountOut > 0
    ensures (reserveIn + amountIn) * (reserveOut - amountOut) > reserveIn * reserveOut
  {
    CheckExpands(reserveIn, reserveOut, amountIn, amountOut);
    ProductPositive(amountIn, reserveOut - amountOut);
    ProductGain(reserveIn, reserveOut, amountIn, amountOut, reserveOut - amountOut);
  }

  lemma ProductGain(a: int, b: int, x: int, y: int, left: int)
    requires left == b - y && x * left > 0 && x * (left * 997) >= a * y * 1000
    ensures (a + x) * left > a * b
  {
    Distribute(a, b, y);
    assert (a + x) * left == a * left + x * left;
    assert x * (left * 997) == 997 * (x * left);
  }
}
