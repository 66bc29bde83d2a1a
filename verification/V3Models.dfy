/** The data read from a Uniswap V3 pool. */
module V3Models {
  import opened Results

  datatype TickInfo = TickInfo(
    tick: int,
    liquidityGross: int,
    liquidityNet: int,
    feeGrowthOutside0: int,
    feeGrowthOutside1: int,
    initialized: bool)

  type Spacing = s: int | s > 0 witness 1

  datatype TickWindow = TickWindow(
    blockNumber: int,
    tickSpacing: Spacing,
    bitmapWords: map<int, nat>,
    ticks: map<int, TickInfo>,
    minWord: int,
    maxWord: int)
  {
    function LiquidityNet(tick: int): Result<int> {
      if tick in ticks then Ok(ticks[tick].liquidityNet) else Err(WindowExhausted)
    }
  }

  datatype LimitReason = WindowLimit | PriceLimit

  datatype SwapQuote = SwapQuote(
    zeroForOne: bool,
    amountIn: int,
    amountInConsumed: int,
    amountOut: int,
    feePaid: int,
    priceBefore: int,
    priceAfter: int,
    tickAfter: int,
    ticksCrossed: nat,
    limitReason: Option<LimitReason>,
    blockNumber: int,
    exact: bool,
    liquidityAfter: int)
}
