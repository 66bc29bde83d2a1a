/** The error values the program raises, and the result type that carries them. */
module Results {

  datatype Error =
    | ZeroDivision            // a divisor that is not positive
    | RatioNotPositive        // a sqrt ratio that is not positive
    | PriceOrLiquidity        // price and liquidity must be positive
    | InsufficientLiquidity   // an output amount the pool cannot pay
    | PriceOverflow           // a sqrt price above uint160
    | TickOutOfRange
    | PriceOutOfRange
    | WindowExhausted         // data outside the loaded tick window
    | AmountNotPositive
    | InvalidPriceLimit
    | LiquidityUnderflow
    | GrossUnderflow
    | StateGap                // a block that does not follow the tracked one
    | ReorgDetected           // a parent hash that does not match
    | AmountOutOfReserves     // a V2 amount the reserves cannot serve
    | AmountUnresolved        // a leg without an amount
    | EmptyRange              // no candidate size to choose from

  datatype Result<+T> = Ok(value: T) | Err(error: Error) {
    predicate IsFailure() {
      Err?
    }

    function PropagateFailure<U>(): Result<U>
      requires Err?
    {
      Err(error)
    }

    function Extract(): T
      requires Ok?
    {
      value
    }
  }

  datatype Option<+T> = None | Some(value: T)
}
