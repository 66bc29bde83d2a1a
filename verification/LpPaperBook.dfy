/** A paper concentrated-liquidity position whose PnL ledger reconciles with its token balances. */
module LpPaperBook {
  import opened Results
  import opened FullMath
  import opened RealMath
  import opened V3Models
  import opened TickMath
  import opened SqrtPriceMath
  import opened SwapMath
  import opened SwapSimulator
  import opened LiquidityAmounts

  const UNIT_LIQUIDITY: nat := 1_000_000_000_000_000_000
  const MIN_SWAP_VALUE_FRACTION: real := 0.000001

  datatype Metadata = Metadata(baseDecimals: nat, quoteDecimals: nat, baseIsToken0: bool)

  /** A pool observation; `price` is the human price of base in quote. */
  datatype Snapshot = Snapshot(
    sqrtPrice: nat,
    tick: int,
    liquidity: nat,
    feePips: FeePips,
    blockNumber: int,
    price: real,
    baseFeeWei: Option<int>,
    window: Option<TickWindow>,
    isStale: bool)

  predicate ValidSnapshot(s: Snapshot) {
    AtTick(s.tick, s.sqrtPrice) && s.price > 0.0
  }

  function PoolStateFrom(s: Snapshot): PoolState {
    PoolState(s.sqrtPrice, s.tick, s.liquidity, s.feePips, s.blockNumber)
  }

  /** The target range a strategy chose. */
  datatype Target = Target(tickLower: int, tickUpper: int, centerPrice: real)

  predicate ValidTarget(t: Target) {
    MIN_TICK <= t.tickLower < t.tickUpper <= MAX_TICK
  }

  datatype Reason = Open | OutOfRange | Drift

  datatype Note =
    | NoNote
    | StaleData
    | WaitingForWindow
    | BelowMinimum
    | SwapHitLimit(limit: LimitReason)

  datatype Ledger = Ledger(
    idleBase: int,
    idleQuote: int,
    liquidity: int,
    range: Option<Target>,
    openBase: int,
    openQuote: int,
    feesBase: int,
    feesQuoteRaw: int,
    feesQuote: real,
    ilRealized: real,
    hodlPnl: real,
    swapCost: real,
    gasCost: real,
    epoch: int,
    rebalanceCount: int,
    note: Note,
    last: Option<Snapshot>)

  const EMPTY_LEDGER: Ledger := Ledger(0, 0, 0, None, 0, 0, 0, 0, 0.0, 0.0, 0.0, 0.0, 0.0, 0, 0, NoNote, None)

  // ---- Valuation ----

  /** Raw units to one whole token. */
  function RawUnits(decimals: nat): (units: real)
    ensures units >= 1.0
  {
    Pow10(decimals)
  }

  function HumanBase(m: Metadata, raw: int): real {
    raw as real / RawUnits(m.baseDecimals)
  }

  function HumanQuote(m: Metadata, raw: int): real {
    raw as real / RawUnits(m.quoteDecimals)
  }

  function Value(m: Metadata, base: int, quote: int, price: real): real {
    HumanBase(m, base) * price + HumanQuote(m, quote)
  }

  function ToBaseQuote(m: Metadata, amounts: (int, int)): (int, int) {
    if m.baseIsToken0 then amounts else (amounts.1, amounts.0)
  }

  function ToTokens(m: Metadata, base: int, quote: int): (int, int) {
    if m.baseIsToken0 then (base, quote) else (quote, base)
  }

  /** Round half to even, as Python's round does. */
  function RoundHalfEven(x: real): int {
    var f := x.Floor;
    var rest := x - f as real;
    if rest < 0.5 then f else if rest > 0.5 then f + 1 else if f % 2 == 0 then f else f + 1
  }

  /** Base and quote a range of the given liquidity holds at a sqrt price, rounded as a mint or a burn. */
  function RangeAmounts(m: Metadata, sqrtPrice: nat, t: Target, liquidity: int, roundUp: bool): (int, int)
    requires ValidTarget(t) && liquidity >= 0
  {
    RatioRange(t.tickLower);
    RatioStrictlyIncreasing(t.tickLower, t.tickUpper);
    AmountsOfPosition(sqrtPrice, Ratio(t.tickLower), Ratio(t.tickUpper), liquidity, roundUp);
    ToBaseQuote(m, GetAmountsForLiquidity(sqrtPrice, Ratio(t.tickLower), Ratio(t.tickUpper), liquidity, roundUp).value)
  }

  predicate ValidLedger(l: Ledger) {
    && l.idleBase >= 0 && l.idleQuote >= 0 && l.feesBase >= 0 && l.feesQuoteRaw >= 0 && l.liquidity >= 0
    && (l.range.Some? ==> ValidTarget(l.range.value))
    && (l.liquidity > 0 ==> l.range.Some?)
    && (l.liquidity == 0 ==> l.openBase == 0 && l.openQuote == 0)
    && (l.last.Some? ==> ValidSnapshot(l.last.value))
  }

  /** The position's current amounts, rounded down as a burn pays. */
  function Principal(m: Metadata, l: Ledger, s: Snapshot): (int, int)
    requires ValidLedger(l)
  {
    if l.liquidity <= 0 || l.range.None? then (0, 0)
        else RangeAmounts(m, s.sqrtPrice, l.range.value, l.liquidity, false)
  }

  lemma RangeAmountsNonNegative(m: Metadata, sqrtPrice: nat, t: Target, liquidity: int)
    requires ValidTarget(t) && liquidity >= 0
    ensures var down := RangeAmounts(m, sqrtPrice, t, liquidity, false);
            var up := RangeAmounts(m, sqrtPrice, t, liquidity, true);
            && down.0 >= 0 && down.1 >= 0
            && 0 <= up.0 - down.0 <= 1 && 0 <= up.1 - down.1 <= 1
  {
    hide Ratio, GetAmountsForLiquidity;
    RatioRange(t.tickLower);
    RatioStrictlyIncreasing(t.tickLower, t.tickUpper);
    MintBurnGap(sqrtPrice, Ratio(t.tickLower), Ratio(t.tickUpper), liquidity);
  }

  // ---- The reported state and its reconciliation ----

  datatype Status = NotOpened | Frozen | InRange | OutOfRangeNow

  datatype PositionState = PositionState(
    status: Status,
    amountBase: int,
    amountQuote: int,
    feesQuote: real,
    il: real,
    hodlPnl: real,
    swapCost: real,
    gasCost: real,
    value: real,
    netPnl: real,
    reconciliationError: real,
    note: Note,
    blockNumber: int)

  function IlTotal(m: Metadata, l: Ledger, mark: Snapshot): real
    requires ValidLedger(l)
  {
    var (base, quote) := Principal(m, l, mark);
    l.ilRealized + if l.liquidity > 0 then Value(m, base, quote, mark.price)
        - Value(m, l.openBase, l.openQuote, mark.price) else 0.0
  }

  /** Value of all token balances less gas, computed independently of the PnL split. */
  function BookValue(m: Metadata, l: Ledger, mark: Snapshot): real
    requires ValidLedger(l)
  {
    var (base, quote) := Principal(m, l, mark);
    Value(m, base, quote, mark.price) + Value(m, l.idleBase, l.idleQuote, mark.price)
      + Value(m, l.feesBase, l.feesQuoteRaw, mark.price) - l.gasCost
  }

  /** Capital plus the PnL split. */
  function Expected(m: Metadata, l: Ledger, capital: real, mark: Snapshot): real
    requires ValidLedger(l)
  {
    capital + l.feesQuote + IlTotal(m, l, mark) + l.hodlPnl - l.swapCost - l.gasCost
  }

  function Residual(m: Metadata, l: Ledger, capital: real, mark: Snapshot): real
    requires ValidLedger(l)
  {
    BookValue(m, l, mark) - Expected(m, l, capital, mark)
  }

  function StateOf(m: Metadata, l: Ledger, capital: real, mark: Snapshot, killSwitch: bool,
                   current: Snapshot): PositionState
    requires ValidLedger(l)
  {
    var (base, quote) := Principal(m, l, mark);
    var value := BookValue(m, l, mark);
    PositionState(
      if l.liquidity <= 0 then NotOpened
      else if killSwitch then Frozen
      else if l.range.value.tickLower <= mark.tick < l.range.value.tickUpper then InRange else OutOfRangeNow,
      base, quote, l.feesQuote, IlTotal(m, l, mark), l.hodlPnl, l.swapCost, l.gasCost,
      value, value - capital, value - Expected(m, l, capital, mark), l.note, current.blockNumber)
  }

  /** The capital in raw quote units. */
  function InitialQuote(m: Metadata, capital: real): int {
    RoundHalfEven(capital * RawUnits(m.quoteDecimals))
  }

  /** Capital that whole raw quote units cannot represent. */
  function InitialError(m: Metadata, capital: real): real {
    HumanQuote(m, InitialQuote(m, capital)) - capital
  }

  lemma InitialQuoteNonNegative(m: Metadata, capital: real)
    requires capital >= 0.0
    ensures InitialQuote(m, capital) >= 0
  {
    ProductSign(capital, RawUnits(m.quoteDecimals));
  }

  lemma InitialErrorIsSmall(m: Metadata, capital: real)
    ensures -0.5 <= InitialError(m, capital) * RawUnits(m.quoteDecimals) <= 0.5
  {
    var p := RawUnits(m.quoteDecimals);
    RoundsToNearest(capital * p);
    SmallError(InitialError(m, capital), InitialQuote(m, capital) as real, capital, p);
  }

  lemma SmallError(e: real, raw: real, capital: real, p: real)
    requires p > 0.0 && -0.5 <= raw - capital * p <= 0.5 && e == raw / p - capital
    ensures -0.5 <= e * p <= 0.5
  {
    BackToUnits(e, raw, capital, p);
  }

  lemma RoundsToNearest(x: real)
    ensures -0.5 <= RoundHalfEven(x) as real - x <= 0.5
  {
  }

  lemma BackToUnits(e: real, raw: real, capital: real, p: real)
    requires p > 0.0 && e == raw / p - capital
    ensures e * p == raw - capital * p
  {
    Undivide(raw, p);
    DistributeLeft(raw / p, capital, p);
  }

  lemma DistributeLeft(a: real, b: real, c: real)
    ensures (a - b) * c == a * c - b * c
  {
  }

  /** The residual depends on open, idle and fee balances only: the position's own revaluation cancels. */
  lemma ResidualWithoutPrincipal(m: Metadata, l: Ledger, capital: real, mark: Snapshot)
    requires ValidLedger(l)
    ensures Residual(m, l, capital, mark) ==
            Value(m, l.openBase, l.openQuote, mark.price) + Value(m, l.idleBase, l.idleQuote, mark.price)
            + Value(m, l.feesBase, l.feesQuoteRaw, mark.price)
            - capital - l.feesQuote - l.ilRealized - l.hodlPnl + l.swapCost
  {
    hide Value, RangeAmounts;
    NoValue(m, mark.price);
  }

  lemma NoValue(m: Metadata, price: real)
    ensures Value(m, 0, 0, price) == 0.0
  {
  }

  lemma ValueAdds(m: Metadata, b0: int, q0: int, b1: int, q1: int, price: real)
    ensures Value(m, b0 + b1, q0 + q1, price) == Value(m, b0, q0, price) + Value(m, b1, q1, price)
    ensures Value(m, b0 - b1, q0 - q1, price) == Value(m, b0, q0, price) - Value(m, b1, q1, price)
  {
    Split(b0 as real, b1 as real, RawUnits(m.baseDecimals), price);
    Split(q0 as real, q1 as real, RawUnits(m.quoteDecimals), 1.0);
  }

  lemma Split(a: real, b: real, d: real, price: real)
    requires d > 0.0
    ensures (a + b) / d * price == a / d * price + b / d * price
    ensures (a - b) / d * price == a / d * price - b / d * price
  {
    var x, y, z, w := a / d, b / d, (a + b) / d, (a - b) / d;
    assert x * d == a && y * d == b && z * d == a + b && w * d == a - b;
    assert (z - x - y) * d == 0.0;
    assert (w - x + y) * d == 0.0;
    assert z == x + y && w == x - y;
    assert (x + y) * price == x * price + y * price;
    assert (x - y) * price == x * price - y * price;
  }

  /** Revaluing a balance from one price to another changes its value by the base held times the move. */
  lemma Revalue(m: Metadata, base: int, quote: int, from: real, to: real)
    ensures Value(m, base, quote, to) - Value(m, base, quote, from) == HumanBase(m, base) * (to - from)
  {
    var h := HumanBase(m, base);
    assert h * to - h * from == h * (to - from);
  }

  // ---- The book ----

  /** The swap of a rebalance; `sellsBase` is None when no swap is worth making. */
  datatype RatioSwap = RatioSwap(sellsBase: Option<bool>, swapIn: int, swapOut: int)

  datatype RebalanceEvent = RebalanceEvent(
    epochFrom: int,
    reason: Reason,
    swap: RatioSwap,
    swapCost: real,
    gasCost: real,
    realizedIl: real,
    blockNumber: int)

  /** What the swap of a rebalance adds to the base balance. */
  function BaseDelta(e: RatioSwap): int {
    match e.sellsBase
    case None => 0
    case Some(sells) => if sells then -e.swapIn else e.swapOut
  }

  function QuoteDelta(e: RatioSwap): int {
    match e.sellsBase
    case None => 0
    case Some(sells) => if sells then e.swapOut else -e.swapIn
  }

  /** Everything burned and collected into idle balances before the swap. */
  function Collected(m: Metadata, l: Ledger, s: Snapshot): (int, int)
    requires ValidLedger(l)
  {
    var (base, quote) := Principal(m, l, s);
    (l.idleBase + base + l.feesBase, l.idleQuote + quote + l.feesQuoteRaw)
  }

  /** The liquidity the balances buy in the target range. */
  function Affordable(m: Metadata, s: Snapshot, t: Target, base: nat, quote: nat): (liquidity: int)
    requires ValidTarget(t)
    ensures liquidity >= 0
  {
    RatioRange(t.tickLower);
    RatioStrictlyIncreasing(t.tickLower, t.tickUpper);
    var (avail0, avail1) := ToTokens(m, base, quote);
    MintAffordable(s.sqrtPrice, Ratio(t.tickLower), Ratio(t.tickUpper), avail0, avail1);
    GetLiquidityForAmounts(s.sqrtPrice, Ratio(t.tickLower), Ratio(t.tickUpper), avail0, avail1).value
  }

  lemma AffordableFits(m: Metadata, s: Snapshot, t: Target, base: nat, quote: nat)
    requires ValidTarget(t)
    ensures var need := RangeAmounts(m, s.sqrtPrice, t, Affordable(m, s, t, base, quote), true);
            0 <= need.0 <= base && 0 <= need.1 <= quote
  {
    hide Ratio, GetAmountsForLiquidity, GetLiquidityForAmounts;
    RatioRange(t.tickLower);
    RatioStrictlyIncreasing(t.tickLower, t.tickUpper);
    var (avail0, avail1) := ToTokens(m, base, quote);
    MintAffordable(s.sqrtPrice, Ratio(t.tickLower), Ratio(t.tickUpper), avail0, avail1);
  }

  /** The ledger a committed rebalance leaves. */
  function Rebalanced(m: Metadata, l: Ledger, s: Snapshot, t: Target, e: RebalanceEvent): Ledger
    requires ValidLedger(l) && ValidTarget(t)
    requires Collected(m, l, s).0 + BaseDelta(e.swap) >= 0 && Collected(m, l, s).1 + QuoteDelta(e.swap) >= 0
  {
    var base, quote := Collected(m, l, s).0 + BaseDelta(e.swap), Collected(m, l, s).1 + QuoteDelta(e.swap);
    var liquidity := Affordable(m, s, t, base, quote);
    var need, open := RangeAmounts(m, s.sqrtPrice, t, liquidity, true),
        RangeAmounts(m, s.sqrtPrice, t, liquidity, false);
    l.(idleBase := base - need.0, idleQuote := quote - need.1,
       feesBase := 0, feesQuoteRaw := 0,
       liquidity := liquidity, range := Some(t),
       openBase := open.0, openQuote := open.1,
       ilRealized := l.ilRealized + e.realizedIl,
       swapCost := l.swapCost + e.swapCost,
       gasCost := l.gasCost + e.gasCost,
       epoch := l.epoch + 1,
       rebalanceCount := if e.reason != Open then l.rebalanceCount + 1 else l.rebalanceCount)
  }

  /** The event's costs are what its swap and burn really cost at the pool price. */
  ghost predicate Truthful(m: Metadata, l: Ledger, s: Snapshot, e: RebalanceEvent)
    requires ValidLedger(l)
  {
    var (base, quote) := Collected(m, l, s);
    var (principalBase, principalQuote) := Principal(m, l, s);
    && e.swapCost
         == Value(m, base, quote, s.price) - Value(m, base + BaseDelta(e.swap), quote + QuoteDelta(e.swap), s.price)
    && e.realizedIl == (if l.liquidity > 0 then Value(m, principalBase, principalQuote, s.price)
         - Value(m, l.openBase, l.openQuote, s.price) else 0.0)
  }

  /** The swap is an exact-input simulation that completed in full, spending no more than the balance it sells. */
  ghost predicate SwapCompleted(m: Metadata, l: Ledger, s: Snapshot, e: RatioSwap)
    requires ValidLedger(l) && ValidSnapshot(s) && s.window.Some?
  {
    && (e.sellsBase.None? ==> e.swapIn == 0)
    && (e.swapIn == 0 ==> e.swapOut == 0)
    && 0 <= e.swapIn
    && (e.swapIn > 0 && e.sellsBase == Some(true) ==> e.swapIn <= Collected(m, l, s).0)
    && (e.swapIn > 0 && e.sellsBase == Some(false) ==> e.swapIn <= Collected(m, l, s).1)
    && (e.swapIn > 0 ==>
          var q := Simulation(PoolStateFrom(s), s.window.value, e.sellsBase.value == m.baseIsToken0, e.swapIn, None);
          q.Ok? && q.value.limitReason == None && q.value.amountOut == e.swapOut)
  }

  lemma SwapOutNonNegative(s: Snapshot, zeroForOne: bool, swapIn: int)
    requires ValidSnapshot(s) && s.window.Some? && swapIn > 0
    requires Simulation(PoolStateFrom(s), s.window.value, zeroForOne, swapIn, None).Ok?
    ensures Simulation(PoolStateFrom(s), s.window.value, zeroForOne, swapIn, None).value.amountOut >= 0
  {
    hide Simulation;
    QuoteFacts(PoolStateFrom(s), s.window.value, zeroForOne, swapIn, None);
  }

  // ---- The swap a rebalance chooses ----

  /** The value of the base, and of both tokens, in 10^18 units of liquidity over the target range. */
  function UnitValues(m: Metadata, s: Snapshot, t: Target): (real, real)
    requires ValidTarget(t)
  {
    var amounts := RangeAmounts(m, s.sqrtPrice, t, 1_000_000_000_000_000_000, true);
    (HumanBase(m, amounts.0) * s.price, Value(m, amounts.0, amounts.1, s.price))
  }

  /** Neither the balances nor the target range are worth anything. */
  predicate NothingToValue(m: Metadata, l: Ledger, s: Snapshot, t: Target)
    requires ValidLedger(l) && ValidTarget(t)
  {
    var (base, quote) := Collected(m, l, s);
    UnitValues(m, s, t).1 <= 0.0 || Value(m, base, quote, s.price) <= 0.0
  }

  /** By how much the value of the base held exceeds the target range's share of the whole value. */
  function Excess(m: Metadata, l: Ledger, s: Snapshot, t: Target): real
    requires ValidLedger(l) && ValidTarget(t) && !NothingToValue(m, l, s, t)
  {
    var (base, quote) := Collected(m, l, s);
    var unit := UnitValues(m, s, t);
    HumanBase(m, base) * s.price - Value(m, base, quote, s.price) * unit.0 / unit.1
  }

  /** A millionth of the value or less is not worth a swap. Otherwise the token in excess is sold: the greatest raw
      amount that is worth no more than the excess and no more than what is held. */
  ghost predicate SaleFits(m: Metadata, base: int, quote: int, value: real, excess: real, price: real,
                           sellsBase: Option<bool>, swapIn: int)
  {
    && (sellsBase == Some(true) <==> excess > value / 1_000_000.0)
    && (sellsBase == Some(false) <==> -excess > value / 1_000_000.0)
    && (sellsBase == None ==> swapIn == 0)
    && (sellsBase == Some(true) ==>
          && 0 <= swapIn <= base && HumanBase(m, swapIn) * price <= excess
          && (swapIn < base ==> HumanBase(m, swapIn + 1) * price > excess))
    && (sellsBase == Some(false) ==>
          && 0 <= swapIn <= quote && HumanQuote(m, swapIn) <= -excess
          && (swapIn < quote ==> HumanQuote(m, swapIn + 1) > -excess))
  }

  ghost predicate SwapFits(m: Metadata, l: Ledger, s: Snapshot, t: Target, sellsBase: Option<bool>, swapIn: int)
    requires ValidLedger(l) && ValidTarget(t) && !NothingToValue(m, l, s, t)
  {
    var (base, quote) := Collected(m, l, s);
    SaleFits(m, base, quote, Value(m, base, quote, s.price), Excess(m, l, s, t), s.price, sellsBase, swapIn)
  }

  /** Whole raw units in an amount of a token, cut off. */
  function ToRaw(amount: real, decimals: nat): int {
    (amount * RawUnits(decimals)).Floor
  }

  /** A raw amount of a token is worth no more than an amount at a price. */
  predicate WorthAtMost(raw: int, units: real, price: real, worth: real)
    requires units > 0.0
  {
    raw as real / units * price <= worth
  }

  lemma BaseCapped(m: Metadata, worth: real, price: real, balance: int)
    requires worth >= 0.0 && price > 0.0 && balance >= 0
    ensures var raw := Min(ToRaw(worth / price, m.baseDecimals), balance);
            && 0 <= raw <= balance && HumanBase(m, raw) * price <= worth
            && (raw < balance ==> HumanBase(m, raw + 1) * price > worth)
  {
    PositiveUnits(m);
    hide RawUnits, WorthAtMost;
    var cut, units := ToRaw(worth / price, m.baseDecimals), RawUnits(m.baseDecimals);
    CutOff(worth, price, units, cut);
    var raw := Min(cut, balance);
    ScaledDown(raw, cut, units, price, worth);
    WorthOfBase(m, raw, price, worth);
    WorthOfBase(m, raw + 1, price, worth);
  }

  lemma WorthOfBase(m: Metadata, raw: int, price: real, worth: real)
    ensures WorthAtMost(raw, RawUnits(m.baseDecimals), price, worth) <==> HumanBase(m, raw) * price <= worth
  {
  }

  lemma QuoteCapped(m: Metadata, worth: real, balance: int)
    requires worth >= 0.0 && balance >= 0
    ensures var raw := Min(ToRaw(worth, m.quoteDecimals), balance);
            && 0 <= raw <= balance && HumanQuote(m, raw) <= worth
            && (raw < balance ==> HumanQuote(m, raw + 1) > worth)
  {
    PositiveUnits(m);
    hide RawUnits, WorthAtMost;
    var cut, units := ToRaw(worth, m.quoteDecimals), RawUnits(m.quoteDecimals);
    assert worth / 1.0 == worth;
    CutOff(worth, 1.0, units, cut);
    var raw := Min(cut, balance);
    ScaledDown(raw, cut, units, 1.0, worth);
    WorthOfQuote(m, raw, worth);
    WorthOfQuote(m, raw + 1, worth);
  }

  lemma WorthOfQuote(m: Metadata, raw: int, worth: real)
    ensures WorthAtMost(raw, RawUnits(m.quoteDecimals), 1.0, worth) <==> HumanQuote(m, raw) <= worth
  {
  }

  lemma PositiveUnits(m: Metadata)
    ensures RawUnits(m.baseDecimals) >= 1.0 && RawUnits(m.quoteDecimals) >= 1.0
  {
  }

  lemma CutOff(worth: real, price: real, units: real, cut: int)
    requires worth >= 0.0 && price > 0.0 && units > 0.0 && cut == (worth / price * units).Floor
    ensures 0 <= cut && WorthAtMost(cut, units, price, worth) && !WorthAtMost(cut + 1, units, price, worth)
  {
    var x := worth / price;
    assert x * price == worth by { Undivide(worth, price); }
    var exact := x * units;
    ProductSign(x, units);
    AtMost(cut, exact, x, units);
    var least, next := cut as real / units, (cut + 1) as real / units;
    ScaleReal(least, x, price);
    ScaleRealStrict(x, next, price);
  }

  lemma AtMost(cut: int, exact: real, x: real, units: real)
    requires units > 0.0 && exact == x * units && cut as real <= exact && exact < (cut + 1) as real
    ensures cut as real / units <= x && (cut + 1) as real / units > x
  {
    var least, next := cut as real / units, (cut + 1) as real / units;
    Undivide(cut as real, units);
    Undivide((cut + 1) as real, units);
    OrderUnscaled(least, x, units);
    OrderUnscaled(next, x, units);
  }

  lemma OrderUnscaled(a: real, b: real, c: real)
    requires c > 0.0
    ensures a <= b <==> a * c <= b * c
  {
    if a <= b { ScaleReal(a, b, c); } else { ScaleRealStrict(b, a, c); }
  }

  lemma ScaledDown(a: int, b: int, units: real, price: real, worth: real)
    requires a <= b && units > 0.0 && price > 0.0 && WorthAtMost(b, units, price, worth)
    ensures WorthAtMost(a, units, price, worth)
  {
    QuotientMonotone(a as real, b as real, units);
    ScaleReal(a as real / units, b as real / units, price);
  }

  /** The token to sell and how much of it. */
  function Sale(m: Metadata, base: int, quote: int, value: real, excess: real, price: real): (Option<bool>, int) {
    var least := value * MIN_SWAP_VALUE_FRACTION;
    if price > 0.0 && excess > least then
      (Some(true), Min(ToRaw(excess / price, m.baseDecimals), base))
    else if -excess > least then
      (Some(false), Min(ToRaw(-excess, m.quoteDecimals), quote))
    else
      (None, 0)
  }

  lemma SaleIsFit(m: Metadata, base: int, quote: int, value: real, excess: real, price: real)
    requires base >= 0 && quote >= 0 && value > 0.0 && price > 0.0
    ensures var c := Sale(m, base, quote, value, excess, price);
            SaleFits(m, base, quote, value, excess, price, c.0, c.1)
  {
    hide ToRaw, HumanBase, HumanQuote;
    if excess > value / 1_000_000.0 {
      BaseCapped(m, excess, price, base);
    } else if -excess > value / 1_000_000.0 {
      QuoteCapped(m, -excess, quote);
    }
  }

  function SwapChoice(m: Metadata, l: Ledger, s: Snapshot, t: Target): (c: (Option<bool>, int))
    requires ValidLedger(l) && ValidTarget(t) && ValidSnapshot(s) && !NothingToValue(m, l, s, t)
    ensures SwapFits(m, l, s, t, c.0, c.1)
  {
    CollectedNonNegative(m, l, s);
    var (base, quote) := Collected(m, l, s);
    var value, excess := Value(m, base, quote, s.price), Excess(m, l, s, t);
    SaleIsFit(m, base, quote, value, excess, s.price);
    Sale(m, base, quote, value, excess, s.price)
  }

  lemma SwapChoiceIs(m: Metadata, l: Ledger, s: Snapshot, t: Target)
    requires ValidLedger(l) && ValidTarget(t) && ValidSnapshot(s) && !NothingToValue(m, l, s, t)
    ensures var (base, quote) := Collected(m, l, s);
            var value := Value(m, base, quote, s.price);
            && base >= 0 && quote >= 0 && value > 0.0
            && SwapChoice(m, l, s, t) == Sale(m, base, quote, value, Excess(m, l, s, t), s.price)
  {
    hide Sale, Excess, Value;
    CollectedNonNegative(m, l, s);
  }

  lemma ExcessIs(m: Metadata, l: Ledger, s: Snapshot, t: Target, unit: (int, int))
    requires ValidLedger(l) && ValidTarget(t)
    requires unit == RangeAmounts(m, s.sqrtPrice, t, UNIT_LIQUIDITY, true)
    ensures var (base, quote) := Collected(m, l, s);
            var value := Value(m, base, quote, s.price);
            var unitBaseValue := HumanBase(m, unit.0) * s.price;
            var unitTotal := unitBaseValue + HumanQuote(m, unit.1);
            && (NothingToValue(m, l, s, t) <==> unitTotal <= 0.0 || value <= 0.0)
            && (!NothingToValue(m, l, s, t) ==>
                  Excess(m, l, s, t) == HumanBase(m, base) * s.price - value * unitBaseValue / unitTotal)
  {
    hide RangeAmounts, HumanBase, HumanQuote, Collected;
  }

  /** The simulated swap, if one is needed. */
  function Executed(m: Metadata, l: Ledger, s: Snapshot, t: Target): Result<Option<SwapQuote>>
    requires ValidLedger(l) && ValidTarget(t) && ValidSnapshot(s) && !NothingToValue(m, l, s, t) && s.window.Some?
  {
    var (sellsBase, swapIn) := SwapChoice(m, l, s, t);
    if swapIn == 0 then Ok(None)
    else
      var q :- Simulation(PoolStateFrom(s), s.window.value, sellsBase.value == m.baseIsToken0, swapIn, None);
      Ok(Some(q))
  }

  predicate SwapLimited(m: Metadata, l: Ledger, s: Snapshot, t: Target)
    requires ValidLedger(l) && ValidTarget(t) && ValidSnapshot(s) && !NothingToValue(m, l, s, t) && s.window.Some?
  {
    var q := Executed(m, l, s, t);
    q.Ok? && q.value.Some? && q.value.value.limitReason.Some?
  }

  function Swapped(m: Metadata, l: Ledger, s: Snapshot, t: Target): RatioSwap
    requires ValidLedger(l) && ValidTarget(t) && ValidSnapshot(s) && !NothingToValue(m, l, s, t) && s.window.Some?
    requires Executed(m, l, s, t).Ok?
  {
    var (sellsBase, swapIn) := SwapChoice(m, l, s, t);
    var q := Executed(m, l, s, t).value;
    RatioSwap(sellsBase, swapIn, if q.Some? then q.value.amountOut else 0)
  }

  /** Without a limit in the way, the swap fits the range, completes, and leaves both balances non-negative. */
  lemma SwappedCompletes(m: Metadata, l: Ledger, s: Snapshot, t: Target)
    requires ValidLedger(l) && ValidTarget(t) && ValidSnapshot(s) && !NothingToValue(m, l, s, t) && s.window.Some?
    requires Executed(m, l, s, t).Ok? && !SwapLimited(m, l, s, t)
    ensures var e := Swapped(m, l, s, t);
            && SwapFits(m, l, s, t, e.sellsBase, e.swapIn) && SwapCompleted(m, l, s, e)
            && Collected(m, l, s).0 + BaseDelta(e) >= 0 && Collected(m, l, s).1 + QuoteDelta(e) >= 0
  {
    hide Simulation, RangeAmounts, Value, AtTick, Collected, Excess, NothingToValue;
    CollectedNonNegative(m, l, s);
    var (sellsBase, swapIn) := SwapChoice(m, l, s, t);
    if swapIn > 0 { SwapOutNonNegative(s, sellsBase.value == m.baseIsToken0, swapIn); }
  }

  /** Without an amount to sell nothing is simulated; otherwise the simulation decides. */
  lemma ExecutedIs(m: Metadata, l: Ledger, s: Snapshot, t: Target, sellsBase: Option<bool>, swapIn: int)
    requires ValidLedger(l) && ValidTarget(t) && ValidSnapshot(s) && !NothingToValue(m, l, s, t) && s.window.Some?
    requires SwapChoice(m, l, s, t) == (sellsBase, swapIn)
    ensures swapIn >= 0 && (swapIn > 0 ==> sellsBase.Some?)
    ensures swapIn == 0 ==>
              && Executed(m, l, s, t) == Ok(None) && !SwapLimited(m, l, s, t)
              && Swapped(m, l, s, t) == RatioSwap(sellsBase, 0, 0)
    ensures swapIn > 0 ==>
              var q := Simulation(PoolStateFrom(s), s.window.value, sellsBase.value == m.baseIsToken0, swapIn, None);
              && Executed(m, l, s, t) == (if q.Err? then Err(q.error) else Ok(Some(q.value)))
              && (SwapLimited(m, l, s, t) <==> q.Ok? && q.value.limitReason.Some?)
              && (q.Ok? ==> Swapped(m, l, s, t) == RatioSwap(sellsBase, swapIn, q.value.amountOut))
  {
    hide Simulation, AtTick, Excess, NothingToValue, Value;
    assert SwapFits(m, l, s, t, sellsBase, swapIn);
  }

  /** Nothing is left to mint after the swap. */
  predicate NothingToMint(m: Metadata, l: Ledger, s: Snapshot, t: Target)
    requires ValidLedger(l) && ValidTarget(t) && ValidSnapshot(s) && !NothingToValue(m, l, s, t) && s.window.Some?
    requires Executed(m, l, s, t).Ok? && !SwapLimited(m, l, s, t)
  {
    SwappedCompletes(m, l, s, t);
    var e := Swapped(m, l, s, t);
    Affordable(m, s, t, Collected(m, l, s).0 + BaseDelta(e), Collected(m, l, s).1 + QuoteDelta(e)) == 0
  }

  /** Why a rebalance is skipped: no window, nothing to value, a swap that hits a limit, or no liquidity to mint. */
  function SkipNote(m: Metadata, l: Ledger, s: Snapshot, t: Target): Option<Note>
    requires ValidLedger(l) && ValidTarget(t) && ValidSnapshot(s)
  {
    if s.window.None? then Some(WaitingForWindow)
    else if NothingToValue(m, l, s, t) then Some(BelowMinimum)
    else if Executed(m, l, s, t).Err? then None
    else if SwapLimited(m, l, s, t) then Some(SwapHitLimit(Executed(m, l, s, t).value.value.limitReason.value))
    else if NothingToMint(m, l, s, t) then Some(BelowMinimum)
    else None
  }

  /** The swap simulation fails. */
  predicate SwapFails(m: Metadata, l: Ledger, s: Snapshot, t: Target)
    requires ValidLedger(l) && ValidTarget(t) && ValidSnapshot(s)
  {
    s.window.Some? && !NothingToValue(m, l, s, t) && Executed(m, l, s, t).Err?
  }

  /** Raw units the mint charged beyond what burning it at once would return. */
  function DustOf(m: Metadata, s: Snapshot, t: Target, liquidity: int): (int, int)
    requires ValidTarget(t) && liquidity >= 0
  {
    var up, down := RangeAmounts(m, s.sqrtPrice, t, liquidity, true), RangeAmounts(m, s.sqrtPrice, t, liquidity, false);
    (up.0 - down.0, up.1 - down.1)
  }

  /** A rebalance loses exactly the value of its rounding dust. */
  lemma RebalanceLosesDust(m: Metadata, l: Ledger, capital: real, s: Snapshot, t: Target, e: RebalanceEvent)
    requires ValidLedger(l) && ValidTarget(t) && Truthful(m, l, s, e)
    requires Collected(m, l, s).0 + BaseDelta(e.swap) >= 0 && Collected(m, l, s).1 + QuoteDelta(e.swap) >= 0
    requires Rebalanced(m, l, s, t, e).liquidity > 0
    ensures var l' := Rebalanced(m, l, s, t, e);
            var (dustBase, dustQuote) := DustOf(m, s, t, l'.liquidity);
            && ValidLedger(l')
            && 0 <= dustBase <= 1 && 0 <= dustQuote <= 1
            && Residual(m, l', capital, s) == Residual(m, l, capital, s) - Value(m, dustBase, dustQuote, s.price)
  {
    hide Value, RangeAmounts, Residual;
    var base, quote := Collected(m, l, s).0 + BaseDelta(e.swap), Collected(m, l, s).1 + QuoteDelta(e.swap);
    var (principalBase, principalQuote) := Principal(m, l, s);
    var l' := Rebalanced(m, l, s, t, e);
    var need := RangeAmounts(m, s.sqrtPrice, t, l'.liquidity, true);
    var p := s.price;
    AffordableFits(m, s, t, base, quote);
    RangeAmountsNonNegative(m, s.sqrtPrice, t, l'.liquidity);
    ResidualWithoutPrincipal(m, l, capital, s);
    ResidualWithoutPrincipal(m, l', capital, s);
    NoValue(m, p);
    ValueAdds(m, base, quote, need.0, need.1, p);
    ValueAdds(m, need.0, need.1, l'.openBase, l'.openQuote, p);
    ValueAdds(m, l.idleBase + principalBase, l.idleQuote + principalQuote, l.feesBase, l.feesQuoteRaw, p);
    ValueAdds(m, l.idleBase, l.idleQuote, principalBase, principalQuote, p);
  }

  /** What accrual adds over one interval: HODL revaluation always, fees only for an open position. */
  function Accrued(m: Metadata, l: Ledger, prev: Snapshot, cur: Snapshot, fees: (nat, nat)): Ledger {
    var held := l.openBase + l.idleBase + l.feesBase;
    var revalued := l.(hodlPnl := l.hodlPnl + HumanBase(m, held) * (cur.price - prev.price));
    if l.liquidity <= 0 || l.range.None? then revalued
    else
      var (feeBase, feeQuote) := ToBaseQuote(m, fees);
      revalued.(feesBase := l.feesBase + feeBase,
                feesQuoteRaw := l.feesQuoteRaw + feeQuote,
                feesQuote := l.feesQuote + Value(m, feeBase, feeQuote, cur.price))
  }

  /** Accrual moves the reconciled ledger from one observation to the next without residue. */
  lemma AccrualReconciles(m: Metadata, l: Ledger, capital: real, prev: Snapshot, cur: Snapshot, fees: (nat, nat))
    requires ValidLedger(l)
    ensures var l' := Accrued(m, l, prev, cur, fees);
            ValidLedger(l') && Residual(m, l', capital, cur) == Residual(m, l, capital, prev)
  {
    hide Value, HumanBase, RangeAmounts, Residual;
    var l' := Accrued(m, l, prev, cur, fees);
    ResidualWithoutPrincipal(m, l, capital, prev);
    ResidualWithoutPrincipal(m, l', capital, cur);
    var base, quote := l.openBase + l.idleBase + l.feesBase, l.openQuote + l.idleQuote + l.feesQuoteRaw;
    Revalue(m, base, quote, prev.price, cur.price);
    ThreeBalances(m, l, prev.price);
    ThreeBalances(m, l, cur.price);
    var (feeBase, feeQuote) := ToBaseQuote(m, fees);
    ValueAdds(m, l.feesBase, l.feesQuoteRaw, feeBase, feeQuote, cur.price);
    assert Value(m, base, quote, cur.price) - Value(m, base, quote, prev.price) == l'.hodlPnl - l.hodlPnl;
    assert Value(m, l'.feesBase, l'.feesQuoteRaw, cur.price) - l'.feesQuote
        == Value(m, l.feesBase, l.feesQuoteRaw, cur.price) - l.feesQuote;
  }

  /** Accruing the same interval twice counts its price move twice: the second time the residual falls by the move of
      the base held. */
  lemma AccruedTwice(m: Metadata, l: Ledger, capital: real, prev: Snapshot, cur: Snapshot, fees: (nat, nat),
                     again: (nat, nat))
    requires ValidLedger(l)
    ensures var once := Accrued(m, l, prev, cur, fees);
            var twice := Accrued(m, once, prev, cur, again);
            && ValidLedger(once) && ValidLedger(twice)
            && Residual(m, twice, capital, cur)
               == Residual(m, l, capital, prev)
                   - HumanBase(m, once.openBase + once.idleBase + once.feesBase) * (cur.price - prev.price)
  {
    hide Value, HumanBase, RangeAmounts, Residual, Accrued;
    var once := Accrued(m, l, prev, cur, fees);
    AccrualReconciles(m, l, capital, prev, cur, fees);
    AccrualReconciles(m, once, capital, prev, cur, again);
    ResidualWithoutPrincipal(m, once, capital, prev);
    ResidualWithoutPrincipal(m, once, capital, cur);
    var base, quote := once.openBase + once.idleBase + once.feesBase,
        once.openQuote + once.idleQuote + once.feesQuoteRaw;
    Revalue(m, base, quote, prev.price, cur.price);
    ThreeBalances(m, once, prev.price);
    ThreeBalances(m, once, cur.price);
    var moved := HumanBase(m, base) * (cur.price - prev.price);
    assert Value(m, base, quote, cur.price) - Value(m, base, quote, prev.price) == moved;
    assert Residual(m, once, capital, cur) - Residual(m, once, capital, prev) == moved;
  }

  lemma ThreeBalances(m: Metadata, l: Ledger, price: real)
    ensures Value(m, l.openBase + l.idleBase + l.feesBase, l.openQuote + l.idleQuote + l.feesQuoteRaw, price)
            == Value(m, l.openBase, l.openQuote, price) + Value(m, l.idleBase, l.idleQuote, price)
                + Value(m, l.feesBase, l.feesQuoteRaw, price)
  {
    hide Value;
    ValueAdds(m, l.openBase + l.idleBase, l.openQuote + l.idleQuote, l.feesBase, l.feesQuoteRaw, price);
    ValueAdds(m, l.openBase, l.openQuote, l.idleBase, l.idleQuote, price);
  }

  predicate Fits(need: (int, int), base: int, quote: int) {
    need.0 <= base && need.1 <= quote
  }

  /** Lowers the liquidity, at most four times, until minting it fits the balances; one that fits is kept at once. */
  method FitLiquidity(m: Metadata, s: Snapshot, t: Target, offered: int, base: nat, quote: nat)
    returns (liquidity: int, need: (int, int), satisfied: bool)
    requires ValidTarget(t) && offered >= 0
    ensures 0 <= liquidity <= offered
    ensures satisfied ==> need == RangeAmounts(m, s.sqrtPrice, t, liquidity, true) && Fits(need, base, quote)
    ensures Fits(RangeAmounts(m, s.sqrtPrice, t, offered, true), base, quote) ==> satisfied && liquidity == offered
  {
    hide RangeAmounts;
    liquidity, satisfied := offered, false;
    need := RangeAmounts(m, s.sqrtPrice, t, liquidity, true);
    for i := 0 to 4
      invariant 0 <= liquidity <= offered
      invariant Fits(RangeAmounts(m, s.sqrtPrice, t, offered, true), base, quote) ==> i == 0 && liquidity == offered
    {
      need := RangeAmounts(m, s.sqrtPrice, t, liquidity, true);
      if Fits(need, base, quote) {
        satisfied := true;
        break;
      }
      NoLiquidityNeedsNothing(m, s.sqrtPrice, t);
      liquidity := liquidity - Max(1, liquidity / 1_000_000_000);
    }
  }

  lemma NoLiquidityNeedsNothing(m: Metadata, sqrtPrice: nat, t: Target)
    requires ValidTarget(t)
    ensures RangeAmounts(m, sqrtPrice, t, 0, true) == (0, 0)
  {
  }

  function Max(a: int, b: int): int {
    if a < b then b else a
  }

  lemma NonNegativeProduct(x: real, p: real, n: real, d: real)
    requires n >= 0.0 && d > 0.0 && x == n / d && p >= 1.0
    ensures x * p >= 0.0
  {
  }

  lemma CollectedNonNegative(m: Metadata, l: Ledger, s: Snapshot)
    requires ValidLedger(l)
    ensures Collected(m, l, s).0 >= 0 && Collected(m, l, s).1 >= 0
  {
    hide RangeAmounts;
    if l.liquidity > 0 { RangeAmountsNonNegative(m, s.sqrtPrice, l.range.value, l.liquidity); }
  }

  /** Neither the note nor the last observation enters the residual. */
  lemma NoteIsFree(m: Metadata, l: Ledger, capital: real, note: Note)
    requires ValidLedger(l)
    ensures ValidLedger(l.(note := note))
    ensures forall mark :: Residual(m, l.(note := note), capital, mark) == Residual(m, l, capital, mark)
  {
    forall mark ensures Residual(m, l.(note := note), capital, mark) == Residual(m, l, capital, mark) {
      ResidualWithoutPrincipal(m, l, capital, mark);
      ResidualWithoutPrincipal(m, l.(note := note), capital, mark);
    }
  }

  lemma LastIsFree(m: Metadata, l: Ledger, capital: real, s: Snapshot)
    requires ValidLedger(l) && ValidSnapshot(s)
    ensures ValidLedger(l.(last := Some(s)))
    ensures Residual(m, l.(last := Some(s)), capital, s) == Residual(m, l, capital, s)
  {
    ResidualWithoutPrincipal(m, l, capital, s);
    ResidualWithoutPrincipal(m, l.(last := Some(s)), capital, s);
  }

  lemma StateShowsResidual(m: Metadata, l: Ledger, capital: real, mark: Snapshot, killSwitch: bool, current: Snapshot)
    requires ValidLedger(l)
    ensures StateOf(m, l, capital, mark, killSwitch, current).reconciliationError == Residual(m, l, capital, mark)
  {
    hide BookValue, Expected, IlTotal, Principal;
  }

  /** The reported PnL is what the balances are worth beyond the capital, split into its causes up to the reported
      error; an open position is out of range outside its ticks, the upper one included. */
  lemma StateReports(m: Metadata, l: Ledger, capital: real, mark: Snapshot, killSwitch: bool, current: Snapshot)
    requires ValidLedger(l)
    ensures var st := StateOf(m, l, capital, mark, killSwitch, current);
            && st.value + l.gasCost
               == Value(m, st.amountBase + l.idleBase + l.feesBase, st.amountQuote + l.idleQuote + l.feesQuoteRaw,
                        mark.price)
            && st.netPnl == st.value - capital
            && st.netPnl
               == st.feesQuote + st.il + st.hodlPnl - st.swapCost - st.gasCost + st.reconciliationError
            && (st.status == NotOpened <==> l.liquidity == 0)
            && (l.liquidity > 0 ==>
                  && (st.status == Frozen <==> killSwitch)
                  && (st.status == OutOfRangeNow
                      <==>
                      && !killSwitch
                      && (mark.tick < l.range.value.tickLower || mark.tick >= l.range.value.tickUpper)))
  {
    hide RangeAmounts, Value, IlTotal;
    var (base, quote) := Principal(m, l, mark);
    ValueAdds(m, base, quote, l.idleBase, l.idleQuote, mark.price);
    ValueAdds(m, base + l.idleBase, quote + l.idleQuote, l.feesBase, l.feesQuoteRaw, mark.price);
  }

  // ---- The rebalances made, and what they lost ----

  /** A committed rebalance: the observation, the range and the liquidity minted. */
  datatype Mint = Mint(snapshot: Snapshot, target: Target, liquidity: int)

  predicate ValidMint(x: Mint) {
    ValidSnapshot(x.snapshot) && ValidTarget(x.target) && x.liquidity > 0
  }

  predicate ValidHistory(history: seq<Mint>) {
    forall i :: 0 <= i < |history| ==> ValidMint(history[i])
  }

  /** The value a mint's rounding lost, at the price of its observation. */
  function MintDust(m: Metadata, x: Mint): real
    requires ValidMint(x)
  {
    var (dustBase, dustQuote) := DustOf(m, x.snapshot, x.target, x.liquidity);
    Value(m, dustBase, dustQuote, x.snapshot.price)
  }

  function TotalDust(m: Metadata, history: seq<Mint>): real
    requires ValidHistory(history)
  {
    if history == [] then 0.0
    else TotalDust(m, history[..|history| - 1]) + MintDust(m, history[|history| - 1])
  }

  /** The value of one raw unit of each token at every rebalance. */
  function TotalUnits(m: Metadata, history: seq<Mint>): real {
    if history == [] then 0.0
    else TotalUnits(m, history[..|history| - 1]) + Value(m, 1, 1, history[|history| - 1].snapshot.price)
  }

  lemma TotalDustAppend(m: Metadata, history: seq<Mint>, x: Mint)
    requires ValidHistory(history) && ValidMint(x)
    ensures ValidHistory(history + [x])
    ensures TotalDust(m, history + [x]) == TotalDust(m, history) + MintDust(m, x)
  {
    hide MintDust;
    assert (history + [x])[..|history|] == history;
  }

  lemma MintDustBounds(m: Metadata, x: Mint)
    requires ValidMint(x)
    ensures 0.0 <= MintDust(m, x) <= Value(m, 1, 1, x.snapshot.price)
  {
    hide Value, RangeAmounts;
    RangeAmountsNonNegative(m, x.snapshot.sqrtPrice, x.target, x.liquidity);
    var d := DustOf(m, x.snapshot, x.target, x.liquidity);
    ValueMonotone(m, 0, 0, d.0, d.1, x.snapshot.price);
    ValueMonotone(m, d.0, d.1, 1, 1, x.snapshot.price);
    NoValue(m, x.snapshot.price);
  }

  lemma ValueMonotone(m: Metadata, b0: int, q0: int, b1: int, q1: int, price: real)
    requires b0 <= b1 && q0 <= q1 && price >= 0.0
    ensures Value(m, b0, q0, price) <= Value(m, b1, q1, price)
  {
    QuotientMonotone(b0 as real, b1 as real, RawUnits(m.baseDecimals));
    QuotientMonotone(q0 as real, q1 as real, RawUnits(m.quoteDecimals));
    ScaleReal(HumanBase(m, b0), HumanBase(m, b1), price);
  }

  lemma QuotientMonotone(a: real, b: real, d: real)
    requires a <= b && d > 0.0
    ensures a / d <= b / d
  {
    var x, y := a / d, b / d;
    assert x * d == a && y * d == b;
    if y < x { ScaleRealStrict(y, x, d); }
  }

  lemma {:induction false} DustBounds(m: Metadata, history: seq<Mint>)
    requires ValidHistory(history)
    ensures 0.0 <= TotalDust(m, history) <= TotalUnits(m, history)
  {
    hide MintDust, Value;
    if history != [] {
      DustBounds(m, history[..|history| - 1]);
      MintDustBounds(m, history[|history| - 1]);
    }
  }

  /** What the book reports as its reconciliation error after these rebalances. */
  function ReportedError(m: Metadata, capital: real, history: seq<Mint>): real
    requires ValidHistory(history)
  {
    InitialError(m, capital) - TotalDust(m, history)
  }

  /** The error never exceeds half a raw quote unit upward, nor that plus one raw unit of each token per rebalance
      downward. */
  lemma ErrorBounds(m: Metadata, capital: real, history: seq<Mint>)
    requires ValidHistory(history)
    ensures var half := 0.5 / RawUnits(m.quoteDecimals);
            -(half + TotalUnits(m, history)) <= ReportedError(m, capital, history) <= half
  {
    hide TotalDust, TotalUnits, InitialError;
    InitialErrorIsSmall(m, capital);
    DustBounds(m, history);
    HalfUnit(InitialError(m, capital), RawUnits(m.quoteDecimals));
  }

  lemma HalfUnit(x: real, p: real)
    requires p > 0.0 && -0.5 <= x * p <= 0.5
    ensures -(0.5 / p) <= x <= 0.5 / p
  {
    var half := 0.5 / p;
    assert half * p == 0.5;
    var least := 0.0 - half;
    assert least * p == -0.5;
    if x > half { ScaleRealStrict(half, x, p); }
    if x < least { ScaleRealStrict(x, least, p); }
  }

  /** The promise of 0.01% of capital holds whenever that much covers half a raw quote unit and one unit of each token
      per rebalance. */
  lemma ErrorWithinPromise(m: Metadata, capital: real, history: seq<Mint>)
    requires ValidHistory(history)
    requires 0.5 / RawUnits(m.quoteDecimals) + TotalUnits(m, history) <= capital / 10000.0
    ensures -(capital / 10000.0) <= ReportedError(m, capital, history) <= capital / 10000.0
  {
    hide TotalUnits, ReportedError, TotalDust;
    ErrorBounds(m, capital, history);
    DustBounds(m, history);
  }

  // ---- A rebalance that does not reconcile exactly ----

  lemma QuoteOnly(m: Metadata, quote: int, price: real)
    ensures Value(m, 0, quote, price) == HumanQuote(m, quote)
  {
  }

  /** 10000 units of a six-decimal quote token, which is token0 of the pool. */
  const OPENING: Ledger := EMPTY_LEDGER.(idleQuote := 10_000_000_000)
  const STABLE: Metadata := Metadata(18, 6, false)
  const NO_SWAP: RatioSwap := RatioSwap(None, 0, 0)
  const NARROW: Target := Target(0, 1, 1.0)
  const OPENED: int := 200_014_999_875_006

  /** Minting one tick above the price with that capital charges all of it, and would return one raw unit less. */
  lemma OpeningAmounts(s: Snapshot)
    requires s.sqrtPrice == Q96
    ensures Affordable(STABLE, s, NARROW, 0, OPENING.idleQuote) == OPENED
    ensures DustOf(STABLE, s, NARROW, OPENED) == (0, 1)
  {
    hide Ratio, FloorDiv, CeilDiv, GetAmount0Delta, GetAmount1Delta;
    RatioEnds();
    RatioOfOne();
    var lo, hi := Ratio(0), Ratio(1);
    FloorIs(lo * hi, Q96, hi);
    FloorIs(OPENING.idleQuote * hi, hi - lo, OPENED);
    Amount0DeltaRoundsOnce(lo, hi, OPENED, true);
    Amount0DeltaRoundsOnce(lo, hi, OPENED, false);
    CeilIs(OPENED * Q96 * (hi - lo), lo * hi, 10_000_000_000);
    FloorIs(OPENED * Q96 * (hi - lo), lo * hi, 9_999_999_999);
  }

  lemma NoCapitalError()
    ensures InitialQuote(STABLE, 10000.0) == OPENING.idleQuote && InitialError(STABLE, 10000.0) == 0.0
  {
    SixDecimals();
    assert (10000.0 * 1000000.0).Floor == 10_000_000_000;
  }

  lemma SixDecimals()
    ensures RawUnits(6) == 1000000.0
  {
    assert Pow10(3) == 1000.0;
    assert Pow10(6) == 10.0 * (10.0 * (10.0 * Pow10(3)));
  }

  /** Opening that range leaves value and capital plus PnL one raw quote unit apart, although the capital was exact. */
  lemma OpeningDoesNotReconcile(s: Snapshot, gasCost: real)
    requires ValidSnapshot(s) && s.sqrtPrice == Q96
    ensures var e := RebalanceEvent(0, Open, NO_SWAP, 0.0, gasCost, 0.0, s.blockNumber);
            && ValidLedger(OPENING) && Truthful(STABLE, OPENING, s, e)
            && Collected(STABLE, OPENING, s) == (0, OPENING.idleQuote)
            && Rebalanced(STABLE, OPENING, s, NARROW, e).liquidity == OPENED
            && ValidLedger(Rebalanced(STABLE, OPENING, s, NARROW, e))
            && Residual(STABLE, OPENING, 10000.0, s) == 0.0
            && Residual(STABLE, Rebalanced(STABLE, OPENING, s, NARROW, e), 10000.0, s) == -0.000001
  {
    hide Affordable, DustOf, RangeAmounts, Residual, RawUnits;
    var e := RebalanceEvent(0, Open, NO_SWAP, 0.0, gasCost, 0.0, s.blockNumber);
    OpeningAmounts(s);
    NoCapitalError();
    SixDecimals();
    ResidualWithoutPrincipal(STABLE, OPENING, 10000.0, s);
    NoValue(STABLE, s.price);
    QuoteOnly(STABLE, OPENING.idleQuote, s.price);
    QuoteOnly(STABLE, 1, s.price);
    RebalanceLosesDust(STABLE, OPENING, 10000.0, s, NARROW, e);
  }

  // ---- The reconciled book ----

  datatype Checkpoint = Checkpoint(ledger: Ledger, lastState: Option<PositionState>, meta: Option<Metadata>)

  /** The history is the ledger's: one mint per epoch, the last of them the open position. */
  predicate Recorded(l: Ledger, history: seq<Mint>) {
    && ValidHistory(history) && |history| == l.epoch
    && (history == [] ==> l.liquidity == 0)
    && (history != [] ==>
          var last := history[|history| - 1]; l.range == Some(last.target) && l.liquidity == last.liquidity)
  }

  /** The ledger reconciles up to the capital rounding and the dust of exactly the rebalances made. */
  ghost predicate Reconciled(meta: Option<Metadata>, l: Ledger, capital: real, history: seq<Mint>) {
    && ValidLedger(l) && Recorded(l, history)
    && (meta.None? ==> l.(note := NoNote) == EMPTY_LEDGER)
    && (meta.Some? && l.last.None? ==>
         l.(note := NoNote) == EMPTY_LEDGER.(idleQuote := InitialQuote(meta.value, capital)))
    && (meta.Some? && l.last.Some? ==>
          Residual(meta.value, l, capital, l.last.value) == ReportedError(meta.value, capital, history))
  }

  /** An initialized book that has not seen a usable snapshot is worth its idle quote at any price. */
  lemma UnopenedResidual(m: Metadata, l: Ledger, capital: real, s: Snapshot)
    requires ValidLedger(l) && Reconciled(Some(m), l, capital, []) && l.last.None?
    ensures Residual(m, l, capital, s) == ReportedError(m, capital, [])
  {
    hide Residual, InitialQuote, Value, HumanQuote;
    ResidualWithoutPrincipal(m, l, capital, s);
    NoValue(m, s.price);
    QuoteOnly(m, l.idleQuote, s.price);
  }

  lemma AddDust(m: Metadata, capital: real, history: seq<Mint>, x: Mint)
    requires ValidHistory(history) && ValidMint(x)
    ensures ValidHistory(history + [x])
    ensures var (dustBase, dustQuote) := DustOf(m, x.snapshot, x.target, x.liquidity);
            ReportedError(m, capital, history + [x])
            == ReportedError(m, capital, history) - Value(m, dustBase, dustQuote, x.snapshot.price)
  {
    hide DustOf, Value, InitialError;
    TotalDustAppend(m, history, x);
  }

  /** The parts of a ledger that accrual leaves alone. */
  predicate SamePosition(a: Ledger, b: Ledger) {
    a.last == b.last && a.epoch == b.epoch && a.range == b.range && a.liquidity == b.liquidity
  }

  lemma AccrualIgnoresNote(m: Metadata, l: Ledger, prev: Snapshot, cur: Snapshot, fees: (nat, nat), note: Note)
    ensures Accrued(m, l.(note := note), prev, cur, fees).(note := l.note) == Accrued(m, l, prev, cur, fees)
  {
    hide Value, HumanBase;
  }

  lemma InitializesReconciled(m: Metadata, l: Ledger, capital: real, history: seq<Mint>)
    requires Reconciled(None, l, capital, history) && capital >= 0.0
    ensures Reconciled(Some(m), l.(idleQuote := InitialQuote(m, capital)), capital, history)
  {
    InitialQuoteNonNegative(m, capital);
    hide InitialQuote, Residual, ReportedError;
  }

  /** A rebalance commits the fitting swap, completed, and a mint of all the liquidity the balances then buy. */
  ghost predicate Committed(m: Metadata, l: Ledger, s: Snapshot, t: Target, e: RebalanceEvent, l': Ledger)
    requires ValidLedger(l) && ValidSnapshot(s) && ValidTarget(t)
  {
    && s.window.Some? && !NothingToValue(m, l, s, t)
    && SwapFits(m, l, s, t, e.swap.sellsBase, e.swap.swapIn) && SwapCompleted(m, l, s, e.swap) && Truthful(m, l, s, e)
    && e.epochFrom == l.epoch && e.blockNumber == s.blockNumber
    && Collected(m, l, s).0 + BaseDelta(e.swap) >= 0 && Collected(m, l, s).1 + QuoteDelta(e.swap) >= 0
    && l' == Rebalanced(m, l, s, t, e) && l'.liquidity > 0 && TokensMoved(m, l, s, t, e, l')
  }

  /** Every token collected and swapped is idle or in the new position, the uncollected fees are gone, and the running
      totals grow by what the event reports. */
  ghost predicate TokensMoved(m: Metadata, l: Ledger, s: Snapshot, t: Target, e: RebalanceEvent, l': Ledger)
    requires ValidLedger(l) && ValidTarget(t)
  {
    && l'.liquidity >= 0
    && (var (base, quote) := RangeAmounts(m, s.sqrtPrice, t, l'.liquidity, true);
        && l'.idleBase + base == Collected(m, l, s).0 + BaseDelta(e.swap)
        && l'.idleQuote + quote == Collected(m, l, s).1 + QuoteDelta(e.swap))
    && (l'.openBase, l'.openQuote) == RangeAmounts(m, s.sqrtPrice, t, l'.liquidity, false)
    && l'.feesBase == 0 && l'.feesQuoteRaw == 0 && l'.feesQuote == l.feesQuote && l'.hodlPnl == l.hodlPnl
    && l'.swapCost == l.swapCost + e.swapCost && l'.gasCost == l.gasCost + e.gasCost
    && l'.ilRealized == l.ilRealized + e.realizedIl
    && l'.rebalanceCount == l.rebalanceCount + (if e.reason == Open then 0 else 1)
  }

  /** The ledger at the start of a step: the capital on the first one, no note. */
  function Opened(meta: Option<Metadata>, l: Ledger, m: Metadata, capital: real): Ledger {
    l.(idleQuote := if meta.None? then InitialQuote(m, capital) else l.idleQuote, note := NoNote)
  }

  /** The ledger a step on fresh data decides on: the interval since the last observation is accrued. */
  function Entering(meta: Option<Metadata>, l: Ledger, m: Metadata, capital: real, s: Snapshot,
                    fees: (nat, nat)): Ledger
  {
    var start := Opened(meta, l, m, capital);
    if start.last.Some? then Accrued(m, start, start.last.value, s, fees) else start
  }

  /** Up to where a step decides, the book reconciles with the rebalances made so far. */
  lemma EnteringReconciles(meta: Option<Metadata>, l: Ledger, m: Metadata, capital: real, s: Snapshot,
                           fees: (nat, nat), history: seq<Mint>)
    requires Reconciled(meta, l, capital, history) && capital >= 0.0 && (meta.Some? ==> meta.value == m)
    requires ValidSnapshot(s)
    ensures Reconciled(Some(m), Opened(meta, l, m, capital), capital, history)
    ensures ValidLedger(Opened(meta, l, m, capital))
    ensures var e := Entering(meta, l, m, capital, s, fees);
            && ValidLedger(e) && Recorded(e, history) && ValidHistory(history) && e.last == l.last
            && Residual(m, e, capital, s) == ReportedError(m, capital, history)
  {
    hide Residual, InitialQuote, ReportedError, Accrued;
    if meta.None? { InitializesReconciled(m, l, capital, history); }
    var named := l.(idleQuote := if meta.None? then InitialQuote(m, capital) else l.idleQuote);
    assert Reconciled(Some(m), named, capital, history);
    NoteIsFree(m, named, capital, NoNote);
    var start := Opened(meta, l, m, capital);
    assert Reconciled(Some(m), start, capital, history);
    if start.last.Some? {
      AccrualReconciles(m, start, capital, start.last.value, s, fees);
      AccrualKeeps(m, start, start.last.value, s, fees);
    } else {
      UnopenedResidual(m, start, capital, s);
    }
  }

  lemma AccrualKeeps(m: Metadata, l: Ledger, prev: Snapshot, cur: Snapshot, fees: (nat, nat))
    ensures SamePosition(Accrued(m, l, prev, cur, fees), l)
  {
    hide Value, HumanBase;
  }

  /** A book that reconciles at an observation does so whatever its note, and reports the same error. */
  lemma ClosesReconciled(m: Metadata, l: Ledger, capital: real, s: Snapshot, history: seq<Mint>, note: Note,
                         killSwitch: bool)
    requires ValidLedger(l) && Recorded(l, history) && ValidSnapshot(s)
    requires Residual(m, l, capital, s) == ReportedError(m, capital, history)
    ensures var closed := l.(note := note, last := Some(s));
            && Reconciled(Some(m), closed, capital, history) && ValidLedger(closed)
            && StateOf(m, closed, capital, s, killSwitch, s).reconciliationError
               == ReportedError(m, capital, history)
  {
    hide Residual, ReportedError, StateOf;
    NoteIsFree(m, l, capital, note);
    LastIsFree(m, l.(note := note), capital, s);
    StateShowsResidual(m, l.(note := note, last := Some(s)), capital, s, killSwitch, s);
  }

  /** On stale data the book is marked where it last reconciled. */
  lemma StaleReconciles(m: Metadata, l: Ledger, capital: real, s: Snapshot, history: seq<Mint>, killSwitch: bool)
    requires Reconciled(Some(m), l, capital, history) && ValidLedger(l)
    ensures var stale := l.(note := StaleData);
            var mark := if l.last.Some? then l.last.value else s;
            && Reconciled(Some(m), stale, capital, history) && ValidLedger(stale)
            && StateOf(m, stale, capital, mark, killSwitch, s).reconciliationError
               == ReportedError(m, capital, history)
  {
    hide Residual, ReportedError, StateOf, InitialQuote;
    var stale := l.(note := StaleData);
    NoteIsFree(m, l, capital, StaleData);
    if l.last.None? { UnopenedResidual(m, stale, capital, s); }
    StateShowsResidual(m, stale, capital, if l.last.Some? then l.last.value else s, killSwitch, s);
  }

  /** A committed rebalance is added to the history, and the book reconciles with it. */
  lemma MintReconciles(m: Metadata, before: Ledger, after: Ledger, capital: real, s: Snapshot, t: Target,
                       history: seq<Mint>)
    requires ValidLedger(before) && Recorded(before, history) && ValidSnapshot(s) && ValidTarget(t)
    requires ValidLedger(after) && after.epoch == before.epoch + 1 && after.range == Some(t) && after.liquidity > 0
    requires Residual(m, before, capital, s) == ReportedError(m, capital, history)
    requires var (dustBase, dustQuote) := DustOf(m, s, t, after.liquidity);
             Residual(m, after, capital, s)
             == Residual(m, before, capital, s) - Value(m, dustBase, dustQuote, s.price)
    ensures var grown := history + [Mint(s, t, after.liquidity)];
            && ValidHistory(grown) && Recorded(after, grown)
            && Residual(m, after, capital, s) == ReportedError(m, capital, grown)
  {
    hide Residual, ReportedError, DustOf, Value;
    AddDust(m, capital, history, Mint(s, t, after.liquidity));
  }

  /** A step on fresh data skips or commits exactly as its decision, the window and the balances say. */
  ghost predicate Stepped(m: Metadata, l: Ledger, s: Snapshot, decision: Option<(Reason, Target)>,
                          event: Option<RebalanceEvent>, l': Ledger)
    requires ValidSnapshot(s) && (decision.Some? ==> ValidTarget(decision.value.1))
  {
    && ValidLedger(l)
    && l'.last == Some(s)
    && match decision
       case None => event.None? && l' == l.(last := Some(s))
       case Some((reason, t)) =>
         && (event.None? <==> SkipNote(m, l, s, t).Some?)
         && (event.None? ==> l' == l.(last := Some(s), note := SkipNote(m, l, s, t).value))
         && (event.Some? ==> event.value.reason == reason && Committed(m, l, s, t, event.value, l'.(last := l.last)))
  }

  /** A step fails exactly when a rebalance is due whose swap simulation fails. */
  ghost predicate StepFails(m: Metadata, l: Ledger, s: Snapshot, decision: Option<(Reason, Target)>)
    requires ValidSnapshot(s) && (decision.Some? ==> ValidTarget(decision.value.1))
  {
    ValidLedger(l) && decision.Some? && SwapFails(m, l, s, decision.value.1)
  }

  /** The cost of the gas units at the block's base fee and the priority fee, or at the fallback price. */
  predicate GasPaid(cost: real, units: int, priorityFeeWei: int, fallbackWei: int, s: Snapshot) {
    var wei := if s.baseFeeWei.Some? then s.baseFeeWei.value + priorityFeeWei else fallbackWei;
    cost * 1_000_000_000_000_000_000.0 == (units * wei) as real * s.price
  }

  lemma GasInWei(eth: real, wei: real, price: real)
    requires eth == wei / 1_000_000_000_000_000_000.0
    ensures eth * price * 1_000_000_000_000_000_000.0 == wei * price
  {
  }

  class Book {
    const capital: real
    const gasUnits: int
    const priorityFeeWei: int
    const fallbackGasPriceWei: int
    var meta: Option<Metadata>
    var ledger: Ledger
    var lastState: Option<PositionState>
    ghost var history: seq<Mint>                   // the rebalances made, oldest first
    ghost var saved: map<Checkpoint, seq<Mint>>    // the checkpoints taken, each with the history it was taken at

    /** The ledger reconciles with the rebalances made. */
    ghost predicate Valid()
      reads this
    {
      Reconciled(meta, ledger, capital, history)
    }

    /** Every checkpoint taken was of a reconciled book. */
    ghost predicate Recoverable()
      reads this
    {
      forall c :: c in saved ==> Reconciled(c.meta, c.ledger, capital, saved[c])
    }

    constructor (capital: real, gasUnits: int, priorityFeeWei: int, fallbackGasPriceWei: int)
      requires capital >= 0.0
      ensures Valid() && Recoverable() && this.capital == capital && meta == None && history == [] && saved == map[]
    {
      this.capital := capital;
      this.gasUnits := gasUnits;
      this.priorityFeeWei := priorityFeeWei;
      this.fallbackGasPriceWei := fallbackGasPriceWei;
      meta, ledger, lastState, history, saved := None, EMPTY_LEDGER, None, [], map[];
    }

    method GetCheckpoint() returns (c: Checkpoint)
      requires Valid() && Recoverable()
      modifies this`saved
      ensures c == Checkpoint(ledger, lastState, meta) && saved == old(saved)[c := history] && Recoverable()
    {
      hide Reconciled;
      c := Checkpoint(ledger, lastState, meta);
      saved := saved[c := history];
    }

    /** Returning to a checkpoint this book gave, from whatever state, brings back the reconciled book it was, with
        the rebalances made until then; any other checkpoint is taken as it is. */
    method Restore(c: Checkpoint)
      requires Recoverable()
      modifies this`ledger, this`lastState, this`meta, this`history
      ensures ledger == c.ledger && lastState == c.lastState && meta == c.meta
      ensures c in saved ==> Valid() && history == saved[c]
      ensures Recoverable()
    {
      hide Reconciled;
      ledger, lastState, meta := c.ledger, c.lastState, c.meta;
      if c in saved {
        history := saved[c];
      }
    }

    /** Gas is paid in base, 10^18 wei to one, and valued at the pool price. */
    method GasCostQuote(s: Snapshot) returns (cost: real)
      ensures GasPaid(cost, gasUnits, priorityFeeWei, fallbackGasPriceWei, s)
    {
      var gasPriceWei := if s.baseFeeWei.Some? then s.baseFeeWei.value + priorityFeeWei else fallbackGasPriceWei;
      var costEth := (gasUnits * gasPriceWei) as real / 1_000_000_000_000_000_000.0;
      cost := costEth * s.price;
      GasInWei(costEth, (gasUnits * gasPriceWei) as real, s.price);
    }

    method Initialize(m: Metadata)
      requires Valid() && meta.None? && capital >= 0.0
      modifies this`meta, this`ledger
      ensures Valid() && meta == Some(m)
      ensures ledger == old(ledger).(idleQuote := InitialQuote(m, capital))
    {
      hide RoundHalfEven, RawUnits, Reconciled;
      InitializesReconciled(m, ledger, capital, history);
      meta := Some(m);
      ledger := ledger.(idleQuote := RoundHalfEven(capital * RawUnits(m.quoteDecimals)));
    }

    method Accrue(prev: Snapshot, cur: Snapshot, fees: (nat, nat))
      requires meta.Some? && ValidLedger(ledger)
      modifies this`ledger
      ensures ledger == Accrued(meta.value, old(ledger), prev, cur, fees)
      ensures ValidLedger(ledger)
      ensures Residual(meta.value, ledger, capital, cur) == Residual(meta.value, old(ledger), capital, prev)
      ensures SamePosition(ledger, old(ledger))
    {
      hide HumanBase, Value, Residual, ValidLedger;
      AccrualReconciles(meta.value, ledger, capital, prev, cur, fees);
      var heldBase := ledger.openBase + ledger.idleBase + ledger.feesBase;
      ledger := ledger.(hodlPnl := ledger.hodlPnl + HumanBase(meta.value, heldBase) * (cur.price - prev.price));
      if ledger.liquidity <= 0 || ledger.range.None? {
        return;
      }
      var (feeBase, feeQuote) := ToBaseQuote(meta.value, fees);
      ledger := ledger.(feesBase := ledger.feesBase + feeBase);
      ledger := ledger.(feesQuoteRaw := ledger.feesQuoteRaw + feeQuote);
      ledger := ledger.(feesQuote := ledger.feesQuote + Value(meta.value, feeBase, feeQuote, cur.price));
    }

    /** Chooses and simulates the swap toward the token ratio the target range needs. */
    method SwapTowardRatio(s: Snapshot, t: Target) returns (r: Result<Option<RatioSwap>>, note: Note)
      requires meta.Some? && ValidLedger(ledger) && ValidSnapshot(s) && s.window.Some? && ValidTarget(t)
      ensures NothingToValue(meta.value, ledger, s, t) ==> r == Ok(None) && note == BelowMinimum
      ensures !NothingToValue(meta.value, ledger, s, t) ==>
                var m := meta.value;
                var q := Executed(m, ledger, s, t);
                if q.Err? then r == Err(q.error)
                else if SwapLimited(m, ledger, s, t) then
                  r == Ok(None) && note == SwapHitLimit(q.value.value.limitReason.value)
                else
                  r == Ok(Some(Swapped(m, ledger, s, t)))
    {
      hide Simulation, RangeAmounts, AtTick, SwapFits, SaleFits, Value, Excess, HumanBase, HumanQuote, NothingToValue,
          ToRaw, Collected, Executed, SwapLimited, Swapped, SwapChoice;
      var m := meta.value;
      note := NoNote;
      var (base, quote) := Collected(m, ledger, s);
      CollectedNonNegative(m, ledger, s);
      var valueBefore := Value(m, base, quote, s.price);
      var (unitBase, unitQuote) := RangeAmounts(m, s.sqrtPrice, t, UNIT_LIQUIDITY, true);
      ExcessIs(m, ledger, s, t, (unitBase, unitQuote));
      var unitBaseValue := HumanBase(m, unitBase) * s.price;
      var unitTotal := unitBaseValue + HumanQuote(m, unitQuote);
      if unitTotal <= 0.0 || valueBefore <= 0.0 {
        return Ok(None), BelowMinimum;
      }
      var targetBaseValue := valueBefore * unitBaseValue / unitTotal;
      var excess := HumanBase(m, base) * s.price - targetBaseValue;
      var swap := RatioSwap(None, 0, 0);
      var magnitude := if excess < 0.0 then -excess else excess;
      SwapChoiceIs(m, ledger, s, t);
      assert excess == Excess(m, ledger, s, t);
      ghost var choice := Sale(m, base, quote, valueBefore, excess, s.price);
      ExecutedIs(m, ledger, s, t, choice.0, choice.1);
      if magnitude > valueBefore * MIN_SWAP_VALUE_FRACTION {
        var sellsBase := excess > 0.0;
        var swapIn: int;
        if sellsBase {
          swapIn := Min(ToRaw(excess / s.price, m.baseDecimals), base);
        } else {
          swapIn := Min(ToRaw(-excess, m.quoteDecimals), quote);
        }
        swap := swap.(sellsBase := Some(sellsBase), swapIn := swapIn);
        if swapIn > 0 {
          var zeroForOne := sellsBase == m.baseIsToken0;
          var simulated := SimulateExactInput(PoolStateFrom(s), s.window.value, zeroForOne, swapIn, None);
          if simulated.Err? {
            return Err(simulated.error), NoNote;
          }
          var q := simulated.value;
          if q.limitReason.Some? {
            return Ok(None), SwapHitLimit(q.limitReason.value);
          }
          swap := swap.(swapOut := q.amountOut);
        }
      }
      r := Ok(Some(swap));
    }

    /** Burns, swaps and mints into the target range; a skipped or failing rebalance changes nothing but the note. */
    method Rebalance(s: Snapshot, t: Target, reason: Reason) returns (r: Result<Option<RebalanceEvent>>)
      requires meta.Some? && ValidLedger(ledger) && ValidSnapshot(s) && ValidTarget(t)
      modifies this`ledger
      ensures ValidLedger(ledger)
      ensures r.Err? <==> SwapFails(meta.value, old(ledger), s, t)
      ensures r.Err? ==> ledger == old(ledger) && r.error == Executed(meta.value, old(ledger), s, t).error
      ensures r == Ok(None) <==> SkipNote(meta.value, old(ledger), s, t).Some?
      ensures r == Ok(None) ==>
                ledger == old(ledger).(note := SkipNote(meta.value, old(ledger), s, t).value)
      ensures r.Ok? && r.value.Some? ==>
                ledger.last == old(ledger).last && ledger.range == Some(t) && ledger.epoch == old(ledger).epoch + 1
      ensures r.Ok? && r.value.Some? ==>
                var m, e := meta.value, r.value.value;
                && Committed(m, old(ledger), s, t, e, ledger) && e.reason == reason
                && GasPaid(e.gasCost, gasUnits, priorityFeeWei, fallbackGasPriceWei, s)
                && ledger.liquidity > 0
                && var (dustBase, dustQuote) := DustOf(m, s, t, ledger.liquidity);
                   && 0 <= dustBase <= 1 && 0 <= dustQuote <= 1
                   && Residual(m, ledger, capital, s)
                        == Residual(m, old(ledger), capital, s) - Value(m, dustBase, dustQuote, s.price)
    {
      hide Simulation, RangeAmounts, Value, AtTick, Residual, Affordable, Principal, SwapCompleted, BaseDelta,
          QuoteDelta, DustOf, NothingToValue, Executed, SwapLimited, Swapped, SwapFits;
      var m := meta.value;
      if s.window.None? {
        ledger := ledger.(note := WaitingForWindow);
        return Ok(None);
      }
      var (principalBase, principalQuote) := Principal(m, ledger, s);
      var realizedIl := Value(m, principalBase, principalQuote, s.price)
          - Value(m, ledger.openBase, ledger.openQuote, s.price);
      var (collectedBase, collectedQuote) := Collected(m, ledger, s);
      var valueBefore := Value(m, collectedBase, collectedQuote, s.price);
      var swapped, note := SwapTowardRatio(s, t);
      if swapped.Err? {
        return Err(swapped.error);
      }
      if swapped.value.None? {
        ledger := ledger.(note := note);
        return Ok(None);
      }
      SwappedCompletes(m, ledger, s, t);
      var swap := swapped.value.value;
      var idleBase: nat, idleQuote: nat := collectedBase + BaseDelta(swap), collectedQuote + QuoteDelta(swap);
      var swapCost := valueBefore - Value(m, idleBase, idleQuote, s.price);

      AffordableFits(m, s, t, idleBase, idleQuote);
      var offered := Affordable(m, s, t, idleBase, idleQuote);
      var liquidity, need, satisfied := FitLiquidity(m, s, t, offered, idleBase, idleQuote);
      assert satisfied;
      if liquidity <= 0 {
        ledger := ledger.(note := BelowMinimum);
        return Ok(None);
      }
      var open := RangeAmounts(m, s.sqrtPrice, t, liquidity, false);
      var gasCost := GasCostQuote(s);

      var event := RebalanceEvent(ledger.epoch, reason, swap, swapCost, gasCost,
                                  if ledger.liquidity > 0 then realizedIl else 0.0, s.blockNumber);
      RebalanceLosesDust(m, ledger, capital, s, t, event);
      ledger := ledger.(ilRealized := ledger.ilRealized + event.realizedIl);
      ledger := ledger.(idleBase := idleBase - need.0, idleQuote := idleQuote - need.1);
      ledger := ledger.(feesBase := 0, feesQuoteRaw := 0);
      ledger := ledger.(liquidity := liquidity, range := Some(t));
      ledger := ledger.(openBase := open.0, openQuote := open.1);
      ledger := ledger.(swapCost := ledger.swapCost + swapCost, gasCost := ledger.gasCost + gasCost);
      ledger := ledger.(epoch := ledger.epoch + 1);
      if reason != Open {
        ledger := ledger.(rebalanceCount := ledger.rebalanceCount + 1);
      }
      r := Ok(Some(event));
    }

    /** Advances the book by one pool observation. The reported reconciliation error is the capital rounding less the
        dust of every rebalance made; only a committed rebalance adds to them. When its swap simulation fails, the
        interval is accrued but not closed: the book reconciles at this observation while `last` is still the one
        before. */
    method Step(s: Snapshot, metadata: Metadata, decision: Option<(Reason, Target)>, killSwitch: bool, fees: (nat, nat))
      returns (r: Result<(PositionState, Option<RebalanceEvent>)>)
      requires Valid() && Recoverable() && capital >= 0.0 && ValidSnapshot(s)
      requires meta.Some? ==> metadata == meta.value
      requires decision.Some? ==> ValidTarget(decision.value.1)
      modifies this`meta, this`ledger, this`lastState, this`history
      ensures meta == Some(metadata) && Recoverable()
      ensures ValidHistory(history) && ValidLedger(ledger)
      ensures r.Ok? ==>
                && Valid()
                && r.value.0.reconciliationError == ReportedError(metadata, capital, history)
                && lastState == Some(r.value.0)
                && (var mark := if s.isStale && ledger.last.Some? then ledger.last.value else s;
                    r.value.0 == StateOf(metadata, ledger, capital, mark, killSwitch, s))
      ensures r.Ok? && r.value.1.None? ==> history == old(history)
      ensures r.Ok? && r.value.1.Some? ==>
                && !s.isStale && decision.Some? && ledger.liquidity > 0
                && history == old(history) + [Mint(s, decision.value.1, ledger.liquidity)]
      ensures s.isStale ==>
                && r.Ok? && r.value.1.None?
                && ledger == Opened(old(meta), old(ledger), metadata, capital).(note := StaleData)
      ensures !s.isStale ==>
                var l := Entering(old(meta), old(ledger), metadata, capital, s, fees);
                && (r.Err? <==> StepFails(metadata, l, s, decision))
                && (r.Ok? ==> Stepped(metadata, l, s, decision, r.value.1, ledger))
      ensures r.Ok? && r.value.1.Some? ==>
                GasPaid(r.value.1.value.gasCost, gasUnits, priorityFeeWei, fallbackGasPriceWei, s)
      ensures r.Err? ==>
                && !s.isStale && decision.Some? && ledger.last == old(ledger).last
                && history == old(history) && lastState == old(lastState)
                && Residual(metadata, ledger, capital, s) == ReportedError(metadata, capital, history)
                && ledger == Entering(old(meta), old(ledger), metadata, capital, s, fees)
    {
      hide RangeAmounts, Value, Residual, DustOf, AtTick, StateOf, ReportedError, Accrued, InitialQuote, SkipNote,
          SwapFails, GasPaid, Committed, Reconciled, Recorded, ValidSnapshot;
      EnteringReconciles(meta, ledger, metadata, capital, s, fees, history);
      if meta.None? {
        Initialize(metadata);
      }
      ledger := ledger.(note := NoNote);
      assert ledger == Opened(old(meta), old(ledger), metadata, capital);
      if s.isStale {
        StaleReconciles(metadata, ledger, capital, s, history, killSwitch);
        ledger := ledger.(note := StaleData);
        var mark := if ledger.last.Some? then ledger.last.value else s;
        var state := StateOf(metadata, ledger, capital, mark, killSwitch, s);
        lastState := Some(state);
        return Ok((state, None));
      }
      if ledger.last.Some? {
        Accrue(ledger.last.value, s, fees);
      }
      ghost var before := ledger;
      assert before == Entering(old(meta), old(ledger), metadata, capital, s, fees);
      var event: Option<RebalanceEvent> := None;
      if decision.Some? {
        var rebalanced := Rebalance(s, decision.value.1, decision.value.0);
        if rebalanced.Err? {
          return Err(rebalanced.error);
        }
        event := rebalanced.value;
        if event.Some? {
          MintReconciles(metadata, before, ledger, capital, s, decision.value.1, history);
          history := history + [Mint(s, decision.value.1, ledger.liquidity)];
        }
      }
      ClosesReconciled(metadata, if event.Some? then ledger else before, capital, s, history, ledger.note, killSwitch);
      ledger := ledger.(last := Some(s));
      var state := StateOf(metadata, ledger, capital, s, killSwitch, s);
      lastState := Some(state);
      r := Ok((state, event));
    }
  }

  /** Taking a checkpoint, stepping and going back, as the loop does when it cannot store a tick, undoes the step
      whatever it did: even one that failed half way. */
  method StepAndGoBack(book: Book, s: Snapshot, metadata: Metadata, decision: Option<(Reason, Target)>,
                       killSwitch: bool, fees: (nat, nat))
    requires book.Valid() && book.Recoverable() && book.capital >= 0.0 && ValidSnapshot(s)
    requires book.meta.Some? ==> metadata == book.meta.value
    requires decision.Some? ==> ValidTarget(decision.value.1)
    modifies book
    ensures book.Valid() && book.Recoverable()
    ensures book.ledger == old(book.ledger) && book.lastState == old(book.lastState) && book.meta == old(book.meta)
    ensures book.history == old(book.history)
  {
    hide Reconciled, StateOf, Accrued, ReportedError;
    var c := book.GetCheckpoint();
    var _ := book.Step(s, metadata, decision, killSwitch, fees);
    book.Restore(c);
  }
}
