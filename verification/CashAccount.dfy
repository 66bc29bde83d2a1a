/** The average-cost cash account behind the paper broker, and its PnL. */
module CashAccount {
  import opened Results
  import opened RealMath

  datatype Side = Bid | Ask

  datatype Quote = Quote(side: Side, price: real, size: real, timestamp: int, quoteId: string)

  datatype Fill = Fill(side: Side, price: real, size: real, fee: real, timestamp: int, quoteId: string)

  function MakerFee(notional: real, feeBps: real): real {
    notional * (feeBps / 10000.0)
  }

  datatype Account = Account(base: real, quote: real, averageEntry: real, realizedPnl: real, totalFees: real)

  /** A fill is refused when the account cannot pay for it or does not hold what it sells. */
  predicate Accepts(a: Account, f: Fill) {
    if f.side == Bid then a.quote >= f.price * f.size + f.fee else a.base >= f.size
  }

  /** What never changes: balances at cost, less realized PnL, plus fees paid. */
  function CostBasis(a: Account): real {
    a.quote + a.averageEntry * a.base - a.realizedPnl + a.totalFees
  }

  /** Average entry price after buying more: total entry cost over the new base. */
  function BlendedEntry(average: real, base: real, notional: real, newBase: real): real
    requires newBase > 0.0
  {
    (average * base + notional) / newBase
  }

  class InventoryTracker {
    var baseAmount: real
    var quoteAmount: real
    var averageEntryPrice: real
    var realizedPnl: real
    var totalFees: real
    var lastUpdated: Option<int>

    function State(): Account
      reads this
    {
      Account(baseAmount, quoteAmount, averageEntryPrice, realizedPnl, totalFees)
    }

    constructor (initialQuoteBalance: real)
      ensures State() == Account(0.0, initialQuoteBalance, 0.0, 0.0, 0.0)
      ensures CostBasis(State()) == initialQuoteBalance
    {
      baseAmount, quoteAmount, averageEntryPrice := 0.0, initialQuoteBalance, 0.0;
      realizedPnl, totalFees, lastUpdated := 0.0, 0.0, None;
    }

    method RestoreState(a: Account, at: Option<int>)
      modifies this
      ensures State() == a && lastUpdated == at
    {
      baseAmount, quoteAmount, averageEntryPrice := a.base, a.quote, a.averageEntry;
      realizedPnl, totalFees, lastUpdated := a.realizedPnl, a.totalFees, at;
    }

    /** Books a fill at average cost, or refuses it and changes nothing. */
    method ApplyFill(f: Fill, at: int) returns (accepted: bool)
      requires baseAmount >= 0.0 && f.size >= 0.0
      modifies this
      ensures accepted == Accepts(old(State()), f)
      ensures !accepted ==> State() == old(State()) && lastUpdated == old(lastUpdated)
      ensures CostBasis(State()) == CostBasis(old(State()))
      ensures accepted ==> State() == AfterFill(old(State()), f) && lastUpdated == Some(at)
      ensures accepted && f.side == Bid ==>
                && baseAmount == old(baseAmount) + f.size
                && quoteAmount == old(quoteAmount) - (f.price * f.size + f.fee)
                && realizedPnl == old(realizedPnl) && totalFees == old(totalFees) + f.fee
                && averageEntryPrice * baseAmount
                   == old(averageEntryPrice) * old(baseAmount) + f.price * f.size
                && (f.size == 0.0 ==> averageEntryPrice == old(averageEntryPrice))
      ensures accepted && f.side == Ask ==>
                && baseAmount == old(baseAmount) - f.size
                && quoteAmount == old(quoteAmount) + f.price * f.size - f.fee
                && realizedPnl == old(realizedPnl) + (f.price - old(averageEntryPrice)) * f.size
                && totalFees == old(totalFees) + f.fee
                && averageEntryPrice == if baseAmount > 0.0 then old(averageEntryPrice) else 0.0
      ensures accepted && f.side == Bid ==> quoteAmount >= 0.0
      ensures baseAmount >= 0.0
    {
      hide CostBasis, BlendedEntry, AfterFill;
      FillKeepsBasis(State(), f);
      var notional := f.price * f.size;
      if f.side == Bid {
        var totalCost := notional + f.fee;
        if quoteAmount < totalCost {
          return false;
        }
        totalFees := totalFees + f.fee;
        quoteAmount := quoteAmount - totalCost;
        var newBase := baseAmount + f.size;
        if newBase > 0.0 {
          averageEntryPrice := BlendedEntry(averageEntryPrice, baseAmount, notional, newBase);
        }
        baseAmount := newBase;
        lastUpdated := Some(at);
        BidBooks(old(State()), f);
        assert State() == AfterFill(old(State()), f);
        return true;
      }
      if baseAmount < f.size {
        return false;
      }
      totalFees := totalFees + f.fee;
      quoteAmount := quoteAmount + (notional - f.fee);
      if baseAmount > 0.0 {
        realizedPnl := realizedPnl + (f.price - averageEntryPrice) * f.size;
      }
      baseAmount := baseAmount - f.size;
      if baseAmount <= 0.0 {
        baseAmount := 0.0;
        averageEntryPrice := 0.0;
      }
      lastUpdated := Some(at);
      AskBooks(old(State()), f);
      assert State() == AfterFill(old(State()), f);
      return true;
    }
  }

  lemma AskKeepsBasis(average: real, base: real, price: real, size: real)
    ensures average * (base - size) == average * base - average * size
    ensures (price - average) * size == price * size - average * size
  {
  }

  // ---- PnL ----

  datatype Pnl = Pnl(realized: real, unrealized: real, fees: real, total: real)

  function ComputePnl(a: Account, mid: Option<real>): Pnl {
    var unrealized := if mid.Some? && a.base > 0.0 then a.base * (mid.value - a.averageEntry) else 0.0;
    Pnl(a.realizedPnl, unrealized, a.totalFees, a.realizedPnl + unrealized - a.totalFees)
  }

  /** Total PnL at any mid is the account's liquidation value less the balance it started with. */
  lemma TotalPnlIsLiquidation(a: Account, initialQuote: real, mid: real)
    requires CostBasis(a) == initialQuote && a.base >= 0.0
    ensures ComputePnl(a, Some(mid)).total == a.quote + a.base * mid - initialQuote
  {
    assert a.base * (mid - a.averageEntry) == a.base * mid - a.averageEntry * a.base;
  }

  // ---- Runs of fills ----

  /** The account after one fill, as ApplyFill leaves it. */
  function AfterFill(a: Account, f: Fill): Account {
    if !Accepts(a, f) then a
    else if f.side == Bid then
      var newBase := a.base + f.size;
      Account(newBase, a.quote - (f.price * f.size + f.fee),
              if newBase > 0.0 then BlendedEntry(a.averageEntry, a.base, f.price * f.size, newBase) else a.averageEntry,
              a.realizedPnl, a.totalFees + f.fee)
    else
      var newBase := a.base - f.size;
      Account(if newBase <= 0.0 then 0.0 else newBase, a.quote + (f.price * f.size - f.fee),
              if newBase <= 0.0 then 0.0 else a.averageEntry,
              if a.base > 0.0 then a.realizedPnl + (f.price - a.averageEntry) * f.size else a.realizedPnl,
              a.totalFees + f.fee)
  }

  /** What a fill adds to the balances, the realized PnL and the fees; a refused one adds nothing. */
  datatype Movement = Movement(base: real, quote: real, realized: real, fees: real)

  function MovementOf(a: Account, f: Fill): Movement {
    if !Accepts(a, f) then Movement(0.0, 0.0, 0.0, 0.0)
    else if f.side == Bid then Movement(f.size, 0.0 - (f.price * f.size + f.fee), 0.0, f.fee)
    else Movement(0.0 - f.size, f.price * f.size - f.fee, (f.price - a.averageEntry) * f.size, f.fee)
  }

  /** The movements of a run of fills, added up. */
  function MovementsOf(a: Account, fills: seq<Fill>): Movement
    decreases |fills|
  {
    if fills == [] then Movement(0.0, 0.0, 0.0, 0.0)
    else
      var first, rest := MovementOf(a, fills[0]), MovementsOf(AfterFill(a, fills[0]), fills[1..]);
      Movement(first.base + rest.base, first.quote + rest.quote, first.realized + rest.realized, first.fees + rest.fees)
  }

  /** One fill books exactly that; a bid adds its notional to the entry cost, an ask keeps the entry price until the
      base is gone. */
  lemma FillBooks(a: Account, f: Fill)
    requires a.base >= 0.0 && f.size >= 0.0
    ensures var b := AfterFill(a, f);
            var d := MovementOf(a, f);
            && b.base == a.base + d.base >= 0.0 && b.quote == a.quote + d.quote
            && b.realizedPnl == a.realizedPnl + d.realized && b.totalFees == a.totalFees + d.fees
            && (Accepts(a, f) && f.side == Bid ==>
                  && b.averageEntry * b.base == a.averageEntry * a.base + f.price * f.size
                  && (f.size == 0.0 ==> b.averageEntry == a.averageEntry))
            && (Accepts(a, f) && f.side == Ask ==> b.averageEntry == if b.base > 0.0 then a.averageEntry else 0.0)
  {
    var newBase := a.base + f.size;
    if newBase > 0.0 { BlendedEntryIs(a.averageEntry, a.base, f.price * f.size, newBase); }
    TimesZero(f.price, f.size);
    TimesZero(f.price - a.averageEntry, f.size);
    TimesZero(a.averageEntry, a.base);
  }

  lemma TimesZero(x: real, y: real)
    ensures y == 0.0 ==> x * y == 0.0
  {
  }

  lemma BlendedEntryIs(average: real, base: real, notional: real, newBase: real)
    requires newBase > 0.0
    ensures BlendedEntry(average, base, notional, newBase) * newBase == average * base + notional
    ensures newBase == base && notional == 0.0 ==> BlendedEntry(average, base, notional, newBase) == average
  {
    if newBase == base && notional == 0.0 {
      CancelReal(base, BlendedEntry(average, base, notional, newBase), average);
    }
  }

  lemma BidBooks(a: Account, f: Fill)
    requires a.base >= 0.0 && f.size >= 0.0 && Accepts(a, f) && f.side == Bid
    ensures var newBase := a.base + f.size;
            var entry := if newBase > 0.0 then BlendedEntry(a.averageEntry, a.base, f.price * f.size, newBase)
                else a.averageEntry;
            && AfterFill(a, f)
               == Account(newBase, a.quote - (f.price * f.size + f.fee), entry, a.realizedPnl, a.totalFees + f.fee)
            && entry * newBase == a.averageEntry * a.base + f.price * f.size
            && (f.size == 0.0 ==> entry == a.averageEntry)
  {
    FillBooks(a, f);
  }

  lemma AskBooks(a: Account, f: Fill)
    requires a.base >= 0.0 && f.size >= 0.0 && Accepts(a, f) && f.side == Ask
    ensures var newBase := a.base - f.size;
            var gain := (f.price - a.averageEntry) * f.size;
            && AfterFill(a, f)
               == Account(newBase, a.quote + (f.price * f.size - f.fee), if newBase <= 0.0 then 0.0 else a.averageEntry,
                          a.realizedPnl + gain, a.totalFees + f.fee)
            && (a.base <= 0.0 ==> gain == 0.0 && newBase == 0.0)
  {
    hide BlendedEntry;
    TimesZero(f.price - a.averageEntry, f.size);
  }

  /** Over any fills the balances, the realized PnL and the fees move by what the accepted ones booked, and bids
      realize nothing. */
  lemma {:induction false} RunBooks(a: Account, fills: seq<Fill>)
    requires a.base >= 0.0 && forall i :: 0 <= i < |fills| ==> fills[i].size >= 0.0
    ensures var end := AfterFills(a, fills);
            var d := MovementsOf(a, fills);
            && end.base == a.base + d.base >= 0.0 && end.quote == a.quote + d.quote
            && end.realizedPnl == a.realizedPnl + d.realized && end.totalFees == a.totalFees + d.fees
    ensures (forall i :: 0 <= i < |fills| ==> fills[i].side == Bid) ==>
              AfterFills(a, fills).realizedPnl == a.realizedPnl
    decreases |fills|
  {
    hide AfterFill;
    if fills != [] {
      FillBooks(a, fills[0]);
      RunBooks(AfterFill(a, fills[0]), fills[1..]);
    }
  }

  function AfterFills(a: Account, fills: seq<Fill>): Account
    decreases |fills|
  {
    if fills == [] then a else AfterFills(AfterFill(a, fills[0]), fills[1..])
  }

  lemma AfterFillsStep(a: Account, f: Fill, rest: seq<Fill>)
    ensures AfterFills(a, [f] + rest) == AfterFills(AfterFill(a, f), rest)
  {
    assert ([f] + rest)[1..] == rest;
  }

  lemma FillKeepsBasis(a: Account, f: Fill)
    requires a.base >= 0.0 && f.size >= 0.0
    ensures CostBasis(AfterFill(a, f)) == CostBasis(a) && AfterFill(a, f).base >= 0.0
  {
    var newBase := a.base + f.size;
    if Accepts(a, f) && f.side == Bid && newBase > 0.0 {
      var total := a.averageEntry * a.base + f.price * f.size;
      assert total / newBase * newBase == total;
    }
    AskKeepsBasis(a.averageEntry, a.base, f.price, f.size);
  }

  /** Over any sequence of accepted or refused fills, total PnL equals liquidation value less the starting balance. */
  lemma {:induction false} PnlOverRun(a: Account, fills: seq<Fill>, initialQuote: real, mid: real)
    requires CostBasis(a) == initialQuote && a.base >= 0.0
    requires forall i :: 0 <= i < |fills| ==> fills[i].size >= 0.0
    ensures var end := AfterFills(a, fills);
            && CostBasis(end) == initialQuote && end.base >= 0.0
            && ComputePnl(end, Some(mid)).total == end.quote + end.base * mid - initialQuote
    decreases |fills|
  {
    hide CostBasis, ComputePnl, AfterFill;
    if fills == [] {
      TotalPnlIsLiquidation(a, initialQuote, mid);
    } else {
      FillKeepsBasis(a, fills[0]);
      PnlOverRun(AfterFill(a, fills[0]), fills[1..], initialQuote, mid);
    }
  }
}
