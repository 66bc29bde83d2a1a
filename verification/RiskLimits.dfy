/** Position caps and cumulative cash reservations on the quotes of one tick. */
module RiskLimits {
  import opened CashAccount

  function BidRequiredQuote(q: Quote, feeBps: real): real {
    var notional := q.price * q.size;
    notional + MakerFee(notional, feeBps)
  }

  /** What a quote sets aside: quote currency including the fee for a bid, base for an ask. */
  function Need(side: Side, q: Quote, feeBps: real): real {
    if q.side != side then 0.0 else if side == Bid then BidRequiredQuote(q, feeBps) else q.size
  }

  function NeedAll(side: Side, quotes: seq<Quote>, feeBps: real): real {
    if quotes == [] then 0.0 else Need(side, quotes[0], feeBps) + NeedAll(side, quotes[1..], feeBps)
  }

  lemma {:induction false} NeedAppend(side: Side, quotes: seq<Quote>, more: seq<Quote>, feeBps: real)
    ensures NeedAll(side, quotes + more, feeBps) == NeedAll(side, quotes, feeBps) + NeedAll(side, more, feeBps)
  {
    if quotes == [] {
      assert quotes + more == more;
    } else {
      assert (quotes + more)[1..] == quotes[1..] + more;
      NeedAppend(side, quotes[1..], more, feeBps);
    }
  }

  datatype Limits = Limits(maxPositionBase: real, maxPositionNotional: real, feeBps: real)

  /** The running totals of the filter loop. */
  datatype Budget = Budget(projectedBase: real, availableBase: real, availableQuote: real)

  function Absolute(x: real): real {
    if x < 0.0 then -x else x
  }

  function Notional(base: real, price: real): real {
    Absolute(base * price)
  }

  function NextBase(b: Budget, q: Quote): real {
    if q.side == Bid then b.projectedBase + q.size else b.projectedBase - q.size
  }

  /** Within both caps, and the account can still set aside what the quote needs. */
  predicate Approves(b: Budget, q: Quote, l: Limits) {
    && Absolute(NextBase(b, q)) <= l.maxPositionBase
    && Notional(NextBase(b, q), q.price) <= l.maxPositionNotional
    && (if q.side == Ask then q.size <= b.availableBase else BidRequiredQuote(q, l.feeBps) <= b.availableQuote)
  }

  function Reserve(b: Budget, q: Quote, l: Limits): Budget {
    Budget(NextBase(b, q), b.availableBase - Need(Ask, q, l.feeBps), b.availableQuote - Need(Bid, q, l.feeBps))
  }

  /** The approved quotes, in order: each is judged after reserving for those approved before it. */
  function Approved(b: Budget, quotes: seq<Quote>, l: Limits): seq<Quote>
    decreases |quotes|
  {
    if quotes == [] then []
    else if Approves(b, quotes[0], l) then [quotes[0]] + Approved(Reserve(b, quotes[0], l), quotes[1..], l)
    else Approved(b, quotes[1..], l)
  }

  lemma ApprovedNext(b: Budget, quotes: seq<Quote>, i: nat, l: Limits)
    requires i < |quotes|
    ensures Approved(b, quotes[i..], l) ==
            if Approves(b, quotes[i], l) then [quotes[i]] + Approved(Reserve(b, quotes[i], l), quotes[i + 1..], l)
            else Approved(b, quotes[i + 1..], l)
  {
    assert quotes[i..][1..] == quotes[i + 1..];
  }

  method FilterQuotesByPositionLimit(quotes: seq<Quote>, baseAmount: real, quoteAmount: real, l: Limits)
    returns (approved: seq<Quote>)
    ensures approved == Approved(Budget(baseAmount, baseAmount, quoteAmount), quotes, l)
  {
    hide BidRequiredQuote, Notional, Absolute, Approved;
    approved := [];
    var projectedBase, availableBase, availableQuote := baseAmount, baseAmount, quoteAmount;
    assert quotes[0..] == quotes;
    ghost var start := Budget(baseAmount, baseAmount, quoteAmount);
    for i := 0 to |quotes|
      invariant Approved(start, quotes, l)
          == approved + Approved(Budget(projectedBase, availableBase, availableQuote), quotes[i..], l)
    {
      var quote := quotes[i];
      ghost var b := Budget(projectedBase, availableBase, availableQuote);
      ApprovedNext(b, quotes, i, l);
      var nextBase := if quote.side == Bid then projectedBase + quote.size else projectedBase - quote.size;
      assert nextBase == NextBase(b, quote);
      if Absolute(nextBase) > l.maxPositionBase {
        continue;
      }
      if Notional(nextBase, quote.price) > l.maxPositionNotional {
        continue;
      }
      if quote.side == Ask {
        if availableBase < quote.size {
          continue;
        }
        availableBase := availableBase - quote.size;
      } else {
        var requiredQuote := BidRequiredQuote(quote, l.feeBps);
        if availableQuote < requiredQuote {
          continue;
        }
        availableQuote := availableQuote - requiredQuote;
      }
      assert Approves(b, quote, l);
      projectedBase := nextBase;
      assert Reserve(b, quote, l) == Budget(projectedBase, availableBase, availableQuote);
      assert approved + ([quote] + Approved(Reserve(b, quote, l), quotes[i + 1..], l))
             == approved + [quote] + Approved(Reserve(b, quote, l), quotes[i + 1..], l);
      approved := approved + [quote];
    }
    NoneLeft(Budget(projectedBase, availableBase, availableQuote), quotes[|quotes|..], l);
  }

  lemma NoneLeft(b: Budget, quotes: seq<Quote>, l: Limits)
    requires quotes == []
    ensures Approved(b, quotes, l) == []
  {
  }

  /** Approved asks never reserve more base, nor approved bids more quote currency, than the account has. */
  lemma {:induction false} ApprovedIsCovered(b: Budget, quotes: seq<Quote>, l: Limits)
    requires b.availableBase >= 0.0 && b.availableQuote >= 0.0
    ensures NeedAll(Ask, Approved(b, quotes, l), l.feeBps) <= b.availableBase
    ensures NeedAll(Bid, Approved(b, quotes, l), l.feeBps) <= b.availableQuote
    decreases |quotes|
  {
    hide BidRequiredQuote;
    if quotes != [] {
      if Approves(b, quotes[0], l) {
        var rest := Approved(Reserve(b, quotes[0], l), quotes[1..], l);
        ApprovedIsCovered(Reserve(b, quotes[0], l), quotes[1..], l);
        assert ([quotes[0]] + rest)[1..] == rest;
      } else {
        ApprovedIsCovered(b, quotes[1..], l);
      }
    }
  }

  /** Approval keeps quotes as they are: every approved quote was offered. */
  lemma {:induction false} ApprovedWereOffered(b: Budget, quotes: seq<Quote>, l: Limits)
    ensures forall q :: q in Approved(b, quotes, l) ==> q in quotes
    decreases |quotes|
  {
    if quotes != [] {
      ApprovedWereOffered(Reserve(b, quotes[0], l), quotes[1..], l);
      ApprovedWereOffered(b, quotes[1..], l);
    }
  }

  // ---- What the filter keeps and what it drops ----

  /** How far a list of quotes would move the base position if all of it filled. */
  function Exposure(quotes: seq<Quote>): real {
    if quotes == [] then 0.0
    else (if quotes[0].side == Bid then quotes[0].size else 0.0 - quotes[0].size) + Exposure(quotes[1..])
  }

  /** A position, and its value at a price, stay within both caps, long or short. */
  predicate WithinCaps(next: real, price: real, l: Limits) {
    && -l.maxPositionBase <= next <= l.maxPositionBase
    && -l.maxPositionNotional <= next * price <= l.maxPositionNotional
  }

  /** On top of the quotes taken, one more keeps the projected position within both caps, and all of its side together
      within the balance. */
  ghost predicate Fits(b: Budget, taken: seq<Quote>, q: Quote, l: Limits) {
    && WithinCaps(b.projectedBase + Exposure(taken + [q]), q.price, l)
    && NeedAll(q.side, taken + [q], l.feeBps) <= if q.side == Ask then b.availableBase else b.availableQuote
  }

  lemma {:induction false} ExposureAppend(quotes: seq<Quote>, q: Quote)
    ensures Exposure(quotes + [q]) == Exposure(quotes) + if q.side == Bid then q.size else 0.0 - q.size
  {
    if quotes != [] {
      assert (quotes + [q])[1..] == quotes[1..] + [q];
      ExposureAppend(quotes[1..], q);
    }
  }

  /** The running totals once some quotes are reserved. */
  function After(b: Budget, taken: seq<Quote>, l: Limits): Budget {
    Budget(b.projectedBase + Exposure(taken), b.availableBase - NeedAll(Ask, taken, l.feeBps),
           b.availableQuote - NeedAll(Bid, taken, l.feeBps))
  }

  lemma AfterReserve(b: Budget, q: Quote, taken: seq<Quote>, l: Limits)
    ensures After(Reserve(b, q, l), taken, l) == After(b, [q] + taken, l)
  {
    hide BidRequiredQuote;
    assert ([q] + taken)[1..] == taken;
  }

  lemma ApprovesIsFits(b: Budget, taken: seq<Quote>, q: Quote, l: Limits)
    ensures Approves(After(b, taken, l), q, l) <==> Fits(b, taken, q, l)
  {
    hide BidRequiredQuote, Approves, Fits;
    ExposureAppend(taken, q);
    NeedAppend(q.side, taken, [q], l.feeBps);
    assert NeedAll(q.side, [q], l.feeBps) == Need(q.side, q, l.feeBps);
    var next := NextBase(After(b, taken, l), q);
    ApprovesIs(After(b, taken, l), q, l, next);
    FitsIs(b, taken, q, l, next);
  }

  lemma FitsIs(b: Budget, taken: seq<Quote>, q: Quote, l: Limits, next: real)
    requires next == b.projectedBase + Exposure(taken + [q])
    ensures Fits(b, taken, q, l) <==>
            && WithinCaps(next, q.price, l)
            && NeedAll(q.side, taken + [q], l.feeBps) <= if q.side == Ask then b.availableBase else b.availableQuote
  {
    hide NeedAll, Exposure;
  }

  lemma ApprovesIs(b: Budget, q: Quote, l: Limits, next: real)
    requires next == NextBase(b, q)
    ensures Approves(b, q, l) <==>
            && WithinCaps(next, q.price, l)
            && Need(q.side, q, l.feeBps) <= if q.side == Ask then b.availableBase else b.availableQuote
  {
    hide BidRequiredQuote;
  }

  /** One more offered quote is approved exactly when it fits on top of those approved before it. */
  lemma {:induction false} ApprovedOneMore(b: Budget, quotes: seq<Quote>, q: Quote, l: Limits)
    ensures var taken := Approved(b, quotes, l);
            Approved(b, quotes + [q], l) == if Fits(b, taken, q, l) then taken + [q] else taken
    decreases |quotes|
  {
    hide Fits, Approves, Reserve, After;
    var taken := Approved(b, quotes, l);
    ApprovesIsFits(b, taken, q, l);
    if quotes == [] {
      assert quotes + [q] == [q];
      assert [q][1..] == [];
      NoneLeft(Reserve(b, q, l), [], l);
      NoneLeft(b, [], l);
      AfterNothing(b, l);
    } else {
      assert (quotes + [q])[1..] == quotes[1..] + [q];
      if Approves(b, quotes[0], l) {
        var next := Reserve(b, quotes[0], l);
        var rest := Approved(next, quotes[1..], l);
        ApprovedOneMore(next, quotes[1..], q, l);
        ApprovesIsFits(next, rest, q, l);
        AfterReserve(b, quotes[0], rest, l);
        assert [quotes[0]] + (rest + [q]) == taken + [q];
      } else {
        ApprovedOneMore(b, quotes[1..], q, l);
      }
    }
  }

  lemma AfterNothing(b: Budget, l: Limits)
    ensures After(b, [], l) == b
  {
  }

  /** Every approved quote fits on top of the approved ones ahead of it: the running projection never leaves either
      cap. */
  lemma {:induction false} ApprovedFits(b: Budget, quotes: seq<Quote>, l: Limits)
    ensures var taken := Approved(b, quotes, l);
            forall k :: 0 <= k < |taken| ==> Fits(b, taken[..k], taken[k], l)
    decreases |quotes|
  {
    hide Fits, Approves, Reserve;
    if quotes == [] {
      NoneLeft(b, quotes, l);
    } else {
      var ahead, last := quotes[..|quotes| - 1], quotes[|quotes| - 1];
      assert ahead + [last] == quotes;
      ApprovedFits(b, ahead, l);
      ApprovedOneMore(b, ahead, last, l);
      var before, taken := Approved(b, ahead, l), Approved(b, quotes, l);
      forall k | 0 <= k < |taken| ensures Fits(b, taken[..k], taken[k], l) {
        assert taken[..k] == before[..k];
      }
    }
  }
}
