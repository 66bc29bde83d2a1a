/** The paper broker: open quotes, their fills and the cash account they draw on. */
module PaperBroker {
  import opened Results
  import opened RealMath
  import opened CashAccount
  import opened RiskLimits
  import opened FillModels

  function Quotes(open: seq<OpenQuote>): seq<Quote> {
    if open == [] then [] else [open[0].quote] + Quotes(open[1..])
  }

  function Reserved(side: Side, open: seq<OpenQuote>, feeBps: real): real {
    NeedAll(side, Quotes(open), feeBps)
  }

  /** Every open quote is covered: open bids' cost with fees by the quote balance, open asks' size by the base
      balance. */
  predicate Covered(a: Account, open: seq<OpenQuote>, feeBps: real) {
    && ValidQuotes(open)
    && Reserved(Bid, open, feeBps) <= a.quote
    && Reserved(Ask, open, feeBps) <= a.base
  }

  predicate ValidFee(feeBps: real) {
    0.0 <= feeBps <= 10000.0
  }

  // ---- Reservations ----

  lemma NeedNonNegative(side: Side, q: Quote, feeBps: real)
    requires q.price > 0.0 && q.size > 0.0 && ValidFee(feeBps)
    ensures Need(side, q, feeBps) >= 0.0
  {
    assert q.price * q.size >= 0.0;
    assert MakerFee(q.price * q.size, feeBps) >= 0.0 by { FeeRange(q.price * q.size, feeBps); }
  }

  /** A maker fee is never negative and never more than what it is charged on. */
  lemma FeeRange(notional: real, feeBps: real)
    requires notional >= 0.0 && ValidFee(feeBps)
    ensures 0.0 <= MakerFee(notional, feeBps) <= notional
  {
    var f := feeBps / 10000.0;
    assert 0.0 <= f <= 1.0;
    ScaleReal(f, 1.0, notional);
    ScaleReal(0.0, f, notional);
  }

  lemma {:induction false} ReservedNonNegative(side: Side, open: seq<OpenQuote>, feeBps: real)
    requires ValidQuotes(open) && ValidFee(feeBps)
    ensures Reserved(side, open, feeBps) >= 0.0
  {
    hide Need;
    if open != [] {
      NeedNonNegative(side, open[0].quote, feeBps);
      ReservedStep(side, open, feeBps);
      ReservedNonNegative(side, open[1..], feeBps);
    }
  }

  lemma ReservedStep(side: Side, open: seq<OpenQuote>, feeBps: real)
    requires open != []
    ensures Reserved(side, open, feeBps) == Need(side, open[0].quote, feeBps) + Reserved(side, open[1..], feeBps)
  {
    assert Quotes(open)[1..] == Quotes(open[1..]);
  }

  lemma {:induction false} ReservedAppend(side: Side, open: seq<OpenQuote>, q: OpenQuote, feeBps: real)
    ensures Reserved(side, open + [q], feeBps) == Reserved(side, open, feeBps) + Need(side, q.quote, feeBps)
  {
    hide Need;
    if open == [] {
      assert open + [q] == [q];
      ReservedStep(side, [q], feeBps);
    } else {
      assert (open + [q])[1..] == open[1..] + [q];
      ReservedStep(side, open + [q], feeBps);
      ReservedStep(side, open, feeBps);
      ReservedAppend(side, open[1..], q, feeBps);
    }
  }

  /** Filling part of a quote releases exactly what the fill costs or sells. */
  lemma PartialNeed(q: Quote, left: Quote, filled: real, feeBps: real)
    requires left == q.(size := q.size - filled)
    ensures q.side == Bid ==>
              Need(Bid, q, feeBps) == Need(Bid, left, feeBps) + (q.price * filled + MakerFee(q.price * filled, feeBps))
    ensures q.side == Ask ==> Need(Ask, q, feeBps) == Need(Ask, left, feeBps) + filled
    ensures forall side :: q.side != side ==> Need(side, q, feeBps) == 0.0 == Need(side, left, feeBps)
  {
    var f := feeBps / 10000.0;
    var n, m := q.price * left.size, q.price * filled;
    assert q.price * q.size == n + m;
    assert (n + m) * f == n * f + m * f;
  }

  // ---- Booking fills ----

  /** The fill for a quote id; a later fill of the same id replaces an earlier one. */
  function FillFor(fills: seq<Fill>, quoteId: string): Option<Fill> {
    if fills == [] then None
    else if fills[|fills| - 1].quoteId == quoteId then Some(fills[|fills| - 1])
    else FillFor(fills[..|fills| - 1], quoteId)
  }

  lemma {:induction false} FillForFinds(fills: seq<Fill>, quoteId: string)
    ensures FillFor(fills, quoteId).Some? ==>
              FillFor(fills, quoteId).value in fills && FillFor(fills, quoteId).value.quoteId == quoteId
    ensures FillFor(fills, quoteId).None? ==> forall k :: 0 <= k < |fills| ==> fills[k].quoteId != quoteId
  {
    if fills != [] {
      var last := |fills| - 1;
      FillForFinds(fills[..last], quoteId);
      if FillFor(fills, quoteId).None? {
        forall k | 0 <= k < |fills| ensures fills[k].quoteId != quoteId {
          if k < last { assert fills[k] == fills[..last][k]; }
        }
      }
    }
  }

  /** In the fills of these quotes, the one found for a quote really is a fill of that quote. */
  lemma FillForIsFill(open: seq<OpenQuote>, fills: seq<Fill>, feeBps: real, i: nat)
    requires i < |open| && UniqueIds(open) && FillsOfQuotes(open, fills, feeBps)
    ensures var f := FillFor(fills, open[i].quoteId); f.Some? ==> FillOf(f.value, open[i], feeBps)
  {
    hide FillOf;
    FillForFinds(fills, open[i].quoteId);
    var f := FillFor(fills, open[i].quoteId);
    if f.Some? {
      var k :| 0 <= k < |fills| && fills[k] == f.value;
      assert FillOfSome(open, fills[k], feeBps);
      var j :| 0 <= j < |open| && FillOf(fills[k], open[j], feeBps);
      FillHasId(fills[k], open[j], feeBps);
    }
  }

  /** What is left open of a quote after its fill. */
  function Remainder(q: OpenQuote, f: Fill, at: int): seq<OpenQuote> {
    if q.quote.size - f.size > 0.0
    then [OpenQuote(q.quoteId, q.quote.(size := q.quote.size - f.size), 0, Some(at))] else []
  }

  /** The state of the booking loop. */
  datatype Booking = Booking(account: Account, open: seq<OpenQuote>, accepted: seq<Fill>)

  function BookOne(b: Booking, q: OpenQuote, fills: seq<Fill>, at: int): Booking {
    match FillFor(fills, q.quoteId)
    case None => b.(open := b.open + [q])
    case Some(f) =>
      if !Accepts(b.account, f) then b.(open := b.open + [q])
      else Booking(AfterFill(b.account, f), b.open + Remainder(q, f, at), b.accepted + [f])
  }

  function BookAll(b: Booking, open: seq<OpenQuote>, fills: seq<Fill>, at: int): Booking
    decreases |open|
  {
    if open == [] then b else BookAll(BookOne(b, open[0], fills, at), open[1..], fills, at)
  }

  lemma BookAllStep(b: Booking, open: seq<OpenQuote>, fills: seq<Fill>, at: int)
    requires open != []
    ensures BookAll(b, open, fills, at) == BookAll(BookOne(b, open[0], fills, at), open[1..], fills, at)
  {
  }

  /** The fills booked in quote order, when none is refused. */
  function FillsInOrder(open: seq<OpenQuote>, fills: seq<Fill>): seq<Fill> {
    if open == [] then []
    else
      var f := FillFor(fills, open[0].quoteId);
      (if f.Some? then [f.value] else []) + FillsInOrder(open[1..], fills)
  }

  /** What stays open of one quote: all of it without a fill, what the fill left of it, or nothing. */
  function Leftover(q: OpenQuote, fills: seq<Fill>, at: int): seq<OpenQuote> {
    match FillFor(fills, q.quoteId)
    case None => [q]
    case Some(f) => Remainder(q, f, at)
  }

  function Leftovers(open: seq<OpenQuote>, fills: seq<Fill>, at: int): seq<OpenQuote> {
    if open == [] then [] else Leftover(open[0], fills, at) + Leftovers(open[1..], fills, at)
  }

  ghost predicate LeftOf(q: OpenQuote, fills: seq<Fill>, at: int, after: seq<OpenQuote>) {
    match FillFor(fills, q.quoteId)
    case None => q in after
    case Some(f) =>
      if f.size < q.quote.size then
        OpenQuote(q.quoteId, q.quote.(size := q.quote.size - f.size), 0, Some(at)) in after
      else
        forall r :: r in after ==> r.quoteId != q.quoteId
  }

  /** A quote without a fill stays as it is; one with a fill stays for exactly the size not filled, its streak starting
      anew, or is gone when nothing is left; nothing else is open. */
  ghost predicate LeftOpen(open: seq<OpenQuote>, fills: seq<Fill>, at: int, after: seq<OpenQuote>) {
    && (forall i :: 0 <= i < |open| ==> LeftOf(open[i], fills, at, after))
    && (forall r :: r in after ==> exists i :: 0 <= i < |open| && open[i].quoteId == r.quoteId)
  }

  lemma {:induction false} LeftoversAre(open: seq<OpenQuote>, fills: seq<Fill>, at: int)
    requires UniqueIds(open)
    ensures LeftOpen(open, fills, at, Leftovers(open, fills, at))
  {
    hide FillFor;
    if open != [] {
      var q, rest := open[0], open[1..];
      assert forall i :: 0 <= i < |rest| ==> rest[i] == open[i + 1];
      LeftoversAre(rest, fills, at);
      var after := Leftovers(open, fills, at);
      var first, others := Leftover(q, fills, at), Leftovers(rest, fills, at);
      assert after == first + others;
      forall r | r in after ensures exists i :: 0 <= i < |open| && open[i].quoteId == r.quoteId {
        if r in first {
          assert open[0].quoteId == r.quoteId;
        } else {
          var i :| 0 <= i < |rest| && rest[i].quoteId == r.quoteId;
          assert open[i + 1].quoteId == r.quoteId;
        }
      }
      forall i | 0 <= i < |open| ensures LeftOf(open[i], fills, at, after) {
        if i > 0 {
          assert LeftOf(rest[i - 1], fills, at, others);
          assert forall r :: r in first ==> r.quoteId == q.quoteId;
        } else {
          assert forall r :: r in others ==> r.quoteId != q.quoteId;
        }
      }
    }
  }

  /** Booking one covered quote: its fill is accepted, and what is still open stays covered. */
  lemma BookOneCovered(b: Booking, q: OpenQuote, rest: seq<OpenQuote>, fills: seq<Fill>, feeBps: real, at: int)
    requires ValidFee(feeBps) && b.account.base >= 0.0 && b.account.quote >= 0.0
    requires ValidQuotes(b.open) && ValidQuotes([q] + rest)
    requires Reserved(Bid, b.open, feeBps) + Reserved(Bid, [q] + rest, feeBps) <= b.account.quote
    requires Reserved(Ask, b.open, feeBps) + Reserved(Ask, [q] + rest, feeBps) <= b.account.base
    requires var f := FillFor(fills, q.quoteId); f.Some? ==> FillOf(f.value, q, feeBps)
    ensures var c := BookOne(b, q, fills, at);
            var f := FillFor(fills, q.quoteId);
            && c.account.base >= 0.0 && c.account.quote >= 0.0
            && ValidQuotes(c.open) && ValidQuotes(rest)
            && Reserved(Bid, c.open, feeBps) + Reserved(Bid, rest, feeBps) <= c.account.quote
            && Reserved(Ask, c.open, feeBps) + Reserved(Ask, rest, feeBps) <= c.account.base
            && c.accepted == b.accepted + (if f.Some? then [f.value] else [])
  {
    hide BidRequiredQuote, MakerFee, Reserved;
    assert ([q] + rest)[0] == q && ([q] + rest)[1..] == rest;
    forall side: Side
        ensures Reserved(side, [q] + rest, feeBps) == Need(side, q.quote, feeBps) + Reserved(side, rest, feeBps) {
      ReservedStep(side, [q] + rest, feeBps);
    }
    forall i | 0 <= i < |rest| ensures rest[i].quote.price > 0.0 && rest[i].quote.size > 0.0 {
      assert ([q] + rest)[i + 1] == rest[i];
    }
    var f := FillFor(fills, q.quoteId);
    if f.None? {
      ReservedAppend(Bid, b.open, q, feeBps);
      ReservedAppend(Ask, b.open, q, feeBps);
    } else {
      BookFillCovered(b, q, rest, f.value, feeBps, at);
    }
  }

  /** What a fill takes out of the balance its side draws on. */
  function Taken(side: Side, f: Fill): real {
    if f.side != side then 0.0 else if side == Bid then f.price * f.size + f.fee else f.size
  }

  function Drawn(side: Side, a: Account): real {
    if side == Bid then a.quote else a.base
  }

  /** A fill of a quote releases from the quote's reservation exactly what it takes. */
  lemma FillReleases(side: Side, q: OpenQuote, f: Fill, left: Quote, feeBps: real)
    requires FillOf(f, q, feeBps) && left == q.quote.(size := q.quote.size - f.size)
    ensures Need(side, q.quote, feeBps) == Need(side, left, feeBps) + Taken(side, f)
  {
    PartialNeed(q.quote, left, f.size, feeBps);
  }

  lemma FillIsPaid(q: OpenQuote, f: Fill, feeBps: real)
    requires FillOf(f, q, feeBps) && ValidFee(feeBps) && q.quote.price > 0.0
    ensures f.size > 0.0 && 0.0 <= f.fee <= f.price * f.size
  {
    ProductSign(f.price, f.size);
    FeeRange(f.price * f.size, feeBps);
  }

  /** A fill within its balance is accepted, and lowers either balance by no more than it takes. */
  lemma FillDraws(a: Account, f: Fill, side: Side)
    requires f.size > 0.0 && 0.0 <= f.fee <= f.price * f.size
    requires Taken(f.side, f) <= Drawn(f.side, a)
    ensures Accepts(a, f)
    ensures Drawn(side, AfterFill(a, f)) >= Drawn(side, a) - Taken(side, f)
  {
    hide BlendedEntry;
  }

  lemma LeftNeeds(side: Side, q: Quote, feeBps: real)
    requires q.price > 0.0 && q.size >= 0.0 && ValidFee(feeBps)
    ensures Need(side, q, feeBps) >= 0.0
    ensures q.size == 0.0 ==> Need(side, q, feeBps) == 0.0
  {
    if q.size > 0.0 { NeedNonNegative(side, q, feeBps); } else { NeedOfNothing(q, feeBps); }
  }

  lemma NeedOfNothing(q: Quote, feeBps: real)
    requires q.size == 0.0
    ensures Need(Bid, q, feeBps) == 0.0 == Need(Ask, q, feeBps)
  {
    assert q.price * q.size == 0.0;
    assert MakerFee(0.0, feeBps) == 0.0;
  }

  /** Keeping the remainder of a quote open reserves what the remainder needs. */
  lemma RemainderReserves(side: Side, open: seq<OpenQuote>, q: OpenQuote, f: Fill, left: Quote, feeBps: real, at: int)
    requires FillOf(f, q, feeBps) && left == q.quote.(size := q.quote.size - f.size)
    requires q.quote.price > 0.0 && ValidFee(feeBps)
    ensures Reserved(side, open + Remainder(q, f, at), feeBps)
        == Reserved(side, open, feeBps) + Need(side, left, feeBps)
  {
    hide Reserved, Need, MakerFee;
    LeftNeeds(side, left, feeBps);
    if left.size > 0.0 {
      ReservedAppend(side, open, OpenQuote(q.quoteId, left, 0, Some(at)), feeBps);
    } else {
      assert open + [] == open;
    }
  }

  lemma RemainderValid(open: seq<OpenQuote>, q: OpenQuote, f: Fill, at: int)
    requires ValidQuotes(open) && q.quote.price > 0.0
    ensures ValidQuotes(open + Remainder(q, f, at))
  {
  }

  /** On one side: what stays reserved after a fill is still within what is left of the balance. */
  lemma SideStaysCovered(side: Side, b: Booking, q: OpenQuote, rest: seq<OpenQuote>, f: Fill, feeBps: real, at: int)
    requires ValidFee(feeBps) && q.quote.price > 0.0 && FillOf(f, q, feeBps)
    requires ValidQuotes(b.open) && ValidQuotes(rest)
    requires Reserved(side, b.open, feeBps) + Need(side, q.quote, feeBps) + Reserved(side, rest, feeBps)
        <= Drawn(side, b.account)
    ensures Taken(side, f) <= Drawn(side, b.account)
    ensures Taken(f.side, f) <= Drawn(f.side, b.account) ==>
              var open := b.open + Remainder(q, f, at);
              0.0 <= Reserved(side, open, feeBps) + Reserved(side, rest, feeBps) <= Drawn(side, AfterFill(b.account, f))
  {
    hide Reserved, Need, MakerFee, AfterFill, Taken, Drawn;
    var left := q.quote.(size := q.quote.size - f.size);
    FillIsPaid(q, f, feeBps);
    FillReleases(side, q, f, left, feeBps);
    RemainderReserves(side, b.open, q, f, left, feeBps, at);
    LeftNeeds(side, left, feeBps);
    ReservedNonNegative(side, b.open, feeBps);
    ReservedNonNegative(side, rest, feeBps);
    if Taken(f.side, f) <= Drawn(f.side, b.account) { FillDraws(b.account, f, side); }
  }

  lemma BookFillCovered(b: Booking, q: OpenQuote, rest: seq<OpenQuote>, f: Fill, feeBps: real, at: int)
    requires ValidFee(feeBps) && ValidQuotes(b.open) && ValidQuotes(rest)
    requires q.quote.price > 0.0 && q.quote.size > 0.0 && FillOf(f, q, feeBps)
    requires Reserved(Bid, b.open, feeBps) + Need(Bid, q.quote, feeBps) + Reserved(Bid, rest, feeBps) <= b.account.quote
    requires Reserved(Ask, b.open, feeBps) + Need(Ask, q.quote, feeBps) + Reserved(Ask, rest, feeBps) <= b.account.base
    ensures Accepts(b.account, f)
    ensures var a, open := AfterFill(b.account, f), b.open + Remainder(q, f, at);
            && a.base >= 0.0 && a.quote >= 0.0 && ValidQuotes(open)
            && Reserved(Bid, open, feeBps) + Reserved(Bid, rest, feeBps) <= a.quote
            && Reserved(Ask, open, feeBps) + Reserved(Ask, rest, feeBps) <= a.base
  {
    hide Reserved, Need, MakerFee, AfterFill, Accepts, Remainder, Taken;
    FillIsPaid(q, f, feeBps);
    RemainderValid(b.open, q, f, at);
    SideStaysCovered(Bid, b, q, rest, f, feeBps, at);
    SideStaysCovered(Ask, b, q, rest, f, feeBps, at);
    FillDraws(b.account, f, f.side);
  }

  /** On covered quotes every fill is accepted, balances stay non-negative, and what stays open stays covered. */
  lemma {:induction false} BookAllCovered(b: Booking, open: seq<OpenQuote>, fills: seq<Fill>, feeBps: real, at: int)
    requires ValidFee(feeBps) && b.account.base >= 0.0 && b.account.quote >= 0.0
    requires ValidQuotes(b.open) && ValidQuotes(open) && FillsFit(open, fills, feeBps)
    requires Reserved(Bid, b.open, feeBps) + Reserved(Bid, open, feeBps) <= b.account.quote
    requires Reserved(Ask, b.open, feeBps) + Reserved(Ask, open, feeBps) <= b.account.base
    ensures var c := BookAll(b, open, fills, at);
            && c.account.base >= 0.0 && c.account.quote >= 0.0
            && Covered(c.account, c.open, feeBps)
            && c.accepted == b.accepted + FillsInOrder(open, fills)
            && c.open == b.open + Leftovers(open, fills, at)
            && c.account == AfterFills(b.account, FillsInOrder(open, fills))
    decreases |open|
  {
    hide Reserved, FillOf, AfterFill, Accepts, BookOne, BookAll, FillsInOrder, FillsFit, ValidQuotes, FillFor,
        Leftovers, AfterFills;
    if open == [] {
      BookNothing(b, open, fills, at);
      EmptyReserved(feeBps);
    } else {
      var q, rest := open[0], open[1..];
      assert [q] + rest == open;
      FirstFits(open, fills, feeBps);
      BookOneCovered(b, q, rest, fills, feeBps, at);
      BookAllStep(b, open, fills, at);
      BookAllCovered(BookOne(b, q, fills, at), rest, fills, feeBps, at);
      InOrderStep(b.accepted, open, fills);
      BookOneLeaves(b, open, fills, at);
    }
  }

  /** A covered quote's fill is booked as the account takes it, and leaves what it left open. */
  lemma BookOneLeaves(b: Booking, open: seq<OpenQuote>, fills: seq<Fill>, at: int)
    requires open != []
    requires var f := FillFor(fills, open[0].quoteId);
             BookOne(b, open[0], fills, at).accepted == b.accepted + if f.Some? then [f.value] else []
    ensures var c := BookOne(b, open[0], fills, at);
            && c.open + Leftovers(open[1..], fills, at) == b.open + Leftovers(open, fills, at)
            && AfterFills(c.account, FillsInOrder(open[1..], fills))
               == AfterFills(b.account, FillsInOrder(open, fills))
  {
    hide BookOne, AfterFills, Accepts, AfterFill, Remainder;
    var f := FillFor(fills, open[0].quoteId);
    var rest, left := FillsInOrder(open[1..], fills), Leftovers(open[1..], fills, at);
    BookOneIs(b, open[0], fills, at);
    if f.Some? {
      AfterFillsStep(b.account, f.value, rest);
      assert b.open + Remainder(open[0], f.value, at) + left == b.open + (Remainder(open[0], f.value, at) + left);
    } else {
      assert [] + rest == rest;
      assert b.open + [open[0]] + left == b.open + ([open[0]] + left);
    }
  }

  lemma BookOneIs(b: Booking, q: OpenQuote, fills: seq<Fill>, at: int)
    ensures var c := BookOne(b, q, fills, at);
            match FillFor(fills, q.quoteId)
            case None => c.open == b.open + [q] && c.account == b.account
            case Some(f) =>
              c.accepted == b.accepted + [f] ==>
                c.open == b.open + Remainder(q, f, at) && c.account == AfterFill(b.account, f)
  {
    hide Accepts, Remainder, FillFor;
    var f := FillFor(fills, q.quoteId);
    if f.Some? && !Accepts(b.account, f.value) {
      assert |b.accepted + [f.value]| == |b.accepted| + 1;
    }
  }

  /** The fill found for a quote, if any, is a fill of that quote. */
  ghost predicate FillsFit(open: seq<OpenQuote>, fills: seq<Fill>, feeBps: real) {
    forall i :: 0 <= i < |open| ==>
      var f := FillFor(fills, open[i].quoteId); f.Some? ==> FillOf(f.value, open[i], feeBps)
  }

  lemma FirstFits(open: seq<OpenQuote>, fills: seq<Fill>, feeBps: real)
    requires open != [] && FillsFit(open, fills, feeBps)
    ensures var f := FillFor(fills, open[0].quoteId); f.Some? ==> FillOf(f.value, open[0], feeBps)
    ensures FillsFit(open[1..], fills, feeBps)
  {
    hide FillOf, FillFor;
  }

  lemma BookNothing(b: Booking, open: seq<OpenQuote>, fills: seq<Fill>, at: int)
    requires open == []
    ensures BookAll(b, open, fills, at) == b && b.accepted + FillsInOrder(open, fills) == b.accepted
    ensures b.open + Leftovers(open, fills, at) == b.open
    ensures AfterFills(b.account, FillsInOrder(open, fills)) == b.account
  {
  }

  lemma InOrderStep(accepted: seq<Fill>, open: seq<OpenQuote>, fills: seq<Fill>)
    requires open != []
    ensures var f := FillFor(fills, open[0].quoteId);
            accepted + FillsInOrder(open, fills)
            == accepted + (if f.Some? then [f.value] else []) + FillsInOrder(open[1..], fills)
  {
    hide FillFor;
  }

  lemma EmptyReserved(feeBps: real)
    ensures forall side :: Reserved(side, [], feeBps) == 0.0
  {
  }

  /** The same ids, in order, or the same with one left out. */
  lemma DropKeepsIds(left: seq<OpenQuote>, q: OpenQuote, right: seq<OpenQuote>)
    requires UniqueIds(left + [q] + right)
    ensures UniqueIds(left + right)
  {
    var all, less := left + [q] + right, left + right;
    forall i, j | 0 <= i < j < |less| ensures less[i].quoteId != less[j].quoteId {
      var k, l := if i < |left| then i else i + 1, if j < |left| then j else j + 1;
      assert all[k] == less[i] && all[l] == less[j];
    }
  }

  lemma RenameKeepsIds(left: seq<OpenQuote>, q: OpenQuote, r: OpenQuote, right: seq<OpenQuote>)
    requires UniqueIds(left + [q] + right) && r.quoteId == q.quoteId
    ensures UniqueIds(left + [r] + right)
  {
    var all, now := left + [q] + right, left + [r] + right;
    forall i | 0 <= i < |now| ensures now[i].quoteId == all[i].quoteId {
      if i != |left| { assert now[i] == all[i]; }
    }
  }

  lemma {:induction false} BookAllKeepsIds(b: Booking, open: seq<OpenQuote>, fills: seq<Fill>, at: int)
    requires UniqueIds(b.open + open)
    ensures UniqueIds(BookAll(b, open, fills, at).open)
    decreases |open|
  {
    hide Accepts, AfterFill, UniqueIds, FillFor;
    if open == [] {
      assert b.open + [] == b.open;
    } else {
      var c := BookOne(b, open[0], fills, at);
      assert b.open + open == b.open + [open[0]] + open[1..];
      BookOneKeepsIds(b, open[0], open[1..], fills, at);
      BookAllKeepsIds(c, open[1..], fills, at);
    }
  }

  lemma BookOneKeepsIds(b: Booking, q: OpenQuote, rest: seq<OpenQuote>, fills: seq<Fill>, at: int)
    requires UniqueIds(b.open + [q] + rest)
    ensures UniqueIds(BookOne(b, q, fills, at).open + rest)
  {
    hide Accepts, AfterFill, UniqueIds, FillFor;
    DropKeepsIds(b.open, q, rest);
    var f := FillFor(fills, q.quoteId);
    if f.Some? && q.quote.size - f.value.size > 0.0 {
      RenameKeepsIds(b.open, q, Remainder(q, f.value, at)[0], rest);
    }
    assert b.open + [] == b.open;
  }

  // ---- Submitting quotes ----

  function KeptQuotes(open: seq<OpenQuote>, mode: FillMode): seq<OpenQuote> {
    if mode != LatencyProb || open == [] then []
    else (if open[0].crossedStreak > 0 then [open[0]] else []) + KeptQuotes(open[1..], mode)
  }

  predicate HasSide(open: seq<OpenQuote>, side: Side) {
    exists i :: 0 <= i < |open| && open[i].quote.side == side
  }

  /** New quotes are placed only on sides where no crossed quote is kept. */
  function Placed(quotes: seq<Quote>, kept: seq<OpenQuote>): seq<Quote> {
    if quotes == [] then []
    else (if HasSide(kept, quotes[0].side) then [] else [quotes[0]]) + Placed(quotes[1..], kept)
  }

  function OpenOf(q: Quote): OpenQuote {
    OpenQuote(q.quoteId, q, 0, None)
  }

  function Opened(quotes: seq<Quote>): (open: seq<OpenQuote>)
    ensures |open| == |quotes| && forall i :: 0 <= i < |quotes| ==> open[i] == OpenOf(quotes[i])
  {
    seq(|quotes|, i requires 0 <= i < |quotes| => OpenOf(quotes[i]))
  }

  predicate ValidOffers(quotes: seq<Quote>) {
    forall i :: 0 <= i < |quotes| ==> quotes[i].price > 0.0 && quotes[i].size > 0.0
  }

  predicate DistinctIds(quotes: seq<Quote>) {
    forall i, j :: 0 <= i < j < |quotes| ==> quotes[i].quoteId != quotes[j].quoteId
  }

  predicate NewIds(quotes: seq<Quote>, open: seq<OpenQuote>) {
    forall i, j :: 0 <= i < |quotes| && 0 <= j < |open| ==> quotes[i].quoteId != open[j].quoteId
  }

  /** What submitting asks of the quotes it is given: positive prices and sizes, ids distinct and unlike those of kept
      quotes. */
  predicate Submittable(quotes: seq<Quote>, kept: seq<OpenQuote>) {
    ValidOffers(quotes) && DistinctIds(quotes) && NewIds(quotes, kept)
  }

  lemma {:induction false} KeptReservesLess(side: Side, open: seq<OpenQuote>, mode: FillMode, feeBps: real)
    requires ValidQuotes(open) && ValidFee(feeBps)
    ensures Reserved(side, KeptQuotes(open, mode), feeBps) <= Reserved(side, open, feeBps)
  {
    hide Reserved, Need;
    EmptyReserved(feeBps);
    if open == [] || mode != LatencyProb {
      ReservedNonNegative(side, open, feeBps);
    } else {
      var rest := KeptQuotes(open[1..], mode);
      KeptReservesLess(side, open[1..], mode, feeBps);
      ReservedStep(side, open, feeBps);
      NeedNonNegative(side, open[0].quote, feeBps);
      if open[0].crossedStreak > 0 {
        assert ([open[0]] + rest)[1..] == rest;
        ReservedStep(side, [open[0]] + rest, feeBps);
      } else {
        assert [] + rest == rest;
      }
    }
  }

  lemma {:induction false} KeptWereOpen(open: seq<OpenQuote>, mode: FillMode)
    ensures forall q :: q in KeptQuotes(open, mode) ==> q in open
  {
    if open != [] && mode == LatencyProb { KeptWereOpen(open[1..], mode); }
  }

  lemma {:induction false} KeptIsProper(open: seq<OpenQuote>, mode: FillMode)
    requires ValidQuotes(open) && UniqueIds(open)
    ensures var kept := KeptQuotes(open, mode); ValidQuotes(kept) && UniqueIds(kept)
  {
    if open != [] && mode == LatencyProb {
      var rest := KeptQuotes(open[1..], mode);
      assert forall i :: 0 <= i < |open[1..]| ==> open[1..][i] == open[i + 1];
      KeptIsProper(open[1..], mode);
      KeptWereOpen(open[1..], mode);
      forall j | 0 <= j < |rest| ensures rest[j].quoteId != open[0].quoteId {
        assert rest[j] in open[1..];
      }
      PrependKeepsIds(open[0], rest);
      assert [] + rest == rest;
    }
  }

  lemma PrependKeepsIds(q: OpenQuote, rest: seq<OpenQuote>)
    requires UniqueIds(rest) && forall j :: 0 <= j < |rest| ==> rest[j].quoteId != q.quoteId
    ensures UniqueIds([q] + rest)
  {
    var all := [q] + rest;
    forall i, j | 0 <= i < j < |all| ensures all[i].quoteId != all[j].quoteId {
      assert all[j] == rest[j - 1];
      if i > 0 { assert all[i] == rest[i - 1]; }
    }
  }

  lemma NeedAllStep(side: Side, quotes: seq<Quote>, feeBps: real)
    requires quotes != []
    ensures NeedAll(side, quotes, feeBps) == Need(side, quotes[0], feeBps) + NeedAll(side, quotes[1..], feeBps)
  {
  }

  /** Which quotes survive a requote: in latency mode the crossed ones, otherwise none. New ones are placed exactly on
      the sides without a survivor. */
  lemma SurvivorsAndPlaced(open: seq<OpenQuote>, quotes: seq<Quote>, mode: FillMode)
    ensures var kept := KeptQuotes(open, mode);
            && (forall q :: q in kept <==> mode == LatencyProb && q in open && q.crossedStreak > 0)
            && (forall q :: q in Placed(quotes, kept)
                            <==> q in quotes && forall k :: k in kept ==> k.quote.side != q.side)
  {
    var kept := KeptQuotes(open, mode);
    KeptAre(open, mode);
    forall q ensures q in Placed(quotes, kept) <==> q in quotes && forall k :: k in kept ==> k.quote.side != q.side {
      PlacedAre(quotes, kept, q);
    }
  }

  lemma {:induction false} KeptAre(open: seq<OpenQuote>, mode: FillMode)
    ensures forall q :: q in KeptQuotes(open, mode) <==> mode == LatencyProb && q in open && q.crossedStreak > 0
  {
    if open != [] && mode == LatencyProb { KeptAre(open[1..], mode); }
  }

  lemma {:induction false} PlacedAre(quotes: seq<Quote>, kept: seq<OpenQuote>, q: Quote)
    ensures q in Placed(quotes, kept) <==> q in quotes && !HasSide(kept, q.side)
  {
    hide HasSide;
    if quotes != [] { PlacedAre(quotes[1..], kept, q); }
  }

  /** Placing fewer quotes never needs more, and nothing at all on a side that keeps a quote. */
  lemma {:induction false} PlacedNeedsLess(side: Side, quotes: seq<Quote>, kept: seq<OpenQuote>, feeBps: real)
    requires ValidOffers(quotes) && ValidFee(feeBps)
    ensures 0.0 <= NeedAll(side, Placed(quotes, kept), feeBps) <= NeedAll(side, quotes, feeBps)
    ensures HasSide(kept, side) ==> NeedAll(side, Placed(quotes, kept), feeBps) == 0.0
  {
    hide Need, HasSide;
    if quotes != [] {
      hide NeedAll;
      var rest := Placed(quotes[1..], kept);
      PlacedNeedsLess(side, quotes[1..], kept, feeBps);
      NeedAllStep(side, quotes, feeBps);
      NeedNonNegative(side, quotes[0], feeBps);
      OtherSide(side, quotes[0], feeBps);
      if HasSide(kept, quotes[0].side) {
        assert [] + rest == rest;
      } else {
        assert ([quotes[0]] + rest)[1..] == rest;
        NeedAllStep(side, [quotes[0]] + rest, feeBps);
      }
    }
  }

  lemma {:induction false} PlacedWereOffered(quotes: seq<Quote>, kept: seq<OpenQuote>)
    ensures forall q :: q in Placed(quotes, kept) ==> q in quotes
  {
    hide HasSide;
    if quotes != [] { PlacedWereOffered(quotes[1..], kept); }
  }

  lemma {:induction false} PlacedIsProper(quotes: seq<Quote>, kept: seq<OpenQuote>)
    requires ValidOffers(quotes) && DistinctIds(quotes)
    ensures var placed := Placed(quotes, kept); ValidOffers(placed) && DistinctIds(placed)
  {
    hide HasSide, ValidOffers, DistinctIds;
    if quotes == [] {
      NoQuotesAreProper();
    } else {
      var rest := Placed(quotes[1..], kept);
      TailIsProper(quotes);
      PlacedIsProper(quotes[1..], kept);
      PlacedWereOffered(quotes[1..], kept);
      PrependKeepsDistinct(quotes[0], rest);
      assert [] + rest == rest;
    }
  }

  lemma NoQuotesAreProper()
    ensures ValidOffers([]) && DistinctIds([])
  {
  }

  lemma TailIsProper(quotes: seq<Quote>)
    requires quotes != [] && ValidOffers(quotes) && DistinctIds(quotes)
    ensures ValidOffers(quotes[1..]) && DistinctIds(quotes[1..])
    ensures quotes[0].price > 0.0 && quotes[0].size > 0.0
    ensures forall q :: q in quotes[1..] ==> q.quoteId != quotes[0].quoteId
  {
    var tail := quotes[1..];
    forall i | 0 <= i < |tail| ensures tail[i] == quotes[i + 1] && tail[i].quoteId != quotes[0].quoteId {
    }
    forall i, j | 0 <= i < j < |tail| ensures tail[i].quoteId != tail[j].quoteId {
      assert tail[i] == quotes[i + 1] && tail[j] == quotes[j + 1];
    }
  }

  /** One more quote in front, with an id of its own. */
  lemma PrependKeepsDistinct(q: Quote, rest: seq<Quote>)
    requires ValidOffers(rest) && DistinctIds(rest) && q.price > 0.0 && q.size > 0.0
    requires forall r :: r in rest ==> r.quoteId != q.quoteId
    ensures ValidOffers([q] + rest) && DistinctIds([q] + rest)
  {
    var all := [q] + rest;
    forall i, j | 0 <= i < j < |all| ensures all[i].quoteId != all[j].quoteId {
      assert all[j] == rest[j - 1];
      if i > 0 { assert all[i] == rest[i - 1]; }
    }
  }

  lemma OtherSide(side: Side, q: Quote, feeBps: real)
    ensures side != q.side ==> Need(side, q, feeBps) == 0.0
  {
  }

  lemma {:induction false} NoSideNoNeed(side: Side, open: seq<OpenQuote>, feeBps: real)
    requires !HasSide(open, side)
    ensures Reserved(side, open, feeBps) == 0.0
  {
    hide Need;
    EmptyReserved(feeBps);
    if open != [] {
      assert open[0].quote.side != side;
      OtherSide(side, open[0].quote, feeBps);
      ReservedStep(side, open, feeBps);
      assert forall i :: 0 <= i < |open[1..]| ==> open[1..][i] == open[i + 1];
      NoSideNoNeed(side, open[1..], feeBps);
    }
  }

  lemma {:induction false} ReservedOpened(side: Side, kept: seq<OpenQuote>, quotes: seq<Quote>, feeBps: real)
    ensures Reserved(side, kept + Opened(quotes), feeBps)
        == Reserved(side, kept, feeBps) + NeedAll(side, quotes, feeBps)
    decreases |quotes|
  {
    hide Need;
    if quotes == [] {
      assert kept + Opened(quotes) == kept;
    } else {
      var last := |quotes| - 1;
      ReservedOpened(side, kept, quotes[..last], feeBps);
      assert kept + Opened(quotes) == (kept + Opened(quotes[..last])) + [OpenOf(quotes[last])];
      ReservedAppend(side, kept + Opened(quotes[..last]), OpenOf(quotes[last]), feeBps);
      assert quotes == quotes[..last] + [quotes[last]];
      NeedAppend(side, quotes[..last], [quotes[last]], feeBps);
      assert [quotes[last]][1..] == [];
    }
  }

  /** On each side, what is open after submitting needs no more than the balance: it is all kept or all new. */
  lemma SubmitReserves(side: Side, balance: real, open: seq<OpenQuote>, quotes: seq<Quote>, mode: FillMode,
                       feeBps: real)
    requires ValidFee(feeBps) && ValidQuotes(open) && ValidOffers(quotes)
    requires Reserved(side, open, feeBps) <= balance && NeedAll(side, quotes, feeBps) <= balance
    ensures var kept := KeptQuotes(open, mode);
            Reserved(side, kept + Opened(Placed(quotes, kept)), feeBps) <= balance
  {
    hide Need, Reserved, NeedAll, HasSide;
    var kept := KeptQuotes(open, mode);
    KeptReservesLess(side, open, mode, feeBps);
    PlacedNeedsLess(side, quotes, kept, feeBps);
    ReservedOpened(side, kept, Placed(quotes, kept), feeBps);
    if !HasSide(kept, side) { NoSideNoNeed(side, kept, feeBps); }
  }

  /** Quotes placed beside kept ones are valid and keep every id unique. */
  lemma SubmitIsProper(open: seq<OpenQuote>, quotes: seq<Quote>, mode: FillMode)
    requires ValidQuotes(open) && UniqueIds(open)
    requires Submittable(quotes, KeptQuotes(open, mode))
    ensures var kept := KeptQuotes(open, mode);
            var after := kept + Opened(Placed(quotes, kept));
            ValidQuotes(after) && UniqueIds(after)
  {
    hide KeptQuotes, Placed, HasSide;
    var kept := KeptQuotes(open, mode);
    var placed := Placed(quotes, kept);
    KeptIsProper(open, mode);
    PlacedIsProper(quotes, kept);
    PlacedWereOffered(quotes, kept);
    forall i, j | 0 <= i < |kept| && 0 <= j < |placed| ensures kept[i].quoteId != placed[j].quoteId {
      assert placed[j] in quotes;
    }
    JoinIsProper(kept, placed);
  }

  lemma JoinIsProper(kept: seq<OpenQuote>, placed: seq<Quote>)
    requires ValidQuotes(kept) && UniqueIds(kept) && ValidOffers(placed) && DistinctIds(placed)
    requires forall i, j :: 0 <= i < |kept| && 0 <= j < |placed| ==> kept[i].quoteId != placed[j].quoteId
    ensures ValidQuotes(kept + Opened(placed)) && UniqueIds(kept + Opened(placed))
  {
    var after := kept + Opened(placed);
    forall i | 0 <= i < |after|
        ensures if i < |kept| then after[i] == kept[i] else after[i] == OpenOf(placed[i - |kept|]) {
    }
    forall i, j | 0 <= i < j < |after| ensures after[i].quoteId != after[j].quoteId {
      if j < |kept| {
      } else if i < |kept| {
        assert kept[i].quoteId != placed[j - |kept|].quoteId;
      } else {
        assert placed[i - |kept|].quoteId != placed[j - |kept|].quoteId;
      }
    }
  }

  /** Kept crossed quotes plus newly placed ones stay covered. */
  lemma SubmitStaysCovered(a: Account, open: seq<OpenQuote>, quotes: seq<Quote>, mode: FillMode, feeBps: real)
    requires ValidFee(feeBps) && Covered(a, open, feeBps) && UniqueIds(open)
    requires Submittable(quotes, KeptQuotes(open, mode))
    requires NeedAll(Bid, quotes, feeBps) <= a.quote && NeedAll(Ask, quotes, feeBps) <= a.base
    ensures var kept := KeptQuotes(open, mode);
            var after := kept + Opened(Placed(quotes, kept));
            Covered(a, after, feeBps) && UniqueIds(after)
  {
    hide Need, Reserved, NeedAll, HasSide, KeptQuotes, Placed, UniqueIds, ValidQuotes;
    SubmitReserves(Bid, a.quote, open, quotes, mode, feeBps);
    SubmitReserves(Ask, a.base, open, quotes, mode, feeBps);
    SubmitIsProper(open, quotes, mode);
  }

  // ---- What the broker's loops keep ----

  lemma PlacedNext(quotes: seq<Quote>, i: nat, kept: seq<OpenQuote>)
    requires i < |quotes|
    ensures Placed(quotes[i..], kept)
         == (if HasSide(kept, quotes[i].side) then [] else [quotes[i]]) + Placed(quotes[i + 1..], kept)
    ensures [] + Placed(quotes[i + 1..], kept) == Placed(quotes[i + 1..], kept)
  {
    assert quotes[i..][1..] == quotes[i + 1..];
  }

  lemma PlacedJoin(submitted: seq<Quote>, q: Quote, rest: seq<Quote>)
    ensures submitted + ([q] + rest) == (submitted + [q]) + rest
  {
  }

  lemma PlacedDone(submitted: seq<Quote>, quotes: seq<Quote>, kept: seq<OpenQuote>)
    ensures submitted + Placed(quotes[|quotes|..], kept) == submitted
  {
  }

  lemma OpenedNone()
    ensures forall kept: seq<OpenQuote> :: kept + Opened([]) == kept
  {
  }

  lemma OpenedNext(kept: seq<OpenQuote>, submitted: seq<Quote>, q: Quote)
    ensures kept + Opened(submitted + [q]) == kept + Opened(submitted) + [OpenOf(q)]
  {
    assert Opened(submitted + [q]) == Opened(submitted) + [OpenOf(q)];
  }

  lemma BookAllDone(b: Booking, open: seq<OpenQuote>, fills: seq<Fill>, at: int)
    requires open == []
    ensures BookAll(b, open, fills, at) == b
  {
  }

  lemma FillForSize(open: seq<OpenQuote>, fills: seq<Fill>, feeBps: real, i: nat)
    requires i < |open| && UniqueIds(open) && FillsOfQuotes(open, fills, feeBps)
    ensures var f := FillFor(fills, open[i].quoteId); f.Some? ==> f.value.size > 0.0
  {
    FillForIsFill(open, fills, feeBps, i);
  }

  lemma BookingIsCovered(b: Booking, open: seq<OpenQuote>, fills: seq<Fill>, feeBps: real, at: int)
    requires b.open == [] && b.accepted == [] && ValidFee(feeBps) && b.account.base >= 0.0 && b.account.quote >= 0.0
    requires Covered(b.account, open, feeBps) && UniqueIds(open) && FillsOfQuotes(open, fills, feeBps)
    ensures var c := BookAll(b, open, fills, at);
            && c.account.base >= 0.0 && c.account.quote >= 0.0
            && Covered(c.account, c.open, feeBps) && UniqueIds(c.open)
            && c.accepted == FillsInOrder(open, fills)
            && c.account == AfterFills(b.account, c.accepted) && LeftOpen(open, fills, at, c.open)
  {
    hide Reserved, FillOf, FillsOfQuotes, LeftOpen, AfterFills;
    LeftoversAre(open, fills, at);
    EmptyReserved(feeBps);
    assert FillsFit(open, fills, feeBps) by {
      forall i | 0 <= i < |open|
        ensures var f := FillFor(fills, open[i].quoteId); f.Some? ==> FillOf(f.value, open[i], feeBps)
      {
        FillForIsFill(open, fills, feeBps, i);
      }
    }
    BookAllCovered(b, open, fills, feeBps, at);
    assert b.open + open == open && b.open + Leftovers(open, fills, at) == Leftovers(open, fills, at);
    BookAllKeepsIds(b, open, fills, at);
  }

  /** Evaluating quotes changes their streaks but not what they reserve. */
  lemma SameQuotes(a: Account, open: seq<OpenQuote>, seen: seq<OpenQuote>, fills: seq<Fill>, feeBps: real)
    requires Covered(a, open, feeBps) && UniqueIds(open) && FillsMatch(open, seen, fills, feeBps)
    ensures Covered(a, seen, feeBps) && UniqueIds(seen) && FillsOfQuotes(seen, fills, feeBps)
  {
    SameReserved(open, seen);
    forall k | 0 <= k < |fills| ensures FillOfSome(seen, fills[k], feeBps) {
      assert FillOfSome(open, fills[k], feeBps);
      var i :| 0 <= i < |open| && FillOf(fills[k], open[i], feeBps);
      assert FillOf(fills[k], seen[i], feeBps);
    }
  }

  lemma {:induction false} SameReserved(open: seq<OpenQuote>, seen: seq<OpenQuote>)
    requires |open| == |seen| && forall i :: 0 <= i < |open| ==> seen[i].quote == open[i].quote
    ensures Quotes(open) == Quotes(seen)
  {
    if open != [] { SameReserved(open[1..], seen[1..]); }
  }

  lemma {:induction false} SameInOrder(open: seq<OpenQuote>, seen: seq<OpenQuote>, fills: seq<Fill>)
    requires |open| == |seen| && forall i :: 0 <= i < |open| ==> seen[i].quoteId == open[i].quoteId
    ensures FillsInOrder(open, fills) == FillsInOrder(seen, fills)
  {
    if open != [] { SameInOrder(open[1..], seen[1..], fills); }
  }

  /** What is booked for a quote is exactly the fill detected for it. */
  lemma BookedIsListed(open: seq<OpenQuote>, i: nat, f: Option<Fill>, fills: seq<Fill>, feeBps: real)
    requires i < |open| && FillsOfQuotes(open, fills, feeBps) && FillListed(open[i], f, fills)
    requires f.Some? ==> f.value.quoteId == open[i].quoteId
    ensures FillFor(fills, open[i].quoteId) == f
  {
    hide FillOfSome;
    FillForFinds(fills, open[i].quoteId);
    if f.Some? {
      var k :| 0 <= k < |fills| && fills[k] == f.value;
      var g := FillFor(fills, open[i].quoteId);
      assert g.Some?;
      var l :| 0 <= l < |fills| && fills[l] == g.value;
      assert k == l;
    }
  }

  lemma {:induction false} ApprovedIsProper(b: Budget, quotes: seq<Quote>, l: Limits, open: seq<OpenQuote>)
    requires Submittable(quotes, open)
    ensures Submittable(Approved(b, quotes, l), open)
    decreases |quotes|
  {
    hide Approves, Reserve;
    ApprovedWereOffered(b, quotes, l);
    if quotes != [] {
      assert forall i :: 0 <= i < |quotes[1..]| ==> quotes[1..][i] == quotes[i + 1];
      if Approves(b, quotes[0], l) {
        var rest := Approved(Reserve(b, quotes[0], l), quotes[1..], l);
        ApprovedIsProper(Reserve(b, quotes[0], l), quotes[1..], l, open);
        ApprovedWereOffered(Reserve(b, quotes[0], l), quotes[1..], l);
        forall j | 0 <= j < |rest| ensures rest[j].quoteId != quotes[0].quoteId {
          assert rest[j] in quotes[1..];
        }
      } else {
        ApprovedIsProper(b, quotes[1..], l, open);
      }
    }
  }

  // ---- The broker ----

  datatype Checkpoint = Checkpoint(account: Account, lastUpdated: Option<int>, openQuotes: seq<OpenQuote>)

  /** Saved from a covered broker with this fee. */
  predicate Sound(c: Checkpoint, feeBps: real) {
    && ValidFee(feeBps) && UniqueIds(c.openQuotes)
    && c.account.base >= 0.0 && c.account.quote >= 0.0
    && Covered(c.account, c.openQuotes, feeBps)
  }

  class Broker {
    const feeBps: real
    const mode: FillMode
    const latencyTicks: int
    const inventory: InventoryTracker
    var openQuotes: seq<OpenQuote>

    /** Fee at most 100%, unique quote ids, non-negative balances, every open quote covered. */
    ghost predicate Valid()
      reads this, inventory
    {
      && ValidFee(feeBps) && UniqueIds(openQuotes)
      && inventory.baseAmount >= 0.0 && inventory.quoteAmount >= 0.0
      && Covered(inventory.State(), openQuotes, feeBps)
    }

    constructor (initialQuoteBalance: real, feeBps: real, mode: FillMode, latencyTicks: int)
      requires initialQuoteBalance >= 0.0 && ValidFee(feeBps)
      ensures Valid() && fresh(inventory) && openQuotes == [] && this.feeBps == feeBps && this.mode == mode
      ensures inventory.State() == Account(0.0, initialQuoteBalance, 0.0, 0.0, 0.0)
    {
      this.feeBps, this.mode, this.latencyTicks := feeBps, mode, latencyTicks;
      inventory := new InventoryTracker(initialQuoteBalance);
      openQuotes := [];
      EmptyReserved(feeBps);
    }

    /** Books fills of the open quotes in quote order. None is refused, and the broker stays covered. */
    method BookFills(fills: seq<Fill>, at: int) returns (accepted: seq<Fill>)
      requires Valid() && FillsOfQuotes(openQuotes, fills, feeBps)
      modifies this`openQuotes, inventory
      ensures Valid()
      ensures accepted == FillsInOrder(old(openQuotes), fills)
      ensures inventory.State() == AfterFills(old(inventory.State()), accepted)
      ensures LeftOpen(old(openQuotes), fills, at, openQuotes)
      ensures var b := BookAll(Booking(old(inventory.State()), [], []), old(openQuotes), fills, at);
              inventory.State() == b.account && openQuotes == b.open && accepted == b.accepted
    {
      hide LeftOpen, AfterFills, Covered, FillsOfQuotes, BookAll, AfterFill, Accepts, FillOf, Remainder;
      ghost var start := Booking(inventory.State(), [], []);
      var updated: seq<OpenQuote> := [];
      accepted := [];
      BookingIsCovered(start, openQuotes, fills, feeBps, at);
      for i := 0 to |openQuotes|
        invariant openQuotes == old(openQuotes)
        invariant BookAll(start, openQuotes, fills, at)
            == BookAll(Booking(inventory.State(), updated, accepted), openQuotes[i..], fills, at)
        invariant inventory.baseAmount >= 0.0
      {
        var openQuote := openQuotes[i];
        assert openQuotes[i..][0] == openQuote && openQuotes[i..][1..] == openQuotes[i + 1..];
        ghost var b := Booking(inventory.State(), updated, accepted);
        BookAllStep(b, openQuotes[i..], fills, at);
        FillForSize(openQuotes, fills, feeBps, i);
        var found := FillFor(fills, openQuote.quoteId);
        if found.None? {
          updated := updated + [openQuote];
          continue;
        }
        var fill := found.value;
        var ok := inventory.ApplyFill(fill, at);
        if !ok {
          updated := updated + [openQuote];
          continue;
        }
        accepted := accepted + [fill];
        updated := updated + Remainder(openQuote, fill, at);
      }
      BookAllDone(Booking(inventory.State(), updated, accepted), openQuotes[|openQuotes|..], fills, at);
      openQuotes := updated;
    }

    /** Fills resting quotes that the book crossed, and books every one of those fills. */
    method ApplyFills(book: Book, touched: seq<bool>, lucky: seq<bool>)
      returns (accepted: seq<Fill>, ghost seen: seq<OpenQuote>, ghost fills: seq<Fill>)
      requires Valid() && |touched| == |openQuotes| == |lucky|
      modifies this`openQuotes, inventory
      ensures Valid()
      ensures CrossDetected(old(openQuotes), book, feeBps, mode, latencyTicks, touched, lucky, seen, fills)
      ensures accepted == FillsInOrder(old(openQuotes), fills)
      ensures var b := BookAll(Booking(old(inventory.State()), [], []), seen, fills, book.timestamp);
              inventory.State() == b.account && openQuotes == b.open && accepted == b.accepted
    {
      hide FillOf, CrossFill, FillListed, BookAll, Reserved, UniqueIds, FillsOfQuotes;
      var evaluated, detected := DetectFills(openQuotes, book, feeBps, mode, latencyTicks, touched, lucky);
      seen, fills := evaluated, detected;
      SameQuotes(inventory.State(), openQuotes, seen, fills, feeBps);
      SameInOrder(openQuotes, seen, fills);
      openQuotes := evaluated;
      accepted := BookFills(detected, book.timestamp);
    }

    /** Fills resting quotes from real public trades, and books every one of those fills. */
    method ApplyTradeFills(trades: seq<Trade>, at: int) returns (accepted: seq<Fill>, ghost fills: seq<Fill>)
      requires Valid()
      modifies this`openQuotes, inventory
      ensures Valid()
      ensures TradesDetected(old(openQuotes), trades, feeBps, at, fills)
      ensures accepted == FillsInOrder(old(openQuotes), fills)
      ensures var b := BookAll(Booking(old(inventory.State()), [], []), old(openQuotes), fills, at);
              inventory.State() == b.account && openQuotes == b.open && accepted == b.accepted
    {
      hide FillOf, SharedInTurn, FillListed, BookAll, UniqueIds, FillsOfQuotes;
      var detected := DetectTradeFills(openQuotes, trades, feeBps, at);
      fills := detected;
      accepted := BookFills(detected, at);
    }

    /** Replaces open quotes, keeping crossed ones in latency mode; stays covered when the balances cover the offered
        quotes. */
    method SubmitQuotes(quotes: seq<Quote>) returns (submitted: seq<Quote>)
      modifies this`openQuotes
      ensures submitted == Placed(quotes, KeptQuotes(old(openQuotes), mode))
      ensures openQuotes == KeptQuotes(old(openQuotes), mode) + Opened(submitted)
      ensures old(Valid()) && Submittable(quotes, KeptQuotes(old(openQuotes), mode))
              && NeedAll(Bid, quotes, feeBps) <= inventory.quoteAmount
                   && NeedAll(Ask, quotes, feeBps) <= inventory.baseAmount
              ==> Valid()
    {
      hide Covered, UniqueIds, Opened, Placed, KeptQuotes, Submittable, HasSide, NeedAll;
      ghost var before := openQuotes;
      ghost var wasValid := Valid();
      var kept := KeptQuotes(openQuotes, mode);
      openQuotes := kept;
      submitted := [];
      OpenedNone();
      assert quotes[0..] == quotes;
      for i := 0 to |quotes|
        invariant openQuotes == kept + Opened(submitted)
        invariant submitted + Placed(quotes[i..], kept) == Placed(quotes, kept)
      {
        PlacedNext(quotes, i, kept);
        if HasSide(kept, quotes[i].side) {
          continue;
        }
        OpenedNext(kept, submitted, quotes[i]);
        PlacedJoin(submitted, quotes[i], Placed(quotes[i + 1..], kept));
        openQuotes := openQuotes + [OpenOf(quotes[i])];
        submitted := submitted + [quotes[i]];
      }
      PlacedDone(submitted, quotes, kept);
      if wasValid && Submittable(quotes, KeptQuotes(before, mode))
         && NeedAll(Bid, quotes, feeBps) <= inventory.quoteAmount
              && NeedAll(Ask, quotes, feeBps) <= inventory.baseAmount {
        SubmitStaysCovered(inventory.State(), before, quotes, mode, feeBps);
      }
    }

    /** One requoting pass: the risk filter's reservations are exactly what submitting needs. */
    method Requote(quotes: seq<Quote>, maxPositionBase: real, maxPositionNotional: real) returns (submitted: seq<Quote>)
      requires Valid() && Submittable(quotes, KeptQuotes(openQuotes, mode))
      modifies this`openQuotes
      ensures Valid()
      ensures var approved := Approved(Budget(inventory.baseAmount, inventory.baseAmount, inventory.quoteAmount),
          quotes,
                                       Limits(maxPositionBase, maxPositionNotional, feeBps));
              submitted == Placed(approved, KeptQuotes(old(openQuotes), mode))
    {
      hide Covered, UniqueIds, Approved;
      var l := Limits(maxPositionBase, maxPositionNotional, feeBps);
      var b := Budget(inventory.baseAmount, inventory.baseAmount, inventory.quoteAmount);
      var approved := FilterQuotesByPositionLimit(quotes, inventory.baseAmount, inventory.quoteAmount, l);
      ApprovedIsCovered(b, quotes, l);
      ApprovedIsProper(b, quotes, l, KeptQuotes(openQuotes, mode));
      submitted := SubmitQuotes(approved);
    }

    method CancelAllQuotes()
      requires Valid()
      modifies this`openQuotes
      ensures Valid() && openQuotes == []
    {
      EmptyReserved(feeBps);
      openQuotes := [];
    }

    method GetCheckpoint() returns (c: Checkpoint)
      ensures c == Checkpoint(inventory.State(), inventory.lastUpdated, openQuotes)
      ensures Valid() ==> Sound(c, feeBps)
    {
      c := Checkpoint(inventory.State(), inventory.lastUpdated, openQuotes);
    }

    /** Restoring what was covered when it was saved is covered again. */
    method RestoreCheckpoint(c: Checkpoint)
      modifies this`openQuotes, inventory
      ensures inventory.State() == c.account && inventory.lastUpdated == c.lastUpdated && openQuotes == c.openQuotes
      ensures Sound(c, feeBps) ==> Valid()
    {
      inventory.RestoreState(c.account, c.lastUpdated);
      openQuotes := c.openQuotes;
    }
  }
}
