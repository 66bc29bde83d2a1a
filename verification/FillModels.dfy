/** How resting paper quotes fill: from order-book crosses, and from real public trades. */
module FillModels {
  import opened Results
  import opened CashAccount

  datatype OpenQuote = OpenQuote(quoteId: string, quote: Quote, crossedStreak: nat, lastEvaluatedAt: Option<int>)

  datatype Level = Level(price: real, size: real)

  /** An order book, best levels first. */
  datatype Book = Book(bids: seq<Level>, asks: seq<Level>, timestamp: int)

  datatype FillMode = FullCross | Partial | LatencyProb | Calibrated

  predicate ValidQuotes(open: seq<OpenQuote>) {
    forall i :: 0 <= i < |open| ==> open[i].quote.price > 0.0 && open[i].quote.size > 0.0
  }

  predicate UniqueIds(open: seq<OpenQuote>) {
    forall i, j :: 0 <= i < j < |open| ==> open[i].quoteId != open[j].quoteId
  }

  /** A fill of an open quote: its side and price, no more than its size, at the maker fee. */
  predicate FillOf(f: Fill, q: OpenQuote, feeBps: real) {
    && f.quoteId == q.quoteId && f.side == q.quote.side && f.price == q.quote.price
    && 0.0 < f.size <= q.quote.size
    && f.fee == MakerFee(f.price * f.size, feeBps)
  }

  function FillAt(q: OpenQuote, size: real, feeBps: real, at: int): Fill {
    Fill(q.quote.side, q.quote.price, size, MakerFee(q.quote.price * size, feeBps), at, q.quoteId)
  }

  // ---- Fills from book crosses ----

  predicate Crosses(q: Quote, book: Book)
    requires book.bids != [] && book.asks != []
  {
    if q.side == Bid then book.asks[0].price <= q.price else book.bids[0].price >= q.price
  }

  function CrossSize(q: Quote, book: Book, mode: FillMode): Option<real>
    requires book.bids != [] && book.asks != []
  {
    var opposing := if q.side == Bid then book.asks[0].size else book.bids[0].size;
    if mode == Partial || mode == LatencyProb then
      if opposing <= 0.0 then None else Some(if opposing < q.size then opposing else q.size)
    else Some(q.size)
  }

  /** What the book does to one quote; `touched` and `lucky` stand for the calibrated and the latency draw. */
  function CrossFill(q: OpenQuote, book: Book, feeBps: real, mode: FillMode, latencyTicks: int, touched: bool,
                     lucky: bool): (OpenQuote, Option<Fill>)
    requires book.bids != [] && book.asks != []
  {
    var required := if mode == LatencyProb && latencyTicks > 1 then latencyTicks else 1;
    var seen := q.(lastEvaluatedAt := Some(book.timestamp));
    if !Crosses(q.quote, book) then
      (seen.(crossedStreak := 0),
       if mode == Calibrated && touched then Some(FillAt(q, q.quote.size, feeBps, book.timestamp)) else None)
    else
      var crossed := seen.(crossedStreak := q.crossedStreak + 1);
      if mode == LatencyProb && (crossed.crossedStreak < required || !lucky) then (crossed, None)
      else
        var sizeMode := if mode == LatencyProb then Partial else if mode == Calibrated then FullCross else mode;
        match CrossSize(q.quote, book, sizeMode)
        case None => (crossed, None)
        case Some(size) => (crossed, if size <= 0.0 then None else Some(FillAt(q, size, feeBps, book.timestamp)))
  }

  /** Each quote gets at most one fill, of at most its size; quotes keep their order, ids and sizes. */
  ghost predicate FillsMatch(open: seq<OpenQuote>, after: seq<OpenQuote>, fills: seq<Fill>, feeBps: real) {
    && |after| == |open|
    && (forall i :: 0 <= i < |open| ==> after[i].quoteId == open[i].quoteId && after[i].quote == open[i].quote)
    && FillsOfQuotes(open, fills, feeBps)
  }

  predicate FillOfSome(open: seq<OpenQuote>, f: Fill, feeBps: real) {
    exists i :: 0 <= i < |open| && FillOf(f, open[i], feeBps)
  }

  ghost predicate FillsOfQuotes(open: seq<OpenQuote>, fills: seq<Fill>, feeBps: real) {
    && (forall k :: 0 <= k < |fills| ==> FillOfSome(open, fills[k], feeBps))
    && (forall j, k :: 0 <= j < k < |fills| ==> fills[j].quoteId != fills[k].quoteId)
  }

  /** The list holds exactly this fill for the quote, or none. */
  predicate FillListed(q: OpenQuote, f: Option<Fill>, fills: seq<Fill>) {
    if f.Some? then f.value in fills else forall k :: 0 <= k < |fills| ==> fills[k].quoteId != q.quoteId
  }

  /** Every quote met the book exactly as CrossFill says; with a side of the book missing, only the streaks reset. */
  ghost predicate CrossDetected(open: seq<OpenQuote>, book: Book, feeBps: real, mode: FillMode, latencyTicks: int,
                                touched: seq<bool>, lucky: seq<bool>, after: seq<OpenQuote>, fills: seq<Fill>)
    requires |touched| == |open| == |lucky|
  {
    && FillsMatch(open, after, fills, feeBps)
    && (if book.bids == [] || book.asks == [] then
          fills == [] && forall i :: 0 <= i < |after| ==> after[i] == open[i].(crossedStreak := 0)
        else
          forall i :: 0 <= i < |open| ==>
            var (q, f) := CrossFill(open[i], book, feeBps, mode, latencyTicks, touched[i], lucky[i]);
            after[i] == q && FillListed(open[i], f, fills))
  }

  /** Each quote's one fill is for the size it no longer has left. */
  ghost predicate TradeFillsAre(open: seq<OpenQuote>, remaining: seq<real>, feeBps: real, at: int, fills: seq<Fill>)
    requires |remaining| == |open|
  {
    && FillsOfQuotes(open, fills, feeBps)
    && (forall j :: 0 <= j < |open| ==>
          0.0 <= remaining[j] <= open[j].quote.size
              && FillListed(open[j], TradeFill(open[j], remaining[j], feeBps, at), fills))
  }

  /** Every trade was shared out in turn as Shared says, and each quote's one fill is what its shares add up to. */
  ghost predicate TradesDetected(open: seq<OpenQuote>, trades: seq<Trade>, feeBps: real, at: int, fills: seq<Fill>) {
    exists trail :: SharedInTurn(open, trades, trail) && TradeFillsAre(open, trail[|trades|], feeBps, at, fills)
  }

  method DetectFills(open: seq<OpenQuote>, book: Book, feeBps: real, mode: FillMode, latencyTicks: int,
                     touched: seq<bool>, lucky: seq<bool>)
    returns (after: seq<OpenQuote>, fills: seq<Fill>)
    requires ValidQuotes(open) && UniqueIds(open)
    requires |touched| == |open| == |lucky|
    ensures CrossDetected(open, book, feeBps, mode, latencyTicks, touched, lucky, after, fills)
  {
    hide CrossFill, FillOf, FillListed, FillsOfQuotes;
    after, fills := [], [];
    NoFills(open, feeBps);
    NoFills(open[..0], feeBps);
    if book.bids == [] || book.asks == [] {
      for i := 0 to |open|
        invariant |after| == i && forall k :: 0 <= k < i ==> after[k] == open[k].(crossedStreak := 0)
      {
        after := after + [open[i].(crossedStreak := 0)];
      }
      return;
    }
    for i := 0 to |open|
      invariant |after| == i
      invariant forall k :: 0 <= k < i ==>
                  after[k] == CrossFill(open[k], book, feeBps, mode, latencyTicks, touched[k], lucky[k]).0
      invariant FillsOfQuotes(open[..i], fills, feeBps)
      invariant forall k :: 0 <= k < i ==>
                  FillListed(open[k], CrossFill(open[k], book, feeBps, mode, latencyTicks, touched[k], lucky[k]).1,
                      fills)
    {
      var (q, f) := CrossFill(open[i], book, feeBps, mode, latencyTicks, touched[i], lucky[i]);
      CrossFillIsFill(open[i], book, feeBps, mode, latencyTicks, touched[i], lucky[i]);
      if f.Some? { FillHasId(f.value, open[i], feeBps); }
      FillsExtend(open, fills, feeBps, i, f);
      StillListed(open, fills, i, f);
      NowListed(open[i], fills, f);
      after := after + [q];
      if f.Some? {
        fills := fills + [f.value];
      }
    }
    assert open[..|open|] == open;
    forall i | 0 <= i < |open| ensures after[i].quoteId == open[i].quoteId && after[i].quote == open[i].quote {
      CrossFillIsFill(open[i], book, feeBps, mode, latencyTicks, touched[i], lucky[i]);
    }
  }

  lemma CrossFillIsFill(q: OpenQuote, book: Book, feeBps: real, mode: FillMode, latencyTicks: int, touched: bool,
                        lucky: bool)
    requires book.bids != [] && book.asks != [] && q.quote.size > 0.0
    ensures var (after, f) := CrossFill(q, book, feeBps, mode, latencyTicks, touched, lucky);
            && after.quoteId == q.quoteId && after.quote == q.quote
            && (f.Some? ==> FillOf(f.value, q, feeBps))
  {
  }

  /** When a quote fills: a bid once the best ask is at or below its price, an ask once the best bid is at or above it;
      for how much, after which streak of crossing books, at its own price and the maker fee. */
  lemma FillsWhenReached(q: OpenQuote, book: Book, feeBps: real, mode: FillMode, latencyTicks: int, touched: bool,
                         lucky: bool)
    requires book.bids != [] && book.asks != [] && q.quote.size > 0.0
    ensures var (after, f) := CrossFill(q, book, feeBps, mode, latencyTicks, touched, lucky);
            var opposing := match q.quote.side case Bid => book.asks[0] case Ask => book.bids[0];
            var reached := match q.quote.side
                           case Bid => opposing.price <= q.quote.price
                           case Ask => opposing.price >= q.quote.price;
            && after.crossedStreak == (if reached then q.crossedStreak + 1 else 0)
            && after.lastEvaluatedAt == Some(book.timestamp)
            && (f.Some? <==>
                  match mode
                  case FullCross => reached
                  case Partial => reached && opposing.size > 0.0
                  case LatencyProb =>
                    && reached && opposing.size > 0.0 && lucky
                    && q.crossedStreak + 1 >= latencyTicks
                  case Calibrated => reached || touched)
            && (f.Some? ==>
                  && f.value.price == q.quote.price && f.value.timestamp == book.timestamp
                  && f.value.fee * 10000.0 == f.value.price * f.value.size * feeBps
                  && (mode.FullCross? || mode.Calibrated? || opposing.size >= q.quote.size ==>
                        f.value.size == q.quote.size)
                  && (mode.Partial? || mode.LatencyProb? ==>
                        f.value.size <= opposing.size
                        && (opposing.size < q.quote.size ==> f.value.size == opposing.size)))
  {
    var (after, f) := CrossFill(q, book, feeBps, mode, latencyTicks, touched, lucky);
    if f.Some? { FeeInBps(f.value.price * f.value.size, feeBps); }
  }

  lemma FeeInBps(notional: real, feeBps: real)
    ensures MakerFee(notional, feeBps) * 10000.0 == notional * feeBps
  {
  }

  /** One more quote, with at most one fill of its own, keeps the list of fills proper. */
  lemma FillsExtend(open: seq<OpenQuote>, fills: seq<Fill>, feeBps: real, i: nat, f: Option<Fill>)
    requires i < |open| && UniqueIds(open) && FillsOfQuotes(open[..i], fills, feeBps)
    requires f.Some? ==> FillOf(f.value, open[i], feeBps)
    ensures FillsOfQuotes(open[..i + 1], if f.Some? then fills + [f.value] else fills, feeBps)
    ensures forall k :: 0 <= k < |fills| ==> fills[k].quoteId != open[i].quoteId
  {
    hide FillOf;
    var all := if f.Some? then fills + [f.value] else fills;
    forall k | 0 <= k < |fills|
        ensures fills[k].quoteId != open[i].quoteId && FillOfSome(open[..i + 1], fills[k], feeBps) {
      assert FillOfSome(open[..i], fills[k], feeBps);
      var j :| 0 <= j < i && FillOf(fills[k], open[..i][j], feeBps);
      FillHasId(fills[k], open[j], feeBps);
      assert open[..i + 1][j] == open[..i][j] == open[j];
    }
    if f.Some? {
      FillHasId(f.value, open[i], feeBps);
      assert open[..i + 1][i] == open[i];
      assert FillOfSome(open[..i + 1], f.value, feeBps);
    }
  }

  lemma FillHasId(f: Fill, q: OpenQuote, feeBps: real)
    requires FillOf(f, q, feeBps)
    ensures f.quoteId == q.quoteId
  {
  }

  /** Adding a later quote's fill does not disturb what is listed for earlier ones. */
  lemma StillListed(open: seq<OpenQuote>, fills: seq<Fill>, i: nat, f: Option<Fill>)
    requires i < |open| && UniqueIds(open) && (f.Some? ==> f.value.quoteId == open[i].quoteId)
    ensures f.Some? ==>
              forall k, g :: 0 <= k < i && FillListed(open[k], g, fills) ==> FillListed(open[k], g, fills + [f.value])
  {
  }

  lemma NowListed(q: OpenQuote, fills: seq<Fill>, f: Option<Fill>)
    requires forall k :: 0 <= k < |fills| ==> fills[k].quoteId != q.quoteId
    ensures FillListed(q, f, if f.Some? then fills + [f.value] else fills)
  {
  }

  lemma NoFills(open: seq<OpenQuote>, feeBps: real)
    ensures FillsOfQuotes(open, [], feeBps)
  {
  }

  // ---- Fills from public trades ----

  datatype Trade = Trade(timestamp: int, price: real, amount: real)

  /** The trade printed at or through the quote's price while the quote rested. */
  predicate Reaches(t: Trade, q: Quote) {
    q.timestamp < t.timestamp && if q.side == Bid then t.price <= q.price else t.price >= q.price
  }

  function Sum(s: seq<real>): real {
    if s == [] then 0.0 else s[0] + Sum(s[1..])
  }

  lemma {:induction false} SumUpdate(s: seq<real>, i: nat, x: real)
    requires i < |s|
    ensures Sum(s[i := x]) == Sum(s) - s[i] + x
  {
    if i > 0 {
      assert s[i := x][1..] == s[1..][i - 1 := x];
      SumUpdate(s[1..], i - 1, x);
    } else {
      assert s[0 := x][1..] == s[1..];
    }
  }

  /** What a trade took from each quote. */
  function Shares(left: seq<real>, after: seq<real>): (s: seq<real>)
    requires |left| == |after|
    ensures |s| == |left| && forall j :: 0 <= j < |s| ==> s[j] == left[j] - after[j]
  {
    seq(|left|, j requires 0 <= j < |left| => left[j] - after[j])
  }

  /** How one trade's volume was shared out: only to quotes it reaches, within what each had left and within what it
      printed, earlier quotes first: a later quote is served only once every earlier one it reaches is full. */
  ghost predicate Shared(t: Trade, open: seq<OpenQuote>, left: seq<real>, after: seq<real>)
    requires |left| == |open| == |after|
  {
    var shares := Shares(left, after);
    && (forall j :: 0 <= j < |open| ==> 0.0 <= shares[j] <= left[j] && (shares[j] > 0.0 ==> Reaches(t, open[j].quote)))
    && Sum(shares) <= (if t.amount > 0.0 then t.amount else 0.0)
    && (forall j, k :: 0 <= j < k < |open| && shares[k] > 0.0 && Reaches(t, open[j].quote) ==> shares[j] == left[j])
    && (Sum(shares) < t.amount ==> forall j :: 0 <= j < |open| && Reaches(t, open[j].quote) ==> shares[j] == left[j])
  }

  lemma {:induction false} NothingShared(s: seq<real>)
    requires forall j :: 0 <= j < |s| ==> s[j] == 0.0
    ensures Sum(s) == 0.0
  {
    if s != [] { NothingShared(s[1..]); }
  }

  /** The inner loop: one trade walks the quotes in order until its volume is used up. */
  method ShareTrade(t: Trade, open: seq<OpenQuote>, remaining: seq<real>) returns (after: seq<real>)
    requires |remaining| == |open| && forall j :: 0 <= j < |open| ==> remaining[j] >= 0.0
    ensures |after| == |open| && Shared(t, open, remaining, after)
    ensures forall j :: 0 <= j < |open| ==> 0.0 <= after[j] <= remaining[j]
  {
    hide Reaches, Sum;
    after := remaining;
    ghost var shares := Shares(remaining, after);
    NothingShared(shares);
    var left := t.amount;
    for j := 0 to |open|
      invariant |after| == |open| && shares == Shares(remaining, after)
      invariant forall k :: 0 <= k < |open| ==> after[k] == remaining[k] - shares[k] && 0.0 <= shares[k] <= remaining[k]
      invariant forall k :: j <= k < |open| ==> shares[k] == 0.0
      invariant forall k :: 0 <= k < j && shares[k] > 0.0 ==> Reaches(t, open[k].quote)
      invariant left == t.amount - Sum(shares) && (t.amount > 0.0 ==> left >= 0.0)
      invariant (t.amount <= 0.0 ==> Sum(shares) == 0.0)
      invariant left > 0.0 ==> forall k :: 0 <= k < j && Reaches(t, open[k].quote) ==> shares[k] == remaining[k]
      invariant forall i, k :: 0 <= i < k < j && shares[k] > 0.0 && Reaches(t, open[i].quote) ==>
                  shares[i] == remaining[i]
    {
      if left <= 0.0 {
        break;
      }
      var sizeLeft := after[j];
      if Reaches(t, open[j].quote) && sizeLeft > 0.0 {
        var size := if sizeLeft < left then sizeLeft else left;
        SumUpdate(shares, j, size);
        after := after[j := sizeLeft - size];
        shares := shares[j := size];
        left := left - size;
      }
    }
  }

  function Sizes(open: seq<OpenQuote>): (s: seq<real>)
    ensures |s| == |open| && forall i :: 0 <= i < |s| ==> s[i] == open[i].quote.size
  {
    seq(|open|, i requires 0 <= i < |open| => open[i].quote.size)
  }

  /** What each quote has left before the first trade, and after each: every trade is shared out of what the earlier
      ones left. */
  ghost predicate SharedInTurn(open: seq<OpenQuote>, trades: seq<Trade>, trail: seq<seq<real>>) {
    && |trail| == |trades| + 1 && (forall i :: 0 <= i < |trail| ==> |trail[i]| == |open|)
    && trail[0] == Sizes(open)
    && (forall i :: 0 <= i < |trades| ==> Shared(trades[i], open, trail[i], trail[i + 1]))
  }

  /** The outer loop: trades in time order. */
  method ShareTrades(open: seq<OpenQuote>, trades: seq<Trade>) returns (remaining: seq<real>)
    requires ValidQuotes(open)
    ensures |remaining| == |open| && forall j :: 0 <= j < |open| ==> 0.0 <= remaining[j] <= open[j].quote.size
    ensures exists trail :: SharedInTurn(open, trades, trail) && trail[|trades|] == remaining
  {
    hide Shared, Reaches;
    remaining := Sizes(open);
    ghost var trail := [remaining];
    for i := 0 to |trades|
      invariant |remaining| == |open| && forall j :: 0 <= j < |open| ==> 0.0 <= remaining[j] <= open[j].quote.size
      invariant SharedInTurn(open, trades[..i], trail) && trail[i] == remaining
    {
      ghost var was := remaining;
      remaining := ShareTrade(trades[i], open, remaining);
      TrailGrows(open, trades, i, trail, remaining);
      trail := trail + [remaining];
    }
    assert trades[..|trades|] == trades;
  }

  lemma TrailGrows(open: seq<OpenQuote>, trades: seq<Trade>, i: nat, trail: seq<seq<real>>, remaining: seq<real>)
    requires i < |trades| && |remaining| == |open| && SharedInTurn(open, trades[..i], trail)
    requires Shared(trades[i], open, trail[i], remaining)
    ensures SharedInTurn(open, trades[..i + 1], trail + [remaining])
  {
    hide Shared;
    var longer := trail + [remaining];
    forall k | 0 <= k < i + 1 ensures Shared(trades[..i + 1][k], open, longer[k], longer[k + 1]) {
      if k < i { assert trades[..i][k] == trades[k]; }
    }
  }

  /** Fills for resting quotes from trades in time order. */
  method DetectTradeFills(open: seq<OpenQuote>, trades: seq<Trade>, feeBps: real, at: int) returns (fills: seq<Fill>)
    requires ValidQuotes(open) && UniqueIds(open)
    ensures TradesDetected(open, trades, feeBps, at, fills)
  {
    hide FillOf, FillListed, FillsOfQuotes, Shared, TradeFill, UniqueIds;
    var remaining := ShareTrades(open, trades);
    ghost var trail :| SharedInTurn(open, trades, trail) && trail[|trades|] == remaining;
    fills := CollectFills(open, remaining, feeBps, at);
    assert TradeFillsAre(open, remaining, feeBps, at, fills);
  }

  /** One fill per quote that traded, for the size it no longer has left. */
  method CollectFills(open: seq<OpenQuote>, remaining: seq<real>, feeBps: real, at: int) returns (fills: seq<Fill>)
    requires ValidQuotes(open) && UniqueIds(open) && |remaining| == |open|
    requires forall j :: 0 <= j < |open| ==> 0.0 <= remaining[j]
    ensures FillsOfQuotes(open, fills, feeBps)
    ensures forall k :: 0 <= k < |open| ==> FillListed(open[k], TradeFill(open[k], remaining[k], feeBps, at), fills)
  {
    hide FillOf, FillListed, FillsOfQuotes;
    fills := [];
    NoFills(open[..0], feeBps);
    for j := 0 to |open|
      invariant FillsOfQuotes(open[..j], fills, feeBps)
      invariant forall k :: 0 <= k < j ==> FillListed(open[k], TradeFill(open[k], remaining[k], feeBps, at), fills)
    {
      var f := TradeFill(open[j], remaining[j], feeBps, at);
      TradeFillIsFill(open[j], remaining[j], feeBps, at);
      FillsExtend(open, fills, feeBps, j, f);
      StillListed(open, fills, j, f);
      NowListed(open[j], fills, f);
      if f.Some? {
        fills := fills + [f.value];
      }
    }
    assert open[..|open|] == open;
  }

  function TradeFill(q: OpenQuote, left: real, feeBps: real, at: int): Option<Fill> {
    var size := q.quote.size - left;
    if size > 0.0 then Some(FillAt(q, size, feeBps, at)) else None
  }

  lemma TradeFillIsFill(q: OpenQuote, left: real, feeBps: real, at: int)
    requires left >= 0.0
    ensures var f := TradeFill(q, left, feeBps, at); f.Some? ==>
              FillOf(f.value, q, feeBps) && f.value.quoteId == q.quoteId
  {
  }
}
