/** Predicting swaps leg by leg, on a V2 pair and a V3 pool. */
module Predictor {
  import opened Results
  import opened FullMath
  import opened V3Models
  import opened SwapMath
  import opened SwapSimulator
  import opened SwapConservation
  import opened SwapRoundTrip
  import opened PoolLiquidity
  import opened PoolEvents
  import opened UniswapV2Math

  datatype Pool = V2 | V3

  datatype LegDirection = SellWeth | BuyWeth

  datatype SwapKind = ExactIn | ExactOut | ExactAmounts

  datatype Venue = Venue(usdcIsToken0: bool, feePips: FeePips)

  datatype Leg = Leg(pool: Pool, direction: LegDirection, kind: SwapKind, amount: Option<int>, priceLimit: Option<nat>,
      fixedAmountOut: Option<int>)

  /** The result of one leg; `limited` when it cannot complete. */
  datatype LegSim = LegSim(amountIn: int, amountOut: int, v2After: Option<V2State>, v3After: Option<V3State>,
      limited: bool)

  // ---- One V3 leg ----

  predicate Ready(s: V3State) {
    s.price >= 0 && s.liquidity >= 0 && AtTick(s.tick, s.price)
  }

  /** A router's price limit, or none when it is absent or already passed. */
  function StandingLimit(limit: Option<nat>, zeroForOne: bool, price: int): Option<nat> {
    if limit.None? || limit.value == 0 then None
    else if (if zeroForOne then limit.value < price else limit.value > price) then limit else None
  }

  function PaysToken0(venue: Venue, direction: LegDirection): bool {
    (direction == BuyWeth) == venue.usdcIsToken0
  }

  function V3Pool(venue: Venue, state: V3State): PoolState
    requires Ready(state)
  {
    PoolState(state.price, state.tick, state.liquidity, venue.feePips, state.window.blockNumber)
  }

  function V3Quote(venue: Venue, state: V3State, leg: Leg, amount: int): Result<SwapQuote>
    requires Ready(state)
  {
    var zeroForOne := PaysToken0(venue, leg.direction);
    if amount <= 0 then Err(AmountNotPositive)
    else Simulation(V3Pool(venue, state), state.window, zeroForOne, if leg.kind == ExactIn then amount else -amount,
                    StandingLimit(leg.priceLimit, zeroForOne, state.price))
  }

  function SimulateV3Leg(venue: Venue, state: V3State, leg: Leg, amount: int): Result<LegSim>
    requires Ready(state)
  {
    var limit := StandingLimit(leg.priceLimit, PaysToken0(venue, leg.direction), state.price);
    var q :- V3Quote(venue, state, leg, amount);
    var stopped := q.limitReason == Some(WindowLimit) || (q.limitReason == Some(PriceLimit) && limit == None);
    Ok(LegSim(q.amountInConsumed, q.amountOut, None,
        Some(V3State(q.priceAfter, q.tickAfter, q.liquidityAfter, state.window)), stopped))
  }

  // ---- One V2 leg ----

  function ReserveIn(state: V2State, direction: LegDirection): int {
    if direction == SellWeth then state.reserveWeth else state.reserveUsdc
  }

  function ReserveOut(state: V2State, direction: LegDirection): int {
    if direction == SellWeth then state.reserveUsdc else state.reserveWeth
  }

  /** The two amounts of a V2 leg, or the error the swap math raises, or None for a trade the pair would refuse. */
  function V2Amounts(state: V2State, leg: Leg, amount: int): Result<Option<(int, int)>> {
    var reserveIn, reserveOut := ReserveIn(state, leg.direction), ReserveOut(state, leg.direction);
    match leg.kind
    case ExactIn =>
      var out :- GetAmountOut(amount, reserveIn, reserveOut);
      Ok(Some((amount, out)))
    case ExactOut =>
      var cost :- GetAmountIn(amount, reserveIn, reserveOut);
      Ok(Some((cost, amount)))
    case ExactAmounts =>
      var out := if leg.fixedAmountOut.Some? then leg.fixedAmountOut.value else 0;
      Ok(if InvariantHolds(reserveIn, reserveOut, amount, out) then Some((amount, out)) else None)
  }

  function SimulateV2Leg(state: V2State, leg: Leg, amount: int): LegSim {
    match V2Amounts(state, leg, amount)
    case Err(_) => LegSim(0, 0, Some(state), None, true)
    case Ok(None) => LegSim(0, 0, Some(state), None, true)
    case Ok(Some((amountIn, amountOut))) =>
      var newIn, newOut := ReserveIn(state, leg.direction) + amountIn, ReserveOut(state, leg.direction) - amountOut;
      LegSim(amountIn, amountOut,
             Some(if leg.direction == SellWeth then V2State(newOut, newIn) else V2State(newIn, newOut)), None, false)
  }

  function Product(s: V2State): int {
    s.reserveUsdc * s.reserveWeth
  }

  predicate Positive(s: V2State) {
    s.reserveUsdc > 0 && s.reserveWeth > 0
  }

  /** A leg that completes strictly raises the reserve product; one that does not leaves the pair alone. */
  lemma V2LegRaisesProduct(state: V2State, leg: Leg, amount: int)
    requires Positive(state)
    ensures var sim := SimulateV2Leg(state, leg, amount);
            && sim.v2After.Some? && Positive(sim.v2After.value)
            && (if sim.limited then sim.v2After.value == state else Product(sim.v2After.value) > Product(state))
  {
    hide GetAmountOut, GetAmountIn, InvariantHolds;
    var reserveIn, reserveOut := ReserveIn(state, leg.direction), ReserveOut(state, leg.direction);
    var amounts := V2Amounts(state, leg, amount);
    if amounts.Ok? && amounts.value.Some? {
      var (amountIn, amountOut) := amounts.value.value;
      V2AmountsAccepted(state, leg, amount);
      ProductRises(reserveIn, reserveOut, amountIn, amountOut);
    }
  }

  /** Whatever the kind of leg, its amounts pass the pair's check (or it is paid and gets nothing). */
  lemma V2AmountsAccepted(state: V2State, leg: Leg, amount: int)
    requires Positive(state)
    ensures var amounts := V2Amounts(state, leg, amount);
            amounts.Ok? && amounts.value.Some? ==>
              var (amountIn, amountOut) := amounts.value.value;
              amountIn > 0 && (amountOut == 0 || InvariantHolds(ReserveIn(state, leg.direction),
                  ReserveOut(state, leg.direction), amountIn, amountOut))
  {
    var reserveIn, reserveOut := ReserveIn(state, leg.direction), ReserveOut(state, leg.direction);
    var amounts := V2Amounts(state, leg, amount);
    if amounts.Ok? && amounts.value.Some? {
      var (amountIn, amountOut) := amounts.value.value;
      if leg.kind == ExactIn {
        OutIsGreatestAccepted(reserveIn, reserveOut, amountIn, amountOut);
        OutputBelowReserve(reserveIn, reserveOut, amountIn);
      } else if leg.kind == ExactOut {
        InIsAccepted(reserveIn, reserveOut, amountIn, amountOut);
      }
    }
  }

  /** The pair's own check of a trade: WETH is paid in to sell it, USDC to buy it. */
  predicate PairTakes(state: V2State, direction: LegDirection, paid: int, taken: int) {
    match direction
    case SellWeth => InvariantHolds(state.reserveWeth, state.reserveUsdc, paid, taken)
    case BuyWeth => InvariantHolds(state.reserveUsdc, state.reserveWeth, paid, taken)
  }

  /** A V2 leg completes exactly when the pair can serve it, at the best amounts the pair takes, and moves each
      reserve by the amount of its own token. */
  lemma V2LegServes(state: V2State, leg: Leg, amount: int)
    requires Positive(state)
    ensures var sim := SimulateV2Leg(state, leg, amount);
            var paid, taken := sim.amountIn, sim.amountOut;
            var offered := if leg.fixedAmountOut.Some? then leg.fixedAmountOut.value else 0;
            && sim.v2After == Some(match leg.direction
                 case SellWeth => V2State(state.reserveUsdc - taken, state.reserveWeth + paid)
                 case BuyWeth => V2State(state.reserveUsdc + paid, state.reserveWeth - taken))
            && (sim.limited ==> paid == 0 && taken == 0)
            && match leg.kind
               case ExactIn =>
                 && (sim.limited <==> amount <= 0)
                 && (!sim.limited ==>
                       paid == amount && forall y :: PairTakes(state, leg.direction, paid, y) <==> 0 < y <= taken)
               case ExactOut =>
                 && (sim.limited
                     <==> amount <= 0 || amount >= (if leg.direction == SellWeth then state.reserveUsdc
                                                    else state.reserveWeth))
                 && (!sim.limited ==>
                       && taken == amount && PairTakes(state, leg.direction, paid, taken)
                       && forall x :: PairTakes(state, leg.direction, x, taken) ==> x >= paid - 1)
               case ExactAmounts =>
                 && (sim.limited <==> !PairTakes(state, leg.direction, amount, offered))
                 && (!sim.limited ==> paid == amount && taken == offered)
  {
    var reserveIn, reserveOut := ReserveIn(state, leg.direction), ReserveOut(state, leg.direction);
    if leg.kind == ExactIn && amount > 0 {
      hide InvariantHolds, GetAmountOut;
      forall y ensures InvariantHolds(reserveIn, reserveOut, amount, y)
          <==> 0 < y <= GetAmountOut(amount, reserveIn, reserveOut).value {
        OutIsGreatestAccepted(reserveIn, reserveOut, amount, y);
      }
    } else if leg.kind == ExactOut && 0 < amount < reserveOut {
      hide InvariantHolds, GetAmountIn;
      var least := GetAmountIn(amount, reserveIn, reserveOut).value;
      forall x ensures InvariantHolds(reserveIn, reserveOut, x, amount) ==> x >= least - 1 {
        InIsAccepted(reserveIn, reserveOut, x, amount);
      }
      InIsAccepted(reserveIn, reserveOut, least, amount);
    }
  }

  lemma QuoteLiquidity(state: PoolState, window: TickWindow, zeroForOne: bool, amountSpecified: int, limit: Option<nat>)
    requires AtTick(state.tick, state.price)
    ensures var r := Simulation(state, window, zeroForOne, amountSpecified, limit);
            r.Ok? ==> r.value.liquidityAfter >= 0 && r.value.priceAfter >= 0
  {
    hide Run;
  }

  /** A V3 leg that sells WETH never raises the price of WETH in USDC, and one that buys it never lowers it. A leg that
      completes without a router limit is served in full; with one, it stops early at that limit only. */
  lemma V3LegServes(venue: Venue, state: V3State, leg: Leg, amount: int)
    requires Ready(state) && SimulateV3Leg(venue, state, leg, amount).Ok?
    ensures var sim := SimulateV3Leg(venue, state, leg, amount).value;
            var full := if leg.kind == ExactIn then sim.amountIn == amount else sim.amountOut == amount;
            var rises := (leg.direction == SellWeth) == venue.usdcIsToken0;
            && amount > 0 && sim.v3After.Some? && sim.v3After.value.window == state.window
            && (if rises then sim.v3After.value.price >= state.price else sim.v3After.value.price <= state.price)
            && (if leg.kind == ExactIn then sim.amountIn <= amount else sim.amountOut <= amount)
            && (leg.priceLimit.Some? && leg.priceLimit.value != 0
                  && (if rises then leg.priceLimit.value > state.price else leg.priceLimit.value < state.price) ==>
                  && (if rises then sim.v3After.value.price <= leg.priceLimit.value
                      else leg.priceLimit.value <= sim.v3After.value.price)
                  && (sim.limited || full || sim.v3After.value.price == leg.priceLimit.value))
            && (StandingLimit(leg.priceLimit, !rises, state.price) == None ==> sim.limited || full)
  {
    hide Simulation, AtTick;
    var limit := StandingLimit(leg.priceLimit, PaysToken0(venue, leg.direction), state.price);
    var signed := if leg.kind == ExactIn then amount else -amount;
    QuoteLiquidity(V3Pool(venue, state), state.window, PaysToken0(venue, leg.direction), signed, limit);
    QuoteFacts(V3Pool(venue, state), state.window, PaysToken0(venue, leg.direction), signed, limit);
    match V3Quote(venue, state, leg, amount).value.limitReason {
      case None =>
      case Some(reason) => assert reason == WindowLimit || reason == PriceLimit;
    }
  }

  // ---- A run of legs ----

  function SimulateLeg(venue: Venue, state: PairState, leg: Leg): Result<LegSim>
    requires Ready(state.v3)
  {
    if leg.amount.None? then Err(AmountUnresolved)
    else if leg.pool == V3 then SimulateV3Leg(venue, state.v3, leg, leg.amount.value)
    else Ok(SimulateV2Leg(state.v2, leg, leg.amount.value))
  }

  /** A limited leg changes nothing; any other moves its own pool only. */
  function AfterLeg(state: PairState, leg: Leg, sim: LegSim): PairState
    requires if leg.pool == V3 then sim.v3After.Some? else sim.v2After.Some?
  {
    if sim.limited then state
    else if leg.pool == V3 then state.(v3 := sim.v3After.value)
    else state.(v2 := sim.v2After.value)
  }

  /** A completed V3 leg leaves its price inside its tick's bracket, so the next leg can start. */
  lemma LegKeepsReady(venue: Venue, state: PairState, leg: Leg)
    requires Ready(state.v3) && SimulateLeg(venue, state, leg).Ok?
    ensures var sim := SimulateLeg(venue, state, leg).value;
            && (if leg.pool == V3 then sim.v3After.Some? else sim.v2After.Some?)
            && Ready(AfterLeg(state, leg, sim).v3)
  {
    hide Simulation, AtTick;
    if leg.pool == V3 {
      var amount := leg.amount.value;
      var zeroForOne := PaysToken0(venue, leg.direction);
      var pool, signed := V3Pool(venue, state.v3), if leg.kind == ExactIn then amount else -amount;
      var limit := StandingLimit(leg.priceLimit, zeroForOne, state.v3.price);
      QuoteLiquidity(pool, state.v3.window, zeroForOne, signed, limit);
      QuoteFacts(pool, state.v3.window, zeroForOne, signed, limit);
    }
  }

  datatype Prediction = Prediction(sims: seq<LegSim>, state: PairState)

  /** Every leg in order, each on the state the one before left. */
  function Predicted(venue: Venue, state: PairState, legs: seq<Leg>): Result<Prediction>
    requires Ready(state.v3)
    decreases |legs|
  {
    if legs == [] then Ok(Prediction([], state))
    else
      var sim :- SimulateLeg(venue, state, legs[0]);
      LegKeepsReady(venue, state, legs[0]);
      var rest :- Predicted(venue, AfterLeg(state, legs[0], sim), legs[1..]);
      Ok(Prediction([sim] + rest.sims, rest.state))
  }

  /** The results so far, followed by those still to come. */
  function Following(sims: seq<LegSim>, rest: Result<Prediction>): Result<Prediction> {
    match rest
    case Err(e) => Err(e)
    case Ok(p) => Ok(Prediction(sims + p.sims, p.state))
  }

  lemma PredictedNext(venue: Venue, state: PairState, legs: seq<Leg>, i: nat, sims: seq<LegSim>)
    requires Ready(state.v3) && i < |legs|
    ensures var sim := SimulateLeg(venue, state, legs[i]);
            if sim.Err? then Following(sims, Predicted(venue, state, legs[i..])) == Err(sim.error)
            else
              && (if legs[i].pool == V3 then sim.value.v3After.Some? else sim.value.v2After.Some?)
              && Ready(AfterLeg(state, legs[i], sim.value).v3)
              && Following(sims, Predicted(venue, state, legs[i..]))
                 == Following(sims + [sim.value], Predicted(venue, AfterLeg(state, legs[i], sim.value), legs[i + 1..]))
  {
    hide SimulateLeg, Ready;
    assert legs[i..][0] == legs[i] && legs[i..][1..] == legs[i + 1..];
    var sim := SimulateLeg(venue, state, legs[i]);
    if sim.Ok? {
      LegKeepsReady(venue, state, legs[i]);
      var rest := Predicted(venue, AfterLeg(state, legs[i], sim.value), legs[i + 1..]);
      if rest.Ok? { assert sims + ([sim.value] + rest.value.sims) == (sims + [sim.value]) + rest.value.sims; }
    }
  }

  method Predict(venue: Venue, state: PairState, legs: seq<Leg>) returns (r: Result<Prediction>)
    requires Ready(state.v3)
    ensures r == Predicted(venue, state, legs)
  {
    hide SimulateLeg, Predicted, Ready;
    var running := state;
    var predicted: seq<LegSim> := [];
    assert legs[0..] == legs;
    FollowingNothing(Predicted(venue, state, legs));
    for i := 0 to |legs|
      invariant Ready(running.v3)
      invariant Following(predicted, Predicted(venue, running, legs[i..])) == Predicted(venue, state, legs)
    {
      PredictedNext(venue, running, legs, i, predicted);
      var sim := SimulateLeg(venue, running, legs[i]);
      if sim.Err? {
        return Err(sim.error);
      }
      if !sim.value.limited {
        running := if legs[i].pool == V3 then running.(v3 := sim.value.v3After.value)
            else running.(v2 := sim.value.v2After.value);
      }
      predicted := predicted + [sim.value];
    }
    PredictedNothing(venue, running, legs[|legs|..], predicted);
    r := Ok(Prediction(predicted, running));
  }

  lemma FollowingNothing(rest: Result<Prediction>)
    ensures Following([], rest) == rest
  {
    if rest.Ok? { assert [] + rest.value.sims == rest.value.sims; }
  }

  lemma PredictedNothing(venue: Venue, state: PairState, legs: seq<Leg>, sims: seq<LegSim>)
    requires Ready(state.v3) && legs == []
    ensures Following(sims, Predicted(venue, state, legs)) == Ok(Prediction(sims, state))
  {
    assert sims + [] == sims;
  }

  // ---- Over any run of legs ----

  /** Some V2 leg of the run completed. */
  predicate V2Traded(legs: seq<Leg>, sims: seq<LegSim>)
    requires |sims| == |legs|
  {
    exists i :: 0 <= i < |legs| && legs[i].pool == V2 && !sims[i].limited
  }

  /** Over any run of legs on both pools, the V2 reserves stay positive and their product never falls: it rises unless
      no V2 leg completed, and then the pair is untouched. */
  lemma {:induction false} ProductNeverFalls(venue: Venue, state: PairState, legs: seq<Leg>)
    requires Ready(state.v3) && Positive(state.v2) && Predicted(venue, state, legs).Ok?
    ensures var p := Predicted(venue, state, legs).value;
            && Ready(p.state.v3) && Positive(p.state.v2) && |p.sims| == |legs|
            && (if V2Traded(legs, p.sims) then Product(p.state.v2) > Product(state.v2) else p.state.v2 == state.v2)
    decreases |legs|
  {
    hide Ready, Product, SimulateV2Leg, SimulateV3Leg;
    if legs != [] {
      var sim := SimulateLeg(venue, state, legs[0]).value;
      LegKeepsReady(venue, state, legs[0]);
      var next := AfterLeg(state, legs[0], sim);
      if legs[0].pool == V2 { V2LegRaisesProduct(state.v2, legs[0], legs[0].amount.value); }
      ProductNeverFalls(venue, next, legs[1..]);
      TradedSplits(legs, sim, Predicted(venue, next, legs[1..]).value.sims);
    }
  }

  lemma TradedSplits(legs: seq<Leg>, sim: LegSim, sims: seq<LegSim>)
    requires |legs| == |sims| + 1
    ensures V2Traded(legs, [sim] + sims) <==> (legs[0].pool == V2 && !sim.limited) || V2Traded(legs[1..], sims)
  {
    var all := [sim] + sims;
    if V2Traded(legs, all) {
      var i :| 0 <= i < |legs| && legs[i].pool == V2 && !all[i].limited;
      if i > 0 { assert legs[1..][i - 1].pool == V2 && !sims[i - 1].limited; }
    }
    if legs[0].pool == V2 && !sim.limited { assert legs[0].pool == V2 && !all[0].limited; }
    if V2Traded(legs[1..], sims) {
      var i :| 0 <= i < |sims| && legs[1..][i].pool == V2 && !sims[i].limited;
      assert legs[i + 1].pool == V2 && !all[i + 1].limited;
    }
  }

  /** No run of legs takes out of the pair in one token without leaving more in the other. */
  lemma V2NeverDrained(venue: Venue, state: PairState, legs: seq<Leg>)
    requires Ready(state.v3) && Positive(state.v2) && Predicted(venue, state, legs).Ok?
    ensures var v2 := Predicted(venue, state, legs).value.state.v2;
            v2.reserveUsdc <= state.v2.reserveUsdc && v2.reserveWeth <= state.v2.reserveWeth ==> v2 == state.v2
  {
    hide Predicted, Ready;
    ProductNeverFalls(venue, state, legs);
    var a, b := state.v2, Predicted(venue, state, legs).value.state.v2;
    if b.reserveUsdc <= a.reserveUsdc && b.reserveWeth <= a.reserveWeth {
      ProductMonotone(b.reserveUsdc, a.reserveUsdc, b.reserveWeth, a.reserveWeth);
    }
  }

  lemma ProductMonotone(a: int, b: int, c: int, d: int)
    requires 0 < a <= b && 0 < c <= d
    ensures a * c <= b * d
  {
    MulMono(a, b, c);
    MulMono(c, d, b);
    assert c * b == b * c && d * b == b * d;
  }

  // ---- The V3 pool over any run of legs ----

  /** What one completed V3 leg pays into the pool of a token, negative when it takes out. */
  function PaidIn(venue: Venue, zero: bool, leg: Leg, sim: LegSim): int {
    if leg.pool == V2 || sim.limited then 0
    else if zero == PaysToken0(venue, leg.direction) then sim.amountIn
    else -sim.amountOut
  }

  function TotalPaidIn(venue: Venue, zero: bool, legs: seq<Leg>, sims: seq<LegSim>): int
    requires |sims| == |legs|
  {
    if legs == [] then 0 else PaidIn(venue, zero, legs[0], sims[0]) + TotalPaidIn(venue, zero, legs[1..], sims[1..])
  }

  /** The pool sits on a profile of its window. */
  ghost predicate On(profile: int -> int, s: V3State) {
    Ready(s) && Profile(s.window, profile) && profile(s.tick) == s.liquidity
  }

  /** One leg stays on the profile and pays in at least what the exact holdings gain. */
  lemma V3LegConserves(venue: Venue, state: PairState, leg: Leg, profile: int -> int)
    requires On(profile, state.v3) && SimulateLeg(venue, state, leg).Ok?
    ensures var sim := SimulateLeg(venue, state, leg).value;
            && (if leg.pool == V3 then sim.v3After.Some? else sim.v2After.Some?)
            && var after := AfterLeg(state, leg, sim).v3;
            && On(profile, after) && NonNegativeBetween(profile, state.v3.tick, after.tick)
            && (forall zero :: PaidIn(venue, zero, leg, sim) as real
                               >= Holdings(zero, profile, after.tick, after.price)
                                   - Holdings(zero, profile, state.v3.tick, state.v3.price))
  {
    hide Run, Profile, AtTick, Holdings;
    LegKeepsReady(venue, state, leg);
    if leg.pool == V3 {
      var pool := V3Pool(venue, state.v3);
      var zeroForOne := PaysToken0(venue, leg.direction);
      var amount := if leg.kind == ExactIn then leg.amount.value else -leg.amount.value;
      var limit := StandingLimit(leg.priceLimit, zeroForOne, state.v3.price);
      var o, s := OrderFor(pool, state.v3.window, zeroForOne, amount, limit), Start(pool, amount);
      StartLive(pool, state.v3.window, zeroForOne, amount, limit);
      RunBounds(o, s);
      RunConserves(o, s, profile);
    }
  }

  /** Over any run of legs, the pool is paid at least what its exact holdings gain, in each token. */
  lemma {:induction false} V3RunConserves(venue: Venue, state: PairState, legs: seq<Leg>, profile: int -> int)
    requires On(profile, state.v3) && Predicted(venue, state, legs).Ok? && profile(state.v3.tick) >= 0
    ensures var p := Predicted(venue, state, legs).value;
            && |p.sims| == |legs| && On(profile, p.state.v3)
                 && NonNegativeBetween(profile, state.v3.tick, p.state.v3.tick)
            && (forall zero :: TotalPaidIn(venue, zero, legs, p.sims) as real
                               >= Holdings(zero, profile, p.state.v3.tick, p.state.v3.price)
                                   - Holdings(zero, profile, state.v3.tick, state.v3.price))
    decreases |legs|
  {
    hide Profile, AtTick, Holdings, SimulateLeg, PaidIn;
    if legs != [] {
      var sim := SimulateLeg(venue, state, legs[0]).value;
      V3LegConserves(venue, state, legs[0], profile);
      var next := AfterLeg(state, legs[0], sim);
      V3RunConserves(venue, next, legs[1..], profile);
      var rest := Predicted(venue, next, legs[1..]).value;
      assert ([sim] + rest.sims)[1..] == rest.sims;
    }
  }

  /** No run of legs, in any directions, of any kinds and sizes, leaves the trader ahead of the V3 pool in one token
      without having paid it in the other. */
  lemma V3NeverDrained(venue: Venue, state: PairState, legs: seq<Leg>, zero: bool)
    requires Ready(state.v3) && Predicted(venue, state, legs).Ok?
    ensures var sims := Predicted(venue, state, legs).value.sims;
            && |sims| == |legs|
            && (TotalPaidIn(venue, zero, legs, sims) <= 0 ==> TotalPaidIn(venue, !zero, legs, sims) >= 0)
  {
    hide Profile, AtTick, Holdings, Predicted, TotalPaidIn;
    var s := state.v3;
    var profile := ProfileFrom(s.window, s.tick, s.liquidity);
    ProfileFromIsProfile(s.window, s.tick, s.liquidity);
    V3RunConserves(venue, state, legs, profile);
    var t := Predicted(venue, state, legs).value.state.v3;
    var sims := Predicted(venue, state, legs).value.sims;
    if TotalPaidIn(venue, zero, legs, sims) <= 0 {
      Tradeoff(zero, profile, s.tick, s.price, t.tick, t.price);
    }
  }
}
