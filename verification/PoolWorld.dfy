/** A pool through any interleaving of mints, burns and swaps: it never errs, stays matched and stays solvent. */
module PoolWorld {
  import opened Results
  import opened FullMath
  import opened V3Models
  import opened TickBitmap
  import opened TickMath
  import opened SqrtPriceMath
  import opened SwapMath
  import opened SwapSimulator
  import opened SwapConservation
  import opened SwapDuality
  import opened PoolLiquidity
  import opened LiquidityAmounts
  import opened Positions

  // ---- What a pool owes ----

  /** The exact, unrounded token amount behind some liquidity between two ticks at a price. */
  function Claim(zero: bool, lower: int, upper: int, liquidity: int, price: int): real
    requires MIN_TICK <= lower < upper <= MAX_TICK
  {
    RatioRange(lower);
    RatioStrictlyIncreasing(lower, upper);
    var p := Within(price, Ratio(lower), Ratio(upper));
    if zero then Exact(true, p, Ratio(upper), liquidity) else Exact(false, Ratio(lower), p, liquidity)
  }

  function Owed(zero: bool, positions: seq<Position>, price: int): real
    requires forall i :: 0 <= i < |positions| ==> MIN_TICK <= positions[i].lower < positions[i].upper <= MAX_TICK
  {
    if positions == [] then 0.0
    else
      var p := positions[0];
      Claim(zero, p.lower, p.upper, p.liquidity, price) + Owed(zero, positions[1..], price)
  }

  /** The profile of a single position. */
  function Single(p: Position): int -> int {
    t => Cover(t)(p)
  }

  lemma SingleAt(p: Position)
    ensures forall u :: Single(p)(u) == if p.lower <= u < p.upper then p.liquidity else 0
  {
    forall u ensures Single(p)(u) == if p.lower <= u < p.upper then p.liquidity else 0 {
      assert Single(p)(u) == Cover(u)(p);
    }
  }

  lemma {:induction false} BelowLinear(zero: bool, f: int -> int, g: int -> int, h: int -> int, t: int)
    requires MIN_TICK <= t <= MAX_TICK && forall u :: f(u) == g(u) + h(u)
    ensures Below(zero, f, t) == Below(zero, g, t) + Below(zero, h, t)
    decreases t - MIN_TICK
  {
    hide Ratio, Between;
    if t > MIN_TICK {
      BelowLinear(zero, f, g, h, t - 1);
      RatioRange(t - 1);
      RatioRange(t);
      BetweenLinear(zero, g(t - 1), h(t - 1), Ratio(t - 1), Ratio(t));
    }
  }

  lemma BetweenLinear(zero: bool, a: int, b: int, from: int, to: int)
    requires from > 0 && to > 0
    ensures Between(zero, a + b, from, to) == Between(zero, a, from, to) + Between(zero, b, from, to)
    ensures Between(zero, 0, from, to) == 0.0
  {
    var d := Coord(zero, to) - Coord(zero, from);
    assert (a + b) as real * d == a as real * d + b as real * d;
  }

  lemma HoldingsLinear(zero: bool, f: int -> int, g: int -> int, h: int -> int, t: int, p: int)
    requires AtTick(t, p) && forall u :: f(u) == g(u) + h(u)
    ensures Holdings(zero, f, t, p) == Holdings(zero, g, t, p) + Holdings(zero, h, t, p)
  {
    hide Ratio, Between;
    BelowLinear(zero, f, g, h, t);
    RatioRange(t);
    BetweenLinear(zero, g(t), h(t), Ratio(t), p);
  }

  /** Holdings of one position from MIN_TICK up: nothing below its range, flat liquidity inside, constant above. */
  lemma SingleBelow(zero: bool, p: Position, t: int)
    requires MIN_TICK <= p.lower < p.upper <= MAX_TICK && MIN_TICK <= t <= MAX_TICK
    ensures Ratio(p.lower) > 0 && Ratio(p.upper) > 0 && Ratio(t) > 0
    ensures Below(zero, Single(p), t) ==
            if t <= p.lower then 0.0
            else if t <= p.upper then Between(zero, p.liquidity, Ratio(p.lower), Ratio(t))
            else Between(zero, p.liquidity, Ratio(p.lower), Ratio(p.upper))
  {
    hide Ratio, Between, Single;
    SingleAt(p);
    RatioRange(p.lower);
    RatioRange(p.upper);
    RatioRange(t);
    RatioRange(MIN_TICK);
    var f := Single(p);
    var a := if t <= p.lower then t else p.lower;
    FlatBelow(zero, f, MIN_TICK, a, 0);
    BetweenLinear(zero, 0, 0, Ratio(MIN_TICK), Ratio(a));
    if p.lower < t {
      var b := if t <= p.upper then t else p.upper;
      FlatBelow(zero, f, p.lower, b, p.liquidity);
      if p.upper < t {
        FlatBelow(zero, f, p.upper, t, 0);
        BetweenLinear(zero, 0, 0, Ratio(p.upper), Ratio(t));
      }
    }
  }

  lemma SingleClaim(zero: bool, p: Position, t: int, price: int)
    requires MIN_TICK <= p.lower < p.upper <= MAX_TICK && AtTick(t, price)
    ensures Claim(zero, p.lower, p.upper, p.liquidity, price)
            == Holdings(zero, Single(p), t, price) - (if zero then Below(true, Single(p), MAX_TICK) else 0.0)
  {
    hide Ratio, Between, Exact, Below, Single;
    SingleAt(p);
    SingleBelow(zero, p, t);
    SingleBelow(true, p, MAX_TICK);
    RatioRange(t);
    RatioRange(t + 1);
    var a, b, r := Ratio(p.lower), Ratio(p.upper), Ratio(t);
    RatioStrictlyIncreasing(p.lower, p.upper);
    var q := Within(price, a, b);
    if t < p.lower {
      RatioMonotone(t + 1, p.lower);
      BetweenLinear(zero, 0, 0, r, price);
    } else if t < p.upper {
      RatioMonotone(p.lower, t);
      RatioMonotone(t + 1, p.upper);
      BetweenAdds(zero, p.liquidity, a, r, price);
      BetweenAdds(zero, p.liquidity, a, a, price);
    } else {
      RatioMonotone(p.upper, t);
      BetweenLinear(zero, 0, 0, r, price);
      BetweenAdds(zero, p.liquidity, a, r, b);
    }
    BetweenAdds(zero, p.liquidity, a, q, b);
    ExactIsBetween(q, b, p.liquidity);
    ExactIsBetween(a, q, p.liquidity);
  }

  /** What is owed moves with the price exactly as the holdings of the positions' liquidity. */
  lemma {:induction false} OwedIsHoldings(zero: bool, positions: seq<Position>, spacing: Spacing, t: int, price: int)
    requires ValidPositions(positions, spacing) && AtTick(t, price)
    ensures Owed(zero, positions, price)
            == Holdings(zero, Active(positions), t, price)
                - (if zero then Below(true, Active(positions), MAX_TICK) else 0.0)
  {
    hide Claim, Holdings, Below, AtTick;
    if positions == [] {
      NoHoldings(zero, Active([]), t, price);
    } else {
      var p, rest := positions[0], positions[1..];
      assert ValidRange(p.lower, p.upper, spacing);
      SingleClaim(zero, p, t, price);
      OwedIsHoldings(zero, rest, spacing, t, price);
      ActiveSplits(positions);
      HoldingsLinear(zero, Active(positions), Single(p), Active(rest), t, price);
      BelowLinear(true, Active(positions), Single(p), Active(rest), MAX_TICK);
    }
  }

  lemma ActiveSplits(positions: seq<Position>)
    requires positions != []
    ensures forall u :: Active(positions)(u) == Single(positions[0])(u) + Active(positions[1..])(u)
  {
  }

  lemma NoHoldings(zero: bool, f: int -> int, t: int, price: int)
    requires AtTick(t, price) && forall u :: f(u) == 0
    ensures Holdings(zero, f, t, price) == 0.0 == Below(zero, f, MAX_TICK)
  {
    hide Ratio, Between;
    RatioRange(MIN_TICK);
    RatioRange(MAX_TICK);
    RatioRange(t);
    FlatBelow(zero, f, MIN_TICK, t, 0);
    FlatBelow(zero, f, MIN_TICK, MAX_TICK, 0);
    BetweenLinear(zero, 0, 0, Ratio(MIN_TICK), Ratio(t));
    BetweenLinear(zero, 0, 0, Ratio(MIN_TICK), Ratio(MAX_TICK));
    BetweenLinear(zero, 0, 0, Ratio(t), price);
  }

  // ---- A swap on a matching pool never errs ----

  function Size(p: Position): int {
    p.liquidity
  }

  /** All liquidity there is fits the pool's uint128 field. */
  predicate UnderCap(positions: seq<Position>) {
    Total(positions, Size) <= MAX_UINT128
  }

  lemma {:induction false} ActiveAtMostTotal(positions: seq<Position>, t: int)
    ensures 0 <= Active(positions)(t) <= Total(positions, Size)
  {
    if positions != [] { ActiveAtMostTotal(positions[1..], t); }
  }

  lemma NoOutputOverflow(down: bool, price: nat, target: nat, liquidity: nat, asked: nat)
    requires Toward(down, price, target) && asked > 0 && (down || liquidity <= MAX_UINT128)
    ensures !OutputOverflows(down, price, target, liquidity, asked)
  {
    if OutputOverflows(down, price, target, liquidity, asked) {
      OutputBelowReserve(price, target, liquidity, asked);
    }
  }

  /** Swaps that cannot overflow whatever the liquidity: exact input, or token1 out. Exact output of token0 needs the
      cap. */
  predicate Safe(exactIn: bool, down: bool, positions: seq<Position>) {
    exactIn || down || UnderCap(positions)
  }

  /** On a matching pool a pass never underflows liquidity, never lacks tick data and never overflows. */
  lemma PassNeverFails(o: Order, s: Loop, positions: seq<Position>)
    requires Live(o, s) && !Done(o, s)
    requires ValidPositions(positions, o.window.tickSpacing) && WindowMatches(o.window, positions)
    requires Safe(o.exactIn, o.down, positions) && s.liquidity == Active(positions)(s.tick)
    ensures var r := Iterate(o, s);
            r.Ok? && (r.value.exhausted ==>
                r.value.loop == s && NextInitializedTickWithinOneWord(o.window, s.tick, o.down).Err?)
  {
    hide NextInitializedTickWithinOneWord, ComputeSwapStep, Ratio, TickAt, Target, Initialized, OutputOverflows, Active,
         ExactInputStep, ExactOutputStep, AtTick, Gross, Net;
    var search := NextInitializedTickWithinOneWord(o.window, s.tick, o.down);
    if search.Ok? {
      var (found, initialized) := search.value;
      var n := Clamp(found);
      MatchIsProfile(o.window, positions);
      TargetAhead(o, s, found, initialized);
      StepOf(o, s, found, initialized);
      PassProfile(o, s, Active(positions), found, initialized);
      ActiveAtMostTotal(positions, s.tick);
      ActiveAtMostTotal(positions, n);
      ActiveAtMostTotal(positions, n - 1);
      if !o.exactIn { NoOutputOverflow(o.down, s.price, Target(o, n), s.liquidity, -s.remaining); }
      var step := ComputeSwapStep(s.price, Target(o, n), s.liquidity, s.remaining, o.feePips).value;
      if step.priceNext == Ratio(n) {
        if initialized { CrossedTickIsRecorded(o, s, positions, found); }
      } else if step.priceNext != s.price {
        StepToward(o, s, Target(o, n), step);
        PassTick(o, s, found, initialized, step);
      }
    }
  }

  lemma CrossedTickIsRecorded(o: Order, s: Loop, positions: seq<Position>, found: int)
    requires ValidPositions(positions, o.window.tickSpacing) && WindowMatches(o.window, positions)
    requires NextInitializedTickWithinOneWord(o.window, s.tick, o.down) == Ok((found, true))
    ensures found in o.window.ticks
  {
    hide NextInitializedTickWithinOneWord;
    if o.down { SearchDown(o.window, s.tick); } else { SearchUp(o.window, s.tick); }
    assert TickMatches(o.window, positions, found);
  }

  lemma {:induction false} RunNeverFails(o: Order, s: Loop, positions: seq<Position>)
    requires Live(o, s)
    requires ValidPositions(positions, o.window.tickSpacing) && WindowMatches(o.window, positions)
    requires Safe(o.exactIn, o.down, positions) && s.liquidity == Active(positions)(s.tick)
    ensures Run(o, s).Ok?
    ensures var t := Run(o, s).value.loop; Live(o, t) && t.liquidity == Active(positions)(t.tick)
    decreases Rank(o, s)
  {
    hide Run, Iterate, Ratio, Active, NextInitializedTickWithinOneWord;
    Unroll(o, s);
    if !Done(o, s) {
      PassNeverFails(o, s, positions);
      if !Iterate(o, s).value.exhausted {
        MatchIsProfile(o.window, positions);
        PassConserves(o, s, Active(positions));
        RunNeverFails(o, Iterate(o, s).value.loop, positions);
      }
    }
  }

  // ---- The pool's operations ----

  /** A pool with its positions and its token balances, collected swap fees not counted. */
  datatype World = World(v3: V3State, feePips: FeePips, positions: seq<Position>, balance0: int, balance1: int)

  datatype Op =
    | ChangeLiquidity(event: V3Liquidity, index: nat)
    | Swap(zeroForOne: bool, amountSpecified: int, limit: Option<nat>)

  function Balance(w: World, zero: bool): int {
    if zero then w.balance0 else w.balance1
  }

  predicate Runnable(w: World) {
    w.v3.price >= 0 && w.v3.liquidity >= 0 && AtTick(w.v3.tick, w.v3.price)
  }

  function PoolOf(w: World): PoolState
    requires Runnable(w)
  {
    PoolState(w.v3.price, w.v3.tick, w.v3.liquidity, w.feePips, w.v3.window.blockNumber)
  }

  /** What the pool accepts: any mint, burns up to the position's liquidity, swaps with a usable limit. */
  predicate Allowed(w: World, op: Op)
    requires Runnable(w)
  {
    match op
    case ChangeLiquidity(event, i) =>
      EventFits(w.positions, i, event, w.v3.window.tickSpacing)
    case Swap(zeroForOne, amount, limit) =>
      amount != 0 && ValidLimit(PoolOf(w), zeroForOne, ChosenLimit(zeroForOne, limit))
          && Safe(amount > 0, zeroForOne, w.positions)
  }

  function Step(w: World, op: Op): Result<World>
    requires Runnable(w) && Allowed(w, op)
  {
    match op
    case ChangeLiquidity(event, i) =>
      var v3 :- ApplyLiquidity(w.v3, event);
      RatioRange(event.tickLower);
      RatioRange(event.tickUpper);
      var amounts :- GetAmountsForLiquidity(w.v3.price, Ratio(event.tickLower), Ratio(event.tickUpper), event.amount,
          event.isMint);
      var sign := if event.isMint then 1 else -1;
      Ok(w.(v3 := v3,
            positions := PositionsAfter(w.positions, i, event, w.v3.window.tickSpacing),
            balance0 := w.balance0 + sign * amounts.0,
            balance1 := w.balance1 + sign * amounts.1))
    case Swap(zeroForOne, amount, limit) =>
      var q :- Simulation(PoolOf(w), w.v3.window, zeroForOne, amount, limit);
      var paid := q.amountInConsumed - q.feePaid;
      Ok(w.(v3 := w.v3.(price := q.priceAfter, tick := q.tickAfter, liquidity := q.liquidityAfter),
            balance0 := w.balance0 + (if zeroForOne then paid else -q.amountOut),
            balance1 := w.balance1 + (if zeroForOne then -q.amountOut else paid)))
  }

  // ---- The invariant ----

  /** The balances cover, in each token, everything the positions are owed. */
  ghost predicate Solvent(w: World)
    requires ValidPositions(w.positions, w.v3.window.tickSpacing)
  {
    forall zero :: Balance(w, zero) as real >= Owed(zero, w.positions, w.v3.price)
  }

  ghost predicate Sound(w: World) {
    Runnable(w) && StateMatches(w.v3, w.positions) && Solvent(w)
  }

  lemma EmptyWorldIsSound(v3: V3State, feePips: FeePips)
    requires v3.price >= 0 && AtTick(v3.tick, v3.price)
    requires v3.liquidity == 0 && v3.window.bitmapWords == map[] && v3.window.ticks == map[]
    ensures Sound(World(v3, feePips, [], 0, 0))
  {
    hide Ratio;
    EmptyPoolMatches(v3);
  }

  lemma ClaimLinear(zero: bool, lower: int, upper: int, a: int, b: int, price: int)
    requires MIN_TICK <= lower < upper <= MAX_TICK
    ensures Claim(zero, lower, upper, a + b, price)
        == Claim(zero, lower, upper, a, price) + Claim(zero, lower, upper, b, price)
  {
    hide Ratio, Coord;
    RatioRange(lower);
    RatioStrictlyIncreasing(lower, upper);
    var p := Within(price, Ratio(lower), Ratio(upper));
    var c := if zero then Coord(true, p) - Coord(true, Ratio(upper)) else Coord(false, p) - Coord(false, Ratio(lower));
    assert (a + b) as real * c == a as real * c + b as real * c;
  }

  lemma {:induction false} OwedAppend(zero: bool, positions: seq<Position>, p: Position, spacing: Spacing, price: int)
    requires ValidPositions(positions, spacing) && ValidRange(p.lower, p.upper, spacing)
    ensures ValidPositions(positions + [p], spacing)
    ensures Owed(zero, positions + [p], price)
        == Owed(zero, positions, price) + Claim(zero, p.lower, p.upper, p.liquidity, price)
  {
    hide Claim;
    if positions == [] {
      assert Owed(zero, [p], price) == Claim(zero, p.lower, p.upper, p.liquidity, price) + Owed(zero, [], price);
      assert [] + [p] == [p];
    } else {
      assert (positions + [p])[1..] == positions[1..] + [p];
      OwedAppend(zero, positions[1..], p, spacing, price);
    }
  }

  lemma {:induction false} OwedUpdate(zero: bool, positions: seq<Position>, i: nat, delta: int, spacing: Spacing,
                                      price: int)
    requires ValidPositions(positions, spacing) && i < |positions| && positions[i].liquidity + delta >= 0
    ensures var p := positions[i];
            && ValidPositions(positions[i := p.(liquidity := p.liquidity + delta)], spacing)
            && Owed(zero, positions[i := p.(liquidity := p.liquidity + delta)], price)
               == Owed(zero, positions, price) + Claim(zero, p.lower, p.upper, delta, price)
  {
    hide Claim;
    var p := positions[i];
    var p' := p.(liquidity := p.liquidity + delta);
    if i > 0 {
      assert positions[i := p'][1..] == positions[1..][i - 1 := p'];
      OwedUpdate(zero, positions[1..], i - 1, delta, spacing, price);
    } else {
      assert positions[0 := p'][1..] == positions[1..];
      ClaimLinear(zero, p.lower, p.upper, p.liquidity, delta, price);
    }
  }

  lemma OwedAfter(zero: bool, positions: seq<Position>, i: nat, event: V3Liquidity, spacing: Spacing, price: int)
    requires ValidPositions(positions, spacing) && EventFits(positions, i, event, spacing)
    ensures var after := PositionsAfter(positions, i, event, spacing);
            && ValidPositions(after, spacing)
            && Owed(zero, after, price)
                 == Owed(zero, positions, price) + Claim(zero, event.tickLower, event.tickUpper, event.Delta(), price)
  {
    hide Claim, Owed;
    if i == |positions| {
      OwedAppend(zero, positions, Position(event.tickLower, event.tickUpper, event.amount), spacing, price);
    } else {
      OwedUpdate(zero, positions, i, event.Delta(), spacing, price);
    }
  }

  /** A mint charges at least, and a burn pays at most, the exact claim. */
  lemma AmountsCoverClaim(price: nat, lower: int, upper: int, amount: nat, isMint: bool)
    requires MIN_TICK <= lower < upper <= MAX_TICK
    ensures Ratio(lower) > 0 && Ratio(upper) > 0
    ensures var r := GetAmountsForLiquidity(price, Ratio(lower), Ratio(upper), amount, isMint);
            && r.Ok?
            && (if isMint then r.value.0 as real >= Claim(true, lower, upper, amount, price)
                else r.value.0 as real <= Claim(true, lower, upper, amount, price))
            && (if isMint then r.value.1 as real >= Claim(false, lower, upper, amount, price)
                else r.value.1 as real <= Claim(false, lower, upper, amount, price))
  {
    hide Ratio, Amount0, Amount1, Exact, GetAmountsForLiquidity;
    RatioRange(lower);
    RatioRange(upper);
    RatioStrictlyIncreasing(lower, upper);
    var p := Within(price, Ratio(lower), Ratio(upper));
    AmountsOfPosition(price, Ratio(lower), Ratio(upper), amount, isMint);
    RoundingBrackets(p, Ratio(upper), amount);
    RoundingBrackets(Ratio(lower), p, amount);
  }

  /** A mint or burn keeps the pool sound. */
  lemma LiquidityStepSound(w: World, event: V3Liquidity, i: nat)
    requires Sound(w) && Allowed(w, ChangeLiquidity(event, i))
    ensures var r := Step(w, ChangeLiquidity(event, i)); r.Ok? && Sound(r.value)
  {
    hide Ratio, Claim, Owed, ApplyLiquidity, GetAmountsForLiquidity, WindowMatches, UnderCap;
    var spacing := w.v3.window.tickSpacing;
    ApplyLiquidityKeepsMatch(w.v3, w.positions, i, event);
    AmountsCoverClaim(w.v3.price, event.tickLower, event.tickUpper, event.amount, event.isMint);
    var r := Step(w, ChangeLiquidity(event, i)).value;
    TotalsAtTick(r.positions, spacing, r.v3.tick);
    forall zero ensures Balance(r, zero) as real >= Owed(zero, r.positions, r.v3.price) {
      assert Balance(w, zero) as real >= Owed(zero, w.positions, w.v3.price);
      OwedAfter(zero, w.positions, i, event, spacing, w.v3.price);
      ClaimLinear(zero, event.tickLower, event.tickUpper, event.amount, 0 - event.amount, w.v3.price);
      ClaimLinear(zero, event.tickLower, event.tickUpper, 0, 0, w.v3.price);
    }
  }

  /** A swap keeps the pool sound. */
  lemma SwapStepSound(w: World, zeroForOne: bool, amount: int, limit: Option<nat>)
    requires Sound(w) && Allowed(w, Swap(zeroForOne, amount, limit))
    ensures var r := Step(w, Swap(zeroForOne, amount, limit)); r.Ok? && Sound(r.value)
  {
    hide Ratio, Owed, Run, Holdings, Below, WindowMatches, UnderCap, Active, AtTick;
    var spacing := w.v3.window.tickSpacing;
    var state := PoolOf(w);
    var o, s := OrderFor(state, w.v3.window, zeroForOne, amount, limit), Start(state, amount);
    StartLive(state, w.v3.window, zeroForOne, amount, limit);
    RunNeverFails(o, s, w.positions);
    RunBounds(o, s);
    MatchIsProfile(w.v3.window, w.positions);
    RunConserves(o, s, Active(w.positions));
    var t := Run(o, s).value.loop;
    var r := Step(w, Swap(zeroForOne, amount, limit)).value;
    assert r.v3 == w.v3.(price := t.price, tick := t.tick, liquidity := t.liquidity);
    forall zero: bool ensures Balance(r, zero) as real >= Owed(zero, r.positions, r.v3.price) {
      assert Balance(w, zero) as real >= Owed(zero, w.positions, w.v3.price);
      OwedIsHoldings(zero, w.positions, spacing, s.tick, s.price);
      OwedIsHoldings(zero, w.positions, spacing, t.tick, t.price);
      assert Received(zero, o, s, t) == (Balance(r, zero) - Balance(w, zero)) as real;
    }
  }

  // ---- Every run ----

  /** Each operation is one the pool accepts when its turn comes. */
  predicate AllAllowed(w: World, ops: seq<Op>)
    requires Runnable(w)
    decreases |ops|
  {
    ops == [] ||
    (&& Allowed(w, ops[0])
     && (Step(w, ops[0]).Ok? && Runnable(Step(w, ops[0]).value) ==> AllAllowed(Step(w, ops[0]).value, ops[1..])))
  }

  function RunAll(w: World, ops: seq<Op>): Result<World>
    requires Runnable(w) && AllAllowed(w, ops)
    decreases |ops|
  {
    if ops == [] then Ok(w)
    else
      var next :- Step(w, ops[0]);
      if Runnable(next) then RunAll(next, ops[1..]) else Err(TickOutOfRange)
  }

  /** Over every interleaving of mints, burns and swaps no operation errs, window and liquidity match the positions,
      and the balances cover what every position is owed in both tokens. */
  lemma {:induction false} EveryRunIsSound(w: World, ops: seq<Op>)
    requires Sound(w) && AllAllowed(w, ops)
    ensures RunAll(w, ops).Ok? && Sound(RunAll(w, ops).value)
    decreases |ops|
  {
    hide Step, Allowed, Solvent, StateMatches, Ratio;
    if ops != [] {
      match ops[0] {
        case ChangeLiquidity(event, i) => LiquidityStepSound(w, event, i);
        case Swap(zeroForOne, amount, limit) => SwapStepSound(w, zeroForOne, amount, limit);
      }
      EveryRunIsSound(Step(w, ops[0]).value, ops[1..]);
    }
  }

  lemma {:induction false} OwedNonNegative(zero: bool, positions: seq<Position>, spacing: Spacing, price: int)
    requires ValidPositions(positions, spacing)
    ensures Owed(zero, positions, price) >= 0.0
  {
    hide Claim;
    if positions != [] {
      var p := positions[0];
      assert ValidRange(p.lower, p.upper, spacing);
      ClaimNonNegative(zero, p.lower, p.upper, p.liquidity, price);
      OwedNonNegative(zero, positions[1..], spacing, price);
    }
  }

  lemma ClaimNonNegative(zero: bool, lower: int, upper: int, liquidity: nat, price: int)
    requires MIN_TICK <= lower < upper <= MAX_TICK
    ensures Claim(zero, lower, upper, liquidity, price) >= 0.0
  {
    hide Ratio, Amount0, Amount1, Exact;
    RatioRange(lower);
    RatioStrictlyIncreasing(lower, upper);
    var a, b := Ratio(lower), Ratio(upper);
    var p := Within(price, a, b);
    RoundingBrackets(p, b, liquidity);
    RoundingBrackets(a, p, liquidity);
    Amount0NonNegative(p, b, liquidity, false);
    Amount1Monotone(a, a, p, liquidity, false);
  }

  /** After any run, any position can be burned in full: the burn succeeds and no balance goes negative. */
  lemma EveryPositionWithdraws(w: World, ops: seq<Op>, i: nat)
    requires Sound(w) && AllAllowed(w, ops)
    requires RunAll(w, ops).Ok? && i < |RunAll(w, ops).value.positions|
    ensures var v := RunAll(w, ops).value;
            var p := v.positions[i];
            var burn := ChangeLiquidity(V3Liquidity(p.lower, p.upper, p.liquidity, false), i);
            && Runnable(v) && Allowed(v, burn)
            && Step(v, burn).Ok? && Step(v, burn).value.balance0 >= 0 && Step(v, burn).value.balance1 >= 0
  {
    hide Step, RunAll, AllAllowed, Ratio, WindowMatches, Owed;
    EveryRunIsSound(w, ops);
    var v := RunAll(w, ops).value;
    var p := v.positions[i];
    var event := V3Liquidity(p.lower, p.upper, p.liquidity, false);
    var spacing := v.v3.window.tickSpacing;
    assert ValidRange(p.lower, p.upper, spacing);
    LiquidityStepSound(v, event, i);
    var r := Step(v, ChangeLiquidity(event, i)).value;
    assert Balance(r, true) as real >= Owed(true, r.positions, r.v3.price);
    assert Balance(r, false) as real >= Owed(false, r.positions, r.v3.price);
    OwedNonNegative(true, r.positions, r.v3.window.tickSpacing, r.v3.price);
    OwedNonNegative(false, r.positions, r.v3.window.tickSpacing, r.v3.price);
  }

  // ---- When exact-output and exact-input quotes are dual ----

  /** On a matching pool, a quote whose whole charge times the starting price stays 2^224 below uint256 is covered. */
  lemma {:induction false} SmallChargeCovers(o: Order, s: Loop, positions: seq<Position>)
    requires Live(o, s) && !o.exactIn && Run(o, s).Ok?
    requires ValidPositions(positions, o.window.tickSpacing) && WindowMatches(o.window, positions)
    requires UnderCap(positions)
    requires s.liquidity == Active(positions)(s.tick)
    requires o.down ==> (Run(o, s).value.loop.inTotal - s.inTotal) * s.price + MAX_UINT128 * Q96 < U256
    ensures Serving(o, s).Some? ==> PassCovers(o, Serving(o, s).value)
    decreases Rank(o, s)
  {
    hide Run, Iterate, Ratio, Active, NextInitializedTickWithinOneWord, ServesShort, PassCovers;
    Unroll(o, s);
    if !Done(o, s) {
      IterateLive(o, s);
      var t := Iterate(o, s).value.loop;
      if !Iterate(o, s).value.exhausted { RunBounds(o, t); Unroll(o, t); }
      var charge := Run(o, s).value.loop.inTotal - s.inTotal;
      if ServesShort(o, s) {
        ServedPassDelivers(o, s);
        ActiveAtMostTotal(positions, s.tick);
        SmallPassCovers(o, s);
      } else if !Iterate(o, s).value.exhausted {
        MatchIsProfile(o.window, positions);
        PassConserves(o, s, Active(positions));
        if o.down {
          MulMono(charge - (t.inTotal - s.inTotal), charge, s.price);
          MulMono(t.price, s.price, charge - (t.inTotal - s.inTotal));
        }
        SmallChargeCovers(o, t, positions);
      }
    }
  }

  lemma SmallPassCovers(o: Order, s: Loop)
    requires Live(o, s) && !Done(o, s) && !o.exactIn && ServesShort(o, s) && Iterate(o, s).Ok?
    requires s.liquidity <= MAX_UINT128
    requires o.down ==> (Iterate(o, s).value.loop.inTotal - s.inTotal) * s.price + MAX_UINT128 * Q96 < U256
    ensures PassCovers(o, s)
  {
    hide NextInitializedTickWithinOneWord, ComputeSwapStep, Ratio, TickAt, Target, AmountIn, AmountOut;
    var (found, initialized) := NextInitializedTickWithinOneWord(o.window, s.tick, o.down).value;
    TargetAhead(o, s, found, initialized);
    StepOf(o, s, found, initialized);
    RatioRange(s.tick);
    var a := StepAt(o, s).value;
    assert Iterate(o, s).value.loop.inTotal == s.inTotal + a.amountIn + a.feeAmount;
    MulMono(a.amountIn, a.amountIn + a.feeAmount, s.price);
    MulMono(s.liquidity, MAX_UINT128, Q96);
  }

  /** Upward always, and downward for charges a caller can check, paying an exact-output quote's input buys at least
      its output. */
  lemma DualOnMatchingPool(w: World, zeroForOne: bool, asked: int, limit: Option<nat>)
    requires Sound(w) && asked > 0 && UnderCap(w.positions) && Allowed(w, Swap(zeroForOne, -asked, limit))
    ensures var quoted := Simulation(PoolOf(w), w.v3.window, zeroForOne, -asked, limit);
            && quoted.Ok?
            && (quoted.value.amountIn > 0
                && (zeroForOne ==> quoted.value.amountIn * w.v3.price + MAX_UINT128 * Q96 < U256) ==>
                  var bought := Simulation(PoolOf(w), w.v3.window, zeroForOne, quoted.value.amountIn, limit);
                  bought.Ok? && bought.value.amountOut >= quoted.value.amountOut)
  {
    hide Run, Ratio, Owed, Active, Serving, PassLands, PassCovers;
    var state := PoolOf(w);
    StartLive(state, w.v3.window, zeroForOne, -asked, limit);
    var o, s := OrderFor(state, w.v3.window, zeroForOne, -asked, limit), Start(state, -asked);
    RunNeverFails(o, s, w.positions);
    var paid := Simulation(state, w.v3.window, zeroForOne, -asked, limit).value.amountIn;
    if paid > 0 && (zeroForOne ==> paid * w.v3.price + MAX_UINT128 * Q96 < U256) {
      StartLive(state, w.v3.window, zeroForOne, paid, limit);
      RunNeverFails(OrderFor(state, w.v3.window, zeroForOne, paid, limit), Start(state, paid), w.positions);
      SmallChargeCovers(o, s, w.positions);
      RunDual(o, s, Start(state, paid));
    }
  }
}
