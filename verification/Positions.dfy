/** Liquidity positions, their totals per tick, and the pool state that matches them. */
module Positions {
  import opened V3Models
  import opened TickBitmap
  import opened TickMath
  import opened PoolLiquidity
  import opened SwapConservation

  datatype Position = Position(lower: int, upper: int, liquidity: nat)

  predicate ValidRange(lower: int, upper: int, spacing: Spacing) {
    MIN_TICK <= lower < upper <= MAX_TICK && lower % spacing == 0 && upper % spacing == 0
  }

  predicate ValidPositions(positions: seq<Position>, spacing: Spacing) {
    forall i :: 0 <= i < |positions| ==> ValidRange(positions[i].lower, positions[i].upper, spacing)
  }

  // ---- Totals ----

  function Total(positions: seq<Position>, weight: Position -> int): int {
    if positions == [] then 0 else weight(positions[0]) + Total(positions[1..], weight)
  }

  /** Liquidity a position has in range at a tick. */
  function Cover(tick: int): Position -> int {
    (p: Position) => if p.lower <= tick < p.upper then p.liquidity else 0
  }

  function Touch(tick: int): Position -> int {
    (p: Position) => if p.lower == tick || p.upper == tick then p.liquidity else 0
  }

  function Turn(tick: int): Position -> int {
    (p: Position) => if p.lower == tick then p.liquidity else if p.upper == tick then 0 - p.liquidity else 0
  }

  /** In-range liquidity at a tick: the positions whose range covers it. */
  function Active(positions: seq<Position>): int -> int {
    t => Total(positions, Cover(t))
  }

  function Gross(positions: seq<Position>, tick: int): int {
    Total(positions, Touch(tick))
  }

  function Net(positions: seq<Position>, tick: int): int {
    Total(positions, Turn(tick))
  }

  lemma {:induction false} TotalAppend(positions: seq<Position>, p: Position, weight: Position -> int)
    ensures Total(positions + [p], weight) == Total(positions, weight) + weight(p)
  {
    if positions == [] {
      assert Total([p], weight) == weight(p) + Total([], weight);
    } else {
      assert (positions + [p])[1..] == positions[1..] + [p];
      TotalAppend(positions[1..], p, weight);
    }
  }

  lemma {:induction false} TotalUpdate(positions: seq<Position>, i: nat, p: Position, weight: Position -> int)
    requires i < |positions|
    ensures Total(positions[i := p], weight) == Total(positions, weight) - weight(positions[i]) + weight(p)
  {
    if i > 0 {
      assert positions[i := p][1..] == positions[1..][i - 1 := p];
      TotalUpdate(positions[1..], i - 1, p, weight);
    } else {
      assert positions[0 := p][1..] == positions[1..];
    }
  }

  lemma {:induction false} TotalsAtTick(positions: seq<Position>, spacing: Spacing, t: int)
    requires ValidPositions(positions, spacing)
    ensures Active(positions)(t) >= 0 && Gross(positions, t) >= 0
    ensures -Gross(positions, t) <= Net(positions, t) <= Gross(positions, t)
    ensures Active(positions)(t) == Active(positions)(t - 1) + Net(positions, t)
    ensures t % spacing != 0 ==> Gross(positions, t) == 0
    ensures t < MIN_TICK || MAX_TICK <= t ==> Active(positions)(t) == 0
  {
    if positions != [] {
      var p := positions[0];
      assert ValidRange(p.lower, p.upper, spacing);
      TotalsAtTick(positions[1..], spacing, t);
    }
  }

  // ---- Changing one position ----

  /** The positions after an event on position `i`; a mint at the end opens a new position. */
  predicate EventFits(positions: seq<Position>, i: nat, event: V3Liquidity, spacing: Spacing) {
    && ValidRange(event.tickLower, event.tickUpper, spacing)
    && i <= |positions|
    && (i < |positions| ==> positions[i].lower == event.tickLower && positions[i].upper == event.tickUpper)
    && (!event.isMint ==> i < |positions| && event.amount <= positions[i].liquidity)
  }

  function PositionsAfter(positions: seq<Position>, i: nat, event: V3Liquidity, spacing: Spacing): seq<Position>
    requires EventFits(positions, i, event, spacing)
  {
    if i == |positions| then positions + [Position(event.tickLower, event.tickUpper, event.amount)]
    else positions[i := positions[i].(liquidity := positions[i].liquidity + event.Delta())]
  }

  lemma TotalAfter(positions: seq<Position>, i: nat, event: V3Liquidity, spacing: Spacing, t: int)
    requires EventFits(positions, i, event, spacing)
    ensures var after := PositionsAfter(positions, i, event, spacing);
            var d := event.Delta();
            && Active(after)(t) == Active(positions)(t) + (if event.tickLower <= t < event.tickUpper then d else 0)
            && Gross(after, t) == Gross(positions, t) + (if t == event.tickLower || t == event.tickUpper then d else 0)
            && Net(after, t)
                 == Net(positions, t) + (if t == event.tickLower then d else if t == event.tickUpper then -d else 0)
  {
    hide Total;
    if i == |positions| {
      var p := Position(event.tickLower, event.tickUpper, event.amount);
      TotalAppend(positions, p, Cover(t));
      TotalAppend(positions, p, Touch(t));
      TotalAppend(positions, p, Turn(t));
    } else {
      var p := positions[i].(liquidity := positions[i].liquidity + event.Delta());
      TotalUpdate(positions, i, p, Cover(t));
      TotalUpdate(positions, i, p, Touch(t));
      TotalUpdate(positions, i, p, Turn(t));
    }
  }

  // ---- The joint invariant ----

  /** A loaded tick is recorded and marked iff some liquidity is bounded there, with the right gross and net. */
  predicate TickMatches(window: TickWindow, positions: seq<Position>, t: int) {
    && RecordAt(window, t)
         == (if Gross(positions, t) == 0 then Absent else Present(Gross(positions, t), Net(positions, t)))
    && (Initialized(window, t) <==> Gross(positions, t) > 0)
  }

  ghost predicate WindowMatches(window: TickWindow, positions: seq<Position>) {
    forall t :: t % window.tickSpacing == 0 && Loaded(window, t) ==> TickMatches(window, positions, t)
  }

  /** The pool state agrees with the positions: window records and bits, and in-range liquidity. */
  ghost predicate StateMatches(state: V3State, positions: seq<Position>) {
    && ValidPositions(positions, state.window.tickSpacing)
    && WindowMatches(state.window, positions)
    && state.liquidity == Active(positions)(state.tick)
  }

  lemma {:induction false} EmptyPoolMatches(state: V3State)
    requires state.liquidity == 0 && state.window.bitmapWords == map[] && state.window.ticks == map[]
    ensures StateMatches(state, [])
  {
    forall t | t % state.window.tickSpacing == 0 && Loaded(state.window, t) ensures TickMatches(state.window, [], t) {
      Bits.ZeroBit(TickBitmap.Position(t / state.window.tickSpacing).1);
    }
  }

  /** A mint, or a burn of at most what its position holds, is always applied without error and keeps the pool
      matching its positions. */
  lemma ApplyLiquidityKeepsMatch(state: V3State, positions: seq<Position>, i: nat, event: V3Liquidity)
    requires StateMatches(state, positions) && EventFits(positions, i, event, state.window.tickSpacing)
    ensures var r := ApplyLiquidity(state, event);
            && r.Ok? && SameShape(state.window, r.value.window)
            && r.value.price == state.price && r.value.tick == state.tick
            && StateMatches(r.value, PositionsAfter(positions, i, event, state.window.tickSpacing))
  {
    hide WindowWithLiquidity, Active, Gross, Net, Initialized, RecordAt, Loaded;
    var spacing := state.window.tickSpacing;
    var after := PositionsAfter(positions, i, event, spacing);
    forall t ensures TotalsStep(positions, after, event, t) {
      TotalAfter(positions, i, event, spacing, t);
    }
    forall t ensures TotalsSane(positions, t) && TotalsSane(after, t) {
      TotalsAtTick(positions, spacing, t);
      TotalsAtTick(after, spacing, t);
    }
    assert TotalsStep(positions, after, event, state.tick);
    assert TotalsSane(after, state.tick);
    assert ValidPositions(after, spacing);
    if event.amount != 0 {
      WindowKeepsMatch(state.window, positions, after, event);
    } else {
      forall t: int | t % spacing == 0 && Loaded(state.window, t) ensures TickMatches(state.window, after, t) {
        assert TotalsStep(positions, after, event, t) && TickMatches(state.window, positions, t);
      }
    }
  }

  ghost predicate TotalsStep(positions: seq<Position>, after: seq<Position>, event: V3Liquidity, t: int) {
    var d := event.Delta();
    && Active(after)(t) == Active(positions)(t) + (if event.tickLower <= t < event.tickUpper then d else 0)
    && Gross(after, t) == Gross(positions, t) + (if t == event.tickLower || t == event.tickUpper then d else 0)
    && Net(after, t) == Net(positions, t) + (if t == event.tickLower then d else if t == event.tickUpper then -d else 0)
  }

  ghost predicate TotalsSane(positions: seq<Position>, t: int) {
    Active(positions)(t) >= 0 && Gross(positions, t) >= 0
        && -Gross(positions, t) <= Net(positions, t) <= Gross(positions, t)
  }

  lemma WindowKeepsMatch(window: TickWindow, positions: seq<Position>, after: seq<Position>, event: V3Liquidity)
    requires ValidRange(event.tickLower, event.tickUpper, window.tickSpacing) && WindowMatches(window, positions)
    requires forall t :: TotalsStep(positions, after, event, t)
    requires forall t :: TotalsSane(positions, t) && TotalsSane(after, t)
    ensures var d := event.Delta();
            var lower := WindowWithLiquidity(window, event.tickLower, d, d);
            && lower.Ok?
            && var upper := WindowWithLiquidity(lower.value, event.tickUpper, d, -d);
               upper.Ok? && SameShape(window, upper.value) && WindowMatches(upper.value, after)
  {
    hide WindowWithLiquidity, Active, Gross, Net, Initialized, RecordAt;
    var d := event.Delta();
    var a, b := event.tickLower, event.tickUpper;
    assert TotalsStep(positions, after, event, a) && TotalsSane(after, a) && TotalsSane(positions, a);
    assert TotalsStep(positions, after, event, b) && TotalsSane(after, b) && TotalsSane(positions, b);
    assert Loaded(window, a) ==> TickMatches(window, positions, a);
    assert Loaded(window, b) ==> TickMatches(window, positions, b);
    UpdateTick(window, a, d, d);
    var lower := WindowWithLiquidity(window, a, d, d).value;
    UpdateTick(lower, b, d, -d);
    var upper := WindowWithLiquidity(lower, b, d, -d).value;
    forall t | t % window.tickSpacing == 0 && Loaded(upper, t) ensures TickMatches(upper, after, t) {
      assert TotalsStep(positions, after, event, t);
      assert TickMatches(window, positions, t);
    }
  }

  /** A matching pool's in-range liquidity follows its positions at every tick. */
  lemma MatchIsProfile(window: TickWindow, positions: seq<Position>)
    requires ValidPositions(positions, window.tickSpacing) && WindowMatches(window, positions)
    ensures Profile(window, Active(positions))
  {
    hide Active, Gross, Net;
    forall t | t % window.tickSpacing != 0 || Loaded(window, t)
      ensures Active(positions)(t) == Active(positions)(t - 1) + NetAt(window, t)
    {
      TotalsAtTick(positions, window.tickSpacing, t);
      if t % window.tickSpacing == 0 { assert TickMatches(window, positions, t); }
    }
  }
}
