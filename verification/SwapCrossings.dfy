/** What a quote reports beside its amounts: the ticks it crossed and why it stopped. */
module SwapCrossings {
  import opened Results
  import opened V3Models
  import opened TickBitmap
  import opened TickMath
  import opened SwapMath
  import opened SwapSimulator
  import opened SwapConservation

  /** The initialized ticks above lo, up to hi. */
  ghost function InitializedBetween(window: TickWindow, lo: int, hi: int): set<int> {
    set t: int | lo < t <= hi && Initialized(window, t)
  }

  /** The initialized ticks passed by moving from one tick to another. */
  ghost function Passed(window: TickWindow, down: bool, from: int, to: int): set<int> {
    if down then InitializedBetween(window, to, from) else InitializedBetween(window, from, to)
  }

  /** Those of some ticks that the window has a record of. */
  ghost function Recorded(window: TickWindow, ticks: set<int>): set<int> {
    set t <- ticks | t in window.ticks
  }

  predicate Onward(down: bool, from: int, to: int) {
    if down then to <= from else from <= to
  }

  lemma PassedSplits(window: TickWindow, down: bool, from: int, mid: int, to: int)
    requires Onward(down, from, mid) && Onward(down, mid, to)
    ensures Onward(down, from, to)
    ensures Passed(window, down, from, to) == Passed(window, down, from, mid) + Passed(window, down, mid, to)
    ensures var a, b := Passed(window, down, from, mid), Passed(window, down, mid, to);
            && Recorded(window, a + b) == Recorded(window, a) + Recorded(window, b)
            && |Recorded(window, a + b)| == |Recorded(window, a)| + |Recorded(window, b)|
  {
    hide Initialized;
    var a, b := Passed(window, down, from, mid), Passed(window, down, mid, to);
    assert Passed(window, down, from, to) == a + b;
    assert Recorded(window, a + b) == Recorded(window, a) + Recorded(window, b);
    assert Recorded(window, a) !! Recorded(window, b);
  }

  /** The window has nothing to say beyond a tick: no loaded word, or no record of the tick just passed. */
  ghost predicate WindowEnds(window: TickWindow, down: bool, tick: int) {
    var last := if down then tick + 1 else tick;
    NextInitializedTickWithinOneWord(window, tick, down).Err? || (Initialized(window, last) && last !in window.ticks)
  }

  /** The loop counts each initialized tick it passes once; it stops short where the window ends. */
  ghost predicate Counted(o: Order, s: Loop, r: Outcome) {
    var passed := Passed(o.window, o.down, s.tick, r.loop.tick);
    && Onward(o.down, s.tick, r.loop.tick)
    && r.loop.crossed == s.crossed + |Recorded(o.window, passed)|
    && (if r.exhausted then WindowEnds(o.window, o.down, r.loop.tick) else Recorded(o.window, passed) == passed)
  }

  /** Between the current tick and the tick the search found lies no initialized tick. */
  lemma NoneInBetween(o: Order, s: Loop, found: int, initialized: bool, to: int)
    requires NextInitializedTickWithinOneWord(o.window, s.tick, o.down) == Ok((found, initialized))
    requires if o.down then found <= to <= s.tick else s.tick <= to < found
    ensures Passed(o.window, o.down, s.tick, to) == {}
  {
    hide NextInitializedTickWithinOneWord, Initialized;
    if o.down { SearchDown(o.window, s.tick); } else { SearchUp(o.window, s.tick); }
  }

  /** Moving past the tick the search found passes that tick when it is initialized, and no other. */
  lemma PassedFound(o: Order, s: Loop, found: int, initialized: bool)
    requires NextInitializedTickWithinOneWord(o.window, s.tick, o.down) == Ok((found, initialized))
    ensures Onward(o.down, s.tick, TickPast(o, found))
    ensures initialized <==> Initialized(o.window, found)
    ensures Recorded(o.window, {found}) == if found in o.window.ticks then {found} else {}
    ensures Recorded(o.window, {}) == {}
    ensures Passed(o.window, o.down, s.tick, TickPast(o, found)) == if initialized then {found} else {}
  {
    hide NextInitializedTickWithinOneWord, Initialized;
    if o.down { SearchDown(o.window, s.tick); } else { SearchUp(o.window, s.tick); }
  }

  lemma StaysPut(o: Order, s: Loop)
    ensures Passed(o.window, o.down, s.tick, s.tick) == {}
    ensures Counted(o, s, Outcome(s, false))
  {
    assert Passed(o.window, o.down, s.tick, s.tick) == {};
  }

  lemma PassIsCounted(o: Order, s: Loop)
    requires Live(o, s) && !Done(o, s) && Iterate(o, s).Ok?
    ensures Counted(o, s, Iterate(o, s).value)
  {
    hide NextInitializedTickWithinOneWord, ComputeSwapStep, Ratio, TickAt, Target, OutputOverflows, ExactInputStep,
        ExactOutputStep, StepBounds, Passed;
    var search := NextInitializedTickWithinOneWord(o.window, s.tick, o.down);
    StaysPut(o, s);
    if search.Ok? {
      var (found, initialized) := search.value;
      var n := Clamp(found);
      TargetAhead(o, s, found, initialized);
      StepOf(o, s, found, initialized);
      var step := ComputeSwapStep(s.price, Target(o, n), s.liquidity, s.remaining, o.feePips).value;
      StepToward(o, s, Target(o, n), step);
      if step.priceNext == Ratio(n) {
        assert n == found;
        PassedFound(o, s, found, initialized);
      } else if step.priceNext != s.price {
        PassTick(o, s, found, initialized, step);
        NoneInBetween(o, s, found, initialized, TickAt(step.priceNext));
      } else {
        NoneInBetween(o, s, found, initialized, s.tick);
      }
    }
  }

  lemma {:induction false} RunIsCounted(o: Order, s: Loop)
    requires Live(o, s) && Run(o, s).Ok?
    ensures Counted(o, s, Run(o, s).value)
    decreases Rank(o, s)
  {
    hide Run, Iterate, Live, Recorded, Passed, WindowEnds, Done, Rank;
    Unroll(o, s);
    if Done(o, s) {
      StaysPut(o, s);
    } else {
      PassIsCounted(o, s);
      var u := Iterate(o, s).value;
      if !u.exhausted {
        RunIsCounted(o, u.loop);
        PassedSplits(o.window, o.down, s.tick, u.loop.tick, Run(o, u.loop).value.loop.tick);
      }
    }
  }

  /** A quote that did not exhaust the window crossed exactly the initialized ticks between its ends, and names no
      limit iff it was served in full; one that did stopped where the window ends. */
  lemma QuoteReports(state: PoolState, window: TickWindow, zeroForOne: bool, amountSpecified: int, limit: Option<nat>)
    requires AtTick(state.tick, state.price)
    ensures var r := Simulation(state, window, zeroForOne, amountSpecified, limit);
            r.Ok? ==>
              var q := r.value;
              var passed := if zeroForOne then InitializedBetween(window, q.tickAfter, state.tick)
                  else InitializedBetween(window, state.tick, q.tickAfter);
              && (if zeroForOne then q.tickAfter <= state.tick else state.tick <= q.tickAfter)
              && q.ticksCrossed == |set t <- passed | t in window.ticks|
              && (q.limitReason == Some(WindowLimit) ==> WindowEnds(window, zeroForOne, q.tickAfter))
              && (q.limitReason != Some(WindowLimit) ==>
                    && q.ticksCrossed == |passed|
                    && (q.limitReason == None
                        <==> if amountSpecified > 0 then q.amountInConsumed == amountSpecified
                            else q.amountOut == -amountSpecified))
              && (q.exact <==> window.blockNumber == state.blockNumber)
              && q.zeroForOne == zeroForOne && q.blockNumber == state.blockNumber
              && q.amountIn == if amountSpecified > 0 then amountSpecified else q.amountInConsumed
  {
    hide Run, Live, WindowEnds, PassBounds;
    if Simulation(state, window, zeroForOne, amountSpecified, limit).Ok? {
      var o, s := OrderFor(state, window, zeroForOne, amountSpecified, limit), Start(state, amountSpecified);
      StartLive(state, window, zeroForOne, amountSpecified, limit);
      RunBounds(o, s);
      RunIsCounted(o, s);
      DeliveredIs(o, s, Run(o, s).value.loop);
    }
  }

  lemma DeliveredIs(o: Order, s: Loop, t: Loop)
    requires PassBounds(o, s, t)
    ensures !o.exactIn ==> t.remaining == s.remaining + (t.outTotal - s.outTotal)
  {
  }
}
