/** Mint and burn events applied to a tracked V3 pool state. */
module PoolLiquidity {
  import opened Results
  import opened Bits
  import opened V3Models
  import opened TickBitmap

  datatype V3State = V3State(price: int, tick: int, liquidity: int, window: TickWindow)

  /** A Mint adds the amount, a Burn removes it. */
  datatype V3Liquidity = V3Liquidity(tickLower: int, tickUpper: int, amount: nat, isMint: bool)
  {
    function Delta(): int {
      if isMint then amount else 0 - amount
    }
  }

  function WindowWithLiquidity(window: TickWindow, tick: int, grossDelta: int, netDelta: int): Result<TickWindow> {
    var (word, bit) := Position(Compress(tick, window.tickSpacing));
    if !(window.minWord <= word <= window.maxWord) then
      Ok(window)
    else
      var known := tick in window.ticks;
      var gross := (if known then window.ticks[tick].liquidityGross else 0) + grossDelta;
      var net := (if known then window.ticks[tick].liquidityNet else 0) + netDelta;
      var stored := Stored(window.bitmapWords, word);
      if gross < 0 then
        Err(GrossUnderflow)
      else if gross == 0 then
        Ok(window.(ticks := window.ticks - {tick},
                   bitmapWords := window.bitmapWords[word := And(stored, Not(Pow2(bit)))]))
      else
        var info := TickInfo(tick, gross, net,
                             if known then window.ticks[tick].feeGrowthOutside0 else 0,
                             if known then window.ticks[tick].feeGrowthOutside1 else 0,
                             true);
        Ok(window.(ticks := window.ticks[tick := info],
                   bitmapWords := window.bitmapWords[word := Or(stored, Pow2(bit))]))
  }

  function ApplyLiquidity(state: V3State, event: V3Liquidity): Result<V3State> {
    if event.amount == 0 then
      Ok(state)
    else
      var delta := event.Delta();
      var lower :- WindowWithLiquidity(state.window, event.tickLower, delta, delta);
      var upper :- WindowWithLiquidity(lower, event.tickUpper, delta, -delta);
      var inRange := event.tickLower <= state.tick < event.tickUpper;
      var liquidity := state.liquidity + if inRange then delta else 0;
      if inRange && liquidity < 0 then Err(LiquidityUnderflow)
      else Ok(state.(liquidity := liquidity, window := upper))
  }

  // ---- What an update means, tick by tick ----

  /** The window's record of a tick. */
  datatype Record = Absent | Present(gross: int, net: int)

  function RecordAt(window: TickWindow, tick: int): Record {
    if tick in window.ticks then Present(window.ticks[tick].liquidityGross, window.ticks[tick].liquidityNet) else Absent
  }

  function GrossOf(r: Record): int {
    if r.Present? then r.gross else 0
  }

  function NetOf(r: Record): int {
    if r.Present? then r.net else 0
  }

  predicate SameShape(a: TickWindow, b: TickWindow) {
    a.tickSpacing == b.tickSpacing && a.minWord == b.minWord && a.maxWord == b.maxWord && a.blockNumber == b.blockNumber
  }

  /** The multiple of the spacing whose bit stands for a tick: the tick itself when it is one. */
  function Aligned(tick: int, spacing: Spacing): (t: int)
    ensures t % spacing == 0 && t <= tick < t + spacing
    ensures tick % spacing == 0 ==> t == tick
  {
    DivMul(tick / spacing, spacing);
    tick / spacing * spacing
  }

  /** Updating any tick outside the loaded words changes nothing; inside, it changes that tick's record and its bit
      only, and fails exactly when the gross liquidity would go negative. */
  lemma UpdateTick(window: TickWindow, tick: int, grossDelta: int, netDelta: int)
    ensures var r := WindowWithLiquidity(window, tick, grossDelta, netDelta);
            var gross := GrossOf(RecordAt(window, tick)) + grossDelta;
            var marked := Aligned(tick, window.tickSpacing);
            && (!Loaded(window, tick) ==> r == Ok(window))
            && (Loaded(window, tick) ==> (r == Err(GrossUnderflow) <==> gross < 0) && (r.Ok? <==> gross >= 0))
            && (Loaded(window, tick) && r.Ok? ==>
                  && SameShape(window, r.value)
                  && RecordAt(r.value, tick)
                     == (if gross == 0 then Absent else Present(gross, NetOf(RecordAt(window, tick)) + netDelta))
                  && (Initialized(r.value, marked) <==> gross != 0)
                  && (forall t :: t != tick ==> RecordAt(r.value, t) == RecordAt(window, t))
                  && (forall t :: t != marked ==> (Initialized(r.value, t) <==> Initialized(window, t))))
  {
    var spacing := window.tickSpacing;
    var (word, bit) := Position(Compress(tick, spacing));
    var marked := Aligned(tick, spacing);
    DivMul(tick / spacing, spacing);
    var r := WindowWithLiquidity(window, tick, grossDelta, netDelta);
    if Loaded(window, tick) && r.Ok? {
      var stored := Stored(window.bitmapWords, word);
      var gross := GrossOf(RecordAt(window, tick)) + grossDelta;
      var after := if gross == 0 then And(stored, Not(Pow2(bit))) else Or(stored, Pow2(bit));
      assert r.value.bitmapWords == window.bitmapWords[word := after];
      UpdatedBits(stored, bit, gross, after);
      forall t: int | t != marked && t % spacing == 0
        ensures Initialized(r.value, t) <==> Initialized(window, t)
      {
        DistinctPositions(t, marked, spacing);
      }
    }
  }

  lemma UpdatedBits(stored: nat, bit: nat, gross: int, after: nat)
    requires after == if gross == 0 then And(stored, Not(Pow2(bit))) else Or(stored, Pow2(bit))
    ensures forall i: nat :: Bit(after, i) <==> if i == bit then gross != 0 else Bit(stored, i)
  {
    forall i: nat ensures Bit(after, i) <==> if i == bit then gross != 0 else Bit(stored, i) {
      Pow2Bit(bit, i);
      NotBit(Pow2(bit), i);
      AndBit(stored, Not(Pow2(bit)), i);
      OrBit(stored, Pow2(bit), i);
    }
  }

  lemma DistinctPositions(t: int, u: int, spacing: Spacing)
    requires t % spacing == 0 && u % spacing == 0 && t != u
    ensures Position(t / spacing) != Position(u / spacing)
  {
    DivBounds(t, spacing);
    DivBounds(u, spacing);
    assert t / spacing * spacing == t && u / spacing * spacing == u;
  }
}
