/** Pool events folded into a block, and what the block then says: reserves, slot, liquidity and the states around each
    event. */
module PoolEvents {
  import opened Results
  import opened V3Models
  import opened TickBitmap
  import opened PoolLiquidity

  datatype V2State = V2State(reserveUsdc: int, reserveWeth: int)

  datatype LogRef = LogRef(blockNumber: int, txHash: string, txIndex: int, logIndex: int)

  datatype PoolEvent =
    | V2Sync(ref: LogRef, reserve0: int, reserve1: int)
    | V2Swap(ref: LogRef)
    | V3Swap(ref: LogRef, price: int, newLiquidity: int, newTick: int)
    | V3Change(ref: LogRef, change: V3Liquidity)

  datatype BlockHeader = BlockHeader(number: int, hash: string, parentHash: string, timestamp: int,
      baseFeeWei: Option<int>)

  datatype PairState = PairState(blockNumber: int, blockHash: string, timestamp: int, baseFeeWei: Option<int>,
      v2: V2State, v3: V3State)

  /** An event with the pool state just before and after it. */
  datatype AppliedEvent = AppliedEvent(
    event: PoolEvent,
    v2Before: Option<V2State>,
    v2After: Option<V2State>,
    v3Before: Option<V3State>,
    v3After: Option<V3State>)

  datatype BlockState = BlockState(header: BlockHeader, start: PairState, end: PairState, steps: seq<AppliedEvent>)

  datatype Config = Config(v2UsdcIsToken0: bool)

  // ---- Folding events ----

  /** The running state of the event loop. */
  datatype Running = Running(v2: V2State, v3: V3State, pendingSync: Option<(PoolEvent, V2State)>,
      steps: seq<AppliedEvent>)

  function V2StateFromReserves(config: Config, reserve0: int, reserve1: int): V2State {
    if config.v2UsdcIsToken0 then V2State(reserve0, reserve1) else V2State(reserve1, reserve0)
  }

  /** A V2 swap's own pre-state is the one before the Sync its transaction emitted just ahead of it. */
  function V2SwapBefore(r: Running, event: PoolEvent): V2State {
    if && r.pendingSync.Some? && r.pendingSync.value.0.ref.txHash == event.ref.txHash
       && r.pendingSync.value.0.ref.logIndex == event.ref.logIndex - 1
    then r.pendingSync.value.1 else r.v2
  }

  function ApplyEvent(config: Config, r: Running, event: PoolEvent): Result<Running> {
    match event
    case V2Sync(_, reserve0, reserve1) =>
      var v2 := V2StateFromReserves(config, reserve0, reserve1);
      Ok(Running(v2, r.v3, Some((event, r.v2)), r.steps + [AppliedEvent(event, Some(r.v2), Some(v2), None, None)]))
    case V2Swap(_) =>
      var before := V2SwapBefore(r, event);
      Ok(Running(r.v2, r.v3, None, r.steps + [AppliedEvent(event, Some(before), Some(r.v2), None, None)]))
    case V3Swap(_, price, liquidity, tick) =>
      var v3 := V3State(price, tick, liquidity, r.v3.window);
      Ok(r.(v3 := v3, steps := r.steps + [AppliedEvent(event, None, None, Some(r.v3), Some(v3))]))
    case V3Change(_, change) =>
      var v3 :- ApplyLiquidity(r.v3, change);
      Ok(r.(v3 := v3, steps := r.steps + [AppliedEvent(event, None, None, Some(r.v3), Some(v3))]))
  }

  function ApplyEvents(config: Config, r: Running, events: seq<PoolEvent>): Result<Running>
    decreases |events|
  {
    if events == [] then Ok(r)
    else
      var next :- ApplyEvent(config, r, events[0]);
      ApplyEvents(config, next, events[1..])
  }

  function Begin(start: PairState): Running {
    Running(start.v2, start.v3, None, [])
  }

  function Stamp(v3: V3State, number: int): V3State {
    v3.(window := v3.window.(blockNumber := number))
  }

  /** Hexadecimal hashes compare without regard to letter case. */
  function Lower(s: string): string {
    if s == "" then "" else [LowerChar(s[0])] + Lower(s[1..])
  }

  function LowerChar(c: char): char {
    if 'A' <= c <= 'Z' then c - 'A' + 'a' else c
  }

  /** The block that extends the latest tracked state, or why it cannot. */
  function NextBlock(config: Config, latest: Option<PairState>, header: BlockHeader,
                     events: seq<PoolEvent>): Result<BlockState> {
    if latest.None? || header.number != latest.value.blockNumber + 1 then
      Err(StateGap)
    else if Lower(header.parentHash) != Lower(latest.value.blockHash) then
      Err(ReorgDetected)
    else
      var start := latest.value;
      var r :- ApplyEvents(config, Begin(start), events);
      Ok(BlockState(header, start,
                    PairState(header.number, header.hash, header.timestamp, header.baseFeeWei, r.v2,
                        Stamp(r.v3, header.number)),
                    r.steps))
  }

  // ---- Reading the events ----

  /** The index of the last Sync among the first k events. */
  function LastSync(events: seq<PoolEvent>, k: nat): (last: Option<nat>)
    requires k <= |events|
    ensures last.None? ==> forall j :: 0 <= j < k ==> !events[j].V2Sync?
    ensures last.Some? ==> last.value < k && events[last.value].V2Sync?
                           && forall j :: last.value < j < k ==> !events[j].V2Sync?
  {
    if k == 0 then None else if events[k - 1].V2Sync? then Some(k - 1) else LastSync(events, k - 1)
  }

  /** The index of the last V3 swap among the first k events. */
  function LastV3Swap(events: seq<PoolEvent>, k: nat): (last: Option<nat>)
    requires k <= |events|
    ensures last.None? ==> forall j :: 0 <= j < k ==> !events[j].V3Swap?
    ensures last.Some? ==> last.value < k && events[last.value].V3Swap?
                           && forall j :: last.value < j < k ==> !events[j].V3Swap?
  {
    if k == 0 then None else if events[k - 1].V3Swap? then Some(k - 1) else LastV3Swap(events, k - 1)
  }

  /** The V2 reserves after the first k events: those of the last Sync, in the configured token order. */
  function ReservesAfter(config: Config, start: PairState, events: seq<PoolEvent>, k: nat): V2State
    requires k <= |events|
  {
    match LastSync(events, k)
    case None => start.v2
    case Some(i) =>
      V2State(reserveUsdc := if config.v2UsdcIsToken0 then events[i].reserve0 else events[i].reserve1,
              reserveWeth := if config.v2UsdcIsToken0 then events[i].reserve1 else events[i].reserve0)
  }

  /** What one event adds to the liquidity in range at a tick. */
  function InRangeDelta(event: PoolEvent, tick: int): int {
    if event.V3Change? && event.change.tickLower <= tick < event.change.tickUpper then event.change.Delta() else 0
  }

  /** What one event adds to the gross liquidity bound to a tick: a position binds both its ends. */
  function GrossDelta(event: PoolEvent, tick: int): int {
    if event.V3Change? then
      (if event.change.tickLower == tick then event.change.Delta() else 0)
      + (if event.change.tickUpper == tick then event.change.Delta() else 0)
    else 0
  }

  function InRangeSum(events: seq<PoolEvent>, lo: nat, hi: nat, tick: int): int
    requires hi <= |events|
    decreases hi
  {
    if hi <= lo then 0 else InRangeSum(events, lo, hi - 1, tick) + InRangeDelta(events[hi - 1], tick)
  }

  function GrossSum(events: seq<PoolEvent>, to: nat, tick: int): int
    requires to <= |events|
  {
    if to == 0 then 0 else GrossSum(events, to - 1, tick) + GrossDelta(events[to - 1], tick)
  }

  /** Price and tick are those of the last V3 swap among the first k events; the liquidity is that swap's, plus what
      later mints and burns around its tick added; without a swap, both are counted from the start. */
  ghost predicate SlotReads(v3: V3State, start: PairState, events: seq<PoolEvent>, k: nat)
    requires k <= |events|
  {
    match LastV3Swap(events, k)
    case None =>
      && v3.price == start.v3.price && v3.tick == start.v3.tick
      && v3.liquidity == start.v3.liquidity + InRangeSum(events, 0, k, start.v3.tick)
    case Some(i) =>
      && v3.price == events[i].price && v3.tick == events[i].newTick
      && v3.liquidity == events[i].newLiquidity + InRangeSum(events, i + 1, k, events[i].newTick)
  }

  /** At every loaded tick, the gross liquidity is that of the start plus what the mints and burns bound to it. */
  ghost predicate GrossReads(window: TickWindow, start: PairState, events: seq<PoolEvent>, k: nat)
    requires k <= |events|
  {
    && SameShape(start.v3.window, window)
    && forall t {:trigger RecordAt(window, t)} ::
         GrossOf(RecordAt(window, t))
         == GrossOf(RecordAt(start.v3.window, t)) + if Loaded(start.v3.window, t) then GrossSum(events, k, t) else 0
  }

  ghost predicate V3Reads(v3: V3State, start: PairState, events: seq<PoolEvent>, k: nat)
    requires k <= |events|
  {
    SlotReads(v3, start, events, k) && GrossReads(v3.window, start, events, k)
  }

  /** The Sync at index j is the one a V2 swap at index i belongs to: same transaction, one log earlier, and neither
      a Sync nor a V2 swap in between. */
  predicate OwnSync(events: seq<PoolEvent>, j: nat, i: nat)
    requires i < |events|
  {
    && j < i && events[j].V2Sync?
    && events[j].ref.txHash == events[i].ref.txHash && events[j].ref.logIndex == events[i].ref.logIndex - 1
    && forall m :: j < m < i ==> !events[m].V2Sync? && !events[m].V2Swap?
  }

  /** The step recorded for event i holds the states just ahead of it and just after it. */
  ghost predicate StepReads(config: Config, start: PairState, events: seq<PoolEvent>, i: nat, step: AppliedEvent)
    requires i < |events|
  {
    && step.event == events[i]
    && (if events[i].V2Sync? || events[i].V2Swap? then
          && step.v3Before == None && step.v3After == None
          && step.v2After == Some(ReservesAfter(config, start, events, i + 1))
          && step.v2Before.Some?
          && (events[i].V2Sync? ==> step.v2Before.value == ReservesAfter(config, start, events, i))
          && (events[i].V2Swap? ==>
                && (forall j ::
                      OwnSync(events, j, i) ==> step.v2Before.value == ReservesAfter(config, start, events, j))
                && ((forall j :: !OwnSync(events, j, i)) ==>
                      step.v2Before.value == ReservesAfter(config, start, events, i)))
        else
          && step.v2Before == None && step.v2After == None
          && step.v3Before.Some? && step.v3After.Some?
          && V3Reads(step.v3Before.value, start, events, i)
          && V3Reads(step.v3After.value, start, events, i + 1)
          && (events[i].V3Swap? ==> step.v3After.value.window == step.v3Before.value.window))
  }

  // ---- The running state ----

  /** The Sync the loop still remembers after k events. */
  ghost predicate PendingReads(config: Config, start: PairState, events: seq<PoolEvent>, k: nat,
                               pending: Option<(PoolEvent, V2State)>)
    requires k <= |events|
  {
    var last := LastSync(events, k);
    if last.Some? && forall m :: last.value < m < k ==> !events[m].V2Swap? then
      pending == Some((events[last.value], ReservesAfter(config, start, events, last.value)))
    else pending == None
  }

  ghost predicate Reads(config: Config, start: PairState, events: seq<PoolEvent>, k: nat, r: Running)
    requires k <= |events|
  {
    && r.v2 == ReservesAfter(config, start, events, k)
    && V3Reads(r.v3, start, events, k)
    && PendingReads(config, start, events, k, r.pendingSync)
    && |r.steps| == k
    && forall i :: 0 <= i < k ==> StepReads(config, start, events, i, r.steps[i])
  }

  lemma BeginReads(config: Config, start: PairState, events: seq<PoolEvent>)
    ensures Reads(config, start, events, 0, Begin(start))
  {
  }

  lemma V2SwapReads(config: Config, start: PairState, events: seq<PoolEvent>, k: nat, r: Running)
    requires k < |events| && Reads(config, start, events, k, r) && events[k].V2Swap?
    ensures var before := V2SwapBefore(r, events[k]);
            && (forall j :: OwnSync(events, j, k) ==> before == ReservesAfter(config, start, events, j))
            && ((forall j :: !OwnSync(events, j, k)) ==> before == r.v2)
  {
    hide ReservesAfter, V3Reads, StepReads;
    var last := LastSync(events, k);
    if r.pendingSync.Some? {
      assert OwnSync(events, last.value, k) <==>
             && r.pendingSync.value.0.ref.txHash == events[k].ref.txHash
             && r.pendingSync.value.0.ref.logIndex == events[k].ref.logIndex - 1;
    }
  }

  /** One update changes the gross liquidity of its own tick only, and of a loaded one only. */
  lemma UpdateReads(window: TickWindow, tick: int, grossDelta: int, netDelta: int)
    ensures var r := WindowWithLiquidity(window, tick, grossDelta, netDelta);
            r.Ok? ==>
              && SameShape(window, r.value)
              && forall t {:trigger RecordAt(r.value, t)} ::
                   GrossOf(RecordAt(r.value, t))
                   == GrossOf(RecordAt(window, t)) + if t == tick && Loaded(window, t) then grossDelta else 0
  {
    hide WindowWithLiquidity, RecordAt, Loaded, Initialized;
    UpdateTick(window, tick, grossDelta, netDelta);
    var r := WindowWithLiquidity(window, tick, grossDelta, netDelta);
    if r.Ok? {
      forall t ensures GrossOf(RecordAt(r.value, t))
          == GrossOf(RecordAt(window, t)) + if t == tick && Loaded(window, t) then grossDelta else 0 {
      }
    }
  }

  lemma LoadedSame(a: TickWindow, b: TickWindow, t: int)
    requires SameShape(a, b)
    ensures Loaded(a, t) <==> Loaded(b, t)
  {
  }

  /** A mint or burn changes the gross liquidity at its two ticks, and the liquidity when its range holds the tick. */
  lemma ChangeReads(before: V3State, event: PoolEvent)
    requires event.V3Change? && ApplyLiquidity(before, event.change).Ok?
    ensures var after := ApplyLiquidity(before, event.change).value;
            && after.price == before.price && after.tick == before.tick
            && after.liquidity == before.liquidity + InRangeDelta(event, before.tick)
            && SameShape(before.window, after.window)
            && forall t {:trigger RecordAt(after.window, t)} ::
                 GrossOf(RecordAt(after.window, t))
                 == GrossOf(RecordAt(before.window, t)) + if Loaded(before.window, t) then GrossDelta(event, t) else 0
  {
    hide WindowWithLiquidity, RecordAt, Loaded;
    var change := event.change;
    if change.amount != 0 {
      var delta := change.Delta();
      UpdateReads(before.window, change.tickLower, delta, delta);
      var lower := WindowWithLiquidity(before.window, change.tickLower, delta, delta).value;
      UpdateReads(lower, change.tickUpper, delta, -delta);
      var after := ApplyLiquidity(before, change).value;
      forall t ensures GrossOf(RecordAt(after.window, t))
          == GrossOf(RecordAt(before.window, t)) + if Loaded(before.window, t) then GrossDelta(event, t) else 0 {
        LoadedSame(before.window, lower, t);
      }
    }
  }

  lemma V3ChangeReads(start: PairState, events: seq<PoolEvent>, k: nat, before: V3State)
    requires k < |events| && events[k].V3Change? && V3Reads(before, start, events, k)
    requires ApplyLiquidity(before, events[k].change).Ok?
    ensures V3Reads(ApplyLiquidity(before, events[k].change).value, start, events, k + 1)
  {
    hide ApplyLiquidity, RecordAt, Loaded, InRangeDelta, GrossDelta;
    ChangeReads(before, events[k]);
    var after := ApplyLiquidity(before, events[k].change).value;
    forall t ensures GrossOf(RecordAt(after.window, t))
        == GrossOf(RecordAt(start.v3.window, t))
           + if Loaded(start.v3.window, t) then GrossSum(events, k + 1, t) else 0 {
      LoadedSame(start.v3.window, before.window, t);
    }
  }

  /** An event of another kind leaves the readings of the first k events standing. */
  lemma OtherReads(config: Config, start: PairState, events: seq<PoolEvent>, k: nat, v3: V3State)
    requires k < |events|
    ensures !events[k].V2Sync? ==>
              ReservesAfter(config, start, events, k + 1) == ReservesAfter(config, start, events, k)
    ensures events[k].V2Sync? || events[k].V2Swap? ==>
              V3Reads(v3, start, events, k) ==> V3Reads(v3, start, events, k + 1)
  {
    hide RecordAt, Loaded;
  }

  lemma V3SwapReads(start: PairState, events: seq<PoolEvent>, k: nat, before: V3State)
    requires k < |events| && events[k].V3Swap? && V3Reads(before, start, events, k)
    ensures V3Reads(V3State(events[k].price, events[k].newTick, events[k].newLiquidity, before.window), start, events,
                    k + 1)
  {
    hide RecordAt, Loaded;
  }

  /** The loop keeps its readings through one more event. */
  lemma NextReads(config: Config, start: PairState, events: seq<PoolEvent>, k: nat, r: Running)
    requires k < |events| && Reads(config, start, events, k, r) && ApplyEvent(config, r, events[k]).Ok?
    ensures Reads(config, start, events, k + 1, ApplyEvent(config, r, events[k]).value)
  {
    hide V3Reads, ApplyLiquidity, OwnSync;
    var next := ApplyEvent(config, r, events[k]).value;
    OtherReads(config, start, events, k, r.v3);
    match events[k]
    case V2Sync(_, _, _) => 
    case V2Swap(_) => V2SwapReads(config, start, events, k, r);
    case V3Swap(_, _, _, _) => V3SwapReads(start, events, k, r.v3);
    case V3Change(_, _) => V3ChangeReads(start, events, k, r.v3);
    assert StepReads(config, start, events, k, next.steps[k]);
  }

  lemma {:induction false} EventsRead(config: Config, start: PairState, events: seq<PoolEvent>, k: nat, r: Running)
    requires k <= |events| && Reads(config, start, events, k, r)
    ensures var after := ApplyEvents(config, r, events[k..]);
            after.Ok? ==> Reads(config, start, events, |events|, after.value)
    decreases |events| - k
  {
    hide Reads, ApplyEvent;
    if k < |events| {
      assert events[k..][0] == events[k] && events[k..][1..] == events[k + 1..];
      var next := ApplyEvent(config, r, events[k]);
      if next.Ok? {
        NextReads(config, start, events, k, r);
        EventsRead(config, start, events, k + 1, next.value);
      }
    }
  }

  /** What a block holds, in terms of its header, its start and its events alone. */
  ghost predicate BlockReads(config: Config, start: PairState, header: BlockHeader, events: seq<PoolEvent>,
                             b: BlockState)
  {
    && b.header == header && b.start == start
    && b.end.blockNumber == header.number && b.end.blockHash == header.hash
    && b.end.timestamp == header.timestamp && b.end.baseFeeWei == header.baseFeeWei
    && b.end.v2 == ReservesAfter(config, start, events, |events|)
    && b.end.v3.window.blockNumber == header.number
    && V3Reads(Stamp(b.end.v3, start.v3.window.blockNumber), start, events, |events|)
    && |b.steps| == |events| && forall i :: 0 <= i < |events| ==> StepReads(config, start, events, i, b.steps[i])
  }

  /** An accepted block ends with the last Sync's reserves in the configured token order, the last V3 swap's price and
      tick, and that swap's liquidity plus the in-range changes after it; each step holds the states around its
      event. */
  lemma AcceptedBlockReads(config: Config, start: PairState, header: BlockHeader, events: seq<PoolEvent>)
    requires NextBlock(config, Some(start), header, events).Ok?
    ensures BlockReads(config, start, header, events, NextBlock(config, Some(start), header, events).value)
    ensures header.number == start.blockNumber + 1 && Lower(header.parentHash) == Lower(start.blockHash)
  {
    hide V3Reads, StepReads, ReservesAfter, ApplyEvents, PendingReads;
    BeginReads(config, start, events);
    EventsRead(config, start, events, 0, Begin(start));
    assert events[0..] == events;
    var v3 := ApplyEvents(config, Begin(start), events).value.v3;
    StampBack(v3, start, header.number, events);
  }

  lemma StampBack(v3: V3State, start: PairState, number: int, events: seq<PoolEvent>)
    requires V3Reads(v3, start, events, |events|)
    ensures Stamp(Stamp(v3, number), start.v3.window.blockNumber) == v3
  {
  }

  predicate LogOrdered(events: seq<PoolEvent>) {
    forall i, j :: 0 <= i < j < |events| ==> events[i].ref.logIndex < events[j].ref.logIndex
  }

  /** In log order a V2 swap's own Sync can only be the event right before it. */
  lemma OwnSyncIsPrevious(events: seq<PoolEvent>, j: nat, i: nat)
    requires LogOrdered(events) && i < |events|
    ensures OwnSync(events, j, i) <==>
            && j + 1 == i && events[j].V2Sync? && events[j].ref.txHash == events[i].ref.txHash
            && events[j].ref.logIndex == events[i].ref.logIndex - 1
  {
    assert j + 1 < i ==> events[j].ref.logIndex < events[j + 1].ref.logIndex < events[i].ref.logIndex;
  }

  // ---- When a block is refused ----

  /** Two hashes name the same block: equal up to letter case. */
  predicate SameHash(a: string, b: string) {
    |a| == |b| && forall i :: 0 <= i < |a| ==> LowerChar(a[i]) == LowerChar(b[i])
  }

  lemma {:induction false} LowerAt(s: string)
    ensures |Lower(s)| == |s| && forall i :: 0 <= i < |s| ==> Lower(s)[i] == LowerChar(s[i])
  {
    if s != "" { LowerAt(s[1..]); }
  }

  lemma SameHashIsLower(a: string, b: string)
    ensures SameHash(a, b) <==> Lower(a) == Lower(b)
  {
    LowerAt(a);
    LowerAt(b);
    if Lower(a) == Lower(b) {
      forall i | 0 <= i < |a| ensures LowerChar(a[i]) == LowerChar(b[i]) {
        assert Lower(a)[i] == LowerChar(a[i]) && Lower(b)[i] == LowerChar(b[i]);
      }
    }
  }

  lemma {:induction false} EventErrors(config: Config, r: Running, events: seq<PoolEvent>)
    ensures var after := ApplyEvents(config, r, events);
            after.Err? ==>
              && (after.error == GrossUnderflow || after.error == LiquidityUnderflow)
              && exists i :: 0 <= i < |events| && events[i].V3Change? && events[i].change.amount > 0
    decreases |events|
  {
    if events != [] {
      var next := ApplyEvent(config, r, events[0]);
      if next.Ok? {
        EventErrors(config, next.value, events[1..]);
        if ApplyEvents(config, next.value, events[1..]).Err? {
          var i :| 0 <= i < |events[1..]| && events[1..][i].V3Change? && events[1..][i].change.amount > 0;
          assert events[i + 1].V3Change?;
        }
      } else {
        assert events[0].V3Change? && events[0].change.amount > 0;
      }
    }
  }

  /** A block is a gap unless its number follows the latest state, a reorg when its parent is another block, and
      otherwise fails only on a mint or burn after which liquidity would be negative. */
  lemma RefusedBlock(config: Config, latest: Option<PairState>, header: BlockHeader, events: seq<PoolEvent>)
    ensures var r := NextBlock(config, latest, header, events);
            var follows := latest.Some? && header.number == latest.value.blockNumber + 1;
            && (r == Err(StateGap) <==> !follows)
            && (r == Err(ReorgDetected) <==> follows && !SameHash(header.parentHash, latest.value.blockHash))
            && (r.Err? && r.error != StateGap && r.error != ReorgDetected ==>
                  && (r.error == GrossUnderflow || r.error == LiquidityUnderflow)
                  && exists i :: 0 <= i < |events| && events[i].V3Change? && events[i].change.amount > 0)
  {
    hide ApplyEvents, SameHash, Lower;
    if latest.Some? {
      SameHashIsLower(header.parentHash, latest.value.blockHash);
      EventErrors(config, Begin(latest.value), events);
    }
  }
}
