/** Event-sourced pool state, block by block: anchors, applied blocks, rewinds and trimming. */
module PoolTracker {
  import opened Results
  import opened V3Models
  import opened TickBitmap
  import opened PoolLiquidity
  import opened PoolEvents

  // ---- The state after a log ----

  /** Steps are visited while their log index is not beyond the given one. */
  function Leading(steps: seq<AppliedEvent>, logIndex: int): nat {
    if steps == [] || steps[0].event.ref.logIndex > logIndex then 0 else 1 + Leading(steps[1..], logIndex)
  }

  function StatesAfter(v2: V2State, v3: V3State, steps: seq<AppliedEvent>): (V2State, V3State)
    decreases |steps|
  {
    if steps == [] then (v2, v3)
    else
      var s := steps[0];
      StatesAfter(if s.v2After.Some? then s.v2After.value else v2,
                  if s.v3After.Some? then s.v3After.value else v3, steps[1..])
  }

  lemma {:induction false} LeadingBound(steps: seq<AppliedEvent>, logIndex: int)
    ensures Leading(steps, logIndex) <= |steps|
    ensures forall i :: 0 <= i < Leading(steps, logIndex) ==> steps[i].event.ref.logIndex <= logIndex
    ensures Leading(steps, logIndex) < |steps| ==> steps[Leading(steps, logIndex)].event.ref.logIndex > logIndex
  {
    if steps != [] && steps[0].event.ref.logIndex <= logIndex { LeadingBound(steps[1..], logIndex); }
  }

  lemma {:induction false} StatesAfterAppend(v2: V2State, v3: V3State, steps: seq<AppliedEvent>, step: AppliedEvent)
    ensures StatesAfter(v2, v3, steps + [step]) ==
            var s := StatesAfter(v2, v3, steps);
            (if step.v2After.Some? then step.v2After.value else s.0,
             if step.v3After.Some? then step.v3After.value else s.1)
    decreases |steps|
  {
    if steps == [] {
      assert steps + [step] == [step];
      assert StatesAfter(v2, v3, [step]) == StatesAfter(if step.v2After.Some? then step.v2After.value else v2,
                                                        if step.v3After.Some? then step.v3After.value else v3, []);
    } else {
      assert (steps + [step])[1..] == steps[1..] + [step];
      var s := steps[0];
      StatesAfterAppend(if s.v2After.Some? then s.v2After.value else v2,
                        if s.v3After.Some? then s.v3After.value else v3, steps[1..], step);
    }
  }

  /** The pair state right after the event at a log index, read off the recorded steps. */
  method StateAfterLog(b: BlockState, logIndex: int) returns (state: PairState)
    ensures var s := StatesAfter(b.start.v2, b.start.v3, b.steps[..LeadingOf(b, logIndex)]);
            state == b.end.(v2 := s.0, v3 := Stamp(s.1, b.header.number))
  {
    var v2, v3 := b.start.v2, b.start.v3;
    var i := 0;
    LeadingBound(b.steps, logIndex);
    while i < |b.steps|
      invariant 0 <= i <= LeadingOf(b, logIndex)
      invariant (v2, v3) == StatesAfter(b.start.v2, b.start.v3, b.steps[..i])
    {
      var step := b.steps[i];
      if step.event.ref.logIndex > logIndex {
        break;
      }
      StatesAfterAppend(b.start.v2, b.start.v3, b.steps[..i], step);
      assert b.steps[..i + 1] == b.steps[..i] + [step];
      if step.v2After.Some? { v2 := step.v2After.value; }
      if step.v3After.Some? { v3 := step.v3After.value; }
      i := i + 1;
    }
    state := b.end.(v2 := v2, v3 := Stamp(v3, b.header.number));
  }

  function LeadingOf(b: BlockState, logIndex: int): (n: nat)
    ensures n <= |b.steps|
  {
    LeadingBound(b.steps, logIndex);
    Leading(b.steps, logIndex)
  }

  /** One recorded step per event, and the recorded states fold to the running ones. */
  lemma {:induction false} StepsRecordStates(config: Config, start: PairState, events: seq<PoolEvent>, k: nat)
    requires k <= |events| && ApplyEvents(config, Begin(start), events).Ok?
    ensures var prefix := ApplyEvents(config, Begin(start), events[..k]);
            var whole := ApplyEvents(config, Begin(start), events);
            && prefix.Ok?
            && |whole.value.steps| == |events| && prefix.value.steps == whole.value.steps[..k]
            && (forall i :: 0 <= i < |events| ==> whole.value.steps[i].event == events[i])
            && StatesAfter(start.v2, start.v3, prefix.value.steps) == (prefix.value.v2, prefix.value.v3)
  {
    ApplyEventsSplit(config, Begin(start), events, k);
    assert events[..k] + events[k..] == events;
    var prefix := ApplyEvents(config, Begin(start), events[..k]).value;
    StepsGrow(config, Begin(start), events);
    StepsGrow(config, Begin(start), events[..k]);
    StepsGrow(config, prefix, events[k..]);
    RunningMatchesSteps(config, start, Begin(start), events[..k]);
  }

  lemma {:induction false} ApplyEventsSplit(config: Config, r: Running, events: seq<PoolEvent>, k: nat)
    requires k <= |events|
    ensures ApplyEvents(config, r, events) ==
            var prefix := ApplyEvents(config, r, events[..k]);
            if prefix.Err? then prefix else ApplyEvents(config, prefix.value, events[k..])
    decreases |events|
  {
    if k == 0 {
      assert events[..0] == [] && events[0..] == events;
    } else {
      var next := ApplyEvent(config, r, events[0]);
      assert events[..k][1..] == events[1..][..k - 1];
      assert events[1..][k - 1..] == events[k..];
      if next.Ok? { ApplyEventsSplit(config, next.value, events[1..], k - 1); }
    }
  }

  lemma {:induction false} StepsGrow(config: Config, r: Running, events: seq<PoolEvent>)
    ensures var after := ApplyEvents(config, r, events);
            after.Ok? ==> && |after.value.steps| == |r.steps| + |events|
                          && after.value.steps[..|r.steps|] == r.steps
                          && forall i :: 0 <= i < |events| ==> after.value.steps[|r.steps| + i].event == events[i]
    decreases |events|
  {
    if events != [] {
      var next := ApplyEvent(config, r, events[0]);
      if next.Ok? {
        StepsGrow(config, next.value, events[1..]);
        var after := ApplyEvents(config, next.value, events[1..]);
        if after.Ok? {
          assert after.value.steps[..|r.steps|] == after.value.steps[..|r.steps| + 1][..|r.steps|];
          forall i | 0 <= i < |events| ensures after.value.steps[|r.steps| + i].event == events[i] {
            if i == 0 {
              assert after.value.steps[..|r.steps| + 1][|r.steps|].event == events[0];
            } else {
              assert after.value.steps[|r.steps| + 1 + (i - 1)].event == events[1..][i - 1];
            }
          }
        }
      }
    }
  }

  lemma {:induction false} RunningMatchesSteps(config: Config, start: PairState, r: Running, events: seq<PoolEvent>)
    requires StatesAfter(start.v2, start.v3, r.steps) == (r.v2, r.v3)
    ensures var after := ApplyEvents(config, r, events);
            after.Ok? ==> StatesAfter(start.v2, start.v3, after.value.steps) == (after.value.v2, after.value.v3)
    decreases |events|
  {
    if events != [] {
      var next := ApplyEvent(config, r, events[0]);
      if next.Ok? {
        StatesAfterAppend(start.v2, start.v3, r.steps, next.value.steps[|r.steps|]);
        RunningMatchesSteps(config, start, next.value, events[1..]);
      }
    }
  }

  function UpTo(events: seq<PoolEvent>, logIndex: int): seq<PoolEvent> {
    if events == [] then []
    else (if events[0].ref.logIndex <= logIndex then [events[0]] else []) + UpTo(events[1..], logIndex)
  }

  lemma {:induction false} OrderedPrefix(events: seq<PoolEvent>, logIndex: int, k: nat)
    requires LogOrdered(events) && k <= |events|
    requires forall i :: 0 <= i < k ==> events[i].ref.logIndex <= logIndex
    requires k < |events| ==> events[k].ref.logIndex > logIndex
    ensures UpTo(events, logIndex) == events[..k]
  {
    if events != [] {
      if k > 0 {
        OrderedPrefix(events[1..], logIndex, k - 1);
        assert events[..k] == [events[0]] + events[1..][..k - 1];
      } else {
        OrderedPrefix(events[1..], logIndex, 0);
      }
    }
  }

  /** For log-ordered events the recorded state after a log index is the fold of exactly the events up to it. */
  lemma StateAfterLogIsFold(config: Config, latest: PairState, header: BlockHeader, events: seq<PoolEvent>,
                            logIndex: int)
    requires LogOrdered(events) && NextBlock(config, Some(latest), header, events).Ok?
    ensures var b := NextBlock(config, Some(latest), header, events).value;
            var fold := ApplyEvents(config, Begin(latest), UpTo(events, logIndex));
            && fold.Ok?
            && StatesAfter(b.start.v2, b.start.v3, b.steps[..LeadingOf(b, logIndex)]) == (fold.value.v2, fold.value.v3)
  {
    var b := NextBlock(config, Some(latest), header, events).value;
    var k := LeadingOf(b, logIndex);
    LeadingBound(b.steps, logIndex);
    StepsRecordStates(config, latest, events, 0);
    StepsRecordStates(config, latest, events, k);
    OrderedPrefix(events, logIndex, k);
  }

  // ---- The tracked blocks ----

  /** An anchored full read, or a block rolled forward from its predecessor. */
  datatype Tracked = Anchored(state: PairState) | Rolled(block: BlockState) {
    function End(): PairState {
      if Anchored? then state else block.end
    }
  }

  /** The ordered dictionary of tracked blocks, oldest first. */
  type Blocks = seq<(int, Tracked)>

  function Latest(blocks: Blocks): Option<PairState> {
    if blocks == [] then None else Some(blocks[|blocks| - 1].1.End())
  }

  function EventsOf(b: BlockState): seq<PoolEvent> {
    seq(|b.steps|, i requires 0 <= i < |b.steps| => b.steps[i].event)
  }

  /** A rolled block is its start rolled over its own events; consecutive blocks link by number, parent hash and
      state. */
  predicate Linked(config: Config, blocks: Blocks, i: nat)
    requires i < |blocks|
  {
    var (number, item) := blocks[i];
    && item.End().blockNumber == number
    && (item.Rolled? ==>
          && item.block.header.number == number && item.block.start.blockNumber == number - 1
          && item.block.end.blockHash == item.block.header.hash
          && Lower(item.block.header.parentHash) == Lower(item.block.start.blockHash)
          && NextBlock(config, Some(item.block.start), item.block.header, EventsOf(item.block)) == Ok(item.block)
          && (i > 0 ==> blocks[i - 1].0 == number - 1 && blocks[i - 1].1.End() == item.block.start))
  }

  ghost predicate Chained(config: Config, blocks: Blocks) {
    && (forall i, j :: 0 <= i < j < |blocks| ==> blocks[i].0 < blocks[j].0)
    && (forall i :: 0 <= i < |blocks| ==> Linked(config, blocks, i))
  }

  /** The newest `max` entries. */
  function Trimmed(blocks: Blocks, max: nat): Blocks {
    if |blocks| > max then blocks[|blocks| - max..] else blocks
  }

  /** Entries with keys up to a number. */
  function KeysUpTo(blocks: Blocks, number: int): Blocks {
    if blocks == [] then []
    else (if blocks[0].0 <= number then [blocks[0]] else []) + KeysUpTo(blocks[1..], number)
  }

  lemma {:induction false} KeysUpToIsPrefix(config: Config, blocks: Blocks, number: int)
    requires forall i, j :: 0 <= i < j < |blocks| ==> blocks[i].0 < blocks[j].0
    ensures var kept := KeysUpTo(blocks, number);
            && |kept| <= |blocks| && kept == blocks[..|kept|]
            && (forall i :: 0 <= i < |kept| ==> blocks[i].0 <= number)
            && (forall i :: |kept| <= i < |blocks| ==> blocks[i].0 > number)
  {
    if blocks != [] {
      KeysUpToIsPrefix(config, blocks[1..], number);
      var rest := KeysUpTo(blocks[1..], number);
      if blocks[0].0 <= number {
        assert KeysUpTo(blocks, number) == [blocks[0]] + rest;
        assert blocks[..|rest| + 1] == [blocks[0]] + blocks[1..][..|rest|];
        forall i | |rest| + 1 <= i < |blocks| ensures blocks[i].0 > number { assert blocks[i] == blocks[1..][i - 1]; }
        forall i | 0 < i < |rest| + 1 ensures blocks[i].0 <= number { assert blocks[i] == blocks[1..][i - 1]; }
      } else {
        assert |rest| == 0;
        assert KeysUpTo(blocks, number) == [];
      }
    }
  }

  /** Suffixes and prefixes of a chain are chains. */
  lemma ChainSlice(config: Config, blocks: Blocks, lo: nat, hi: nat)
    requires Chained(config, blocks) && lo <= hi <= |blocks|
    ensures Chained(config, blocks[lo..hi])
  {
    forall i | 0 <= i < hi - lo ensures Linked(config, blocks[lo..hi], i) {
      assert Linked(config, blocks, lo + i);
    }
  }

  lemma ChainExtend(config: Config, blocks: Blocks, header: BlockHeader, events: seq<PoolEvent>)
    requires Chained(config, blocks) && NextBlock(config, Latest(blocks), header, events).Ok?
    ensures Chained(config, blocks + [(header.number, Rolled(NextBlock(config, Latest(blocks), header, events).value))])
  {
    var b := NextBlock(config, Latest(blocks), header, events).value;
    var after := blocks + [(header.number, Rolled(b))];
    assert Linked(config, blocks, |blocks| - 1);
    StepsRecordStates(config, b.start, events, 0);
    assert EventsOf(b) == events;
    hide ApplyEvents;
    forall i | 0 <= i < |after| ensures Linked(config, after, i) {
      if i < |blocks| { assert Linked(config, blocks, i); }
    }
  }

  lemma ChainAnchor(config: Config, blocks: Blocks, state: PairState)
    requires Chained(config, blocks)
    ensures Chained(config, KeysUpTo(blocks, state.blockNumber - 1) + [(state.blockNumber, Anchored(state))])
  {
    KeysUpToIsPrefix(config, blocks, state.blockNumber - 1);
    var kept := KeysUpTo(blocks, state.blockNumber - 1);
    ChainSlice(config, blocks, 0, |kept|);
    assert blocks[0..|kept|] == kept;
    var after := kept + [(state.blockNumber, Anchored(state))];
    forall i | 0 <= i < |after| ensures Linked(config, after, i) {
      if i < |kept| { assert Linked(config, kept, i); }
    }
  }

  // ---- Comparing a rolled state with a fresh read ----

  /** The state tracked for a block number. */
  function StateAt(blocks: Blocks, number: int): (state: Option<PairState>)
    ensures state.Some? ==> exists i :: 0 <= i < |blocks| && blocks[i].0 == number && state.value == blocks[i].1.End()
    ensures state.None? ==> forall i :: 0 <= i < |blocks| ==> blocks[i].0 != number
  {
    if blocks == [] then None
    else if blocks[0].0 == number then Some(blocks[0].1.End())
    else
      var rest := StateAt(blocks[1..], number);
      assert forall i :: 0 < i < |blocks| ==> blocks[i] == blocks[1..][i - 1];
      rest
  }

  /** What a rolled state can disagree about with a fresh read of the same block. */
  datatype Difference = V2Reserves | V3Slot | BitmapWord(word: int) | LiquidityNet(tick: int)

  /** A word both windows load whose bits differ. */
  predicate WordDiffers(a: TickWindow, b: TickWindow, word: int) {
    && a.minWord <= word <= a.maxWord && b.minWord <= word <= b.maxWord
    && Stored(a.bitmapWords, word) != Stored(b.bitmapWords, word)
  }

  /** A tick both windows record with different net liquidity. */
  predicate NetDiffers(a: TickWindow, b: TickWindow, tick: int) {
    tick in a.ticks && tick in b.ticks && a.ticks[tick].liquidityNet != b.ticks[tick].liquidityNet
  }

  /** The difference is there; of the differing words it is the first. */
  ghost predicate Real(rolled: PairState, read: PairState, d: Difference) {
    var a, b := rolled.v3, read.v3;
    match d
    case V2Reserves => rolled.v2 != read.v2
    case V3Slot => (a.price, a.tick, a.liquidity) != (b.price, b.tick, b.liquidity)
    case BitmapWord(word) => WordDiffers(a.window, b.window, word) && forall w :: w < word ==>
        !WordDiffers(a.window, b.window, w)
    case LiquidityNet(tick) => NetDiffers(a.window, b.window, tick)
  }

  /** Reserves, price, tick and liquidity agree, and so do the windows wherever both have data. */
  ghost predicate Agree(rolled: PairState, read: PairState) {
    var a, b := rolled.v3, read.v3;
    && rolled.v2 == read.v2
    && (a.price, a.tick, a.liquidity) == (b.price, b.tick, b.liquidity)
    && (forall word :: !WordDiffers(a.window, b.window, word))
    && (forall tick :: !NetDiffers(a.window, b.window, tick))
  }

  /** Reports only real differences, and none exactly when the states agree. */
  method CompareStates(rolled: PairState, read: PairState) returns (issues: seq<Difference>)
    ensures forall d :: d in issues ==> Real(rolled, read, d)
    ensures issues == [] <==> Agree(rolled, read)
    ensures |issues| <= 4
  {
    issues := [];
    if rolled.v2 != read.v2 {
      issues := issues + [V2Reserves];
    }
    var a, b := rolled.v3, read.v3;
    if (a.price, a.tick, a.liquidity) != (b.price, b.tick, b.liquidity) {
      issues := issues + [V3Slot];
    }
    var word := FirstDifferingWord(a.window, b.window);
    if word.Some? {
      issues := issues + [BitmapWord(word.value)];
    }
    var tick := DifferingTick(a.window, b.window);
    if tick.Some? {
      issues := issues + [LiquidityNet(tick.value)];
    }
  }

  method FirstDifferingWord(a: TickWindow, b: TickWindow) returns (word: Option<int>)
    ensures word.Some? ==> WordDiffers(a, b, word.value) && forall w :: w < word.value ==> !WordDiffers(a, b, w)
    ensures word.None? ==> forall w :: !WordDiffers(a, b, w)
  {
    var lo := if a.minWord > b.minWord then a.minWord else b.minWord;
    var hi := if a.maxWord < b.maxWord then a.maxWord else b.maxWord;
    var w := lo;
    while w <= hi
      invariant lo <= w
      invariant forall v :: v < w ==> !WordDiffers(a, b, v)
      decreases hi - w
    {
      if Stored(a.bitmapWords, w) != Stored(b.bitmapWords, w) {
        return Some(w);
      }
      w := w + 1;
    }
    word := None;
  }

  /** Some shared tick whose net liquidity differs; the order in which ticks are visited is left open. */
  method DifferingTick(a: TickWindow, b: TickWindow) returns (tick: Option<int>)
    ensures tick.Some? ==> NetDiffers(a, b, tick.value)
    ensures tick.None? ==> forall t :: !NetDiffers(a, b, t)
  {
    var shared := set t | t in b.ticks && t in a.ticks;
    while shared != {}
      invariant shared <= a.ticks.Keys && shared <= b.ticks.Keys
      invariant forall t :: NetDiffers(a, b, t) ==> t in shared
      decreases |shared|
    {
      Inhabited(shared);
      var t :| t in shared;
      if a.ticks[t].liquidityNet != b.ticks[t].liquidityNet {
        return Some(t);
      }
      shared := shared - {t};
    }
    tick := None;
  }

  class PoolStateTracker {
    const config: Config
    const max: nat
    var blocks: Blocks
    var blocksSinceAnchor: nat

    ghost predicate Valid()
      reads this
    {
      Chained(config, blocks) && |blocks| <= max
    }

    constructor (config: Config, maxCheckpoints: nat)
      ensures Valid() && blocks == [] && blocksSinceAnchor == 0
      ensures this.config == config && max == maxCheckpoints
    {
      this.config := config;
      max := maxCheckpoints;
      blocks := [];
      blocksSinceAnchor := 0;
    }

    /** Drops the oldest entries beyond the limit. */
    method Trim()
      requires Chained(config, blocks)
      modifies this`blocks
      ensures Valid() && blocks == Trimmed(old(blocks), max)
    {
      hide Linked;
      ghost var dropped := 0;
      while |blocks| > max
        invariant dropped <= |old(blocks)| && blocks == old(blocks)[dropped..]
        invariant dropped > 0 ==> |blocks| >= max
        decreases |blocks|
      {
        blocks := blocks[1..];
        dropped := dropped + 1;
      }
      ChainSlice(config, old(blocks), dropped, |old(blocks)|);
      assert old(blocks)[dropped..|old(blocks)|] == blocks;
    }

    /** Replaces everything from the state's block on by a fresh full read, and reports how the state tracked for that
        block differed from it, if one was. */
    method Anchor(state: PairState) returns (issues: Option<seq<Difference>>)
      requires Valid()
      modifies this
      ensures Valid() && blocksSinceAnchor == 0
      ensures blocks
          == Trimmed(KeysUpTo(old(blocks), state.blockNumber - 1) + [(state.blockNumber, Anchored(state))], max)
      ensures var rolled := StateAt(old(blocks), state.blockNumber);
              && (issues.Some? <==> rolled.Some?)
              && (issues.Some? ==>
                    && (issues.value == [] <==> Agree(rolled.value, state))
                    && forall d :: d in issues.value ==> Real(rolled.value, state, d))
    {
      hide Linked, Agree, Real, StateAt;
      var rolled := StateAt(blocks, state.blockNumber);
      issues := None;
      if rolled.Some? {
        var found := CompareStates(rolled.value, state);
        issues := Some(found);
      }
      ChainAnchor(config, blocks, state);
      blocks := KeysUpTo(blocks, state.blockNumber - 1) + [(state.blockNumber, Anchored(state))];
      Trim();
      blocksSinceAnchor := 0;
    }

    /** Forgets every block above a number, as a reorg demands. */
    method RewindTo(number: int)
      requires Valid()
      modifies this`blocks
      ensures Valid() && blocks == KeysUpTo(old(blocks), number)
    {
      KeysUpToIsPrefix(config, blocks, number);
      ChainSlice(config, blocks, 0, |KeysUpTo(blocks, number)|);
      assert blocks[0..|KeysUpTo(blocks, number)|] == KeysUpTo(blocks, number);
      blocks := KeysUpTo(blocks, number);
    }

    /** Rolls the latest state forward by one block; a refused or failing block leaves the tracker as it was. */
    method ApplyBlock(header: BlockHeader, events: seq<PoolEvent>) returns (r: Result<BlockState>)
      requires Valid()
      modifies this
      ensures Valid() && r == NextBlock(config, Latest(old(blocks)), header, events)
      ensures r.Err? ==> blocks == old(blocks) && blocksSinceAnchor == old(blocksSinceAnchor)
      ensures r.Ok? ==> && blocks == Trimmed(old(blocks) + [(header.number, Rolled(r.value))], max)
                        && blocksSinceAnchor == old(blocksSinceAnchor) + 1
                        && BlockReads(config, Latest(old(blocks)).value, header, events, r.value)
    {
      var latest := Latest(blocks);
      if latest.None? || header.number != latest.value.blockNumber + 1 {
        return Err(StateGap);
      }
      var start := latest.value;
      if Lower(header.parentHash) != Lower(start.blockHash) {
        return Err(ReorgDetected);
      }
      var running := Begin(start);
      for i := 0 to |events|
        invariant blocks == old(blocks) && blocksSinceAnchor == old(blocksSinceAnchor)
        invariant ApplyEvents(config, Begin(start), events) == ApplyEvents(config, running, events[i..])
      {
        assert events[i..][0] == events[i] && events[i..][1..] == events[i + 1..];
        var next := ApplyEvent(config, running, events[i]);
        if next.Err? {
          return Err(next.error);
        }
        running := next.value;
      }
      var end := PairState(header.number, header.hash, header.timestamp, header.baseFeeWei, running.v2,
          Stamp(running.v3, header.number));
      var block := BlockState(header, start, end, running.steps);
      AcceptedBlockReads(config, start, header, events);
      ChainExtend(config, blocks, header, events);
      blocks := blocks + [(header.number, Rolled(block))];
      Trim();
      blocksSinceAnchor := blocksSinceAnchor + 1;
      r := Ok(block);
    }
  }

  // ---- Rewind and reapply ----

  type Input = (BlockHeader, seq<PoolEvent>)

  /** Applying a list of blocks in turn, as repeated ApplyBlock does. */
  function ApplyAll(config: Config, max: nat, blocks: Blocks, inputs: seq<Input>): Result<Blocks>
    decreases |inputs|
  {
    if inputs == [] then Ok(blocks)
    else
      var block :- NextBlock(config, Latest(blocks), inputs[0].0, inputs[0].1);
      ApplyAll(config, max, Trimmed(blocks + [(inputs[0].0.number, Rolled(block))], max), inputs[1..])
  }

  /** The blocks a list of inputs yields depend only on the latest state. */
  function NewBlocks(config: Config, latest: Option<PairState>, inputs: seq<Input>): Result<Blocks>
    decreases |inputs|
  {
    if inputs == [] then Ok([])
    else
      var block :- NextBlock(config, latest, inputs[0].0, inputs[0].1);
      var rest :- NewBlocks(config, Some(block.end), inputs[1..]);
      Ok([(inputs[0].0.number, Rolled(block))] + rest)
  }

  lemma {:induction false} ApplyAllAppends(config: Config, max: nat, blocks: Blocks, inputs: seq<Input>)
    requires max > 0 && |blocks| <= max
    ensures var all := ApplyAll(config, max, blocks, inputs);
            var added := NewBlocks(config, Latest(blocks), inputs);
            if added.Err? then all.Err? else all == Ok(Trimmed(blocks + added.value, max)) && |added.value| == |inputs|
    decreases |inputs|
  {
    hide NextBlock, Trimmed, Latest, ApplyAll, NewBlocks;
    if inputs == [] {
      NothingApplied(config, max, blocks, inputs);
    } else {
      ApplyAllStep(config, max, blocks, inputs);
      NewBlocksStep(config, Latest(blocks), inputs);
      var block := NextBlock(config, Latest(blocks), inputs[0].0, inputs[0].1);
      if block.Ok? {
        var item := (inputs[0].0.number, Rolled(block.value));
        var next := Trimmed(blocks + [item], max);
        LatestTrimmed(blocks, item, max);
        ApplyAllAppends(config, max, next, inputs[1..]);
        var rest := NewBlocks(config, Some(block.value.end), inputs[1..]);
        if rest.Ok? { TrimPrepended(blocks, item, rest.value, max); }
      }
    }
  }

  lemma NothingApplied(config: Config, max: nat, blocks: Blocks, inputs: seq<Input>)
    requires inputs == [] && |blocks| <= max
    ensures NewBlocks(config, Latest(blocks), inputs) == Ok([])
    ensures ApplyAll(config, max, blocks, inputs) == Ok(Trimmed(blocks + [], max))
  {
    hide NextBlock;
    assert blocks + [] == blocks;
  }

  lemma TrimPrepended(blocks: Blocks, item: (int, Tracked), rest: Blocks, max: nat)
    ensures Trimmed(Trimmed(blocks + [item], max) + rest, max) == Trimmed(blocks + ([item] + rest), max)
  {
    assert blocks + ([item] + rest) == (blocks + [item]) + rest;
    TrimTwice(blocks + [item], rest, max);
  }

  lemma ApplyAllStep(config: Config, max: nat, blocks: Blocks, inputs: seq<Input>)
    requires inputs != []
    ensures var block := NextBlock(config, Latest(blocks), inputs[0].0, inputs[0].1);
            ApplyAll(config, max, blocks, inputs)
            == if block.Err? then Err(block.error)
               else ApplyAll(config, max, Trimmed(blocks + [(inputs[0].0.number, Rolled(block.value))], max),
                   inputs[1..])
  {
    hide NextBlock;
  }

  lemma NewBlocksStep(config: Config, latest: Option<PairState>, inputs: seq<Input>)
    requires inputs != []
    ensures var block := NextBlock(config, latest, inputs[0].0, inputs[0].1);
            var all := NewBlocks(config, latest, inputs);
            if block.Err? then all.Err?
            else
              var rest := NewBlocks(config, Some(block.value.end), inputs[1..]);
              if rest.Err? then all.Err? else all == Ok([(inputs[0].0.number, Rolled(block.value))] + rest.value)
  {
    hide NextBlock;
  }

  lemma LatestTrimmed(blocks: Blocks, item: (int, Tracked), max: nat)
    requires max > 0
    ensures var next := Trimmed(blocks + [item], max); |next| <= max && Latest(next) == Some(item.1.End())
  {
  }

  lemma TrimTwice(blocks: Blocks, more: Blocks, max: nat)
    ensures Trimmed(Trimmed(blocks, max) + more, max) == Trimmed(blocks + more, max)
  {
  }

  lemma {:induction false} NewBlockKeys(config: Config, latest: PairState, inputs: seq<Input>)
    requires NewBlocks(config, Some(latest), inputs).Ok?
    ensures forall i :: 0 <= i < |NewBlocks(config, Some(latest), inputs).value| ==>
              NewBlocks(config, Some(latest), inputs).value[i].0 > latest.blockNumber
    decreases |inputs|
  {
    if inputs != [] {
      var block := NextBlock(config, Some(latest), inputs[0].0, inputs[0].1).value;
      NewBlockKeys(config, block.end, inputs[1..]);
      var rest := NewBlocks(config, Some(block.end), inputs[1..]).value;
      var all := NewBlocks(config, Some(latest), inputs).value;
      forall i | 0 <= i < |all| ensures all[i].0 > latest.blockNumber {
        if i > 0 { assert all[i] == rest[i - 1]; }
      }
    }
  }

  lemma {:induction false} KeysUpToSplit(kept: Blocks, added: Blocks, number: int)
    requires forall i :: 0 <= i < |kept| ==> kept[i].0 <= number
    requires forall i :: 0 <= i < |added| ==> added[i].0 > number
    ensures KeysUpTo(kept + added, number) == kept
  {
    if kept != [] {
      assert (kept + added)[1..] == kept[1..] + added;
      KeysUpToSplit(kept[1..], added, number);
    } else if added != [] {
      assert kept + added == added;
      assert [] + added[1..] == added[1..];
      KeysUpToSplit([], added[1..], number);
    }
  }

  /** Rewinding to where a run of blocks began works exactly when the run is shorter than the number of tracked
      blocks: then the latest state is the one before the run, and applying the run again reproduces exactly the same
      tracked blocks; after a longer run nothing that old is tracked any more. */
  lemma RewindThenReapply(config: Config, max: nat, blocks: Blocks, inputs: seq<Input>)
    requires Chained(config, blocks) && 0 < |blocks| <= max
    requires ApplyAll(config, max, blocks, inputs).Ok?
    ensures var after := ApplyAll(config, max, blocks, inputs).value;
            var rewound := KeysUpTo(after, blocks[|blocks| - 1].0);
            && (Latest(rewound) == Latest(blocks) <==> |inputs| < max)
            && (if |inputs| < max then ApplyAll(config, max, rewound, inputs) == Ok(after) else rewound == [])
  {
    hide NewBlocks, ApplyAll, NextBlock, Chained, KeysUpTo;
    var number := blocks[|blocks| - 1].0;
    ApplyAllAppends(config, max, blocks, inputs);
    var added := NewBlocks(config, Latest(blocks), inputs).value;
    LatestKey(config, blocks);
    NewBlockKeys(config, Latest(blocks).value, inputs);
    var drop := if |blocks| + |added| > max then |blocks| + |added| - max else 0;
    var after := Trimmed(blocks + added, max);
    if |inputs| < max {
      assert after == blocks[drop..] + added;
      KeysUpToSplit(blocks[drop..], added, number);
      ApplyAllAppends(config, max, blocks[drop..], inputs);
    } else {
      assert after == [] + added[drop - |blocks|..];
      KeysUpToSplit([], added[drop - |blocks|..], number);
    }
  }

  lemma LatestKey(config: Config, blocks: Blocks)
    requires Chained(config, blocks) && blocks != []
    ensures Latest(blocks).value.blockNumber == blocks[|blocks| - 1].0
    ensures forall i :: 0 <= i < |blocks| ==> blocks[i].0 <= blocks[|blocks| - 1].0
  {
    assert Linked(config, blocks, |blocks| - 1);
  }
}
