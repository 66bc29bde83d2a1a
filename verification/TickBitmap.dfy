/** Search for the next initialized tick in a loaded window of bitmap words. */
module TickBitmap {
  import opened Results
  import opened Bits
  import opened FullMath
  import opened V3Models

  const WORD_BITS: nat := 256

  /** Word and bit of a compressed tick; shift and mask by eight bits are floor division and remainder. */
  function Position(compressed: int): (int, nat) {
    (compressed / WORD_BITS, compressed % WORD_BITS)
  }

  function Compress(tick: int, spacing: Spacing): int {
    tick / spacing
  }

  function WordPositionForTick(tick: int, spacing: Spacing): int {
    Position(Compress(tick, spacing)).0
  }

  function Stored(words: map<int, nat>, wordPos: int): nat {
    if wordPos in words then words[wordPos] else 0
  }

  function Word(window: TickWindow, wordPos: int): Result<nat> {
    if wordPos < window.minWord || wordPos > window.maxWord then Err(WindowExhausted)
    else Ok(Stored(window.bitmapWords, wordPos))
  }

  function NextInitializedTickWithinOneWord(window: TickWindow, tick: int, lte: bool): Result<(int, bool)> {
    var compressed := Compress(tick, window.tickSpacing);
    if lte then
      var (wordPos, bitPos) := Position(compressed);
      var mask := Pow2(bitPos) - 1 + Pow2(bitPos);
      var word :- Word(window, wordPos);
      var masked := And(word, mask);
      var initialized := masked != 0;
      var next := if initialized then compressed - (bitPos - (BitLength(masked) - 1)) else compressed - bitPos;
      Ok((next * window.tickSpacing, initialized))
    else
      var (wordPos, bitPos) := Position(compressed + 1);
      var mask := Pow2(WORD_BITS) - Pow2(bitPos);
      var word :- Word(window, wordPos);
      var masked := And(word, mask);
      var initialized := masked != 0;
      var next := if initialized then compressed + 1 + (BitLength(And(masked, Neg(masked))) - 1 - bitPos)
                  else compressed + 1 + (255 - bitPos);
      Ok((next * window.tickSpacing, initialized))
  }

  // ---- The plain meaning of a bitmap ----

  /** The bitmap marks this tick as initialized. */
  predicate Marked(words: map<int, nat>, spacing: Spacing, tick: int) {
    && tick % spacing == 0
    && var (wordPos, bitPos) := Position(tick / spacing);
       Bit(Stored(words, wordPos), bitPos)
  }

  predicate Initialized(window: TickWindow, tick: int) {
    Marked(window.bitmapWords, window.tickSpacing, tick)
  }

  predicate Loaded(window: TickWindow, tick: int) {
    window.minWord <= WordPositionForTick(tick, window.tickSpacing) <= window.maxWord
  }

  lemma DivMul(q: int, d: int)
    requires d > 0
    ensures q * d / d == q && q * d % d == 0
  {
    FloorGalois(q * d, d, q);
    FloorGalois(q * d, d, q + 1);
  }

  lemma DivMonotone(a: int, b: int, d: int)
    requires d > 0 && a <= b
    ensures a / d <= b / d
  {
    FloorGalois(b, d, FloorDiv(a, d));
  }

  lemma DivBounds(n: int, d: int)
    requires d > 0
    ensures n / d * d <= n < n / d * d + d
  {
  }

  /** Searching down finds the nearest marked tick at or below, or the lower edge of the word; nothing marked is
      skipped. */
  lemma SearchDown(window: TickWindow, tick: int)
    ensures var r := NextInitializedTickWithinOneWord(window, tick, true);
            && (r.Err? <==> !Loaded(window, tick))
            && (r.Ok? ==> var (next, found) := r.value;
                  && next <= tick && next % window.tickSpacing == 0
                  && (found <==> Initialized(window, next))
                  && (forall t :: next <= t <= tick ==> Loaded(window, t))
                  && (forall t :: next < t <= tick ==> !Initialized(window, t))
                  && (!found ==> next / window.tickSpacing % WORD_BITS == 0))
  {
    hide And, Bit, Pow2, BitLength;
    var spacing := window.tickSpacing;
    var compressed := Compress(tick, spacing);
    var (wordPos, bitPos) := Position(compressed);
    if Loaded(window, tick) {
      var mask := Pow2(bitPos) - 1 + Pow2(bitPos);
      var word := Stored(window.bitmapWords, wordPos);
      var masked := And(word, mask);
      var bit := HighestUpTo(word, bitPos);
      var next := compressed - (bitPos - bit);
      DivMul(next, spacing);
      DivBounds(tick, spacing);
      assert (next * spacing, masked != 0) == NextInitializedTickWithinOneWord(window, tick, true).value;
      MulMono(next, compressed, spacing);
      forall t | next * spacing <= t <= tick ensures Loaded(window, t) {
        BelowInWord(tick, t, bit, spacing);
      }
      forall t | next * spacing < t <= tick ensures !Initialized(window, t) {
        if t % spacing == 0 { BelowInWord(tick, t, bit, spacing); }
      }
      assert next / WORD_BITS == wordPos && next % WORD_BITS == bit;
    }
  }

  /** Ticks down to the one of an earlier bit of the same word sit in that word between the two bits. */
  lemma BelowInWord(tick: int, t: int, bit: nat, spacing: Spacing)
    requires var (_, bitPos) := Position(tick / spacing);
             bit <= bitPos && (tick / spacing - (bitPos - bit)) * spacing <= t <= tick
    ensures var (wordPos, bitPos) := Position(tick / spacing);
            var (tWord, tBit) := Position(t / spacing);
            && tWord == wordPos && bit <= tBit <= bitPos
            && (t % spacing == 0 && t > (tick / spacing - (bitPos - bit)) * spacing ==> bit < tBit)
  {
    var (wordPos, bitPos) := Position(tick / spacing);
    var next := tick / spacing - (bitPos - bit);
    DivMul(next, spacing);
    DivMonotone(next * spacing, t, spacing);
    DivMonotone(t, tick, spacing);
    if t % spacing == 0 && t > next * spacing { InBetween(next, t, tick, spacing); }
  }

  lemma InBetween(next: int, t: int, tick: int, spacing: Spacing)
    requires next * spacing < t <= tick && t % spacing == 0
    ensures next < t / spacing <= tick / spacing
  {
    DivMonotone(t, tick, spacing);
    DivBounds(t, spacing);
    assert t / spacing * spacing == t;
    if t / spacing <= next {
      MulMono(t / spacing, next, spacing);
    }
  }

  /** The bit the downward search settles on: the highest set bit at or below bitPos, or 0. */
  lemma HighestUpTo(word: nat, bitPos: nat) returns (bit: nat)
    ensures var masked := And(word, Pow2(bitPos) - 1 + Pow2(bitPos));
            && bit == (if masked != 0 then BitLength(masked) - 1 else 0) <= bitPos
            && (masked != 0 <==> Bit(word, bit))
            && (forall i: nat :: bit < i <= bitPos ==> !Bit(word, i))
  {
    var mask := Pow2(bitPos + 1) - 1;
    var masked := And(word, mask);
    forall i: nat ensures Bit(masked, i) <==> Bit(word, i) && i <= bitPos {
      AndBit(word, mask, i);
      LowMaskBit(bitPos + 1, i);
    }
    if masked != 0 {
      HighestBit(masked);
      bit := BitLength(masked) - 1;
    } else {
      bit := 0;
      forall i: nat ensures !Bit(masked, i) { ZeroBit(i); }
    }
  }

  /** Searching up finds the nearest marked tick above, or the upper edge of the word; nothing marked is skipped. */
  lemma SearchUp(window: TickWindow, tick: int)
    ensures var r := NextInitializedTickWithinOneWord(window, tick, false);
            && (r.Err? <==> !Loaded(window, (tick / window.tickSpacing + 1) * window.tickSpacing))
            && (r.Ok? ==> var (next, found) := r.value;
                  && tick < next && next % window.tickSpacing == 0
                  && (found <==> Initialized(window, next))
                  && (forall t :: tick < t <= next && t % window.tickSpacing == 0 ==> Loaded(window, t))
                  && (forall t :: tick < t < next ==> !Initialized(window, t))
                  && (!found ==> next / window.tickSpacing % WORD_BITS == WORD_BITS - 1))
  {
    var spacing := window.tickSpacing;
    var compressed := tick / spacing + 1;
    TickOfBit(window, compressed);
    if Word(window, Position(compressed).0).Ok? {
      var bit := UpperAnswer(window, tick);
      var next := compressed + (bit - Position(compressed).1);
      assert next / WORD_BITS == Position(compressed).0 && next % WORD_BITS == bit;
      TickOfBit(window, next);
      forall t | tick < t <= next * spacing && t % spacing == 0
        ensures Loaded(window, t) && (t < next * spacing ==> !Initialized(window, t))
      {
        AboveIsClear(window, tick, t, bit);
      }
      hide Bit, NextInitializedTickWithinOneWord, Stored, Loaded;
      DivMul(next, spacing);
      AboveTick(tick, next, spacing);
      forall t | tick < t < next * spacing ensures !Initialized(window, t) {
      }
    } else {
      NoUpperWord(window, tick);
    }
  }

  lemma NoUpperWord(window: TickWindow, tick: int)
    requires Word(window, Position(tick / window.tickSpacing + 1).0).Err?
    ensures NextInitializedTickWithinOneWord(window, tick, false).Err?
  {
  }

  lemma AboveTick(tick: int, next: int, spacing: Spacing)
    requires next > tick / spacing
    ensures tick < next * spacing
  {
    DivBounds(tick, spacing);
    MulMono(tick / spacing + 1, next, spacing);
  }

  /** The tick of a compressed position: loaded with its word, initialized by its bit. */
  lemma TickOfBit(window: TickWindow, compressed: int)
    ensures var (wordPos, bitPos) := Position(compressed);
            && (Loaded(window, compressed * window.tickSpacing) <==> Word(window, wordPos).Ok?)
            && (Initialized(window, compressed * window.tickSpacing) <==>
                 Bit(Stored(window.bitmapWords, wordPos), bitPos))
  {
    DivMul(compressed, window.tickSpacing);
  }

  lemma AboveIsClear(window: TickWindow, tick: int, t: int, bit: nat)
    requires var (wordPos, bitPos) := Position(tick / window.tickSpacing + 1);
             && bitPos <= bit < WORD_BITS && Word(window, wordPos).Ok?
             && tick < t <= (tick / window.tickSpacing + 1 + (bit - bitPos)) * window.tickSpacing
                  && t % window.tickSpacing == 0
             && (forall i: nat :: bitPos <= i < bit ==> !Bit(Stored(window.bitmapWords, wordPos), i))
    ensures var next := tick / window.tickSpacing + 1 + (bit - Position(tick / window.tickSpacing + 1).1);
            Loaded(window, t) && (t < next * window.tickSpacing ==> !Initialized(window, t))
  {
    hide Bit;
    AboveInWord(tick, t, bit, window.tickSpacing);
  }

  /** The upward search answers with the tick of the lowest marked bit from its own on, or of the word's top bit. */
  lemma UpperAnswer(window: TickWindow, tick: int) returns (bit: nat)
    requires Word(window, Position(tick / window.tickSpacing + 1).0).Ok?
    ensures var (wordPos, bitPos) := Position(tick / window.tickSpacing + 1);
            var word := Stored(window.bitmapWords, wordPos);
            && bitPos <= bit < WORD_BITS
            && NextInitializedTickWithinOneWord(window, tick, false)
               == Ok(((tick / window.tickSpacing + 1 + (bit - bitPos)) * window.tickSpacing, Bit(word, bit)))
            && (!Bit(word, bit) ==> bit == WORD_BITS - 1)
            && (forall i: nat :: bitPos <= i < bit ==> !Bit(word, i))
  {
    hide And, Bit, Pow2, BitLength;
    var (wordPos, bitPos) := Position(tick / window.tickSpacing + 1);
    bit := LowestFrom(Stored(window.bitmapWords, wordPos), bitPos, WORD_BITS);
  }

  /** Ticks past `tick`, up to the one of a later bit of the same word, sit in that word between the two bits. */
  lemma AboveInWord(tick: int, t: int, bit: nat, spacing: Spacing)
    requires var (_, bitPos) := Position(tick / spacing + 1);
             bitPos <= bit < WORD_BITS && tick < t <= (tick / spacing + 1 + (bit - bitPos)) * spacing
                 && t % spacing == 0
    ensures var (wordPos, bitPos) := Position(tick / spacing + 1);
            var (tWord, tBit) := Position(t / spacing);
            && tWord == wordPos && bitPos <= tBit <= bit
            && (t < (tick / spacing + 1 + (bit - bitPos)) * spacing ==> tBit < bit)
  {
    var (wordPos, bitPos) := Position(tick / spacing + 1);
    Above(tick, t, tick / spacing + 1 + (bit - bitPos), spacing);
  }

  lemma Above(tick: int, t: int, next: int, spacing: Spacing)
    requires tick < t <= next * spacing && t % spacing == 0
    ensures tick / spacing < t / spacing <= next
    ensures t < next * spacing ==> t / spacing < next
  {
    DivMul(next, spacing);
    DivMonotone(t, next * spacing, spacing);
    DivMonotone(tick, t, spacing);
    DivBounds(t, spacing);
    DivBounds(tick, spacing);
    assert t / spacing * spacing == t;
  }

  /** The bit the upward search settles on: the lowest set bit at or above bitPos, or the top bit. */
  lemma LowestFrom(word: nat, bitPos: nat, bits: nat) returns (bit: nat)
    requires bitPos < bits
    ensures Pow2(bits) - Pow2(bitPos) >= 0
    ensures var masked := And(word, Pow2(bits) - Pow2(bitPos));
            && bit == (if masked != 0 then BitLength(And(masked, Neg(masked))) - 1 else bits - 1)
            && bitPos <= bit < bits
            && (masked != 0 <==> Bit(word, bit))
            && (forall i: nat :: bitPos <= i < bit ==> !Bit(word, i))
  {
    HighMaskBit(bitPos, bits, 0);
    var mask := Pow2(bits) - Pow2(bitPos);
    var masked := And(word, mask);
    forall i: nat ensures Bit(masked, i) <==> Bit(word, i) && bitPos <= i < bits {
      AndBit(word, mask, i);
      HighMaskBit(bitPos, bits, i);
    }
    if masked != 0 {
      IsolateLowest(masked);
      bit := TrailingZeros(masked);
    } else {
      bit := bits - 1;
      forall i: nat ensures !Bit(masked, i) { ZeroBit(i); }
    }
  }

  // ---- Expanding words into the list of ticks ----

  predicate StrictlyIncreasing(s: seq<int>) {
    forall i, j :: 0 <= i < j < |s| ==> s[i] < s[j]
  }

  lemma Append(s: seq<int>, x: int)
    requires StrictlyIncreasing(s) && forall y :: y in s ==> y < x
    ensures StrictlyIncreasing(s + [x])
  {
    assert forall i :: 0 <= i < |s| ==> s[i] in s;
  }

  method SortedKeys(words: map<int, nat>) returns (keys: seq<int>)
    ensures StrictlyIncreasing(keys)
    ensures forall k :: k in keys <==> k in words
  {
    keys := [];
    var rest := words.Keys;
    while rest != {}
      invariant StrictlyIncreasing(keys)
      invariant forall k, r :: k in keys && r in rest ==> k < r
      invariant forall k :: k in words <==> k in keys || k in rest
      decreases |rest|
    {
      var least := Least(rest);
      Append(keys, least);
      keys := keys + [least];
      rest := rest - {least};
    }
  }

  lemma Inhabited(s: set<int>)
    ensures s == {} || exists x :: x in s
  {
    if forall x :: x !in s {
      assert s == {};
    }
  }

  method Least(s: set<int>) returns (least: int)
    requires s != {}
    ensures least in s && forall x :: x in s ==> least <= x
  {
    Inhabited(s);
    least :| least in s;
    var rest := s - {least};
    while rest != {}
      invariant rest <= s && least in s
      invariant forall x :: x in s && x !in rest ==> least <= x
      decreases |rest|
    {
      Inhabited(rest);
      var x :| x in rest;
      if x < least {
        least := x;
      }
      rest := rest - {x};
    }
  }

  /** The word is a uint256: no bit lies at 256 or above. */
  ghost predicate FitsWord(word: nat) {
    forall i: nat :: Bit(word, i) ==> i < WORD_BITS
  }

  ghost predicate WordsInRange(words: map<int, nat>) {
    forall k :: k in words ==> FitsWord(words[k])
  }

  /** The list holds exactly the marked ticks, in strictly increasing order. */
  method InitializedTicksInWords(words: map<int, nat>, spacing: Spacing) returns (ticks: seq<int>)
    requires WordsInRange(words)
    ensures StrictlyIncreasing(ticks)
    ensures forall t :: t in ticks <==> Marked(words, spacing, t)
  {
    hide And, Bit;
    ticks := [];
    var keys := SortedKeys(words);
    for k := 0 to |keys|
      invariant StrictlyIncreasing(ticks)
      invariant forall t :: t in ticks <==> Marked(words, spacing, t) && t / spacing / WORD_BITS in keys[..k]
    {
      assert keys[k] in keys;
      KeysAbove(words, spacing, keys, k, ticks);
      ticks := AppendWord(ticks, words[keys[k]], keys[k], spacing);
      assert keys[..k + 1] == keys[..k] + [keys[k]];
    }
    forall i: nat ensures !Bit(0, i) { ZeroBit(i); }
  }

  /** The inner loop: appends one word's ticks, lowest bit first. */
  method AppendWord(before: seq<int>, word: nat, wordPos: int, spacing: Spacing) returns (ticks: seq<int>)
    requires StrictlyIncreasing(before)
    requires FitsWord(word)
    requires AllBelow(before, spacing, wordPos, word)
    ensures StrictlyIncreasing(ticks)
    ensures forall t :: t in ticks <==> t in before || InWord(t, spacing, wordPos, word)
  {
    hide And, Bit, InWord, StrictlyIncreasing, FitsWord, BitLength;
    ticks := before;
    var rest := word;
    while rest != 0
      invariant FitsWord(rest)
      invariant StrictlyIncreasing(ticks)
      invariant forall t :: t in ticks || InWord(t, spacing, wordPos, rest) <==>
                  t in before || InWord(t, spacing, wordPos, word)
      invariant AllBelow(ticks, spacing, wordPos, rest)
      decreases rest
    {
      var bit := BitLength(And(rest, Neg(rest))) - 1;
      var tick := (wordPos * WORD_BITS + bit) * spacing;
      LowestTick(rest, spacing, wordPos, tick);
      Append(ticks, tick);
      ExtendBelow(ticks, tick, spacing, wordPos, rest, And(rest, rest - 1));
      ticks := ticks + [tick];
      rest := And(rest, rest - 1);
    }
    NoTicksLeft(spacing, wordPos);
  }

  ghost predicate AllBelow(ticks: seq<int>, spacing: Spacing, wordPos: int, bits: nat) {
    forall t, u :: t in ticks && InWord(u, spacing, wordPos, bits) ==> t < u
  }

  lemma ExtendBelow(ticks: seq<int>, tick: int, spacing: Spacing, wordPos: int, bits: nat, rest: nat)
    requires AllBelow(ticks, spacing, wordPos, bits)
    requires forall u :: InWord(u, spacing, wordPos, rest) ==> InWord(u, spacing, wordPos, bits) && u != tick
    requires forall u :: InWord(u, spacing, wordPos, bits) && u != tick ==> tick < u
    ensures AllBelow(ticks + [tick], spacing, wordPos, rest)
  {
  }

  lemma NoTicksLeft(spacing: Spacing, wordPos: int)
    ensures forall t :: !InWord(t, spacing, wordPos, 0)
  {
    forall i: nat ensures !Bit(0, i) { ZeroBit(i); }
  }

  /** The tick lies in this word and the given bits mark it. */
  predicate InWord(t: int, spacing: Spacing, wordPos: int, bits: nat) {
    t % spacing == 0 && t / spacing / WORD_BITS == wordPos && Bit(bits, t / spacing % WORD_BITS)
  }

  /** Clearing the lowest bit removes exactly the lowest tick of the word. */
  lemma LowestTick(word: nat, spacing: Spacing, wordPos: int, tick: int)
    requires word > 0 && FitsWord(word)
    requires tick == (wordPos * WORD_BITS + (BitLength(And(word, Neg(word))) - 1)) * spacing
    ensures And(word, word - 1) < word
    ensures InWord(tick, spacing, wordPos, word)
    ensures forall t :: InWord(t, spacing, wordPos, word) && t != tick ==> tick < t
    ensures forall t :: InWord(t, spacing, wordPos, And(word, word - 1)) <==>
              InWord(t, spacing, wordPos, word) && t != tick
    ensures FitsWord(And(word, word - 1))
  {
    IsolateLowest(word);
    LowestCleared(word);
    LowestTickOf(word, And(word, word - 1), TrailingZeros(word), spacing, wordPos, tick);
  }

  lemma LowestTickOf(word: nat, cleared: nat, bit: nat, spacing: Spacing, wordPos: int, tick: int)
    requires FitsWord(word) && Bit(word, bit) && forall j: nat :: j < bit ==> !Bit(word, j)
    requires forall i: nat :: Bit(cleared, i) <==> Bit(word, i) && i != bit
    requires tick == (wordPos * WORD_BITS + bit) * spacing
    ensures FitsWord(cleared)
    ensures InWord(tick, spacing, wordPos, word)
    ensures forall t :: InWord(t, spacing, wordPos, word) && t != tick ==> tick < t
    ensures forall t :: InWord(t, spacing, wordPos, cleared) <==> InWord(t, spacing, wordPos, word) && t != tick
  {
    hide Bit;
    var c := wordPos * WORD_BITS + bit;
    TickOrder(tick, c, spacing);
    forall t | InWord(t, spacing, wordPos, word)
      ensures tick <= t && (t == tick <==> t / spacing % WORD_BITS == bit)
    {
      TickOrder(t, c, spacing);
    }
  }

  /** Multiples of the spacing are ordered as their compressed ticks. */
  lemma TickOrder(t: int, c: int, spacing: Spacing)
    ensures c * spacing % spacing == 0 && c * spacing / spacing == c
    ensures t % spacing == 0 ==> (t == c * spacing <==> t / spacing == c) && (t < c * spacing <==> t / spacing < c)
  {
    DivMul(c, spacing);
    DivBounds(t, spacing);
    if c <= t / spacing {
      MulMono(c, t / spacing, spacing);
    } else {
      MulMono(t / spacing + 1, c, spacing);
    }
  }

  lemma LowestCleared(word: nat)
    requires word > 0
    ensures And(word, word - 1) < word
    ensures forall i: nat :: Bit(And(word, word - 1), i) <==> Bit(word, i) && i != TrailingZeros(word)
  {
    forall i: nat ensures Bit(And(word, word - 1), i) <==> Bit(word, i) && i != TrailingZeros(word) {
      ClearLowest(word, i);
    }
    ClearLowest(word, 0);
  }

  lemma WordMonotone(a: int, b: int, spacing: Spacing)
    requires a <= b
    ensures a / spacing / WORD_BITS <= b / spacing / WORD_BITS
  {
    DivMonotone(a, b, spacing);
    DivMonotone(a / spacing, b / spacing, WORD_BITS);
  }

  lemma WordFits(words: map<int, nat>, key: int)
    requires WordsInRange(words) && key in words
    ensures FitsWord(words[key])
  {
  }

  /** Words are visited in increasing order, so every tick listed so far lies below the next word. */
  lemma KeysAbove(words: map<int, nat>, spacing: Spacing, keys: seq<int>, k: nat, ticks: seq<int>)
    requires WordsInRange(words) && StrictlyIncreasing(keys) && k < |keys| && keys[k] in words
    requires forall t :: t in ticks ==> Marked(words, spacing, t) && t / spacing / WORD_BITS in keys[..k]
    ensures FitsWord(words[keys[k]])
    ensures AllBelow(ticks, spacing, keys[k], words[keys[k]])
  {
    var word := words[keys[k]];
    WordFits(words, keys[k]);
    forall t, u | t in ticks && InWord(u, spacing, keys[k], word) ensures t < u {
      assert t / spacing / WORD_BITS in keys[..k];
      var j :| 0 <= j < k && keys[..k][j] == t / spacing / WORD_BITS;
      assert keys[j] < keys[k];
      if u <= t { WordMonotone(u, t, spacing); }
    }
  }

  // ---- Chained searches ----

  /** Words still to be searched downward from a word. */
  function WordsBelow(window: TickWindow, wordPos: int): nat {
    if wordPos < window.minWord then 0 else wordPos - window.minWord + 1
  }

  function WordsAbove(window: TickWindow, wordPos: int): nat {
    if wordPos > window.maxWord then 0 else window.maxWord - wordPos + 1
  }

  /** Searching down word after word, as the swap loop does, until an initialized tick is found or the window ends. */
  function ChainDown(window: TickWindow, tick: int): Option<int>
    decreases WordsBelow(window, WordPositionForTick(tick, window.tickSpacing))
  {
    match NextInitializedTickWithinOneWord(window, tick, true)
    case Err(_) => None
    case Ok((next, found)) =>
      if found then Some(next)
      else
        EdgeBelow(window, tick);
        ChainDown(window, next - 1)
  }

  function ChainUp(window: TickWindow, tick: int): Option<int>
    decreases WordsAbove(window, Position(tick / window.tickSpacing + 1).0)
  {
    match NextInitializedTickWithinOneWord(window, tick, false)
    case Err(_) => None
    case Ok((next, found)) =>
      if found then Some(next)
      else
        EdgeAbove(window, tick);
        ChainUp(window, next)
  }

  /** A downward search that finds nothing stops at the lower edge of its word, so the next one is in the word below. */
  lemma EdgeBelow(window: TickWindow, tick: int)
    requires var r := NextInitializedTickWithinOneWord(window, tick, true); r.Ok? && !r.value.1
    ensures var next := NextInitializedTickWithinOneWord(window, tick, true).value.0;
            && WordPositionForTick(next - 1, window.tickSpacing) == WordPositionForTick(tick, window.tickSpacing) - 1
            && Loaded(window, tick)
  {
    hide And, Bit, Pow2, BitLength;
    var spacing := window.tickSpacing;
    var next := NextInitializedTickWithinOneWord(window, tick, true).value.0;
    SearchDown(window, tick);
    DivMul((tick / spacing) - (tick / spacing) % WORD_BITS, spacing);
    JustBelow(next, spacing);
  }

  lemma JustBelow(t: int, spacing: Spacing)
    requires t % spacing == 0
    ensures (t - 1) / spacing == t / spacing - 1
  {
    assert t == t / spacing * spacing;
    FloorGalois(t - 1, spacing, t / spacing - 1);
    FloorGalois(t - 1, spacing, t / spacing);
    MulMono(t / spacing - 1, t / spacing, spacing);
    assert (t / spacing - 1) * spacing == t / spacing * spacing - spacing;
  }

  lemma EdgeAbove(window: TickWindow, tick: int)
    requires var r := NextInitializedTickWithinOneWord(window, tick, false); r.Ok? && !r.value.1
    ensures var next := NextInitializedTickWithinOneWord(window, tick, false).value.0;
            && Position(next / window.tickSpacing + 1).0 == Position(tick / window.tickSpacing + 1).0 + 1
            && Word(window, Position(tick / window.tickSpacing + 1).0).Ok?
  {
    hide And, Bit, Pow2, BitLength;
    var spacing := window.tickSpacing;
    var compressed := tick / spacing + 1;
    TickOfBit(window, compressed);
    SearchUp(window, tick);
    var bit := UpperAnswer(window, tick);
    DivMul(compressed + (bit - Position(compressed).1), spacing);
  }

  /** The chained downward search finds the nearest initialized tick at or below, across words. */
  lemma {:induction false} ChainDownNearest(window: TickWindow, tick: int)
    ensures match ChainDown(window, tick)
            case Some(t) =>
              && t <= tick && Initialized(window, t) && Loaded(window, t)
              && (forall u :: t < u <= tick ==> !Initialized(window, u))
            case None => Loaded(window, tick) ==> forall u :: u <= tick && Loaded(window, u) ==> !Initialized(window, u)
    decreases WordsBelow(window, WordPositionForTick(tick, window.tickSpacing))
  {
    hide NextInitializedTickWithinOneWord, Initialized;
    SearchDown(window, tick);
    var r := NextInitializedTickWithinOneWord(window, tick, true);
    if r.Ok? && !r.value.1 {
      EdgeBelow(window, tick);
      ChainDownNearest(window, r.value.0 - 1);
      if !Loaded(window, r.value.0 - 1) { NothingLoadedBelow(window, r.value.0 - 1, tick); }
    }
  }

  lemma NothingLoadedBelow(window: TickWindow, tick: int, loaded: int)
    requires tick <= loaded && !Loaded(window, tick) && Loaded(window, loaded)
    ensures forall u :: u <= tick ==> !Loaded(window, u)
  {
    WordMonotone(tick, loaded, window.tickSpacing);
    forall u | u <= tick ensures !Loaded(window, u) { WordMonotone(u, tick, window.tickSpacing); }
  }

  lemma NothingLoadedAbove(window: TickWindow, tick: int, loaded: int)
    requires loaded <= tick && !Loaded(window, tick) && Loaded(window, loaded)
    ensures forall u :: u >= tick ==> !Loaded(window, u)
  {
    WordMonotone(loaded, tick, window.tickSpacing);
    forall u | u >= tick ensures !Loaded(window, u) { WordMonotone(tick, u, window.tickSpacing); }
  }

  /** The first multiple of the spacing above a tick. */
  function NextMultiple(tick: int, spacing: Spacing): int {
    (tick / spacing + 1) * spacing
  }

  /** The chained upward search finds the nearest initialized tick above, across words. */
  lemma {:induction false} ChainUpNearest(window: TickWindow, tick: int)
    ensures var first := NextMultiple(tick, window.tickSpacing);
            match ChainUp(window, tick)
            case Some(t) =>
              && tick < t && Initialized(window, t) && Loaded(window, t)
              && (forall u :: tick < u < t ==> !Initialized(window, u))
            case None => Loaded(window, first) ==> forall u :: u > tick && Loaded(window, u) ==> !Initialized(window, u)
    decreases WordsAbove(window, Position(tick / window.tickSpacing + 1).0)
  {
    hide NextInitializedTickWithinOneWord, Initialized, NextMultiple;
    var spacing := window.tickSpacing;
    SearchUp(window, tick);
    NextMultipleIs(tick, spacing);
    var r := NextInitializedTickWithinOneWord(window, tick, false);
    if r.Ok? {
      var next := r.value.0;
      if !r.value.1 {
        EdgeAbove(window, tick);
        ChainUpNearest(window, next);
        NextMultipleIs(next, spacing);
        var first := NextMultiple(next, spacing);
        forall u | u > next && Initialized(window, u)
            ensures u >= first { MarkedIsMultiple(window, u); AtLeastNext(next, u, spacing); }
        if !Loaded(window, first) { NothingLoadedAbove(window, first, next); }
      }
    }
  }

  lemma NextMultipleIs(tick: int, spacing: Spacing)
    ensures NextMultiple(tick, spacing) == (tick / spacing + 1) * spacing > tick
  {
    AboveTick(tick, tick / spacing + 1, spacing);
  }

  lemma MarkedIsMultiple(window: TickWindow, t: int)
    requires Initialized(window, t)
    ensures t % window.tickSpacing == 0
  {
  }

  lemma AtLeastNext(tick: int, u: int, spacing: Spacing)
    requires u > tick && u % spacing == 0
    ensures u >= NextMultiple(tick, spacing)
  {
    DivMonotone(tick, u, spacing);
    DivBounds(u, spacing);
    DivBounds(tick, spacing);
    assert u == u / spacing * spacing;
    MulMono(tick / spacing + 1, u / spacing, spacing);
  }

  // ---- The chain visits the list ----

  /** The initialized ticks of the window, all of them loaded, in strictly increasing order. */
  ghost predicate Lists(ticks: seq<int>, window: TickWindow) {
    && StrictlyIncreasing(ticks)
    && (forall t :: t in ticks <==> Initialized(window, t))
    && (forall t :: t in ticks ==> Loaded(window, t))
  }

  /** From a listed tick, the chained searches visit exactly the tick itself, its predecessor and its successor in the
      list, and find nothing beyond either end. */
  lemma ChainsVisitTheList(window: TickWindow, ticks: seq<int>, i: nat)
    requires Lists(ticks, window) && i < |ticks|
    ensures ChainDown(window, ticks[i]) == Some(ticks[i])
    ensures ChainDown(window, ticks[i] - 1) == if i > 0 then Some(ticks[i - 1]) else None
    ensures ChainUp(window, ticks[i]) == if i + 1 < |ticks| then Some(ticks[i + 1]) else None
  {
    hide ChainDown, ChainUp, Initialized, Loaded, NextMultiple;
    assert ticks[i] in ticks;
    ChainDownNearest(window, ticks[i]);
    VisitsBelow(window, ticks, i);
    VisitsAbove(window, ticks, i);
  }

  lemma VisitsBelow(window: TickWindow, ticks: seq<int>, i: nat)
    requires Lists(ticks, window) && i < |ticks|
    ensures ChainDown(window, ticks[i] - 1) == if i > 0 then Some(ticks[i - 1]) else None
  {
    hide ChainDown, Initialized;
    ChainDownNearest(window, ticks[i] - 1);
    var r := ChainDown(window, ticks[i] - 1);
    if i > 0 {
      assert ticks[i - 1] in ticks && ticks[i] in ticks;
      WordMonotone(ticks[i - 1], ticks[i] - 1, window.tickSpacing);
      WordMonotone(ticks[i] - 1, ticks[i], window.tickSpacing);
    }
    if r.Some? {
      assert r.value in ticks;
      var j :| 0 <= j < |ticks| && ticks[j] == r.value;
      assert j < i;
    }
  }

  lemma VisitsAbove(window: TickWindow, ticks: seq<int>, i: nat)
    requires Lists(ticks, window) && i < |ticks|
    ensures ChainUp(window, ticks[i]) == if i + 1 < |ticks| then Some(ticks[i + 1]) else None
  {
    hide ChainUp, Initialized, NextMultiple;
    var spacing := window.tickSpacing;
    var first := NextMultiple(ticks[i], spacing);
    ChainUpNearest(window, ticks[i]);
    NextMultipleIs(ticks[i], spacing);
    var r := ChainUp(window, ticks[i]);
    if i + 1 < |ticks| {
      assert ticks[i + 1] in ticks && ticks[i] in ticks;
      MarkedIsMultiple(window, ticks[i + 1]);
      AtLeastNext(ticks[i], ticks[i + 1], spacing);
      WordMonotone(ticks[i], first, spacing);
      WordMonotone(first, ticks[i + 1], spacing);
    }
    if r.Some? {
      assert r.value in ticks;
      var j :| 0 <= j < |ticks| && ticks[j] == r.value;
      assert j > i;
    }
  }

  /** The expansion of a window's words is such a list, when the window loads every word it holds. */
  method ListTicks(window: TickWindow) returns (ticks: seq<int>)
    requires WordsInRange(window.bitmapWords)
    requires forall k :: k in window.bitmapWords ==> window.minWord <= k <= window.maxWord
    ensures Lists(ticks, window)
  {
    ticks := InitializedTicksInWords(window.bitmapWords, window.tickSpacing);
    forall t | t in ticks ensures Loaded(window, t) {
      MarkedIsStored(window, t);
    }
  }

  lemma MarkedIsStored(window: TickWindow, t: int)
    requires Initialized(window, t)
    ensures WordPositionForTick(t, window.tickSpacing) in window.bitmapWords
  {
    if WordPositionForTick(t, window.tickSpacing) !in window.bitmapWords {
        ZeroBit(Position(t / window.tickSpacing).1); }
  }
}
