/** One tick is one basis point: each tick's sqrt price against the square root of 1.0001 times the one before. */
module TickGrowth {
  import opened FullMath
  import opened Bits
  import opened TickMath

  /** k times x and m times y are equal up to the error: with 2^128 and ROOT, x is the root of 1.0001 times y. */
  ghost predicate Near(k: nat, m: nat, x: int, y: int, error: nat) {
    k * x <= m * y + error && m * y <= k * x + error
  }

  // ---- The chain ----

  /** A multiplication and its rounding down add at most ROOT to the error. */
  lemma CloseAfterScale(x: nat, y: nat, error: nat, i: nat)
    requires i < BITS && Near(Q128, ROOT, x, y, error)
    ensures Near(Q128, ROOT, Scale(x, i), Scale(y, i), error + ROOT)
  {
    hide Factor;
    FloorBounds(x * Factor(i));
    FloorBounds(y * Factor(i));
    FactorAtMostOne(i);
    ScaledBound(Q128, Q128, ROOT, x, y, Factor(i), Scale(x, i), Scale(y, i), error);
    ScaledBound(Q128, ROOT, Q128, y, x, Factor(i), Scale(y, i), Scale(x, i), error);
  }

  lemma FactorAtMostOne(i: nat)
    requires i < BITS
    ensures Factor(i) <= Q128
  {
  }

  /** A bound k * x <= m * y + error survives multiplying both sides by f / q and rounding each down. */
  lemma ScaledBound(q: nat, k: nat, m: nat, x: nat, y: nat, f: nat, x': nat, y': nat, error: nat)
    requires q > 0 && f <= q
    requires x' * q <= x * f && y * f < y' * q + q
    requires k * x <= m * y + error
    ensures k * x' <= m * y' + m + error
  {
    var bound := m * (y' + 1) + error;
    MulMono(x' * q, x * f, k);
    MulMono(k * x, m * y + error, f);
    MulMono(y * f, (y' + 1) * q, m);
    MulMono(f, q, error);
    MulAssoc(k, x', q);
    MulAssoc(k, x, f);
    MulAssoc(m, y, f);
    MulAssoc(m, y' + 1, q);
    assert k * x' * q <= bound * q;
    MulCancel(k * x', bound, q);
  }

  lemma {:induction false} CloseAfterChain(rest: nat, i: nat, x: nat, y: nat, error: nat)
    requires i <= BITS && Near(Q128, ROOT, x, y, error)
    ensures Near(Q128, ROOT, Chain(rest, i, x), Chain(rest, i, y), error + (BITS - i) * ROOT)
    decreases BITS - i
  {
    hide Factor, Scale;
    if i < BITS {
      if rest % 2 == 1 {
        CloseAfterScale(x, y, error, i);
        CloseAfterChain(rest / 2, i + 1, Scale(x, i), Scale(y, i), error + ROOT);
      } else {
        CloseAfterChain(rest / 2, i + 1, x, y, error);
      }
    }
  }

  const ERROR: nat := 24 * Q128

  lemma CarryEnds(rest: nat, i: nat)
    requires i < BITS
    ensures Near(Q128, ROOT, Chain(rest, i + 1, AllOnes(i)), Chain(rest, i + 1, Factor(i)), ERROR)
  {
    hide Chain, Factor, AllOnes;
    AllOnesBounds();
    assert FactorFits(i);
    CloseAfterChain(rest, i + 1, AllOnes(i), Factor(i), 3 * Q128);
  }

  /** Adding one to the tick carries through its trailing ones and divides the chain by the root of 1.0001. */
  lemma {:induction false} CarryIsClose(rest: nat, i: nat)
    requires i < BITS && rest + 1 < Pow2(BITS - i)
    ensures Near(Q128, ROOT, Chain(rest, i, AllOnes(i)), Chain(rest + 1, i, Q128), ERROR)
    decreases BITS - i
  {
    hide Factor, Scale, Chain, AllOnes, FactorFits, FactorGap, Near;
    AllOnesNext(i);
    ScaleOne(i);
    ChainStep(rest, i, AllOnes(i));
    ChainStep(rest + 1, i, Q128);
    if rest % 2 == 0 {
      assert (rest + 1) / 2 == rest / 2;
      CarryEnds(rest / 2, i);
    } else {
      assert (rest + 1) / 2 == rest / 2 + 1;
      CarryIsClose(rest / 2, i + 1);
    }
  }

  lemma ChainIsClose(t: nat)
    requires t < MAX_TICK
    ensures Near(Q128, ROOT, Chain(t, 0, Q128), Chain(t + 1, 0, Q128), ERROR)
  {
    assert Pow2(5) == 32 && Pow2(10) == 1024 && Pow2(15) == 32768 && Pow2(BITS) == 1048576;
    FirstLink();
    CarryIsClose(t, 0);
  }

  // ---- The ratio ----

  const Q219: nat := 0x8000000000000000000000000000000000000000000000000000000  // 2^219

  /** How far a sqrt price may lie from the root of 1.0001 times the one before: two units of Q64.96, and for large
      prices the units of 2^-128 lost before the chain is inverted. */
  function Slack(price: int): int {
    2 + price * price / Q219
  }

  /** Rounding both ratios up to Q64.96 costs one unit beside the error between them. */
  lemma RoundedUp(a: nat, b: nat, p: int, q: int, slack: int, error: nat)
    requires p * Q32 - Q32 < a <= p * Q32 && q * Q32 - Q32 < b <= q * Q32
    requires Near(Q128, ROOT, b, a, error) && error + a <= (slack - 1) * Q32 * Q128
    ensures Q128 * (q - slack) <= ROOT * p
    ensures (ROOT + 1) * (p - slack) <= Q128 * q
  {
    assert ROOT * p * Q32 >= ROOT * a && Q128 * q * Q32 >= Q128 * b;
    assert Q128 * (q - slack) * Q32 < Q128 * b - (slack - 1) * Q32 * Q128;
    assert (ROOT + 1) * (p - slack) * Q32 < (ROOT + 1) * a - (slack - 1) * Q32 * Q128;
  }

  lemma FinishRoundsUp(n: nat)
    ensures Finish(n, false) * Q32 - Q32 < n <= Finish(n, false) * Q32
  {
  }

  /** The error of the two inverses, from the error of what was inverted. */
  lemma InverseBound(k: nat, m: nat, x: nat, y: nat, error: nat, a: nat, b: nat, n: nat)
    requires k * x <= m * y + error
    requires n <= x * a + x && y * b <= n && x * b <= 2 * n
    ensures (k * b - m * a - 2 * k) * n <= error * (a * b)
  {
    MulMono(n, x * a + x, k * b);
    MulMono(x * b, 2 * n, k);
    MulMono(k * x, m * y + error, a * b);
    MulMono(y * b, n, m * a);
  }

  /** a is the quotient of n by x, rounded down. */
  ghost predicate Inverts(n: nat, x: nat, a: nat) {
    x * a <= n < x * a + x
  }

  lemma InverseOf(x: nat)
    requires x > 0
    ensures Inverts(MAX_UINT256, x, MAX_UINT256 / x)
  {
    var a := FloorDiv(MAX_UINT256, x);
  }

  /** The error between two inverses, relative to their product. */
  ghost predicate InverseError(k: nat, m: nat, a: int, b: int, error: nat, n: nat) {
    && (k * b - m * a - 2 * k) * n <= error * (a * b)
    && (m * a - k * b - 2 * m) * n <= error * (a * b)
  }

  /** Inverting keeps two numbers near, relative to the product of the inverses. */
  lemma InversesAreNear(k: nat, m: nat, x: nat, y: nat, error: nat, a: nat, b: nat, n: nat)
    requires Near(k, m, x, y, error) && y <= x <= 2 * y && Inverts(n, x, a) && Inverts(n, y, b)
    ensures InverseError(k, m, a, b, error, n)
  {
    MulMono(x, 2 * y, b);
    MulMono(y, x, a);
    InverseBound(k, m, x, y, error, a, b, n);
    InverseBound(m, k, y, x, error, b, a, n);
  }

  /** A bound on the product of the inverses turns the relative error into an absolute one. */
  lemma InversesWithin(k: nat, m: nat, a: nat, b: nat, error: nat, n: nat, product: nat, bound: nat)
    requires k <= m && InverseError(k, m, a, b, error, n)
    requires n > 0 && a * b <= product && error * product < (bound + 1) * n
    ensures Near(k, m, b, a, bound + 2 * m)
  {
    MulMono(a * b, product, error);
    MulCancel(k * b - m * a - 2 * k, bound + 1, n);
    MulCancel(m * a - k * b - 2 * m, bound + 1, n);
  }

  lemma ErrorOf(product: nat)
    ensures ERROR * product < (25 * product / Q128 + 1) * MAX_UINT256
  {
  }

  lemma AtMostTwice(x: nat, y: nat)
    requires CHAIN_MIN <= y && Near(Q128, ROOT, x, y, ERROR)
    ensures x <= 2 * y
  {
  }

  /** For positive ticks the lost precision fits the slack of the larger ratio. */
  lemma SlackCovers(a: nat, b: nat, q: int)
    requires a <= b <= q * Q32 && Q128 <= b
    ensures a * b <= q * q * (Q32 * Q32)
    ensures 3 * Q128 + 25 * (q * q * (Q32 * Q32)) / Q128 + a <= (Slack(q) - 1) * Q32 * Q128
  {
    ProductAtMost(a, b, q, Q32);
    SquareDominates(q * q, q);
    SlackArithmetic(q * q, q, a, q * q / Q219);
  }

  lemma ProductAtMost(a: nat, b: nat, q: int, k: nat)
    requires a <= b <= q * k
    ensures a * b <= q * q * (k * k)
  {
    MulMono(a, q * k, b);
    MulMono(b, q * k, q * k);
  }

  lemma SquareDominates(square: int, q: int)
    requires square == q * q && q * Q32 >= Q128
    ensures square * Q32 >= q * Q128
  {
    MulMono(Q128, q * Q32, q);
  }

  lemma SlackArithmetic(square: int, q: int, a: int, units: int)
    requires square * Q32 >= q * Q128 && q * Q32 >= Q128 && a <= q * Q32 && units == square / Q219
    ensures 3 * Q128 + 25 * (square * (Q32 * Q32)) / Q128 + a <= (1 + units) * Q32 * Q128
  {
    assert (1 + units) * Q219 > square;
  }

  /** The slack is small beside the ratio. */
  lemma SlackIsSmall(p: int, q: int)
    requires MIN_SQRT_RATIO <= p <= q <= MAX_SQRT_RATIO
    requires Q128 * (q - Slack(q)) <= ROOT * p
    ensures 0 <= Slack(q) < p
  {
    MulMono(q, Q128 * Q32 * 2, q);
    assert Slack(q) <= 3 + q / 8;
  }

  /** A bound on x by y, squared: squaring the root of 1.0001 gives 1.0001 back. */
  lemma SquareBound(k: nat, m: nat, x: int, y: int, u: nat, v: nat)
    requires k > 0 && 0 <= x && k * x <= m * y && u * (m * m) <= v * (k * k)
    ensures u * (x * x) <= v * (y * y)
  {
    ProductPositive(k, k);
    SquareMono(k, x, m, y);
    Rescale(k * k, m * m, x * x, y * y, u, v);
  }

  lemma SquareMono(k: int, x: int, m: int, y: int)
    requires 0 <= k * x <= m * y
    ensures k * k * (x * x) <= m * m * (y * y)
  {
    var a, b := k * x, m * y;
    MulMono(a, b, a);
    MulMono(a, b, b);
    assert a * a == k * k * (x * x) && b * b == m * m * (y * y);
  }

  lemma Rescale(k: int, m: int, x: int, y: int, u: nat, v: nat)
    requires k > 0 && y >= 0 && k * x <= m * y && u * m <= v * k
    ensures u * x <= v * y
  {
    MulMono(k * x, m * y, u);
    MulMono(u * m, v * k, y);
    assert k * x * u == u * x * k && m * y * u == u * m * y && v * k * y == v * y * k;
    MulCancel(u * x, v * y, k);
  }

  /** One tick is one basis point: up to the slack, the square of the ratio grows by the factor 1.0001. */
  lemma TickIsBasisPoint(t: int)
    requires MIN_TICK <= t < MAX_TICK
    ensures var p, q := Ratio(t), Ratio(t + 1);
            var slack := Slack(q);
            && 0 <= slack < p
            && 10000 * ((q - slack) * (q - slack)) <= 10001 * (p * p)
            && 10001 * ((p - slack) * (p - slack)) <= 10000 * (q * q)
  {
    hide Chain, Ratio, Slack;
    var p, q := Ratio(t), Ratio(t + 1);
    RatioRange(t);
    RatioRange(t + 1);
    if t < 0 { BelowParity(t); } else { AboveParity(t); }
    SlackIsSmall(p, q);
    SquareBound(Q128, ROOT, q - Slack(q), p, 10000, 10001);
    SquareBound(ROOT + 1, Q128, p - Slack(q), q, 10001, 10000);
  }

  lemma BelowParity(t: int)
    requires MIN_TICK <= t < 0
    ensures var p, q := Ratio(t), Ratio(t + 1);
            Q128 * (q - Slack(q)) <= ROOT * p && (ROOT + 1) * (p - Slack(q)) <= Q128 * q
  {
    hide Chain, Finish;
    var a, b := Chain(Abs(t), 0, Q128), Chain(Abs(t + 1), 0, Q128);
    ChainGap(Abs(t + 1));
    ChainIsClose(Abs(t + 1));
    FinishRoundsUp(a);
    FinishRoundsUp(b);
    RoundedUp(a, b, Ratio(t), Ratio(t + 1), Slack(Ratio(t + 1)), ERROR);
  }

  /** At and above parity the ratio is the inverse of the chain, rounded up. */
  lemma FinishInverse(t: int)
    requires 0 <= t <= MAX_TICK
    ensures Chain(t, 0, Q128) >= CHAIN_MIN
    ensures Ratio(t) * Q32 - Q32 < MAX_UINT256 / Chain(t, 0, Q128) <= Ratio(t) * Q32
  {
    hide Chain;
    ChainBounds(t, 0, Q128);
    NoBitsLeft(0, Q128);
    if t == 0 { RatioEnds(); } else { FinishRoundsUp(MAX_UINT256 / Chain(t, 0, Q128)); }
  }

  lemma InverseOrder(x: nat, y: nat, a: nat, b: nat, n: nat)
    requires y < x && Inverts(n, x, a) && Inverts(n, y, b)
    ensures a <= b
  {
    var next := b + 1;
    assert y * next == y * b + y;
    if next <= a {
      MulMono(next, a, x);
      MulMono(y, x, next);
    }
  }

  lemma InverseAboveOne(y: nat, b: nat, n: nat, one: nat)
    requires y < one && one * one <= n + one && Inverts(n, y, b)
    ensures one <= b
  {
    if b < one {
      MulMono(b + 1, one, y);
      MulMono(y + 1, one, one);
    }
  }

  /** The inverses the ratios of two positive ticks are rounded from. */
  lemma InversesOf(t: int) returns (a: nat, b: nat)
    requires 0 <= t < MAX_TICK
    ensures Ratio(t) * Q32 - Q32 < a <= Ratio(t) * Q32 && Ratio(t + 1) * Q32 - Q32 < b <= Ratio(t + 1) * Q32
    ensures a <= b && Q128 <= b && InverseError(Q128, ROOT, a, b, ERROR, MAX_UINT256)
  {
    hide Chain, Ratio, Near, Inverts, InverseError;
    var x, y := Chain(t, 0, Q128), Chain(t + 1, 0, Q128);
    ChainGap(t);
    ChainBounds(t, 0, Q128);
    ChainIsClose(t);
    AtMostTwice(x, y);
    a, b := MAX_UINT256 / x, MAX_UINT256 / y;
    InverseOf(x);
    InverseOf(y);
    InverseOrder(x, y, a, b, MAX_UINT256);
    InverseAboveOne(y, b, MAX_UINT256, Q128);
    InversesAreNear(Q128, ROOT, x, y, ERROR, a, b, MAX_UINT256);
    FinishInverse(t);
    FinishInverse(t + 1);
  }

  lemma AboveParity(t: int)
    requires 0 <= t < MAX_TICK
    ensures var p, q := Ratio(t), Ratio(t + 1);
            Q128 * (q - Slack(q)) <= ROOT * p && (ROOT + 1) * (p - Slack(q)) <= Q128 * q
  {
    hide Ratio, Slack, Near, InverseError;
    var p, q := Ratio(t), Ratio(t + 1);
    var a, b := InversesOf(t);
    SlackCovers(a, b, q);
    var product: nat := q * q * (Q32 * Q32);
    var bound := 25 * product / Q128;
    ErrorOf(product);
    InversesWithin(Q128, ROOT, a, b, ERROR, MAX_UINT256, product, bound);
    RoundedUp(a, b, p, q, Slack(q), bound + 2 * ROOT);
  }
}
