/** Exact floor and ceiling division, and the mulDiv helpers built on them. */
module FullMath {
  import opened Results

  function FloorDiv(n: int, d: int): (q: int)
    requires d > 0
    ensures q * d <= n < q * d + d
    ensures n >= 0 ==> q >= 0
  {
    n / d
  }

  function CeilDiv(n: int, d: int): (q: int)
    requires d > 0
    ensures q * d - d < n <= q * d
    ensures n >= 0 ==> q >= 0
  {
    -(-n / d)
  }

  function MulDiv(a: int, b: int, denominator: int): Result<int> {
    if denominator <= 0 then Err(ZeroDivision) else Ok(FloorDiv(a * b, denominator))
  }

  function MulDivRoundingUp(a: int, b: int, denominator: int): (r: Result<int>)
    ensures denominator > 0 ==> r == Ok(CeilDiv(a * b, denominator))
  {
    if denominator <= 0 then
      Err(ZeroDivision)
    else
      var product := a * b;
      var result := product / denominator;
      CeilFromFloor(product, denominator);
      Ok(if product % denominator != 0 then result + 1 else result)
  }

  /** The floor division operator, which raises on a zero divisor. */
  function DivFloor(x: int, y: nat): Result<int> {
    if y == 0 then Err(ZeroDivision) else Ok(FloorDiv(x, y))
  }

  function DivRoundingUp(x: int, y: int): Result<int> {
    if y <= 0 then Err(ZeroDivision) else Ok(CeilDiv(x, y))
  }

  function Pow10(n: nat): (p: real)
    ensures p >= 1.0
  {
    if n == 0 then 1.0 else 10.0 * Pow10(n - 1)
  }

  /** The floor is the greatest integer whose product stays within the dividend. */
  lemma FloorGalois(n: int, d: int, k: int)
    requires d > 0
    ensures k <= FloorDiv(n, d) <==> k * d <= n
  {
    var q := FloorDiv(n, d);
    if k <= q {
      assert k * d <= q * d;
    } else {
      assert k * d >= (q + 1) * d;
    }
  }

  /** The ceiling is the least integer whose product covers the dividend. */
  lemma CeilGalois(n: int, d: int, k: int)
    requires d > 0
    ensures CeilDiv(n, d) <= k <==> n <= k * d
  {
    var q := CeilDiv(n, d);
    if q <= k {
      assert q * d <= k * d;
    } else {
      assert k * d <= (q - 1) * d;
    }
  }

  lemma CeilIs(n: int, d: int, v: int)
    requires d > 0 && v * d - d < n <= v * d
    ensures CeilDiv(n, d) == v
  {
    CeilGalois(n, d, v);
    CeilGalois(n, d, v - 1);
  }

  lemma FloorIs(n: int, d: int, v: int)
    requires d > 0 && v * d <= n < v * d + d
    ensures FloorDiv(n, d) == v
  {
    FloorGalois(n, d, v);
    FloorGalois(n, d, v + 1);
  }

  /** Rounding down, testing the remainder and adding one is the ceiling. */
  lemma CeilFromFloor(n: int, d: int)
    requires d > 0
    ensures CeilDiv(n, d) == if n % d != 0 then n / d + 1 else n / d
  {
    var c := if n % d != 0 then n / d + 1 else n / d;
    assert n == d * (n / d) + n % d;
    assert (n / d) * d == d * (n / d);
    CeilGalois(n, d, c);
    CeilGalois(n, d, c - 1);
  }

  lemma FloorOfFloor(n: int, a: int, b: int)
    requires a > 0 && b > 0
    ensures a * b > 0 && FloorDiv(FloorDiv(n, a), b) == FloorDiv(n, a * b)
  {
    assert a * b > 0;
    var l, r := FloorDiv(FloorDiv(n, a), b), FloorDiv(n, a * b);
    FloorGaloisTwice(n, a, b, l);
    FloorGaloisTwice(n, a, b, r);
  }

  lemma FloorGaloisTwice(n: int, a: int, b: int, k: int)
    requires a > 0 && b > 0
    ensures a * b > 0
    ensures k <= FloorDiv(FloorDiv(n, a), b) <==> k <= FloorDiv(n, a * b)
  {
    assert a * b > 0;
    FloorGalois(FloorDiv(n, a), b, k);
    FloorGalois(n, a, k * b);
    FloorGalois(n, a * b, k);
    assert k * b * a == k * (a * b);
  }

  lemma CeilOfCeil(n: int, a: int, b: int)
    requires a > 0 && b > 0
    ensures a * b > 0 && CeilDiv(CeilDiv(n, a), b) == CeilDiv(n, a * b)
  {
    assert a * b > 0;
    var l, r := CeilDiv(CeilDiv(n, a), b), CeilDiv(n, a * b);
    CeilGaloisTwice(n, a, b, l);
    CeilGaloisTwice(n, a, b, r);
  }

  lemma CeilGaloisTwice(n: int, a: int, b: int, k: int)
    requires a > 0 && b > 0
    ensures a * b > 0
    ensures CeilDiv(CeilDiv(n, a), b) <= k <==> CeilDiv(n, a * b) <= k
  {
    assert a * b > 0;
    CeilGalois(CeilDiv(n, a), b, k);
    CeilGalois(n, a, k * b);
    CeilGalois(n, a * b, k);
    assert k * b * a == k * (a * b);
  }

  /** Rounding one quotient both ways differs by at most one unit. */
  lemma FloorCeilGap(n: int, d: int)
    requires d > 0
    ensures 0 <= CeilDiv(n, d) - FloorDiv(n, d) <= 1
  {
    CeilFromFloor(n, d);
  }

  // ---- Products ----

  lemma MulMono(a: int, b: int, c: int)
    requires a <= b && c >= 0
    ensures a * c <= b * c
  {
  }

  lemma MulCancel(a: int, b: int, c: int)
    requires c > 0
    ensures a * c <= b * c ==> a <= b
    ensures a * c < b * c ==> a < b
  {
    if a > b { MulMono(b + 1, a, c); }
    if a >= b { MulMono(b, a, c); }
  }

  lemma MulAssoc(a: int, b: int, c: int)
    ensures a * b * c == a * (b * c)
  {
  }

  lemma ProductPositive(a: int, b: int)
    requires a > 0 && b > 0
    ensures a * b > 0
  {
  }
}
