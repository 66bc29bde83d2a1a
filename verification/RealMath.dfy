/** Order and cancellation of real products and quotients. */
module RealMath {

  lemma ScaleReal(a: real, b: real, c: real)
    requires a <= b && c >= 0.0
    ensures a * c <= b * c && c * a <= c * b
  {
  }

  lemma ScaleRealStrict(a: real, b: real, c: real)
    requires a < b && c > 0.0
    ensures a * c < b * c
  {
  }

  lemma ProductSign(a: real, b: real)
    requires a >= 0.0 && b >= 0.0
    ensures a * b >= 0.0 && -a * b <= 0.0
  {
  }

  lemma CancelReal(a: real, x: real, y: real)
    requires a != 0.0 && a * x == a * y
    ensures x == y
  {
    assert a * (x - y) == 0.0;
  }

  lemma Undivide(n: real, d: real)
    requires d != 0.0
    ensures n / d * d == n && d * (n / d) == n
  {
  }
}
