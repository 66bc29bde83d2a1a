/** Bit operations on unbounded two's-complement integers, defined by halving. */
module Bits {

  function Pow2(n: nat): (p: nat)
    ensures p > 0
  {
    if n == 0 then 1 else 2 * Pow2(n - 1)
  }

  /** Bit i of an integer; negative numbers carry infinitely many leading ones. */
  predicate Bit(x: int, i: nat)
    decreases i
  {
    if i == 0 then x % 2 == 1 else Bit(x / 2, i - 1)
  }

  function And(a: nat, b: int): (r: nat)
    ensures r <= a
  {
    if a == 0 then 0 else (a % 2) * (b % 2) + 2 * And(a / 2, b / 2)
  }

  function Neg(x: int): int { -x }

  function Not(x: int): int { -x - 1 }

  function Or(a: nat, b: nat): nat {
    if a == 0 then b else (if a % 2 == 1 || b % 2 == 1 then 1 else 0) + 2 * Or(a / 2, b / 2)
  }

  function BitLength(x: nat): nat {
    if x == 0 then 0 else 1 + BitLength(x / 2)
  }

  lemma {:induction false} AndBit(a: nat, b: int, i: nat)
    ensures Bit(And(a, b), i) <==> Bit(a, i) && Bit(b, i)
    decreases i
  {
    var r := And(a, b);
    if a == 0 {
      ZeroBit(i);
    } else if i == 0 {
    } else {
      assert r / 2 == And(a / 2, b / 2);
      AndBit(a / 2, b / 2, i - 1);
    }
  }

  lemma {:induction false} ZeroBit(i: nat)
    ensures !Bit(0, i)
  {
    if i > 0 { ZeroBit(i - 1); }
  }

  lemma {:induction false} OrBit(a: nat, b: nat, i: nat)
    ensures Bit(Or(a, b), i) <==> Bit(a, i) || Bit(b, i)
    decreases i
  {
    if a == 0 {
      ZeroBit(i);
    } else if i > 0 {
      assert Or(a, b) / 2 == Or(a / 2, b / 2);
      OrBit(a / 2, b / 2, i - 1);
    }
  }

  /** A single bit shifted left. */
  lemma {:induction false} Pow2Bit(n: nat, i: nat)
    ensures Bit(Pow2(n), i) <==> i == n
    decreases n
  {
    if n == 0 {
      if i > 0 { ZeroBit(i - 1); }
    } else if i > 0 {
      Pow2Bit(n - 1, i - 1);
    }
  }

  /** The low mask 2^n - 1. */
  lemma {:induction false} LowMaskBit(n: nat, i: nat)
    ensures Bit(Pow2(n) - 1, i) <==> i < n
    decreases n
  {
    if n == 0 {
      ZeroBit(i);
    } else if i > 0 {
      assert (Pow2(n) - 1) / 2 == Pow2(n - 1) - 1;
      LowMaskBit(n - 1, i - 1);
    }
  }

  /** The mask of bits n..m-1. */
  lemma {:induction false} HighMaskBit(n: nat, m: nat, i: nat)
    requires n <= m
    ensures Pow2(n) <= Pow2(m)
    ensures Bit(Pow2(m) - Pow2(n), i) <==> n <= i < m
    decreases m
  {
    if m == 0 {
      ZeroBit(i);
    } else if n == 0 {
      LowMaskBit(m, i);
    } else {
      HighMaskBit(n - 1, m - 1, if i > 0 then i - 1 else 0);
      assert (Pow2(m) - Pow2(n)) / 2 == Pow2(m - 1) - Pow2(n - 1);
    }
  }

  /** The complement flips every bit. */
  lemma {:induction false} NotBit(x: int, i: nat)
    ensures Bit(Not(x), i) <==> !Bit(x, i)
    decreases i
  {
    if i > 0 {
      assert Not(x) / 2 == Not(x / 2);
      NotBit(x / 2, i - 1);
    }
  }

  /** A word below 2^n has no bit at n or above. */
  lemma {:induction false} HighBitsClear(x: nat, n: nat, i: nat)
    requires x < Pow2(n) && n <= i
    ensures !Bit(x, i)
    decreases i
  {
    if i == 0 {
    } else if n == 0 {
      ZeroBit(i);
    } else {
      HighBitsClear(x / 2, n - 1, i - 1);
    }
  }

  lemma {:induction false} NonZeroHasBit(x: nat) returns (i: nat)
    requires x > 0
    ensures Bit(x, i)
  {
    if x % 2 == 1 {
      i := 0;
    } else {
      i := NonZeroHasBit(x / 2);
      i := i + 1;
    }
  }

  /** bit_length - 1 is the highest set bit. */
  lemma {:induction false} HighestBit(x: nat)
    requires x > 0
    ensures BitLength(x) > 0 && Bit(x, BitLength(x) - 1)
    ensures forall j: nat :: j >= BitLength(x) ==> !Bit(x, j)
  {
    if x > 1 {
      HighestBit(x / 2);
      forall j: nat | j >= BitLength(x) ensures !Bit(x, j) {
        assert !Bit(x / 2, j - 1);
      }
    } else {
      forall j: nat | j >= 1 ensures !Bit(x, j) {
        ZeroBit(j - 1);
      }
    }
  }

  /** The number of trailing zero bits. */
  function TrailingZeros(x: nat): (n: nat)
    requires x > 0
  {
    if x % 2 == 1 then 0 else 1 + TrailingZeros(x / 2)
  }

  /** x & -x isolates the lowest set bit. */
  lemma {:induction false} IsolateLowest(x: nat)
    requires x > 0
    ensures And(x, Neg(x)) == Pow2(TrailingZeros(x))
    ensures BitLength(And(x, Neg(x))) - 1 == TrailingZeros(x)
    ensures Bit(x, TrailingZeros(x)) && forall j: nat :: j < TrailingZeros(x) ==> !Bit(x, j)
  {
    hide And;
    AndStep(x, Neg(x));
    if x % 2 == 1 {
      assert Neg(x) / 2 == Not(x / 2);
      AndWithComplement(x / 2);
      assert And(x, Neg(x)) == 1;
      assert BitLength(1) == 1 + BitLength(0);
    } else {
      assert Neg(x) / 2 == Neg(x / 2);
      IsolateLowest(x / 2);
      assert And(x, Neg(x)) == 2 * And(x / 2, Neg(x / 2));
      forall j: nat | j < TrailingZeros(x) ensures !Bit(x, j) {
        if j > 0 { assert !Bit(x / 2, j - 1); }
      }
    }
  }

  lemma {:induction false} AndWithComplement(x: nat)
    ensures And(x, Not(x)) == 0
  {
    if x > 0 {
      assert Not(x) / 2 == Not(x / 2);
      AndWithComplement(x / 2);
    }
  }

  /** x & (x - 1) clears exactly the lowest set bit. */
  lemma {:induction false} ClearLowest(x: nat, i: nat)
    requires x > 0
    ensures And(x, x - 1) < x
    ensures Bit(And(x, x - 1), i) <==> Bit(x, i) && i != TrailingZeros(x)
  {
    hide And;
    AndStep(x, x - 1);
    if x % 2 == 1 {
      assert (x - 1) / 2 == x / 2;
      AndSelf(x / 2);
      assert And(x, x - 1) == x - 1;
    } else {
      assert (x - 1) / 2 == x / 2 - 1;
      ClearLowest(x / 2, if i > 0 then i - 1 else 0);
      assert And(x, x - 1) == 2 * And(x / 2, x / 2 - 1);
    }
  }

  lemma AndStep(a: nat, b: int)
    requires a > 0
    ensures And(a, b) == (a % 2) * (b % 2) + 2 * And(a / 2, b / 2)
  {
  }

  lemma {:induction false} AndSelf(x: nat)
    ensures And(x, x) == x
  {
    if x > 0 { AndSelf(x / 2); }
  }

  /** Testing one bit with a mask. */
  lemma {:induction false} TestBit(x: nat, n: nat)
    ensures And(x, Pow2(n)) != 0 <==> Bit(x, n)
  {
    if n == 0 {
      assert x > 0 ==> And(x, 1) == x % 2 + 2 * And(x / 2, 0);
      AndZero(x / 2);
    } else {
      TestBit(x / 2, n - 1);
      assert Pow2(n) / 2 == Pow2(n - 1);
    }
  }

  lemma {:induction false} AndZero(x: nat)
    ensures And(x, 0) == 0
  {
    if x > 0 { AndZero(x / 2); }
  }
}
