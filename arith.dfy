/** Powers of two and the facts about Euclidean division by them that the bit and word
    arithmetic rests on. Python's `>>` on an int is floor division by a power of two, and
    `x & 1` is the non-negative remainder modulo 2, so both agree with Dafny's `/` and `%`
    for a positive divisor. */
module Arithmetic {

  function Pow2(k: nat): (r: nat)
    ensures r > 0
  {
    if k == 0 then 1 else 2 * Pow2(k - 1)
  }

  lemma {:induction false} Pow2Add(a: nat, b: nat)
    ensures Pow2(a + b) == Pow2(a) * Pow2(b)
    decreases a
  {
    if a > 0 {
      Pow2Add(a - 1, b);
      calc {
        Pow2(a + b);
        2 * Pow2(a - 1 + b);
        2 * (Pow2(a - 1) * Pow2(b));
        (2 * Pow2(a - 1)) * Pow2(b);
      }
    }
  }

  lemma Pow2Monotone(a: nat, b: nat)
    requires a <= b
    ensures Pow2(a) <= Pow2(b)
  {
    Pow2Add(a, b - a);
    MulPositive(Pow2(a), Pow2(b - a));
  }

  lemma MulPositive(x: nat, y: nat)
    requires y > 0
    ensures x <= x * y
  {
    assert x * y == x + x * (y - 1);
  }

  /** Division is determined by quotient and remainder. */
  lemma DivUnique(x: int, d: int, q: int, r: int)
    requires d > 0 && 0 <= r < d && x == d * q + r
    ensures x / d == q && x % d == r
  {
    var q' := x / d;
    var r' := x % d;
    assert d * q' + r' == d * q + r;
    assert d * (q' - q) == r - r';
    if q' > q {
      MulPositive(d, q' - q);
    } else if q' < q {
      MulPositive(d, q - q');
    }
  }

  /** Adding a multiple of the divisor adds to the quotient and keeps the remainder. */
  lemma DivAddMultiple(x: int, c: int, d: int)
    requires d > 0
    ensures (x + c * d) / d == x / d + c
    ensures (x + c * d) % d == x % d
  {
    assert x + c * d == d * (x / d + c) + x % d;
    DivUnique(x + c * d, d, x / d + c, x % d);
  }

  /** Dividing by `a` and then by `b` is dividing by `a * b`. */
  lemma DivDiv(x: int, a: int, b: int)
    requires a > 0 && b > 0
    ensures a * b > 0 && x / (a * b) == (x / a) / b
  {
    MulPositive(a, b);
    var q1 := x / a;
    var r1 := x % a;
    var q2 := q1 / b;
    var r2 := q1 % b;
    assert x == a * (b * q2 + r2) + r1;
    assert x == (a * b) * q2 + (a * r2 + r1);
    assert a * r2 <= a * (b - 1) by {
      assert a * (b - 1) - a * r2 == a * (b - 1 - r2);
      MulNonNegative(a, b - 1 - r2);
    }
    DivUnique(x, a * b, q2, a * r2 + r1);
  }

  lemma MulNonNegative(x: nat, y: nat)
    ensures x * y >= 0
  {
  }

  /** `x >> (k + 1)` is `(x >> k) >> 1`. */
  lemma DivPow2Succ(x: int, k: nat)
    ensures x / Pow2(k + 1) == (x / Pow2(k)) / 2
  {
    DivDiv(x, Pow2(k), 2);
    assert Pow2(k + 1) == Pow2(k) * 2;
  }

  lemma Pow2Of16()
    ensures Pow2(16) == 0x1_0000
  {
    assert Pow2(4) == 16;
    Pow2Add(4, 4);
    Pow2Add(8, 8);
  }

  lemma Pow2Of32()
    ensures Pow2(32) == 0x1_0000_0000
  {
    Pow2Of16();
    Pow2Add(16, 16);
  }

  /** A quotient is below `m` when the dividend is below `d * m`. */
  lemma DivBelow(p: int, d: int, m: int)
    requires 0 <= p && d > 0 && p < d * m
    ensures p / d < m
  {
    var q := p / d;
    assert d * q <= p;
    if q >= m {
      MulMonotoneLeft(d, m, q);
    }
  }

  lemma MulMonotoneLeft(d: int, a: int, b: int)
    requires d > 0 && a <= b
    ensures d * a <= d * b
  {
    assert d * b - d * a == d * (b - a);
  }
}
