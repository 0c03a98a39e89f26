/**
 * Powers of two and the handful of facts about Euclidean division by them
 * that the word model needs. Dafny's `/` and `%` on `int` are Euclidean; for
 * a positive divisor that is floor division, which is what an arithmetic
 * right shift computes.
 */
module Arith {

  /** 2^k. */
  function Pow2(k: nat): (r: nat)
    ensures r > 0
  {
    if k == 0 then 1 else 2 * Pow2(k - 1)
  }

  lemma {:induction false} Pow2Add(a: nat, b: nat)
    ensures Pow2(a + b) == Pow2(a) * Pow2(b)
    decreases a
  {
    if a > 0 {
      Pow2Add(a - 1, b);
      assert Pow2(a + b) == 2 * Pow2(a - 1 + b);
    }
  }

  /** The powers of two that the word widths need, written out. */
  lemma Pow2Constants()
    ensures Pow2(8) == 0x100 && Pow2(24) == 0x100_0000
    ensures Pow2(31) == 0x8000_0000 && Pow2(32) == 0x1_0000_0000
    ensures Pow2(56) == 0x100_0000_0000_0000
    ensures Pow2(63) == 0x8000_0000_0000_0000 && Pow2(64) == 0x1_0000_0000_0000_0000
  {
    assert Pow2(8) == 0x100;
    assert Pow2(16) == 0x1_0000 by { Pow2Add(8, 8); }
    assert Pow2(24) == 0x100_0000 by { Pow2Add(16, 8); }
    assert Pow2(32) == 0x1_0000_0000 by { Pow2Add(24, 8); }
    assert Pow2(31) == 0x8000_0000 by { Pow2Add(1, 31); }
    assert Pow2(56) == 0x100_0000_0000_0000 by { Pow2Add(32, 24); }
    assert Pow2(64) == 0x1_0000_0000_0000_0000 by { Pow2Add(56, 8); }
    assert Pow2(63) == 0x8000_0000_0000_0000 by { Pow2Add(1, 63); }
  }

  lemma {:induction false} Pow2Monotone(a: nat, b: nat)
    requires a <= b
    ensures Pow2(a) <= Pow2(b)
    decreases b
  {
    if a < b {
      Pow2Monotone(a, b - 1);
    }
  }

  /** Division and remainder are determined by any decomposition x == q*d + r with 0 <= r < d. */
  lemma DivModUnique(x: int, d: int, q: int, r: int)
    requires 0 < d && 0 <= r < d && x == q * d + r
    ensures x / d == q && x % d == r
  {
    var q', r' := x / d, x % d;
    assert x == q' * d + r';
    assert (q - q') * d == r' - r;
    if q > q' {
      MulAtLeast(q - q', d);
    } else if q < q' {
      MulAtLeast(q' - q, d);
    }
  }

  lemma MulAtLeast(a: int, d: int)
    requires a >= 1 && d > 0
    ensures a * d >= d
  {
    assert a * d == (a - 1) * d + d;
  }

  /** Reducing modulo a multiple of d first does not change the remainder mod d. */
  lemma ModOfMod(y: int, d: int, e: int)
    requires d > 0 && e > 0
    ensures (y % (d * e)) % d == y % d
  {
    var q, r := y / (d * e), y % (d * e);
    assert y == (q * e) * d + r;
    assert r == (r / d) * d + r % d;
    DivModUnique(y, d, q * e + r / d, r % d);
  }

  lemma DivAddMultiple(m: int, d: int, r: int)
    requires d > 0
    ensures (m * d + r) / d == m + r / d
    ensures (m * d + r) % d == r % d
  {
    DivModUnique(m * d + r, d, m + r / d, r % d);
  }

  lemma DivDiv(x: int, a: int, b: int)
    requires a > 0 && b > 0
    ensures x / a / b == x / (a * b)
  {
    var q1, r1 := x / a, x % a;
    var q2, r2 := q1 / b, q1 % b;
    assert x == (q2 * b + r2) * a + r1;
    assert x == q2 * (a * b) + (r2 * a + r1);
    MulAtMost(r2, b - 1, a);
    DivModUnique(x, a * b, q2, r2 * a + r1);
  }

  lemma MulAtMost(r: int, m: int, a: int)
    requires 0 <= r <= m && a > 0
    ensures 0 <= r * a <= m * a
  {
    assert m * a - r * a == (m - r) * a;
  }

  /** (x*a) mod (a*b) == a * (x mod b): the low bits of a left shift. */
  lemma ModMulFactor(x: int, a: int, b: int)
    requires a > 0 && b > 0
    ensures (x * a) % (a * b) == a * (x % b)
    ensures (x * a) / (a * b) == x / b
  {
    var q, r := x / b, x % b;
    assert x * a == q * (a * b) + r * a;
    MulAtMost(r, b - 1, a);
    DivModUnique(x * a, a * b, q, r * a);
  }

  /** A quotient of something below a*b by a is below b. */
  lemma DivBelow(x: int, a: int, b: int)
    requires 0 <= x < a * b && a > 0 && b > 0
    ensures 0 <= x / a < b
  {
    DivModUnique(x, a, x / a, x % a);
    if x / a >= b {
      MulAtMost(b, x / a, a);
    }
  }

  /** Dividing a natural number by a positive number does not increase it. */
  lemma DivAtMost(x: int, d: int)
    requires 0 <= x && d > 0
    ensures 0 <= x / d <= x
  {
    var q, r := x / d, x % d;
    assert x == q * d + r;
    if q > x {
      MulAtLeast(d, q);
    } else if q < 0 {
      MulAtLeast(-q, d);
    }
  }
}
