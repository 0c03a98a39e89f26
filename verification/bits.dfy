/**
 * Reading the binary digits of an integer. Bit(x, p) is digit p (weight 2^p)
 * of x in two's-complement reading: for negative x the digits above the
 * magnitude are all ones, because Euclidean division by 2^p floors.
 */
module Bits {
  import opened Arith

  predicate Bit(x: int, p: nat)
    decreases p
  {
    if p == 0 then x % 2 == 1 else Bit(x / 2, p - 1)
  }

  /** Digit p is the parity of x / 2^p. */
  lemma {:induction false} BitIsDivision(x: int, p: nat)
    ensures Bit(x, p) <==> (x / Pow2(p)) % 2 == 1
    decreases p
  {
    if p > 0 {
      BitIsDivision(x / 2, p - 1);
      DivDiv(x, 2, Pow2(p - 1));
    }
  }

  /**
   * The digits of hi * 2^k + lo, when lo fits in k digits: the low k digits
   * come from lo and the rest from hi.
   */
  lemma BitConcat(hi: int, lo: int, k: nat, p: nat)
    requires 0 <= lo < Pow2(k)
    ensures Bit(hi * Pow2(k) + lo, p) <==> if p < k then Bit(lo, p) else Bit(hi, p - k)
  {
    if p < k {
      BitConcatLow(hi, lo, k, p);
    } else {
      BitConcatHigh(hi, lo, k, p);
    }
  }

  lemma BitConcatLow(hi: int, lo: int, k: nat, p: nat)
    requires 0 <= lo < Pow2(k) && p < k
    ensures Bit(hi * Pow2(k) + lo, p) <==> Bit(lo, p)
  {
    var P, D := Pow2(p), Pow2(k - p - 1);
    BitIsDivision(hi * Pow2(k) + lo, p);
    BitIsDivision(lo, p);
    Pow2Add(p, k - p);
    assert Pow2(k - p) == 2 * D;
    EvenMultipleLowDigit(hi, D, P, lo);
  }

  lemma EvenMultipleLowDigit(hi: int, D: int, P: int, lo: int)
    requires P > 0
    ensures ((hi * (P * (2 * D)) + lo) / P) % 2 == (lo / P) % 2
  {
    var m := hi * D;
    assert hi * (P * (2 * D)) == (2 * m) * P;
    DivAddMultiple(2 * m, P, lo);
    DivAddMultiple(m, 2, lo / P);
  }

  lemma BitConcatHigh(hi: int, lo: int, k: nat, p: nat)
    requires 0 <= lo < Pow2(k) && k <= p
    ensures Bit(hi * Pow2(k) + lo, p) <==> Bit(hi, p - k)
  {
    var A, B := Pow2(k), Pow2(p - k);
    BitIsDivision(hi * A + lo, p);
    BitIsDivision(hi, p - k);
    Pow2Add(k, p - k);
    HighDigits(hi, lo, A, B);
  }

  lemma HighDigits(hi: int, lo: int, A: int, B: int)
    requires A > 0 && B > 0 && 0 <= lo < A
    ensures (hi * A + lo) / (A * B) == hi / B
  {
    DivDiv(hi * A + lo, A, B);
    DivModUnique(hi * A + lo, A, hi, lo);
  }

  /** Dividing by 2^k drops the k lowest digits. */
  lemma BitOfDiv(x: int, k: nat, p: nat)
    ensures Bit(x / Pow2(k), p) <==> Bit(x, p + k)
  {
    BitIsDivision(x / Pow2(k), p);
    BitIsDivision(x, p + k);
    Pow2Add(k, p);
    DivDiv(x, Pow2(k), Pow2(p));
  }

  /** Reducing modulo 2^w keeps the w lowest digits. */
  lemma BitOfMod(x: int, w: nat, p: nat)
    requires p < w
    ensures Bit(x % Pow2(w), p) <==> Bit(x, p)
  {
    var q, r := x / Pow2(w), x % Pow2(w);
    assert x == q * Pow2(w) + r;
    BitConcatLow(q, r, w, p);
  }

  /** A number below 2^w has no digit at or above w. */
  lemma BitAboveWidth(x: int, w: nat, p: nat)
    requires 0 <= x < Pow2(w) && w <= p
    ensures !Bit(x, p)
  {
    BitIsDivision(x, p);
    Pow2Monotone(w, p);
    DivModUnique(x, Pow2(p), 0, x);
  }

  /** A negative number of at least -2^w has every digit at or above w set. */
  lemma BitAboveWidthNegative(x: int, w: nat, p: nat)
    requires 0 <= x + Pow2(w) && x < 0 && w <= p
    ensures Bit(x, p)
  {
    BitIsDivision(x, p);
    Pow2Monotone(w, p);
    DivModUnique(x, Pow2(p), -1, x + Pow2(p));
  }

  /** Two numbers in [0, 2^w) with the same w low digits are equal. */
  lemma {:induction false} BitsEqual(x: int, y: int, w: nat)
    requires 0 <= x < Pow2(w) && 0 <= y < Pow2(w)
    requires forall p: nat :: p < w ==> (Bit(x, p) <==> Bit(y, p))
    ensures x == y
    decreases w
  {
    if w == 0 {
    } else {
      assert Bit(x, 0) <==> Bit(y, 0);
      DivModUnique(x, 2, x / 2, x % 2);
      DivModUnique(y, 2, y / 2, y % 2);
      forall p: nat | p < w - 1
        ensures Bit(x / 2, p) <==> Bit(y / 2, p)
      {
        assert Bit(x, p + 1) <==> Bit(y, p + 1);
      }
      BitsEqual(x / 2, y / 2, w - 1);
    }
  }

  /** 2^w - 1 is w ones. */
  lemma {:induction false} AllOnesBits(w: nat, p: nat)
    ensures Bit(Pow2(w) - 1, p) <==> p < w
    decreases w
  {
    if w == 0 {
      BitIsDivision(0, p);
    } else {
      assert Pow2(w) - 1 == (Pow2(w - 1) - 1) * Pow2(1) + 1;
      BitConcat(Pow2(w - 1) - 1, 1, 1, p);
      if p > 0 {
        AllOnesBits(w - 1, p - 1);
      }
    }
  }
}
