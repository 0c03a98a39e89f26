/**
 * The digit sequence bits_N of the WebAssembly 1.0 core specification
 * (section 4.3.1): the N low binary digits of a number, most significant
 * first, and its inverse bits_N^-1.
 */
module Digits {
  import opened Arith
  import opened Bits

  /** bits_N(x): the N low binary digits of x, most significant first. */
  function BitsOf(N: nat, x: int): (d: seq<bool>)
    ensures |d| == N
  {
    if N == 0 then [] else BitsOf(N - 1, x / 2) + [x % 2 == 1]
  }

  /** bits_N^-1(d): the number whose binary digits, most significant first, are d. */
  function FromBits(d: seq<bool>): (x: nat)
    ensures x < Pow2(|d|)
  {
    if |d| == 0 then 0
    else 2 * FromBits(d[..|d| - 1]) + (if d[|d| - 1] then 1 else 0)
  }

  /** Entry i of bits_N(x) is digit N-1-i of x. */
  lemma {:induction false} BitsOfEntry(N: nat, x: int, i: nat)
    requires i < N
    ensures BitsOf(N, x)[i] == Bit(x, N - 1 - i)
    decreases N
  {
    if i < N - 1 {
      BitsOfEntry(N - 1, x / 2, i);
    }
  }

  /** bits_N is a left inverse of bits_N^-1. */
  lemma {:induction false} BitsOfFromBits(d: seq<bool>)
    ensures BitsOf(|d|, FromBits(d)) == d
    decreases |d|
  {
    if |d| > 0 {
      var front, last := d[..|d| - 1], d[|d| - 1];
      var x := FromBits(d);
      FromBitsSnoc(front, last);
      HalveTwicePlus(FromBits(front), last);
      BitsOfFromBits(front);
      assert BitsOf(|d|, x) == BitsOf(|front|, FromBits(front)) + [last];
    }
  }

  lemma FromBitsSnoc(front: seq<bool>, last: bool)
    ensures FromBits(front + [last]) == 2 * FromBits(front) + (if last then 1 else 0)
  {
    assert (front + [last])[..|front|] == front;
  }

  lemma HalveTwicePlus(f: int, last: bool)
    ensures (2 * f + (if last then 1 else 0)) / 2 == f
    ensures (2 * f + (if last then 1 else 0)) % 2 == 1 <==> last
  {
  }

  /** bits_N^-1 undoes bits_N up to reduction mod 2^N. */
  lemma {:induction false} FromBitsBitsOf(N: nat, x: int)
    ensures FromBits(BitsOf(N, x)) == x % Pow2(N)
    decreases N
  {
    if N > 0 {
      var d := BitsOf(N, x);
      assert d[..N - 1] == BitsOf(N - 1, x / 2);
      FromBitsBitsOf(N - 1, x / 2);
      LowDigitsStep(x, Pow2(N - 1));
    }
  }

  lemma LowDigitsStep(x: int, M: int)
    requires M > 0
    ensures 2 * ((x / 2) % M) + x % 2 == x % (2 * M)
  {
    DivDiv(x, 2, M);
    DivModUnique(x, 2 * M, (x / 2) / M, 2 * ((x / 2) % M) + x % 2);
  }
}
