/**
 * Laws of the shift and rotate handlers beyond their digit-level definition:
 * what they do to the all-ones word (the bits of -1), how shr_s relates to
 * shr_u, that shl followed by shr_u keeps the low digits, and that rotations
 * compose, invert and come full circle.
 */
module ShiftLaws {
  import opened Arith
  import opened Bits
  import opened Words
  import opened Integer

  /** The all-ones word: the bits of the signed value -1. */
  function AllOnes(n: Width): (x: int)
    ensures IsWord(n, x)
  {
    n.Modulus() - 1
  }

  /** The all-ones word has every digit set, reads as -1, and is what -1 wraps to. */
  lemma AllOnesIsMinusOne(n: Width)
    ensures forall p: nat :: p < n.Size() ==> Bit(AllOnes(n), p)
    ensures ToSigned(n, AllOnes(n)) == -1
    ensures Wrap(n, -1) == AllOnes(n)
  {
    forall p: nat | p < n.Size()
      ensures Bit(AllOnes(n), p)
    {
      AllOnesBit(n, p);
    }
    var M, H := n.Modulus(), n.Half();
    Pow2Add(1, n.Size() - 1);
    assert M == 2 * H;
    assert ToSigned(n, M - 1) == -1;
    DivModUnique(-1, M, -1, M - 1);
  }

  /** Every digit of the all-ones word is set. */
  lemma AllOnesBit(n: Width, p: nat)
    requires p < n.Size()
    ensures Bit(AllOnes(n), p)
  {
    AllOnesDigit(n.Size(), AllOnes(n), p);
  }

  lemma AllOnesDigit(N: nat, m: int, p: nat)
    requires m == Pow2(N) - 1 && p < N
    ensures Bit(m, p)
  {
    AllOnesBits(N, p);
  }

  // ----- the all-ones word -----

  /** shl(-1, z2) is -2^(z2 mod N): ones everywhere except the z2 mod N low digits. */
  lemma ShlAllOnes(n: Width, y: int)
    requires IsWord(n, y)
    ensures Shl(n, AllOnes(n), y) == n.Modulus() - Pow2(y % n.Size())
    ensures ToSigned(n, Shl(n, AllOnes(n), y)) == -(Pow2(y % n.Size()) as int)
  {
    var N, k := n.Size(), Amount(n, y);
    var M: int, A: int, B: int, C: int := n.Modulus(), Pow2(k), Pow2(N - k), Pow2(N - k - 1);
    ModulusSplit(n, k);
    assert B == 2 * C;
    var x := AllOnes(n);
    assert Shl(n, x, y) == (x * A) % M;
    ShlOfAllOnes(x, M, A, B, C);
    assert ToSigned(n, M - A) == -A;
  }

  lemma ShlOfAllOnes(x: int, M: int, A: int, B: int, C: int)
    requires A > 0 && C > 0 && B == 2 * C && M == A * B && x == M - 1
    ensures (x * A) % M == M - A
    ensures M - A >= M / 2
  {
    assert x * A == (A - 1) * M + (M - A);
    DivModUnique(x * A, M, A - 1, M - A);
    MulAtLeast(C, A);
    assert M / 2 == A * C;
  }

  /** shr_u(-1, z2) has its top z2 mod N digits cleared and the rest set. */
  lemma ShrUAllOnes(n: Width, y: int)
    requires IsWord(n, y)
    ensures ShrU(n, AllOnes(n), y) == Pow2(n.Size() - y % n.Size()) - 1
  {
    var N, k := n.Size(), Amount(n, y);
    var M: int, A: int, B: int := n.Modulus(), Pow2(k), Pow2(N - k);
    ModulusSplit(n, k);
    var x := AllOnes(n);
    assert x == A * B - 1;
    assert ShrU(n, x, y) == x / A;
    ShrUOfAllOnes(A, B);
    assert k == y % N;
    assert ShrU(n, x, y) == B - 1;
  }

  lemma ShrUOfAllOnes(A: int, B: int)
    requires A > 0 && B > 0
    ensures (A * B - 1) / A == B - 1
  {
    DivModUnique(A * B - 1, A, B - 1, A - 1);
  }

  /** shr_s(-1, z2) is -1 for every amount: the sign digit is copied in. */
  lemma ShrSAllOnes(n: Width, y: int)
    requires IsWord(n, y)
    ensures ShrS(n, AllOnes(n), y) == AllOnes(n)
  {
    var k := Amount(n, y);
    DivModUnique(-1, Pow2(k), -1, Pow2(k) - 1);
    SignedRoundTrip(n, -1);
  }

  // ----- shr_s against shr_u -----

  /**
   * shr_s agrees with shr_u on words whose sign digit is clear, and otherwise
   * is shr_u with the top z2 mod N digits set.
   */
  lemma ShrSIsShrUWithFill(n: Width, x: int, y: int)
    requires IsWord(n, x) && IsWord(n, y)
    ensures !Bit(x, n.Size() - 1) ==> ShrS(n, x, y) == ShrU(n, x, y)
    ensures Bit(x, n.Size() - 1) ==>
      ShrS(n, x, y) == ShrU(n, x, y) + (n.Modulus() - Pow2(n.Size() - y % n.Size()))
  {
    var N, k, M, H := n.Size(), Amount(n, y), n.Modulus(), n.Half();
    var A, B := Pow2(k), Pow2(N - k);
    Pow2Add(k, N - k);
    SignDigit(N, x);
    var v := if x < H then x else x - M;
    assert ToSigned(n, x) == v;
    assert ShrS(n, x, y) == (v / A) % (A * B);
    assert ShrU(n, x, y) == x / A;
    ShiftWithFill(x, v, A, B, H);
  }

  lemma ShiftWithFill(x: int, v: int, A: int, B: int, H: int)
    requires A > 0 && B > 0 && 0 <= x < A * B
    requires v == if x < H then x else x - A * B
    ensures x < H ==> (v / A) % (A * B) == x / A
    ensures x >= H ==> (v / A) % (A * B) == x / A + (A * B - B)
  {
    if x < H {
      PositiveShift(x, A, B);
    } else {
      NegativeShift(x, A, B);
    }
  }

  lemma PositiveShift(x: int, A: int, B: int)
    requires A > 0 && B > 0 && 0 <= x < A * B
    ensures (x / A) % (A * B) == x / A
  {
    DivAtMost(x, A);
    DivModUnique(x / A, A * B, 0, x / A);
  }

  lemma NegativeShift(x: int, A: int, B: int)
    requires A > 0 && B > 0 && 0 <= x < A * B
    ensures ((x - A * B) / A) % (A * B) == x / A + (A * B - B)
  {
    var q := x / A;
    NegativeQuotient(x, A, B);
    DivBelow(x, A, B);
    MulAtLeast(A, B);
    DivModUnique(q - B, A * B, -1, q + (A * B - B));
  }

  lemma NegativeQuotient(x: int, A: int, B: int)
    requires A > 0
    ensures (x - A * B) / A == x / A - B
  {
    assert x - A * B == (-B) * A + x;
    DivAddMultiple(-B, A, x);
  }

  // ----- shl then shr_u -----

  /** Shifting left and back right by the same amount keeps the N - (z2 mod N) low digits. */
  lemma ShlThenShrU(n: Width, x: int, y: int)
    requires IsWord(n, x) && IsWord(n, y)
    ensures ShrU(n, Shl(n, x, y), y) == x % Pow2(n.Size() - y % n.Size())
  {
    var N, k := n.Size(), Amount(n, y);
    RotlHalves(N, x, k);
    assert Shl(n, x, y) == (x % Pow2(N - k)) * Pow2(k);
    DivAddMultiple(x % Pow2(N - k), Pow2(k), 0);
  }

  // ----- rotations -----

  /** Where digit p of a rotation by k comes from: digit p - k, counted cyclically. */
  function RotSource(N: nat, k: nat, p: nat): (q: nat)
    requires k <= N && p < N
    ensures q < N
    ensures q + k == p || q + k == p + N
  {
    if k <= p then p - k else p + N - k
  }

  /** The amount of two rotations by ka and kb in succession: ka + kb, less N if it reaches N. */
  function RotSum(N: nat, ka: nat, kb: nat): (c: nat)
    requires ka < N && kb < N
    ensures c < N
    ensures c == ka + kb || c == ka + kb - N
  {
    if ka + kb < N then ka + kb else ka + kb - N
  }

  lemma RotSourceCompose(N: nat, ka: nat, kb: nat, p: nat)
    requires ka < N && kb < N && p < N
    ensures RotSource(N, ka, RotSource(N, kb, p)) == RotSource(N, RotSum(N, ka, kb), p)
  {
  }

  lemma RotSumIsModular(N: nat, ka: nat, kb: nat)
    requires ka < N && kb < N
    ensures (ka + kb) % N == RotSum(N, ka, kb)
    ensures RotSum(N, ka, kb) % N == RotSum(N, ka, kb)
  {
    var c := RotSum(N, ka, kb);
    DivModUnique(ka + kb, N, (ka + kb - c) / N, c);
    DivModUnique(c, N, 0, c);
  }

  lemma RotlDigits(n: Width, x: int, y: int, p: nat)
    requires IsWord(n, x) && IsWord(n, y) && p < n.Size()
    ensures Bit(Rotl(n, x, y), p) <==> Bit(x, RotSource(n.Size(), Amount(n, y), p))
  {
    RotlBit(n, x, y, p);
  }

  /** Rotating by a multiple of N, in particular by 0 or by N, leaves the word unchanged. */
  lemma RotlFullCircle(n: Width, x: int, y: int)
    requires IsWord(n, x) && IsWord(n, y) && y % n.Size() == 0
    ensures Rotl(n, x, y) == x
  {
    forall p: nat | p < n.Size()
      ensures Bit(Rotl(n, x, y), p) <==> Bit(x, p)
    {
      RotlDigits(n, x, y, p);
    }
    BitsEqual(Rotl(n, x, y), x, n.Size());
  }

  lemma RotlComposeDigits(n: Width, x: int, a: int, b: int, c: int)
    requires IsWord(n, x) && IsWord(n, a) && IsWord(n, b) && IsWord(n, c)
    requires c % n.Size() == RotSum(n.Size(), a % n.Size(), b % n.Size())
    ensures Rotl(n, Rotl(n, x, a), b) == Rotl(n, x, c)
  {
    var N, ka, kb := n.Size(), Amount(n, a), Amount(n, b);
    var r1 := Rotl(n, x, a);
    var r2, r3 := Rotl(n, r1, b), Rotl(n, x, c);
    forall p: nat | p < N
      ensures Bit(r2, p) <==> Bit(r3, p)
    {
      RotlDigits(n, r1, b, p);
      RotlDigits(n, x, a, RotSource(N, kb, p));
      RotlDigits(n, x, c, p);
      RotSourceCompose(N, ka, kb, p);
    }
    BitsEqual(r2, r3, N);
  }

  /** Rotating by a and then by b is rotating by a + b, modulo N. */
  lemma RotlCompose(n: Width, x: int, a: int, b: int)
    requires IsWord(n, x) && IsWord(n, a) && IsWord(n, b)
    ensures IsWord(n, (a % n.Size() + b % n.Size()) % n.Size())
    ensures Rotl(n, Rotl(n, x, a), b) == Rotl(n, x, (a % n.Size() + b % n.Size()) % n.Size())
  {
    var N, ka, kb := n.Size(), Amount(n, a), Amount(n, b);
    RotSumIsModular(N, ka, kb);
    SizeIsWord(n);
    RotlComposeDigits(n, x, a, b, RotSum(N, ka, kb));
  }

  /** Rotating left by z2 and then by N - (z2 mod N) restores the word. */
  lemma RotlInverse(n: Width, x: int, y: int)
    requires IsWord(n, x) && IsWord(n, y)
    ensures IsWord(n, n.Size() - y % n.Size())
    ensures Rotl(n, Rotl(n, x, y), n.Size() - y % n.Size()) == x
  {
    var N, k := n.Size(), Amount(n, y);
    SizeIsWord(n);
    var back := N - k;
    var kb := if k == 0 then 0 else back;
    DivModUnique(back, N, if k == 0 then 1 else 0, kb);
    DivModUnique(0, N, 0, 0);
    RotlComposeDigits(n, x, y, back, 0);
    RotlFullCircle(n, x, 0);
  }
}
