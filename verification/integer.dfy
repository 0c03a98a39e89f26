/**
 * The integer shift and rotate handlers of the interpreter, at widths 32 and
 * 64: i32.shl, i32.shr_s, i32.shr_u, i32.rotl and their i64 counterparts.
 * Operands are words (see Words): z1 is the value shifted or rotated, z2 the
 * amount, of which only z2 mod N is used.
 *
 * With k = z2 mod N, each handler is stated as word arithmetic: shl multiplies
 * z1 by 2^k and keeps the result modulo 2^N; shr_u floor-divides z1 by 2^k;
 * shr_s floor-divides the signed reading of z1 by 2^k and wraps the quotient
 * back to a word; rotl adds the two halves of the rotation, the low N - k
 * digits raised by 2^k and the high k digits lowered by 2^(N - k). Each is
 * then proved equal, digit by digit and as a whole sequence, to the
 * bit-sequence definition of section 4.3.2 of the WebAssembly 1.0 core
 * specification (module Reference).
 *
 * The arithmetic is proved once for a symbolic width N (the lemmas whose
 * names end in Digit or Sequence); the Width-level lemmas instantiate them.
 */
module Integer {
  import opened Arith
  import opened Bits
  import opened Digits
  import opened Words
  import opened Reference

  /** log2 N: the number of low digits of z2 that a shift or rotate looks at. */
  function AmountDigits(n: Width): nat {
    match n
    case W32 => 5
    case W64 => 6
  }

  /** The effective shift or rotate count: z2 mod N. */
  function Amount(n: Width, y: int): (k: nat)
    requires IsWord(n, y)
    ensures k < n.Size()
  {
    y % n.Size()
  }

  lemma SizeIsPow2(n: Width)
    ensures n.Size() == Pow2(AmountDigits(n))
  {
    match n
    case W32 => assert Pow2(5) == 32;
    case W64 => assert Pow2(6) == 64;
  }

  /**
   * A signed amount is pushed as its word: since N divides 2^N, the count
   * taken from that word is the signed amount mod N (Euclidean, so -24 gives 8).
   */
  lemma WrapAmount(n: Width, y: int)
    ensures Amount(n, Wrap(n, y)) == y % n.Size()
  {
    SizeIsPow2(n);
    Pow2Add(AmountDigits(n), n.Size() - AmountDigits(n));
    ModOfMod(y, n.Size(), Pow2(n.Size() - AmountDigits(n)));
  }

  /** Taking z2 mod N is masking z2 to its low log2 N digits. */
  lemma AmountIsMasking(n: Width, y: int, p: nat)
    requires IsWord(n, y)
    ensures Amount(n, y) < Pow2(AmountDigits(n))
    ensures Bit(Amount(n, y), p) <==> p < AmountDigits(n) && Bit(y, p)
  {
    SizeIsPow2(n);
    if p < AmountDigits(n) {
      BitOfMod(y, AmountDigits(n), p);
    } else {
      BitAboveWidth(Amount(n, y), AmountDigits(n), p);
    }
  }

  // ----- shl -----

  function Shl(n: Width, x: int, y: int): (r: int)
    requires IsWord(n, x) && IsWord(n, y)
    ensures IsWord(n, r)
  {
    (x * Pow2(Amount(n, y))) % n.Modulus()
  }

  lemma ShlDigit(N: nat, x: int, k: nat, p: nat)
    requires p < N
    ensures Bit((x * Pow2(k)) % Pow2(N), p) <==> k <= p && Bit(x, p - k)
  {
    BitOfMod(x * Pow2(k), N, p);
    BitConcat(x, 0, k, p);
    assert x * Pow2(k) + 0 == x * Pow2(k);
    BitAboveWidth(0, 0, p);
  }

  /** Digit p of shl(z1, z2) is digit p - (z2 mod N) of z1, and 0 below z2 mod N. */
  lemma ShlBit(n: Width, x: int, y: int, p: nat)
    requires IsWord(n, x) && IsWord(n, y) && p < n.Size()
    ensures Bit(Shl(n, x, y), p) <==> y % n.Size() <= p && Bit(x, p - y % n.Size())
  {
    ShlDigit(n.Size(), x, Amount(n, y), p);
  }

  lemma ShlEntry(N: nat, x: int, r: int, k: nat, i: nat)
    requires k <= N && i < N
    requires Bit(r, N - 1 - i) <==> k <= N - 1 - i && Bit(x, N - 1 - i - k)
    ensures BitsOf(N, r)[i] == IShl(BitsOf(N, x), k)[i]
  {
    BitsOfEntry(N, r, i);
    if i < N - k {
      BitsOfEntry(N, x, i + k);
    }
  }

  lemma ShlSequence(N: nat, x: int, r: int, k: nat)
    requires k <= N
    requires forall p: nat :: p < N ==> (Bit(r, p) <==> k <= p && Bit(x, p - k))
    ensures BitsOf(N, r) == IShl(BitsOf(N, x), k)
  {
    forall i | 0 <= i < N
      ensures BitsOf(N, r)[i] == IShl(BitsOf(N, x), k)[i]
    {
      ShlEntry(N, x, r, k, i);
    }
  }

  /** shl is ishl: bits_N(shl(z1, z2)) is bits_N(z1) with its first z2 mod N digits moved out and zeros moved in. */
  lemma ShlIsIShl(n: Width, x: int, y: int)
    requires IsWord(n, x) && IsWord(n, y)
    ensures ToBits(n, Shl(n, x, y)) == IShl(ToBits(n, x), Amount(n, y))
  {
    forall p: nat | p < n.Size()
      ensures Bit(Shl(n, x, y), p) <==> Amount(n, y) <= p && Bit(x, p - Amount(n, y))
    {
      ShlBit(n, x, y, p);
    }
    ShlSequence(n.Size(), x, Shl(n, x, y), Amount(n, y));
  }

  // ----- shr_u -----

  function ShrU(n: Width, x: int, y: int): (r: int)
    requires IsWord(n, x) && IsWord(n, y)
    ensures IsWord(n, r)
  {
    DivAtMost(x, Pow2(Amount(n, y)));
    x / Pow2(Amount(n, y))
  }

  lemma ShrUDigit(N: nat, x: int, k: nat, p: nat)
    requires 0 <= x < Pow2(N)
    ensures Bit(x / Pow2(k), p) <==> p + k < N && Bit(x, p + k)
  {
    BitOfDiv(x, k, p);
    if p + k >= N {
      BitAboveWidth(x, N, p + k);
    }
  }

  /** Digit p of shr_u(z1, z2) is digit p + (z2 mod N) of z1, and 0 from N - (z2 mod N) up. */
  lemma ShrUBit(n: Width, x: int, y: int, p: nat)
    requires IsWord(n, x) && IsWord(n, y) && p < n.Size()
    ensures Bit(ShrU(n, x, y), p) <==> p + y % n.Size() < n.Size() && Bit(x, p + y % n.Size())
  {
    ShrUDigit(n.Size(), x, Amount(n, y), p);
  }

  lemma ShrUEntry(N: nat, x: int, r: int, k: nat, i: nat)
    requires k <= N && i < N
    requires Bit(r, N - 1 - i) <==> N - 1 - i + k < N && Bit(x, N - 1 - i + k)
    ensures BitsOf(N, r)[i] == IShrU(BitsOf(N, x), k)[i]
  {
    BitsOfEntry(N, r, i);
    if k <= i {
      BitsOfEntry(N, x, i - k);
    }
  }

  lemma ShrUSequence(N: nat, x: int, r: int, k: nat)
    requires k <= N
    requires forall p: nat :: p < N ==> (Bit(r, p) <==> p + k < N && Bit(x, p + k))
    ensures BitsOf(N, r) == IShrU(BitsOf(N, x), k)
  {
    forall i | 0 <= i < N
      ensures BitsOf(N, r)[i] == IShrU(BitsOf(N, x), k)[i]
    {
      ShrUEntry(N, x, r, k, i);
    }
  }

  /** shr_u is ishr_u: zeros come in at the top. */
  lemma ShrUIsIShrU(n: Width, x: int, y: int)
    requires IsWord(n, x) && IsWord(n, y)
    ensures ToBits(n, ShrU(n, x, y)) == IShrU(ToBits(n, x), Amount(n, y))
  {
    forall p: nat | p < n.Size()
      ensures Bit(ShrU(n, x, y), p) <==> p + Amount(n, y) < n.Size() && Bit(x, p + Amount(n, y))
    {
      ShrUBit(n, x, y, p);
    }
    ShrUSequence(n.Size(), x, ShrU(n, x, y), Amount(n, y));
  }

  // ----- shr_s -----

  /** Arithmetic shift: the signed reading divided by 2^k, rounding toward minus infinity. */
  function ShrS(n: Width, x: int, y: int): (r: int)
    requires IsWord(n, x) && IsWord(n, y)
    ensures IsWord(n, r)
  {
    Wrap(n, ToSigned(n, x) / Pow2(Amount(n, y)))
  }

  lemma ShrSDigit(N: nat, v: int, k: nat, p: nat)
    requires 0 < N && -(Pow2(N - 1) as int) <= v < Pow2(N - 1)
    ensures Bit(v / Pow2(k), p) <==> if p + k < N then Bit(v, p + k) else v < 0
  {
    BitOfDiv(v, k, p);
    if p + k >= N {
      if v < 0 {
        BitAboveWidthNegative(v, N - 1, p + k);
      } else {
        BitAboveWidth(v, N - 1, p + k);
      }
    }
  }

  /** Digit p of shr_s(z1, z2) is digit p + (z2 mod N) of z1, and the sign digit from N - (z2 mod N) up. */
  lemma ShrSBit(n: Width, x: int, y: int, p: nat)
    requires IsWord(n, x) && IsWord(n, y) && p < n.Size()
    ensures Bit(ShrS(n, x, y), p) <==>
      if p + y % n.Size() < n.Size() then Bit(x, p + y % n.Size()) else Bit(x, n.Size() - 1)
  {
    var N, v, k := n.Size(), ToSigned(n, x), Amount(n, y);
    ShrSDigit(N, v, k, p);
    assert ShrS(n, x, y) == Wrap(n, v / Pow2(k));
    WrapBit(n, v / Pow2(k), p);
    if p + k < N {
      WrapBit(n, v, p + k);
    } else {
      assert v < 0 <==> Bit(x, N - 1);
    }
  }

  lemma ShrSEntry(N: nat, x: int, r: int, k: nat, i: nat)
    requires k < N && i < N
    requires Bit(r, N - 1 - i) <==> if N - 1 - i + k < N then Bit(x, N - 1 - i + k) else Bit(x, N - 1)
    ensures BitsOf(N, r)[i] == IShrS(BitsOf(N, x), k)[i]
  {
    BitsOfEntry(N, r, i);
    BitsOfEntry(N, x, 0);
    if k <= i {
      BitsOfEntry(N, x, i - k);
    }
  }

  lemma ShrSSequence(N: nat, x: int, r: int, k: nat)
    requires k < N
    requires forall p: nat :: p < N ==> (Bit(r, p) <==> if p + k < N then Bit(x, p + k) else Bit(x, N - 1))
    ensures BitsOf(N, r) == IShrS(BitsOf(N, x), k)
  {
    forall i | 0 <= i < N
      ensures BitsOf(N, r)[i] == IShrS(BitsOf(N, x), k)[i]
    {
      ShrSEntry(N, x, r, k, i);
    }
  }

  /** shr_s is ishr_s: copies of the sign digit come in at the top. */
  lemma ShrSIsIShrS(n: Width, x: int, y: int)
    requires IsWord(n, x) && IsWord(n, y)
    ensures ToBits(n, ShrS(n, x, y)) == IShrS(ToBits(n, x), Amount(n, y))
  {
    var N, k := n.Size(), Amount(n, y);
    forall p: nat | p < N
      ensures Bit(ShrS(n, x, y), p) <==> if p + k < N then Bit(x, p + k) else Bit(x, N - 1)
    {
      ShrSBit(n, x, y, p);
    }
    ShrSSequence(N, x, ShrS(n, x, y), k);
  }

  // ----- rotl -----

  function Rotl(n: Width, x: int, y: int): (r: int)
    requires IsWord(n, x) && IsWord(n, y)
    ensures IsWord(n, r)
  {
    RotlHalves(n.Size(), x, Amount(n, y));
    Shl(n, x, y) + x / Pow2(n.Size() - Amount(n, y))
  }

  /**
   * The two halves of a rotation do not overlap: the shifted part is
   * (x mod 2^(N-k)) * 2^k and the part wrapped around is below 2^k.
   */
  lemma RotlHalves(N: nat, x: int, k: nat)
    requires 0 <= x < Pow2(N) && k <= N
    ensures (x * Pow2(k)) % Pow2(N) == (x % Pow2(N - k)) * Pow2(k)
    ensures 0 <= x / Pow2(N - k) < Pow2(k)
    ensures (x * Pow2(k)) % Pow2(N) + x / Pow2(N - k) < Pow2(N)
  {
    var A, B := Pow2(k), Pow2(N - k);
    Pow2Add(k, N - k);
    assert Pow2(N) == A * B;
    ShiftedPart(x, A, B);
    WrappedPart(x, A, B);
  }

  lemma ShiftedPart(x: int, A: int, B: int)
    requires A > 0 && B > 0
    ensures (x * A) % (A * B) == (x % B) * A
  {
    ModMulFactor(x, A, B);
  }

  lemma WrappedPart(x: int, A: int, B: int)
    requires A > 0 && B > 0 && 0 <= x < A * B
    ensures 0 <= x / B < A
    ensures (x % B) * A + x / B < A * B
  {
    assert x < B * A;
    DivBelow(x, B, A);
    MulAtMost(x % B, B - 1, A);
    assert (B - 1) * A + A == A * B;
  }

  lemma RotlDigit(N: nat, x: int, k: nat, p: nat, r: int)
    requires 0 <= x < Pow2(N) && k <= N && p < N
    requires r == (x * Pow2(k)) % Pow2(N) + x / Pow2(N - k)
    ensures Bit(r, p) <==> if k <= p then Bit(x, p - k) else Bit(x, p + N - k)
  {
    RotlHalves(N, x, k);
    BitConcat(x % Pow2(N - k), x / Pow2(N - k), k, p);
    if p < k {
      BitOfDiv(x, N - k, p);
    } else {
      BitOfMod(x, N - k, p - k);
    }
  }

  /** Digit p of rotl(z1, z2) is digit p - (z2 mod N) of z1, counted cyclically. */
  lemma RotlBit(n: Width, x: int, y: int, p: nat)
    requires IsWord(n, x) && IsWord(n, y) && p < n.Size()
    ensures Bit(Rotl(n, x, y), p) <==>
      if y % n.Size() <= p then Bit(x, p - y % n.Size()) else Bit(x, p + n.Size() - y % n.Size())
  {
    var N, k := n.Size(), Amount(n, y);
    var r := Rotl(n, x, y);
    assert r == (x * Pow2(k)) % Pow2(N) + x / Pow2(N - k);
    RotlDigit(N, x, k, p, r);
  }

  lemma RotlEntry(N: nat, x: int, r: int, k: nat, i: nat)
    requires k <= N && i < N
    requires Bit(r, N - 1 - i) <==>
      if k <= N - 1 - i then Bit(x, N - 1 - i - k) else Bit(x, N - 1 - i + N - k)
    ensures BitsOf(N, r)[i] == IRotl(BitsOf(N, x), k)[i]
  {
    BitsOfEntry(N, r, i);
    if i < N - k {
      BitsOfEntry(N, x, i + k);
    } else {
      BitsOfEntry(N, x, i + k - N);
    }
  }

  lemma RotlSequence(N: nat, x: int, r: int, k: nat)
    requires k <= N
    requires forall p: nat :: p < N ==>
      (Bit(r, p) <==> if k <= p then Bit(x, p - k) else Bit(x, p + N - k))
    ensures BitsOf(N, r) == IRotl(BitsOf(N, x), k)
  {
    forall i | 0 <= i < N
      ensures BitsOf(N, r)[i] == IRotl(BitsOf(N, x), k)[i]
    {
      RotlEntry(N, x, r, k, i);
    }
  }

  /** rotl is irotl: the first z2 mod N digits move to the end. */
  lemma RotlIsIRotl(n: Width, x: int, y: int)
    requires IsWord(n, x) && IsWord(n, y)
    ensures ToBits(n, Rotl(n, x, y)) == IRotl(ToBits(n, x), Amount(n, y))
  {
    var N, k := n.Size(), Amount(n, y);
    forall p: nat | p < N
      ensures Bit(Rotl(n, x, y), p) <==> if k <= p then Bit(x, p - k) else Bit(x, p + N - k)
    {
      RotlBit(n, x, y, p);
    }
    RotlSequence(N, x, Rotl(n, x, y), k);
  }
}
