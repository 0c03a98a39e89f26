/**
 * IEEE 754 binary32 and binary64 values as raw bit patterns (words of width
 * 32 and 64), and the copysign handler (f32.copysign, f64.copysign) on them.
 * A pattern is a sign digit, an exponent field and a fraction field; copysign
 * replaces the sign digit of z1 by that of z2 and keeps everything else, as
 * fcopysign in section 4.3.3 of the WebAssembly 1.0 core specification
 * prescribes, including for zeros, infinities and NaNs with any payload.
 */
module FloatBits {
  import opened Arith
  import opened Bits
  import opened Digits
  import opened Words
  import opened Reference

  /** Width of the exponent field: 8 for binary32, 11 for binary64. */
  function ExpDigits(n: Width): nat {
    match n
    case W32 => 8
    case W64 => 11
  }

  /** Width of the fraction field: 23 for binary32, 52 for binary64. */
  function FracDigits(n: Width): nat {
    match n
    case W32 => 23
    case W64 => 52
  }

  /** The exponent bias: 127 for binary32, 1023 for binary64. */
  function Bias(n: Width): nat {
    Pow2(ExpDigits(n) - 1) - 1
  }

  // ----- fields -----

  predicate Sign(n: Width, x: int) {
    Bit(x, n.Size() - 1)
  }

  /** Everything but the sign digit: the low N - 1 digits. */
  function Magnitude(n: Width, x: int): int {
    x % n.Half()
  }

  function Exponent(n: Width, x: int): int {
    Magnitude(n, x) / Pow2(FracDigits(n))
  }

  function Fraction(n: Width, x: int): int {
    Magnitude(n, x) % Pow2(FracDigits(n))
  }

  /** The pattern with the given sign, exponent field and fraction field. */
  function Pack(n: Width, sign: bool, e: int, f: int): int {
    (if sign then n.Half() else 0) + e * Pow2(FracDigits(n)) + f
  }

  predicate FieldsFit(n: Width, e: int, f: int) {
    0 <= e < Pow2(ExpDigits(n)) && 0 <= f < Pow2(FracDigits(n))
  }

  /** Unpacking a pattern into its three fields and packing them again gives the pattern back. */
  lemma PackFields(n: Width, x: int)
    requires IsWord(n, x)
    ensures FieldsFit(n, Exponent(n, x), Fraction(n, x))
    ensures Pack(n, Sign(n, x), Exponent(n, x), Fraction(n, x)) == x
  {
    var F, E := Pow2(FracDigits(n)), Pow2(ExpDigits(n));
    Pow2Add(FracDigits(n), ExpDigits(n));
    assert n.Half() == F * E;
    SignDigit(n.Size(), x);
    SplitBelowHalf(x, n.Half());
    SplitFields(Magnitude(n, x), F, E);
  }

  lemma SplitBelowHalf(x: int, H: int)
    requires H > 0 && 0 <= x < 2 * H
    ensures x == (if x >= H then H else 0) + x % H
  {
    if x >= H {
      DivModUnique(x, H, 1, x - H);
    } else {
      DivModUnique(x, H, 0, x);
    }
  }

  lemma SplitFields(m: int, F: int, E: int)
    requires F > 0 && E > 0 && 0 <= m < F * E
    ensures 0 <= m / F < E && 0 <= m % F < F
    ensures m == (m / F) * F + m % F
  {
    assert m < E * F;
    DivBelow(m, F, E);
  }

  /** Packing fields that fit and unpacking them again gives the fields back. */
  lemma FieldsOfPack(n: Width, sign: bool, e: int, f: int)
    requires FieldsFit(n, e, f)
    ensures IsWord(n, Pack(n, sign, e, f))
    ensures Sign(n, Pack(n, sign, e, f)) == sign
    ensures Exponent(n, Pack(n, sign, e, f)) == e
    ensures Fraction(n, Pack(n, sign, e, f)) == f
  {
    var F, E, H := Pow2(FracDigits(n)), Pow2(ExpDigits(n)), n.Half();
    Pow2Add(FracDigits(n), ExpDigits(n));
    assert H == F * E;
    var m := e * F + f;
    PackedMagnitude(e, f, F, E);
    var x := Pack(n, sign, e, f);
    DivModUnique(x, H, if sign then 1 else 0, m);
    DivModUnique(m, F, e, f);
    SignDigit(n.Size(), x);
  }

  lemma PackedMagnitude(e: int, f: int, F: int, E: int)
    requires 0 <= e < E && 0 <= f < F
    ensures 0 <= e * F + f < F * E
  {
    MulAtMost(e, E - 1, F);
    assert (E - 1) * F + F == F * E;
  }

  /** The exponent field is digits F .. N-2 and the fraction field digits 0 .. F-1. */
  lemma FieldDigits(n: Width, x: int, j: nat)
    requires IsWord(n, x)
    ensures j < ExpDigits(n) ==> (Bit(Exponent(n, x), j) <==> Bit(x, FracDigits(n) + j))
    ensures j < FracDigits(n) ==> (Bit(Fraction(n, x), j) <==> Bit(x, j))
  {
    var F := FracDigits(n);
    BitOfDiv(Magnitude(n, x), F, j);
    if F + j < n.Size() - 1 {
      BitOfMod(x, n.Size() - 1, F + j);
    }
    if j < F {
      Pow2Add(F, ExpDigits(n));
      BitOfMod(Magnitude(n, x), F, j);
      BitOfMod(x, n.Size() - 1, j);
    }
  }

  // ----- classification and value -----

  datatype Class = Zero | Subnormal | Normal | Infinite | NaN

  /** The class a pattern with exponent field e and fraction field f belongs to. */
  function FieldClass(n: Width, e: int, f: int): Class {
    if e == 0 then (if f == 0 then Zero else Subnormal)
    else if e == Pow2(ExpDigits(n)) - 1 then (if f == 0 then Infinite else NaN)
    else Normal
  }

  function ClassOf(n: Width, x: int): Class {
    FieldClass(n, Exponent(n, x), Fraction(n, x))
  }

  predicate IsFinite(n: Width, x: int) {
    ClassOf(n, x) in {Zero, Subnormal, Normal}
  }

  /** 2^e as a real, for any integer e. */
  function Pow2Real(e: int): real {
    if e >= 0 then Pow2(e) as real else 1.0 / (Pow2(-e) as real)
  }

  /** (1 + f/2^F) * 2^(e - bias), or f/2^F * 2^(1 - bias) when e is 0. */
  function FieldValue(n: Width, e: int, f: int): real {
    var frac := (f as real) / (Pow2(FracDigits(n)) as real);
    if e == 0 then frac * Pow2Real(1 - Bias(n))
    else (1.0 + frac) * Pow2Real(e - Bias(n))
  }

  /** The absolute value of a finite pattern. */
  function AbsValue(n: Width, x: int): real
    requires IsFinite(n, x)
  {
    FieldValue(n, Exponent(n, x), Fraction(n, x))
  }

  /** The real number a finite pattern stands for. */
  function Value(n: Width, x: int): real
    requires IsFinite(n, x)
  {
    if Sign(n, x) then -AbsValue(n, x) else AbsValue(n, x)
  }

  /** A pattern packed from a normal exponent field stands for (1 + f/2^F) * 2^(e - bias), signed. */
  lemma NormalValue(n: Width, sign: bool, e: int, f: int)
    requires FieldsFit(n, e, f)
    requires 0 < e < Pow2(ExpDigits(n)) - 1
    ensures ClassOf(n, Pack(n, sign, e, f)) == Normal
    ensures Value(n, Pack(n, sign, e, f)) == if sign then -FieldValue(n, e, f) else FieldValue(n, e, f)
  {
    FieldsOfPack(n, sign, e, f);
  }

  // ----- copysign -----

  /** fcopysign(z1, z2) on patterns: z1 with its sign digit cleared, or'ed with the sign digit of z2. */
  function Copysign(n: Width, m: int, s: int): (r: int)
    requires IsWord(n, m) && IsWord(n, s)
    ensures IsWord(n, r)
  {
    CopysignRange(n.Size(), m, s);
    m % n.Half() + (s / n.Half()) * n.Half()
  }

  lemma CopysignRange(N: nat, m: int, s: int)
    requires 0 < N && 0 <= s < Pow2(N)
    ensures 0 <= m % Pow2(N - 1) + (s / Pow2(N - 1)) * Pow2(N - 1) < Pow2(N)
  {
    var H := Pow2(N - 1);
    DivBelow(s, H, 2);
  }

  /** fneg on patterns: the sign digit flipped. */
  function Negate(n: Width, x: int): (r: int)
    requires IsWord(n, x)
    ensures IsWord(n, r)
  {
    if x >= n.Half() then x - n.Half() else x + n.Half()
  }

  lemma CopysignDigit(N: nat, m: int, s: int, p: nat)
    requires 0 < N && 0 <= s < Pow2(N) && p < N
    ensures Bit(m % Pow2(N - 1) + (s / Pow2(N - 1)) * Pow2(N - 1), p) <==>
      if p == N - 1 then Bit(s, N - 1) else Bit(m, p)
  {
    var H := Pow2(N - 1);
    assert m % H + (s / H) * H == (s / H) * H + m % H;
    BitConcat(s / H, m % H, N - 1, p);
    if p == N - 1 {
      BitOfDiv(s, N - 1, 0);
    } else {
      BitOfMod(m, N - 1, p);
    }
  }

  /** Every digit of copysign(z1, z2) is that of z1, except the sign digit, which is that of z2. */
  lemma CopysignBit(n: Width, m: int, s: int, p: nat)
    requires IsWord(n, m) && IsWord(n, s) && p < n.Size()
    ensures Bit(Copysign(n, m, s), p) <==> if p == n.Size() - 1 then Bit(s, p) else Bit(m, p)
  {
    var N := n.Size();
    var r := Copysign(n, m, s);
    assert r == m % Pow2(N - 1) + (s / Pow2(N - 1)) * Pow2(N - 1);
    CopysignDigit(N, m, s, p);
    assert Bit(r, p) <==> if p == N - 1 then Bit(s, N - 1) else Bit(m, p);
  }

  lemma CopysignEntry(N: nat, m: int, s: int, r: int, i: nat)
    requires 0 < N && i < N
    requires Bit(r, N - 1 - i) <==> if N - 1 - i == N - 1 then Bit(s, N - 1) else Bit(m, N - 1 - i)
    ensures BitsOf(N, r)[i] == ICopysign(BitsOf(N, m), BitsOf(N, s))[i]
  {
    BitsOfEntry(N, r, i);
    if i == 0 {
      BitsOfEntry(N, s, 0);
    } else {
      BitsOfEntry(N, m, i);
    }
  }

  lemma CopysignSequence(N: nat, m: int, s: int, r: int)
    requires 0 < N
    requires forall p: nat :: p < N ==> (Bit(r, p) <==> if p == N - 1 then Bit(s, N - 1) else Bit(m, p))
    ensures BitsOf(N, r) == ICopysign(BitsOf(N, m), BitsOf(N, s))
  {
    forall i | 0 <= i < N
      ensures BitsOf(N, r)[i] == ICopysign(BitsOf(N, m), BitsOf(N, s))[i]
    {
      CopysignEntry(N, m, s, r, i);
    }
  }

  /** On digit sequences: the sign digit of z2 followed by all other digits of z1. */
  lemma CopysignIsICopysign(n: Width, m: int, s: int)
    requires IsWord(n, m) && IsWord(n, s)
    ensures ToBits(n, Copysign(n, m, s)) == ICopysign(ToBits(n, m), ToBits(n, s))
  {
    var N := n.Size();
    forall p: nat | p < N
      ensures Bit(Copysign(n, m, s), p) <==> if p == N - 1 then Bit(s, N - 1) else Bit(m, p)
    {
      CopysignBit(n, m, s, p);
    }
    CopysignSequence(N, m, s, Copysign(n, m, s));
  }

  /** copysign keeps the magnitude of z1 and takes the sign of z2. */
  lemma CopysignFields(n: Width, m: int, s: int)
    requires IsWord(n, m) && IsWord(n, s)
    ensures Sign(n, Copysign(n, m, s)) == Sign(n, s)
    ensures Magnitude(n, Copysign(n, m, s)) == Magnitude(n, m)
    ensures Exponent(n, Copysign(n, m, s)) == Exponent(n, m)
    ensures Fraction(n, Copysign(n, m, s)) == Fraction(n, m)
    ensures ClassOf(n, Copysign(n, m, s)) == ClassOf(n, m)
  {
    var H := n.Half();
    CopysignBit(n, m, s, n.Size() - 1);
    DivModUnique(Copysign(n, m, s), H, s / H, m % H);
  }

  /**
   * The definition of fcopysign on values: z1 when z1 and z2 have the same
   * sign, and z1 negated otherwise.
   */
  lemma CopysignIsConditionalNegate(n: Width, m: int, s: int)
    requires IsWord(n, m) && IsWord(n, s)
    ensures Copysign(n, m, s) == if Sign(n, m) == Sign(n, s) then m else Negate(n, m)
  {
    var H := n.Half();
    SignDigit(n.Size(), m);
    SignDigit(n.Size(), s);
    SplitBelowHalf(m, H);
    DivBelow(s, H, 2);
    if s >= H {
      DivModUnique(s, H, 1, s - H);
    } else {
      DivModUnique(s, H, 0, s);
    }
  }

  /** For finite z1 the result is the number |z1| with the sign of z2. */
  lemma CopysignValue(n: Width, m: int, s: int)
    requires IsWord(n, m) && IsWord(n, s) && IsFinite(n, m)
    ensures IsFinite(n, Copysign(n, m, s))
    ensures Value(n, Copysign(n, m, s)) == if Sign(n, s) then -AbsValue(n, m) else AbsValue(n, m)
  {
    CopysignFields(n, m, s);
  }

  /** Copying a sign twice is copying the second one; copying a pattern's own sign changes nothing. */
  lemma CopysignLastWins(n: Width, m: int, s1: int, s2: int)
    requires IsWord(n, m) && IsWord(n, s1) && IsWord(n, s2)
    ensures Copysign(n, Copysign(n, m, s1), s2) == Copysign(n, m, s2)
    ensures Copysign(n, m, m) == m
  {
    CopysignFields(n, m, s1);
    CopysignIsConditionalNegate(n, m, m);
  }
}
