/**
 * Fixed-width words. A word of width N is an integer in [0, 2^N); this is how
 * the interpreter's uint32 and uint64 values, and the raw bits of float32 and
 * float64 values, are represented here. The signed reading (signed_N) and the
 * digit sequence (bits_N) of section 4.3.1 of the WebAssembly 1.0 core
 * specification are views of the same integer.
 */
module Words {
  import opened Arith
  import opened Bits
  import opened Digits

  /** The two integer widths of WebAssembly 1.0. */
  datatype Width = W32 | W64 {
    function Size(): nat {
      match this
      case W32 => 32
      case W64 => 64
    }

    function Modulus(): nat {
      Pow2(Size())
    }

    /** 2^(N-1): the weight of the sign bit. */
    function Half(): nat {
      Pow2(Size() - 1)
    }
  }

  /** The moduli written out: 2^32 and 2^31 for W32, 2^64 and 2^63 for W64. */
  lemma WidthConstants(n: Width)
    ensures n.Modulus() == if n == W32 then 0x1_0000_0000 else 0x1_0000_0000_0000_0000
    ensures n.Half() == if n == W32 then 0x8000_0000 else 0x8000_0000_0000_0000
  {
    Pow2Constants();
  }

  /** 2^N is 2^k times 2^(N-k), and twice 2^(N-1). */
  lemma ModulusSplit(n: Width, k: nat)
    requires k <= n.Size()
    ensures n.Modulus() == Pow2(k) * Pow2(n.Size() - k)
    ensures n.Modulus() == 2 * n.Half()
  {
    Pow2Add(k, n.Size() - k);
    Pow2Add(1, n.Size() - 1);
  }

  predicate IsWord(n: Width, x: int) {
    0 <= x < n.Modulus()
  }

  predicate IsSigned(n: Width, v: int) {
    -(n.Half() as int) <= v < n.Half()
  }

  /** The width in bits is itself a word (a shift count of N is a legal operand). */
  lemma SizeIsWord(n: Width)
    ensures IsWord(n, n.Size())
  {
    Pow2Monotone(7, n.Size());
    assert Pow2(7) == 128;
  }

  /** Go's uint32(v) / uint64(v): reduction of any integer to a word. */
  function Wrap(n: Width, v: int): (x: int)
    ensures IsWord(n, x)
  {
    v % n.Modulus()
  }

  /** Wrapping keeps the N low digits. */
  lemma WrapBit(n: Width, v: int, p: nat)
    requires p < n.Size()
    ensures Bit(Wrap(n, v), p) <==> Bit(v, p)
  {
    BitOfMod(v, n.Size(), p);
  }

  lemma WrapDigits(n: Width, v: int)
    ensures forall p: nat :: p < n.Size() ==> (Bit(Wrap(n, v), p) <==> Bit(v, p))
  {
    forall p: nat | p < n.Size()
      ensures Bit(Wrap(n, v), p) <==> Bit(v, p)
    {
      WrapBit(n, v, p);
    }
  }

  /** Wrapping leaves a word unchanged and is the identity modulo 2^N. */
  lemma WrapWord(n: Width, v: int)
    ensures IsWord(n, v) ==> Wrap(n, v) == v
    ensures Wrap(n, Wrap(n, v)) == Wrap(n, v)
  {
    var M := n.Modulus();
    DivModUnique(v % M, M, 0, v % M);
    if IsWord(n, v) {
      DivModUnique(v, M, 0, v);
    }
  }

  /** Go's int32(x) / int64(x): the two's-complement reading of a word. */
  function ToSigned(n: Width, x: int): (v: int)
    requires IsWord(n, x)
    ensures IsSigned(n, v)
    ensures v < 0 <==> Bit(x, n.Size() - 1)
    ensures Wrap(n, v) == x
  {
    SignDigit(n.Size(), x);
    SignedReading(n.Size(), x);
    if x < n.Half() then x else x - n.Modulus()
  }

  /** Digit N-1 of a number in [0, 2^N) is set exactly when it is at least 2^(N-1). */
  lemma SignDigit(N: nat, x: int)
    requires 0 < N && 0 <= x < Pow2(N)
    ensures Bit(x, N - 1) <==> x >= Pow2(N - 1)
  {
    BitIsDivision(x, N - 1);
    if x >= Pow2(N - 1) {
      DivModUnique(x, Pow2(N - 1), 1, x - Pow2(N - 1));
    } else {
      DivModUnique(x, Pow2(N - 1), 0, x);
    }
  }

  lemma SignedReading(N: nat, x: int)
    requires 0 < N && 0 <= x < Pow2(N)
    ensures x < Pow2(N - 1) ==> x % Pow2(N) == x
    ensures x >= Pow2(N - 1) ==> (x - Pow2(N)) % Pow2(N) == x
  {
    DivModUnique(x, Pow2(N), 0, x);
    DivModUnique(x - Pow2(N), Pow2(N), -1, x);
  }

  /** Wrapping a value of the signed range and reading it back as signed gives the value back. */
  lemma SignedRoundTrip(n: Width, v: int)
    requires IsSigned(n, v)
    ensures ToSigned(n, Wrap(n, v)) == v
  {
    SignedWrap(n.Size(), v);
  }

  lemma SignedWrap(N: nat, v: int)
    requires 0 < N && -(Pow2(N - 1) as int) <= v < Pow2(N - 1)
    ensures v < 0 ==> v % Pow2(N) == v + Pow2(N) && v + Pow2(N) >= Pow2(N - 1)
    ensures v >= 0 ==> v % Pow2(N) == v
  {
    assert Pow2(N) == 2 * Pow2(N - 1);
    if v < 0 {
      DivModUnique(v, Pow2(N), -1, v + Pow2(N));
    } else {
      DivModUnique(v, Pow2(N), 0, v);
    }
  }

  /** bits_N of a word. */
  function ToBits(n: Width, x: int): (d: seq<bool>)
    ensures |d| == n.Size()
  {
    BitsOf(n.Size(), x)
  }

  /** A word is determined by its digit sequence, and every digit sequence of length N is one word's. */
  lemma ToBitsRoundTrip(n: Width, x: int, d: seq<bool>)
    requires IsWord(n, x) && |d| == n.Size()
    ensures ToBits(n, x) == d <==> x == FromBits(d)
  {
    FromBitsBitsOf(n.Size(), x);
    DivModUnique(x, n.Modulus(), 0, x);
    BitsOfFromBits(d);
  }
}
