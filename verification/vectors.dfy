/**
 * The concrete cases of exec/num_test.go, each run through the whole
 * protocol: push z1, push z2, call the handler in the opcode's table slot,
 * pop the result. Float operands are given as their IEEE 754 bit patterns,
 * and the patterns are shown to denote the decimal values the tests use.
 */
module TestVectors {
  import opened Arith
  import opened Bits
  import opened Words
  import opened Integer
  import opened ShiftLaws
  import opened FloatBits
  import opened OperandStack
  import opened Dispatch
  import opened Wrappers

  /** One integer case: on an empty stack, push v1 and v2 signed, run the slot of byte b, pop signed. */
  function RunSigned(b: nat, v1: int, v2: int): (r: Option<Result<int>>)
    ensures r.Some? <==>
      (Lookup(b).Some? && Lookup(b).value.IntBinary? &&
       IsSigned(Lookup(b).value.n, v1) && IsSigned(Lookup(b).value.n, v2))
    ensures r.Some? ==>
      var c := Lookup(b).value;
      r.value == Success(ToSigned(c.n, Eval(c, Wrap(c.n, v1), Wrap(c.n, v2))))
  {
    match Lookup(b)
    case Some(IntBinary(n, op)) =>
      if IsSigned(n, v1) && IsSigned(n, v2) then
        SignedProtocol(n, op, [], v1, v2);
        Some(Pop2Signed(n, Execute(IntBinary(n, op), PushSigned(n, PushSigned(n, [], v1), v2))))
      else
        None
    case _ => None
  }

  function Pop2Signed(n: Width, t: Result<Stack>): Result<int> {
    var s :- t;
    var (_, v) :- PopSigned(n, s);
    Success(v)
  }

  /** One float case: the same protocol with words (bit patterns) pushed and popped. */
  function RunWord(b: nat, z1: int, z2: int): (r: Option<Result<int>>)
    ensures r.Some? <==> Lookup(b).Some? && IsWord(Lookup(b).value.W(), z1) && IsWord(Lookup(b).value.W(), z2)
    ensures r.Some? ==> r.value == Success(Eval(Lookup(b).value, z1, z2))
  {
    match Lookup(b)
    case Some(c) =>
      if IsWord(c.W(), z1) && IsWord(c.W(), z2) then
        WordProtocol(c, [], z1, z2);
        var t := Execute(c, PushWord(c.W(), PushWord(c.W(), [], z1), z2));
        var (_, r) := PopWord(c.W(), t.value).value;
        Some(Success(r))
      else
        None
    case None => None
  }

  /** Wrapping -1 gives the all-ones word, and wrapping a word gives it back. */
  lemma WrapCases(n: Width, v: int)
    ensures v == -1 ==> Wrap(n, v) == AllOnes(n)
    ensures IsWord(n, v) ==> Wrap(n, v) == v
  {
    AllOnesIsMinusOne(n);
    WrapWord(n, v);
  }

  // ----- one lemma per kind of case, for any width and any signed operands -----

  /** shl(-1, y) pops as -2^k for every signed amount y, where k is y mod N. */
  lemma ShlCase(b: nat, n: Width, y: int, k: nat, want: int)
    requires Lookup(b) == Some(IntBinary(n, ShlOp))
    requires IsSigned(n, y)
    requires k == y % n.Size()
    requires want == -(Pow2(k) as int)
    ensures RunSigned(b, -1, y) == Some(Success(want))
  {
    var w := Wrap(n, y);
    IntRun(b, n, -1, y);
    assert w % n.Size() == k;
    var r := Shl(n, AllOnes(n), w);
    assert Eval(IntBinary(n, ShlOp), AllOnes(n), w) == r;
    ShlAllOnes(n, w);
    assert ToSigned(n, r) == want;
  }

  /** shr_s(-1, y) pops as -1 for every signed amount y. */
  lemma ShrSCase(b: nat, n: Width, y: int)
    requires Lookup(b) == Some(IntBinary(n, ShrSOp))
    requires IsSigned(n, y)
    ensures RunSigned(b, -1, y) == Some(Success(-1))
  {
    IntRun(b, n, -1, y);
    ShrSAllOnes(n, Wrap(n, y));
  }

  /** shr_u(-1, y) pops as 2^j - 1 for every signed amount y with k = y mod N nonzero, where j is N - k. */
  lemma ShrUCase(b: nat, n: Width, y: int, j: nat, want: int)
    requires Lookup(b) == Some(IntBinary(n, ShrUOp))
    requires IsSigned(n, y)
    requires y % n.Size() != 0
    requires j == n.Size() - y % n.Size()
    requires want == Pow2(j) - 1
    ensures RunSigned(b, -1, y) == Some(Success(want))
  {
    IntRun(b, n, -1, y);
    ShrUAllOnesSigned(n, Wrap(n, y), j);
  }

  lemma ShrUAllOnesSigned(n: Width, y: int, j: nat)
    requires IsWord(n, y)
    requires y % n.Size() != 0
    requires j == n.Size() - y % n.Size()
    ensures ToSigned(n, ShrU(n, AllOnes(n), y)) == Pow2(j) - 1
  {
    ShrUAllOnes(n, y);
    Pow2Monotone(j, n.Size() - 1);
  }

  /**
   * rotl(x, y) pops as the signed reading of w, for all signed x and y: w is
   * the word of x with its digits moved up by k = y mod N and its k top
   * digits moved to the bottom. The rotated word w is passed in, with its
   * formula as a requirement, so that a concrete case is settled by
   * arithmetic on the given literals instead of by unfolding 2^k and the
   * 64-bit products inside Rotl.
   */
  lemma RotlCase(b: nat, n: Width, x: int, y: int, k: nat, w: int)
    requires Lookup(b) == Some(IntBinary(n, RotlOp))
    requires IsSigned(n, x)
    requires IsSigned(n, y)
    requires k == y % n.Size()
    requires w == RotlWithin(Wrap(n, x), Pow2(k), Pow2(n.Size() - k), n.Modulus())
    ensures IsWord(n, w)
    ensures RunSigned(b, x, y) == Some(Success(ToSigned(n, w)))
  {
    var xw, yw := Wrap(n, x), Wrap(n, y);
    IntRun(b, n, x, y);
    assert Eval(IntBinary(n, RotlOp), xw, yw) == Rotl(n, xw, yw);
    assert Rotl(n, xw, yw) == w;
  }

  /** Rotation of x by k digits in a word of modulus M, where A is 2^k and B is 2^(N-k). */
  function RotlWithin(x: int, A: int, B: int, M: int): int
    requires B > 0
    requires M > 0
  {
    (x * A) % M + x / B
  }

  /**
   * Running an integer slot evaluates its handler on the words of the two
   * signed operands; the count it uses is the second operand mod N, whatever
   * its sign.
   */
  lemma IntRun(b: nat, n: Width, v1: int, v2: int)
    requires Lookup(b).Some? && Lookup(b).value.IntBinary? && Lookup(b).value.n == n
    requires IsSigned(n, v1)
    requires IsSigned(n, v2)
    ensures v1 == -1 ==> Wrap(n, v1) == AllOnes(n)
    ensures Amount(n, Wrap(n, v2)) == v2 % n.Size()
    ensures RunSigned(b, v1, v2) == Some(Success(ToSigned(n, Eval(Lookup(b).value, Wrap(n, v1), Wrap(n, v2)))))
  {
    WrapCases(n, v1);
    WrapAmount(n, v2);
  }

  /**
   * copysign(m, s) pops as m with its sign digit replaced by that of s. As
   * for RotlCase, the expected pattern is passed in with its formula as a
   * requirement, so that a concrete case needs only arithmetic on literals.
   */
  lemma CopysignCase(b: nat, n: Width, m: int, s: int, h: int, want: int)
    requires Lookup(b) == Some(CopysignOp(n))
    requires IsWord(n, m)
    requires IsWord(n, s)
    requires h == n.Half()
    requires want == m % h + (if s >= h then h else 0)
    ensures RunWord(b, m, s) == Some(Success(want))
  {
    CopysignRun(b, n, m, s);
    CopysignWith(n, m, s, h, want);
  }

  lemma CopysignRun(b: nat, n: Width, m: int, s: int)
    requires Lookup(b) == Some(CopysignOp(n)) && IsWord(n, m) && IsWord(n, s)
    ensures RunWord(b, m, s) == Some(Success(Copysign(n, m, s)))
  {
    var c := CopysignOp(n);
    assert c.W() == n;
    assert Eval(c, m, s) == Copysign(n, m, s);
  }

  lemma CopysignWith(n: Width, m: int, s: int, h: int, want: int)
    requires IsWord(n, m) && IsWord(n, s) && h == n.Half()
    requires want == m % h + (if s >= h then h else 0)
    ensures Copysign(n, m, s) == want
  {
    ModulusSplit(n, 0);
    var q := if s >= h then 1 else 0;
    SignQuotient(s, h, q);
    assert Copysign(n, m, s) == m % h + q * h;
  }

  lemma SignQuotient(s: int, h: int, q: int)
    requires 0 <= s < 2 * h && q == (if s >= h then 1 else 0)
    ensures s / h == q && q * h == (if s >= h then h else 0)
  {
    DivModUnique(s, h, q, s - q * h);
  }

  // ----- the float operands -----

  /** The binary32 patterns of the float cases denote 3.0, 2.0, -2.0 and -3.0. */
  lemma F32Patterns()
    ensures IsFinite(W32, 0x40400000) && Value(W32, 0x40400000) == 3.0
    ensures IsFinite(W32, 0x40000000) && Value(W32, 0x40000000) == 2.0
    ensures IsFinite(W32, 0xC0000000) && Value(W32, 0xC0000000) == -2.0
    ensures IsFinite(W32, 0xC0400000) && Value(W32, 0xC0400000) == -3.0
  {
    WidthConstants(W32);
    Pow2Constants();
    assert Pow2(23) == 0x80_0000 by { Pow2Add(1, 23); }
    assert Bias(W32) == 127;
    assert Pow2Real(1) == 2.0;
    assert FieldValue(W32, 128, 0x40_0000) == 3.0;
    assert FieldValue(W32, 128, 0) == 2.0;
    assert Pack(W32, false, 128, 0x40_0000) == 0x40400000;
    assert Pack(W32, false, 128, 0) == 0x40000000;
    assert Pack(W32, true, 128, 0) == 0xC0000000;
    assert Pack(W32, true, 128, 0x40_0000) == 0xC0400000;
    NormalValue(W32, false, 128, 0x40_0000);
    NormalValue(W32, false, 128, 0);
    NormalValue(W32, true, 128, 0);
    NormalValue(W32, true, 128, 0x40_0000);
  }

  /** The binary64 patterns of the float cases denote 3.0, 2.0, -2.0 and -3.0. */
  lemma F64Patterns()
    ensures IsFinite(W64, 0x4008000000000000) && Value(W64, 0x4008000000000000) == 3.0
    ensures IsFinite(W64, 0x4000000000000000) && Value(W64, 0x4000000000000000) == 2.0
    ensures IsFinite(W64, 0xC000000000000000) && Value(W64, 0xC000000000000000) == -2.0
    ensures IsFinite(W64, 0xC008000000000000) && Value(W64, 0xC008000000000000) == -3.0
  {
    WidthConstants(W64);
    Pow2Constants();
    assert Pow2(52) == 0x10_0000_0000_0000 by { Pow2Add(52, 4); }
    assert Pow2(11) == 2048;
    assert Bias(W64) == 1023;
    assert Pow2Real(1) == 2.0;
    assert FieldValue(W64, 1024, 0x8_0000_0000_0000) == 3.0;
    assert FieldValue(W64, 1024, 0) == 2.0;
    assert Pack(W64, false, 1024, 0x8_0000_0000_0000) == 0x4008000000000000;
    assert Pack(W64, false, 1024, 0) == 0x4000000000000000;
    assert Pack(W64, true, 1024, 0) == 0xC000000000000000;
    assert Pack(W64, true, 1024, 0x8_0000_0000_0000) == 0xC008000000000000;
    NormalValue(W64, false, 1024, 0x8_0000_0000_0000);
    NormalValue(W64, false, 1024, 0);
    NormalValue(W64, true, 1024, 0);
    NormalValue(W64, true, 1024, 0x8_0000_0000_0000);
  }

  // ----- the cases -----

  /** exec/num_test.go lines 21-22: i32.shl(-1, 8) and i32.shl(-1, 200) are -256. */
  lemma I32ShlCases()
    ensures RunSigned(0x74, -1, 8) == Some(Success(-256))
    ensures RunSigned(0x74, -1, 200) == Some(Success(-256))
  {
    WidthConstants(W32);
    Pow2Constants();
    ShlCase(0x74, W32, 8, 8, -256);
    ShlCase(0x74, W32, 200, 8, -256);
  }

  /** exec/num_test.go lines 23-24: i32.shr_s(-1, 8) and i32.shr_s(-1, 200) are -1. */
  lemma I32ShrSCases()
    ensures RunSigned(0x75, -1, 8) == Some(Success(-1))
    ensures RunSigned(0x75, -1, 200) == Some(Success(-1))
  {
    WidthConstants(W32);
    ShrSCase(0x75, W32, 8);
    ShrSCase(0x75, W32, 200);
  }

  /** exec/num_test.go lines 25-26: i32.shr_u(-1, 8) and i32.shr_u(-1, 200) are 0xFFFFFF. */
  lemma I32ShrUCases()
    ensures RunSigned(0x76, -1, 8) == Some(Success(0xFFFFFF))
    ensures RunSigned(0x76, -1, 200) == Some(Success(0xFFFFFF))
  {
    WidthConstants(W32);
    Pow2Constants();
    ShrUCase(0x76, W32, 8, 24, 0xFFFFFF);
    ShrUCase(0x76, W32, 200, 24, 0xFFFFFF);
  }

  /** exec/num_test.go lines 27-28: i32.rotl(0x12345678, 8) and by 200 are 0x34567812. */
  lemma I32RotlCases()
    ensures RunSigned(0x77, 0x12345678, 8) == Some(Success(0x34567812))
    ensures RunSigned(0x77, 0x12345678, 200) == Some(Success(0x34567812))
  {
    WidthConstants(W32);
    Pow2Constants();
    WrapCases(W32, 0x12345678);
    RotlCase(0x77, W32, 0x12345678, 8, 8, 0x34567812);
    RotlCase(0x77, W32, 0x12345678, 200, 8, 0x34567812);
  }

  /** exec/num_test.go lines 54-55: i64.shl(-1, 8) and i64.shl(-1, 200) are -256. */
  lemma I64ShlCases()
    ensures RunSigned(0x86, -1, 8) == Some(Success(-256))
    ensures RunSigned(0x86, -1, 200) == Some(Success(-256))
  {
    WidthConstants(W64);
    Pow2Constants();
    ShlCase(0x86, W64, 8, 8, -256);
    ShlCase(0x86, W64, 200, 8, -256);
  }

  /** exec/num_test.go lines 56-57: i64.shr_s(-1, 8) and i64.shr_s(-1, 200) are -1. */
  lemma I64ShrSCases()
    ensures RunSigned(0x87, -1, 8) == Some(Success(-1))
    ensures RunSigned(0x87, -1, 200) == Some(Success(-1))
  {
    WidthConstants(W64);
    ShrSCase(0x87, W64, 8);
    ShrSCase(0x87, W64, 200);
  }

  /** exec/num_test.go lines 58-59: i64.shr_u(-1, 8) and i64.shr_u(-1, 200) are 0xFFFFFFFFFFFFFF. */
  lemma I64ShrUCases()
    ensures RunSigned(0x88, -1, 8) == Some(Success(0xFFFFFFFFFFFFFF))
    ensures RunSigned(0x88, -1, 200) == Some(Success(0xFFFFFFFFFFFFFF))
  {
    WidthConstants(W64);
    Pow2Constants();
    ShrUCase(0x88, W64, 8, 56, 0xFFFFFFFFFFFFFF);
    ShrUCase(0x88, W64, 200, 56, 0xFFFFFFFFFFFFFF);
  }

  /** exec/num_test.go lines 60-61: i64.rotl(0x1234567812345678, 8) and by 200 are 0x3456781234567812. */
  lemma I64RotlCases()
    ensures RunSigned(0x89, 0x1234567812345678, 8) == Some(Success(0x3456781234567812))
    ensures RunSigned(0x89, 0x1234567812345678, 200) == Some(Success(0x3456781234567812))
  {
    WidthConstants(W64);
    Pow2Constants();
    WrapCases(W64, 0x1234567812345678);
    RotlCase(0x89, W64, 0x1234567812345678, 8, 8, 0x3456781234567812);
    RotlCase(0x89, W64, 0x1234567812345678, 200, 8, 0x3456781234567812);
  }

  /** exec/num_test.go lines 88-89: f32.copysign(3.0, 2.0) is 3.0 and f32.copysign(3.0, -2.0) is -3.0. */
  lemma F32Cases()
    ensures RunWord(0x98, 0x40400000, 0x40000000) == Some(Success(0x40400000))
    ensures RunWord(0x98, 0x40400000, 0xC0000000) == Some(Success(0xC0400000))
  {
    WidthConstants(W32);
    CopysignCase(0x98, W32, 0x40400000, 0x40000000, 0x8000_0000, 0x40400000);
    CopysignCase(0x98, W32, 0x40400000, 0xC0000000, 0x8000_0000, 0xC0400000);
  }

  /** exec/num_test.go lines 116-117: the same cases for f64. */
  lemma F64Cases()
    ensures RunWord(0xA6, 0x4008000000000000, 0x4000000000000000) == Some(Success(0x4008000000000000))
    ensures RunWord(0xA6, 0x4008000000000000, 0xC000000000000000) == Some(Success(0xC008000000000000))
  {
    WidthConstants(W64);
    CopysignCase(0xA6, W64, 0x4008000000000000, 0x4000000000000000, 0x8000_0000_0000_0000, 0x4008000000000000);
    CopysignCase(0xA6, W64, 0x4008000000000000, 0xC000000000000000, 0x8000_0000_0000_0000, 0xC008000000000000);
  }

  // ----- operands outside the listed cases -----

  /**
   * The operand fields are whole int32 values: a negative amount counts
   * mod 32, and a rotation can carry a digit into the sign position.
   */
  lemma I32SignedOperandCases()
    ensures RunSigned(0x74, -1, -24) == Some(Success(-256))
    ensures RunSigned(0x77, 0x80, 24) == Some(Success(-0x8000_0000))
  {
    WidthConstants(W32);
    Pow2Constants();
    ShlCase(0x74, W32, -24, 8, -256);
    WrapCases(W32, 0x80);
    RotlCase(0x77, W32, 0x80, 24, 24, 0x8000_0000);
  }

  /** The same for int64: a negative amount counts mod 64. */
  lemma I64SignedOperandCases()
    ensures RunSigned(0x86, -1, -56) == Some(Success(-256))
    ensures RunSigned(0x88, -1, -8) == Some(Success(0xFF))
  {
    WidthConstants(W64);
    Pow2Constants();
    ShlCase(0x86, W64, -56, 8, -256);
    ShrUCase(0x88, W64, -8, 8, 0xFF);
  }
}
