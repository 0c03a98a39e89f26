/**
 * The handlers of the binary numeric instructions covered here and their
 * dispatch by opcode byte. A handler pops z2, then z1, at its width,
 * computes op(z1, z2) and pushes the result; the bytes are those of the
 * WebAssembly 1.0 binary format (section 5.4.5, numeric instructions).
 */
module Dispatch {
  import opened Arith
  import opened Bits
  import opened Words
  import opened Integer
  import opened FloatBits
  import opened OperandStack
  import opened Wrappers

  datatype IntOp = ShlOp | ShrSOp | ShrUOp | RotlOp

  datatype Opcode = IntBinary(n: Width, op: IntOp) | CopysignOp(n: Width) {
    /** The width of both operands and of the result. */
    function W(): Width {
      match this
      case IntBinary(n, _) => n
      case CopysignOp(n) => n
    }
  }

  /** The opcode byte of each instruction. */
  function Code(c: Opcode): (b: nat)
    ensures b < 256
  {
    match c
    case IntBinary(W32, ShlOp) => 0x74
    case IntBinary(W32, ShrSOp) => 0x75
    case IntBinary(W32, ShrUOp) => 0x76
    case IntBinary(W32, RotlOp) => 0x77
    case IntBinary(W64, ShlOp) => 0x86
    case IntBinary(W64, ShrSOp) => 0x87
    case IntBinary(W64, ShrUOp) => 0x88
    case IntBinary(W64, RotlOp) => 0x89
    case CopysignOp(W32) => 0x98
    case CopysignOp(W64) => 0xA6
  }

  /** The table slot for byte b: the instruction installed there, if it is one covered here. */
  function Lookup(b: nat): (c: Option<Opcode>)
    ensures c.Some? ==> Code(c.value) == b
  {
    match b
    case 0x74 => Some(IntBinary(W32, ShlOp))
    case 0x75 => Some(IntBinary(W32, ShrSOp))
    case 0x76 => Some(IntBinary(W32, ShrUOp))
    case 0x77 => Some(IntBinary(W32, RotlOp))
    case 0x86 => Some(IntBinary(W64, ShlOp))
    case 0x87 => Some(IntBinary(W64, ShrSOp))
    case 0x88 => Some(IntBinary(W64, ShrUOp))
    case 0x89 => Some(IntBinary(W64, RotlOp))
    case 0x98 => Some(CopysignOp(W32))
    case 0xA6 => Some(CopysignOp(W64))
    case _ => None
  }

  /** Every covered instruction sits in the slot of its own byte. */
  lemma LookupCode(c: Opcode)
    ensures Lookup(Code(c)) == Some(c)
  {
  }

  /** The computation of a handler, on words of its width. */
  function Eval(c: Opcode, z1: int, z2: int): (r: int)
    requires IsWord(c.W(), z1) && IsWord(c.W(), z2)
    ensures IsWord(c.W(), r)
  {
    match c
    case IntBinary(n, ShlOp) => Shl(n, z1, z2)
    case IntBinary(n, ShrSOp) => ShrS(n, z1, z2)
    case IntBinary(n, ShrUOp) => ShrU(n, z1, z2)
    case IntBinary(n, RotlOp) => Rotl(n, z1, z2)
    case CopysignOp(n) => Copysign(n, z1, z2)
  }

  /** Runs the handler of c: pop z2, pop z1, push c(z1, z2). */
  function Execute(c: Opcode, s: Stack): (r: Result<Stack>)
    ensures r.Failure? <==> |s| < 2
    ensures r.Success? ==> |r.value| == |s| - 1 && r.value[..|s| - 2] == s[..|s| - 2]
    ensures WellFormed(s) && r.Success? ==> WellFormed(r.value)
  {
    var n := c.W();
    var (s1, z2) :- PopWord(n, s);
    var (s0, z1) :- PopWord(n, s1);
    Success(PushWord(n, s0, Eval(c, z1, z2)))
  }

  /** The result cell holds c applied to the lower cell as z1 and the upper cell as z2, each cut to the width. */
  lemma ExecuteTop(c: Opcode, s: Stack)
    requires |s| >= 2
    ensures IsWord(c.W(), Wrap(c.W(), s[|s| - 2])) && IsWord(c.W(), Wrap(c.W(), s[|s| - 1]))
    ensures Execute(c, s).value[|s| - 2] == Eval(c, Wrap(c.W(), s[|s| - 2]), Wrap(c.W(), s[|s| - 1]))
  {
  }

  /** The test protocol on words: push z1, push z2, run the handler, pop; the stack below is untouched. */
  lemma WordProtocol(c: Opcode, s: Stack, z1: int, z2: int)
    requires IsWord(c.W(), z1) && IsWord(c.W(), z2)
    ensures Execute(c, PushWord(c.W(), PushWord(c.W(), s, z1), z2)).Success?
    ensures PopWord(c.W(), Execute(c, PushWord(c.W(), PushWord(c.W(), s, z1), z2)).value)
      == Success((s, Eval(c, z1, z2)))
  {
    var n := c.W();
    var s1 := PushWord(n, s, z1);
    WordRoundTrip(n, s1, z2);
    WordRoundTrip(n, s, z1);
    WordRoundTrip(n, s, Eval(c, z1, z2));
  }

  /** The same protocol with signed operands and result, as pushInt32 / popInt32 see it. */
  lemma SignedProtocol(n: Width, op: IntOp, s: Stack, v1: int, v2: int)
    requires IsSigned(n, v1) && IsSigned(n, v2)
    ensures Execute(IntBinary(n, op), PushSigned(n, PushSigned(n, s, v1), v2)).Success?
    ensures PopSigned(n, Execute(IntBinary(n, op), PushSigned(n, PushSigned(n, s, v1), v2)).value)
      == Success((s, ToSigned(n, Eval(IntBinary(n, op), Wrap(n, v1), Wrap(n, v2)))))
  {
    WordProtocol(IntBinary(n, op), s, Wrap(n, v1), Wrap(n, v2));
  }
}
