# Shift, rotate and copysign handlers of the wagon interpreter, in Dafny

This project models the numeric handlers that `exec/num_test.go` of wagon (a
WebAssembly interpreter in Go) exercises:

- the integer instructions `shl`, `shr_s`, `shr_u` and `rotl` at widths 32 and 64;
- `copysign` on IEEE 754 binary32 and binary64 values;
- the operand-stack protocol the tests drive: push `z1`, push `z2`, call the
  handler in the opcode's table slot (it pops `z2`, then `z1`, and pushes one
  result), then pop the result.

The semantics follow the WebAssembly Core Specification 1.0:

- `ishl`, `ishr_s`, `ishr_u` and `irotl` in section 4.3.2;
- `fcopysign` in section 4.3.3;
- the opcode bytes in section 5.4.5.

Only the test file is part of this model. The interpreter's `VM`,
`newFuncTable`, the handler bodies and the `push*`/`pop*` helpers are not.
Their behaviour is pinned by the test vectors and the sections above.

How the model represents things:

- **Words.** A word of width N (`Words.Width` is `W32` or `W64`) is an
  integer in [0, 2^N).
  - `Words.Wrap` is Go's `uint32(v)`/`uint64(v)`.
  - `Words.ToSigned` is `int32(x)`/`int64(x)`.
  - `Bits.Bit(x, p)` is digit p of x. It is defined for negative x as well,
    in two's complement.
- **Handlers.** The four integer handlers are arithmetic on words (module
  `Integer`). Each one is proved equal to the specification's definition on
  digit sequences (module `Reference`).
- **Floats** are their bit patterns (module `FloatBits`), with sign,
  exponent and fraction fields, a classification and the real value of a
  finite pattern.
- **The stack** (module `OperandStack`) is a sequence of 64-bit cells.
  Popping an empty stack gives `Failure(StackUnderflow)`.
- **Dispatch.** `Dispatch.Lookup` maps a byte to the covered instruction in
  that slot. `Dispatch.Execute` runs a handler on a stack.
- **Test cases.** Module `TestVectors` states every copysign, shift and
  rotate case of the test file as a lemma about the sequence push, push,
  execute, pop.

## Model

| member | source | states |
|---|---|---|
| TestVectors.I32ShlCases | exec/num_test.go:21-22 | i32.shl(-1, 8) and i32.shl(-1, 200), run through push/push/dispatch/pop at byte 0x74, pop as -256 |
| TestVectors.I32ShrSCases | exec/num_test.go:23-24 | i32.shr_s(-1, 8) and (-1, 200) at byte 0x75 pop as -1 |
| TestVectors.I32ShrUCases | exec/num_test.go:25-26 | i32.shr_u(-1, 8) and (-1, 200) at byte 0x76 pop as 0xFFFFFF |
| TestVectors.I32RotlCases | exec/num_test.go:27-28 | i32.rotl(0x12345678, 8) and (…, 200) at byte 0x77 pop as 0x34567812 |
| TestVectors.I64ShlCases | exec/num_test.go:54-55 | i64.shl(-1, 8) and (-1, 200) at byte 0x86 pop as -256 |
| TestVectors.I64ShrSCases | exec/num_test.go:56-57 | i64.shr_s(-1, 8) and (-1, 200) at byte 0x87 pop as -1 |
| TestVectors.I64ShrUCases | exec/num_test.go:58-59 | i64.shr_u(-1, 8) and (-1, 200) at byte 0x88 pop as 0xFFFFFFFFFFFFFF |
| TestVectors.I64RotlCases | exec/num_test.go:60-61 | i64.rotl(0x1234567812345678, 8) and (…, 200) at byte 0x89 pop as 0x3456781234567812 |
| TestVectors.F32Cases | exec/num_test.go:88-89 | f32.copysign at byte 0x98: 0x40400000 with 0x40000000 pops as 0x40400000, and with 0xC0000000 pops as 0xC0400000 |
| TestVectors.F64Cases | exec/num_test.go:116-117 | f64.copysign at byte 0xA6: the same cases on the binary64 patterns |
| TestVectors.F32Patterns | exec/num_test.go:83-89 | the binary32 patterns used are finite and denote 3.0, 2.0, -2.0 and -3.0 |
| TestVectors.F64Patterns | exec/num_test.go:111-117 | the binary64 patterns used are finite and denote 3.0, 2.0, -2.0 and -3.0 |
| TestVectors.RunSigned | exec/num_test.go:35-42 | one integer case: succeeds exactly when the byte's slot holds an integer instruction and both operands are in the signed range, and then yields op(z1, z2) on the wrapped operands, read back as signed |
| TestVectors.RunWord | exec/num_test.go:96-103 | one float case on bit patterns: succeeds exactly when the slot is covered and both operands are words, and then yields op(z1, z2) |
| TestVectors.ShlCase | exec/num_test.go:21-22 | for either width and every signed amount y, negative ones included, shl(-1, y) run through the protocol pops as -2^(y mod N) |
| TestVectors.ShrSCase | exec/num_test.go:23-24 | for either width and every signed amount y, shr_s(-1, y) pops as -1 |
| TestVectors.ShrUCase | exec/num_test.go:25-26 | for either width and every signed amount y with y mod N ≠ 0, shr_u(-1, y) pops as 2^(N - y mod N) - 1 |
| TestVectors.RotlCase | exec/num_test.go:27-28 | for either width and all signed x and y, rotl(x, y) pops as the signed reading of x's word with its digits moved up by y mod N and its y mod N top digits moved to the bottom |
| TestVectors.IntRun | exec/num_test.go:35-42 | running an integer slot on signed operands evaluates the handler on their words, and the count used is z2 mod N whatever the sign of z2 |
| TestVectors.I32SignedOperandCases | exec/num_test.go:17-18 | the int32 operand fields admit negative amounts and sign-set results: i32.shl(-1, -24) pops as -256 and i32.rotl(0x80, 24) as -2^31 |
| TestVectors.I64SignedOperandCases | exec/num_test.go:50-51 | likewise for int64: i64.shl(-1, -56) pops as -256 and i64.shr_u(-1, -8) as 255 |
| TestVectors.CopysignCase | exec/num_test.go:88-89 | copysign(m, s), run through the protocol, pops as the low N-1 digits of m plus the sign digit of s |
| Integer.Amount | exec/num_test.go:22 | the effective count z2 mod N is below N |
| Integer.WrapAmount | exec/num_test.go:22 | the count taken from the word of a signed amount is that amount mod N, since N divides 2^N |
| Integer.AmountIsMasking | exec/num_test.go:22 | z2 mod N equals z2 masked to its low log2 N digits |
| Integer.Shl | exec/num_test.go:21-22 | the shl handler yields a word of its width; Integer.ShlIsIShl gives its meaning |
| Integer.ShlBit | exec/num_test.go:21-22 | digit p of shl(z1, z2) is digit p - k of z1 when p ≥ k, and 0 otherwise, where k = z2 mod N |
| Integer.ShlIsIShl | exec/num_test.go:21-22 | bits_N(shl(z1, z2)) equals ishl on bits_N(z1): the first k digits move out and k zeros move in |
| Integer.ShrU | exec/num_test.go:25-26 | the shr_u handler yields a word of its width; Integer.ShrUIsIShrU gives its meaning |
| Integer.ShrUBit | exec/num_test.go:25-26 | digit p of shr_u is digit p + k of z1 when that exists, and 0 otherwise |
| Integer.ShrUIsIShrU | exec/num_test.go:25-26 | bits_N(shr_u(z1, z2)) equals ishr_u on bits_N(z1): zeros fill from the top |
| Integer.ShrS | exec/num_test.go:23-24 | the shr_s handler yields a word of its width; Integer.ShrSIsIShrS gives its meaning |
| Integer.ShrSBit | exec/num_test.go:23-24 | digit p of shr_s is digit p + k of z1 when that exists, and z1's sign digit otherwise |
| Integer.ShrSIsIShrS | exec/num_test.go:23-24 | bits_N(shr_s(z1, z2)) equals ishr_s on bits_N(z1): copies of the sign digit fill from the top |
| Integer.Rotl | exec/num_test.go:27-28 | the rotl handler yields a word of its width; Integer.RotlIsIRotl gives its meaning |
| Integer.RotlBit | exec/num_test.go:27-28 | digit p of rotl is digit p - k of z1, counted cyclically |
| Integer.RotlIsIRotl | exec/num_test.go:27-28 | bits_N(rotl(z1, z2)) equals irotl on bits_N(z1): the first k digits move to the end |
| ShiftLaws.AllOnesIsMinusOne | exec/num_test.go:21 | the word pushed for -1 has every digit set, is what -1 wraps to, and reads back as -1 |
| ShiftLaws.ShlAllOnes | exec/num_test.go:21-22 | shl(-1, z2) is 2^N - 2^(z2 mod N), which reads as -2^(z2 mod N) |
| ShiftLaws.ShrUAllOnes | exec/num_test.go:25-26 | shr_u(-1, z2) is 2^(N - z2 mod N) - 1 |
| ShiftLaws.ShrSAllOnes | exec/num_test.go:23-24 | shr_s(-1, z2) is -1 for every amount |
| ShiftLaws.ShrSIsShrUWithFill | exec/num_test.go:23-26 | shr_s equals shr_u when the sign digit is clear; otherwise it is shr_u with the top k digits set |
| ShiftLaws.ShlThenShrU | exec/num_test.go:21-26 | shl then shr_u by the same amount keeps exactly the N - (z2 mod N) low digits |
| ShiftLaws.RotlFullCircle | exec/num_test.go:27-28 | rotating by a multiple of N leaves the word unchanged |
| ShiftLaws.RotlCompose | exec/num_test.go:27-28 | rotl by a and then by b equals rotl by (a + b) mod N |
| ShiftLaws.RotlInverse | exec/num_test.go:27-28 | rotl by z2 and then by N - (z2 mod N) restores the word |
| FloatBits.Copysign | exec/num_test.go:88-89 | the copysign handler yields a pattern of its width; FloatBits.CopysignIsICopysign and FloatBits.CopysignIsConditionalNegate give its meaning |
| FloatBits.CopysignBit | exec/num_test.go:88-89 | every digit of copysign(z1, z2) is z1's, except the sign digit, which is z2's |
| FloatBits.CopysignIsICopysign | exec/num_test.go:88-89 | on digit sequences, copysign is z2's sign digit followed by z1's other N-1 digits |
| FloatBits.CopysignFields | exec/num_test.go:116-117 | the result takes its sign from z2 and its exponent, fraction and class from z1 |
| FloatBits.CopysignIsConditionalNegate | exec/num_test.go:88-89 | the result is z1 when z1 and z2 have the same sign, and z1 negated otherwise |
| FloatBits.CopysignValue | exec/num_test.go:88-89 | for finite z1 the result is finite, and its value is \|z1\| with the sign of z2 |
| FloatBits.CopysignLastWins | exec/num_test.go:116-117 | copying two signs in a row is copying the second, and copysign(z, z) = z |
| FloatBits.PackFields | exec/num_test.go:83-85 | unpacking a pattern into sign, exponent and fraction, then packing them again, gives the pattern back |
| FloatBits.FieldsOfPack | exec/num_test.go:83-85 | packing fields that fit, then unpacking them, gives the fields back |
| FloatBits.FieldDigits | exec/num_test.go:83-85 | the exponent field is digits F..N-2 and the fraction field is digits 0..F-1 |
| FloatBits.NormalValue | exec/num_test.go:83-85 | a pattern with a normal exponent field denotes ±(1 + f/2^F)·2^(e - bias) |
| OperandStack.Pop | exec/num_test.go:40 | popping fails exactly on an empty stack |
| OperandStack.PushPopInverse | exec/num_test.go:37-40 | pop undoes push, and push undoes a successful pop |
| OperandStack.PopWord | exec/num_test.go:40 | popping at a width fails exactly on an empty stack; otherwise it gives a word of that width whose digits are the top cell's low N digits, and the stack below |
| OperandStack.PushWord | exec/num_test.go:37-38 | pushInt32/pushInt64/pushFloat32/pushFloat64 of a word put it on top of the unchanged stack and keep every cell a 64-bit word |
| OperandStack.PushSigned | exec/num_test.go:37-38 | pushInt32/pushInt64 of a signed value put its two's-complement word on top of the unchanged stack |
| OperandStack.PopSigned | exec/num_test.go:40 | popInt32/popInt64 fail exactly on an empty stack; otherwise they give the stack below the top cell and a value in the signed range whose low N digits are those of the top cell (int32(uint32(cell)), int64(uint64(cell))) |
| OperandStack.WordRoundTrip | exec/num_test.go:98-101 | a word pushed and popped at the same width comes back unchanged, with the stack as before |
| OperandStack.SignedStackRoundTrip | exec/num_test.go:70-73 | a signed value pushed with pushInt32/pushInt64 and popped with the matching pop comes back unchanged |
| OperandStack.PushAllPopN | exec/num_test.go:37-40 | pushing a run of words and popping as many returns them in reverse order and leaves the stack as it was |
| Words.ToSigned | exec/num_test.go:40 | the signed reading is in range, is negative exactly when the sign digit is set, and wraps back to the word |
| Words.SignedRoundTrip | exec/num_test.go:37 | wrapping a signed value and reading it back gives the value |
| Words.ToBitsRoundTrip | exec/num_test.go:25-28 | a word is determined by its N digits, and every N-digit sequence is the digits of one word |
| Dispatch.Lookup | exec/num_test.go:39 | the covered instruction found in slot b has opcode byte b |
| Dispatch.Eval | exec/num_test.go:39 | a handler's result on two words is a word of the same width |
| Dispatch.Execute | exec/num_test.go:39 | a handler fails exactly when fewer than two cells are on the stack; otherwise it takes two cells, leaves one, and keeps the cells below |
| Dispatch.ExecuteTop | exec/num_test.go:39 | on any stack of at least two cells, the cell the handler leaves on top holds op applied to the lower cell as z1 and the upper cell as z2, each cut to the width |
| Dispatch.LookupCode | exec/num_test.go:39 | every covered instruction sits in the slot of its own byte, the converse of Dispatch.Lookup |
| Dispatch.WordProtocol | exec/num_test.go:98-101 | push z1, push z2, execute, pop yields op(z1, z2) with z1 as the left operand, over the original stack |
| Dispatch.SignedProtocol | exec/num_test.go:37-40 | the same protocol with signed pushes and pops yields the signed reading of op(wrap z1, wrap z2) |

## Left out

- `F32Sub` and `F64Sub` (exec/num_test.go:87, 115). They are IEEE 754
  arithmetic with rounding, which is outside this bit-level model.
- `operators.New` and the opcode names (exec/num_test.go:30-33). They
  belong to a package that is not part of this model, and they only name
  subtests.
- The `testing`/`fmt` scaffolding and subtest names. These are test
  plumbing.
- The 256-slot function table as a whole (`newFuncTable`). Only the slots
  of the ten covered instructions are modelled; `Dispatch.Lookup` returns
  `None` for every other byte.
- Division and remainder with their traps, `rotr`, comparisons and the other
  numeric instructions. The test file does not exercise them.
- Control flow, memory, locals and globals, module instantiation, and
  sharing of the table across VMs or goroutines. These lie outside the
  numeric handlers.
- Stack underflow. The interpreter treats it as a trap. The model returns
  `Failure(StackUnderflow)` from the pop instead, so the error is a value
  rather than a fault.
- Cell layout. The VM's own stack representation is not part of this
  model. A 32-bit value is taken to occupy a whole 64-bit cell,
  zero-extended, and popping at a width keeps the low N digits. A pop reads
  only those digits, so a sign-extending push would pop the same values;
  that variant is not modelled separately.
- Float conversion. The VM's float push and pop are not part of this
  model. The model pushes and pops the bit pattern unchanged. Any
  quietening of a signalling NaN's payload by a conversion through a float
  register is not modelled.
- FloatBits.Value: it is defined for finite patterns only, and NaN payloads
  and infinities have no real value here.
