/**
 * The interpreter's operand stack: a sequence of untyped 64-bit cells, top
 * last. A 32-bit value (integer or float bits) occupies a whole cell,
 * zero-extended; popping at a width keeps that width's low digits and drops
 * the rest. Popping an empty stack is a fault, reported as StackUnderflow.
 */
module OperandStack {
  import opened Arith
  import opened Bits
  import opened Words
  import opened Wrappers

  type Stack = seq<int>

  /** Every cell holds a 64-bit word. */
  predicate WellFormed(s: Stack) {
    forall i :: 0 <= i < |s| ==> IsWord(W64, s[i])
  }

  lemma NarrowIsWide(n: Width, x: int)
    requires IsWord(n, x)
    ensures IsWord(W64, x)
  {
    Pow2Monotone(n.Size(), 64);
  }

  function Push(s: Stack, c: int): (t: Stack)
    ensures |t| == |s| + 1
  {
    s + [c]
  }

  /** Removes the top cell and returns what is left together with it. */
  function Pop(s: Stack): (r: Result<(Stack, int)>)
    ensures r.Failure? <==> |s| == 0
  {
    if |s| == 0 then Failure(StackUnderflow) else Success((s[..|s| - 1], s[|s| - 1]))
  }

  /** Pop undoes Push, and Push undoes a successful Pop. */
  lemma PushPopInverse(s: Stack, c: int)
    ensures Pop(Push(s, c)) == Success((s, c))
    ensures Pop(s).Success? ==> Push(Pop(s).value.0, Pop(s).value.1) == s
  {
    assert (s + [c])[..|s|] == s;
  }

  /** pushInt32 / pushInt64 / pushFloat32 / pushFloat64 of a word (a float is pushed as its bits). */
  function PushWord(n: Width, s: Stack, x: int): (t: Stack)
    requires IsWord(n, x)
    ensures |t| == |s| + 1 && t[..|s|] == s && t[|s|] == x
    ensures WellFormed(s) ==> WellFormed(t)
  {
    NarrowIsWide(n, x);
    Push(s, x)
  }

  /** popInt32 / ... / popFloat64 as words: the N low digits of the top cell. */
  function PopWord(n: Width, s: Stack): (r: Result<(Stack, int)>)
    ensures r.Failure? <==> |s| == 0
    ensures r.Success? ==> IsWord(n, r.value.1) && r.value.0 == s[..|s| - 1]
    ensures r.Success? ==> forall p: nat :: p < n.Size() ==> (Bit(r.value.1, p) <==> Bit(s[|s| - 1], p))
    ensures WellFormed(s) && r.Success? ==> WellFormed(r.value.0)
  {
    var (rest, c) :- Pop(s);
    WrapDigits(n, c);
    Success((rest, Wrap(n, c)))
  }

  /** Popping at the width just pushed gives back the word and the stack beneath it. */
  lemma WordRoundTrip(n: Width, s: Stack, x: int)
    requires IsWord(n, x)
    ensures PopWord(n, PushWord(n, s, x)) == Success((s, x))
  {
    PushPopInverse(s, x);
    WrapWord(n, x);
  }

  /** pushInt32(v) / pushInt64(v) of a signed value: its two's-complement word. */
  function PushSigned(n: Width, s: Stack, v: int): (t: Stack)
    requires IsSigned(n, v)
    ensures |t| == |s| + 1 && t[..|s|] == s && t[|s|] == Wrap(n, v)
  {
    PushWord(n, s, Wrap(n, v))
  }

  /** popInt32() / popInt64(): the top cell's word read as two's complement. */
  function PopSigned(n: Width, s: Stack): (r: Result<(Stack, int)>)
    ensures r.Failure? <==> |s| == 0
    ensures r.Success? ==> IsSigned(n, r.value.1) && r.value.0 == s[..|s| - 1]
    ensures r.Success? ==> Wrap(n, r.value.1) == Wrap(n, s[|s| - 1])
  {
    var (rest, x) :- PopWord(n, s);
    Success((rest, ToSigned(n, x)))
  }

  lemma SignedStackRoundTrip(n: Width, s: Stack, v: int)
    requires IsSigned(n, v)
    ensures PopSigned(n, PushSigned(n, s, v)) == Success((s, v))
  {
    WordRoundTrip(n, s, Wrap(n, v));
    SignedRoundTrip(n, v);
  }

  // ----- LIFO -----

  predicate AllWords(n: Width, xs: seq<int>) {
    forall i :: 0 <= i < |xs| ==> IsWord(n, xs[i])
  }

  /** Pushes xs[0], xs[1], ... in that order. */
  function PushAll(n: Width, s: Stack, xs: seq<int>): (t: Stack)
    requires AllWords(n, xs)
    ensures |t| == |s| + |xs|
    decreases |xs|
  {
    if |xs| == 0 then s else PushAll(n, PushWord(n, s, xs[0]), xs[1..])
  }

  /** Pops k words; the values come back in the order they were popped, top first. */
  function PopN(n: Width, s: Stack, k: nat): (r: Result<(Stack, seq<int>)>)
    ensures r.Failure? <==> |s| < k
    ensures r.Success? ==> |r.value.1| == k && r.value.0 == s[..|s| - k]
    decreases k
  {
    if k == 0 then Success((s, []))
    else
      var (rest, x) :- PopWord(n, s);
      var (bottom, xs) :- PopN(n, rest, k - 1);
      Success((bottom, [x] + xs))
  }

  function Reverse(xs: seq<int>): (r: seq<int>)
    ensures |r| == |xs|
  {
    if |xs| == 0 then [] else Reverse(xs[1..]) + [xs[0]]
  }

  /** Pushing a run of words and popping as many returns them last-in first-out, leaving the stack as it was. */
  lemma {:induction false} PushAllPopN(n: Width, s: Stack, xs: seq<int>)
    requires AllWords(n, xs)
    ensures PopN(n, PushAll(n, s, xs), |xs|) == Success((s, Reverse(xs)))
    decreases |xs|
  {
    if |xs| > 0 {
      var t, rest := PushWord(n, s, xs[0]), xs[1..];
      var u := PushAll(n, t, rest);
      assert PushAll(n, s, xs) == u;
      PushAllPopN(n, t, rest);
      PopNBelow(n, u, |rest|, t);
      WordRoundTrip(n, s, xs[0]);
      assert PopN(n, u, |rest| + 1) == Success((s, Reverse(rest) + [xs[0]]));
    }
  }

  /**
   * If popping k words yields stack t and values ys, then popping one more
   * yields what popping one word from t yields, appended.
   */
  lemma {:induction false} PopNBelow(n: Width, s: Stack, k: nat, t: Stack)
    requires PopN(n, s, k).Success? && PopN(n, s, k).value.0 == t
    ensures PopN(n, s, k + 1) == match PopWord(n, t)
      case Failure(e) => Failure(e)
      case Success((b, x)) => Success((b, PopN(n, s, k).value.1 + [x]))
    decreases k
  {
    if k > 0 {
      var (rest, x) := PopWord(n, s).value;
      PopNBelow(n, rest, k - 1, t);
      var ys := PopN(n, rest, k - 1).value.1;
      match PopWord(n, t)
      case Failure(_) =>
      case Success((b, z)) =>
        assert [x] + (ys + [z]) == ([x] + ys) + [z];
    } else if |s| > 0 {
      var x := PopWord(n, s).value.1;
      assert [x] + [] == [] + [x];
    }
  }
}
