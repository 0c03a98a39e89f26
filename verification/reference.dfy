/**
 * The bit-sequence definitions of the WebAssembly 1.0 core specification
 * (section 4.3.2, integer operations; section 4.3.3, fcopysign on the bit
 * level). A sequence d stands for bits_N(i): the N binary digits of i, most
 * significant first. These are the reference against which the arithmetic
 * handlers are proved.
 */
module Reference {

  /** b^k: k copies of the digit b. */
  function Repeat(b: bool, k: nat): (d: seq<bool>)
    ensures |d| == k
  {
    seq(k, _ => b)
  }

  /** ishl: split bits_N(i1) as d1 d2 with |d1| = k and return d2 0^k. */
  function IShl(d: seq<bool>, k: nat): seq<bool>
    requires k <= |d|
  {
    d[k..] + Repeat(false, k)
  }

  /** ishr_u: split bits_N(i1) as d1 d2 with |d2| = k and return 0^k d1. */
  function IShrU(d: seq<bool>, k: nat): seq<bool>
    requires k <= |d|
  {
    Repeat(false, k) + d[..|d| - k]
  }

  /** ishr_s: split bits_N(i1) as d0 d1 d2 with |d0| = 1 and |d2| = k and return d0^(k+1) d1. */
  function IShrS(d: seq<bool>, k: nat): seq<bool>
    requires k < |d|
  {
    Repeat(d[0], k + 1) + d[1..|d| - k]
  }

  /** irotl: split bits_N(i1) as d1 d2 with |d1| = k and return d2 d1. */
  function IRotl(d: seq<bool>, k: nat): seq<bool>
    requires k <= |d|
  {
    d[k..] + d[..k]
  }

  /** fcopysign on bit patterns: the sign digit of s followed by the other digits of m. */
  function ICopysign(m: seq<bool>, s: seq<bool>): seq<bool>
    requires 0 < |m| && 0 < |s|
  {
    [s[0]] + m[1..]
  }
}
