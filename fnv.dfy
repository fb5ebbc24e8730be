/**
 * The table's hash function: the Fowler-Noll-Vo FNV-1a scheme with the
 * 32-bit offset basis and prime, accumulated in Go's `int`, a 64-bit
 * two's-complement integer that wraps on overflow. The accumulator is
 * modelled as the mathematical value of that `int`, in [-2^63, 2^63), with
 * the wrap-around and the bitwise xor written out.
 */
module Fnv {
  /** A Go string, as the bytes it holds. */
  type Bytes = seq<bv8>

  const TwoTo63: int := 0x8000_0000_0000_0000
  const TwoTo64: int := 0x1_0000_0000_0000_0000

  /** The 32-bit FNV offset basis, the accumulator's starting value. */
  const OffsetBasis: int := 2166136261

  /** The 32-bit FNV prime. */
  const Prime: int := 16777619

  /** A Go `int`: a value of 64-bit two's complement. */
  ghost predicate IsInt64(x: int)
  {
    -TwoTo63 <= x < TwoTo63
  }

  /** The result of a Go `int` operation whose exact value is `x`: `x` reduced modulo 2^64 into the signed range. */
  function Wrap(x: int): (r: int)
    ensures IsInt64(r)
    ensures (x - r) % TwoTo64 == 0
    ensures IsInt64(x) ==> r == x
  {
    (x + TwoTo63) % TwoTo64 - TwoTo63
  }

  /**
   * `h ^ int(b)` for a Go `int` `h` and a byte `b`: the byte is non-negative
   * and below 256, so only the low eight bits of `h` change. Those bits are
   * `h % 256` (Euclidean, so also for negative `h`), and the bits above
   * them are `h / 256`.
   */
  function XorByte(h: int, b: bv8): (r: int)
    ensures r / 256 == h / 256
    ensures r % 256 == LowXor(h, b)
    ensures IsInt64(h) ==> IsInt64(r)
  {
    var q, x := h / 256, LowXor(h, b);
    Split256(q, x);
    LowByteInRange(h, x);
    q * 256 + x
  }

  /** The quotient and remainder by 256 of `q * 256 + x`, for `x` a byte. */
  lemma Split256(q: int, x: int)
    requires 0 <= x < 256
    ensures (q * 256 + x) / 256 == q && (q * 256 + x) % 256 == x
  {
    var a := q * 256 + x;
    assert a == (a / 256) * 256 + a % 256;
  }

  /** Replacing the low byte of a Go `int` keeps it a Go `int`. */
  lemma LowByteInRange(h: int, x: int)
    requires 0 <= x < 256
    ensures IsInt64(h) ==> IsInt64((h / 256) * 256 + x)
  {
    assert h == (h / 256) * 256 + h % 256;
  }

  /** The low byte of `h ^ int(b)`. */
  function LowXor(h: int, b: bv8): (x: int)
    ensures 0 <= x < 256
  {
    (((h % 256) as bv8) ^ b) as int
  }

  /** One byte step of FNV-1a: xor the byte in, then multiply by the prime, wrapping at 64 bits. */
  function Round(h: int, b: bv8): (r: int)
    ensures IsInt64(r)
  {
    Wrap(XorByte(h, b) * Prime)
  }

  /** Reference definition of the hash: the byte steps applied left to right. */
  function Hash(s: Bytes): (r: int)
    ensures IsInt64(r)
  {
    if |s| == 0 then OffsetBasis else Round(Hash(s[..|s| - 1]), s[|s| - 1])
  }

  /** The loop of `hash` in the source. */
  method ComputeHash(s: Bytes) returns (out: int)
    ensures out == Hash(s)
  {
    out := OffsetBasis;
    var i := 0;
    while i < |s|
      invariant 0 <= i <= |s|
      invariant out == Hash(s[..i])
    {
      assert s[..i + 1][..i] == s[..i];
      out := XorByte(out, s[i]);
      out := Wrap(out * Prime);
      i := i + 1;
    }
    assert s[..i] == s;
  }

  /** The hash of the empty string is the offset basis. */
  lemma HashOfEmpty()
    ensures Hash([]) == 2166136261
  {
  }

  /** Appending a byte applies exactly one byte step. */
  lemma HashSnoc(s: Bytes, b: bv8)
    ensures Hash(s + [b]) == Round(Hash(s), b)
  {
    assert (s + [b])[..|s|] == s;
  }
}
