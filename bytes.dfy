/** Byte values, clipping arithmetic and the Option wrapper shared by the buffer engine and the codec. */
module Bytes {

  /** A C `char` taken as an unsigned byte. */
  newtype uint8 = x: int | 0 <= x < 0x100

  /** A nullable input: `None` stands for the null pointer a caller may pass. */
  datatype Option<T> = None | Some(value: T)

  /** INT_MAX of a 32-bit `int`. */
  const IntMax: int := 0x7fff_ffff

  function Min(a: int, b: int): int { if a <= b then a else b }

  function Max(a: int, b: int): int { if a <= b then b else a }

  /** `n` zero bytes, what memset(p, '\0', n) leaves behind. */
  function Zeros(n: nat): (r: seq<uint8>)
    ensures |r| == n
    ensures forall i :: 0 <= i < n ==> r[i] == 0
  {
    seq(n, _ => 0)
  }

  /** Zero runs concatenate. */
  lemma ZerosAdd(a: nat, b: nat)
    ensures Zeros(a) + Zeros(b) == Zeros(a + b)
  {
  }

  /** Concatenation regrouped, stated once so that callers need not unfold their operands. */
  lemma Regroup(a: seq<uint8>, b: seq<uint8>, c: seq<uint8>)
    ensures (a + b) + c == a + (b + c)
  {
  }
}
