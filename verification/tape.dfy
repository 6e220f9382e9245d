/** Byte cells with modulo-256 arithmetic, shared by both engines. */
module Tape {
  /** A tape cell: Python ints kept in 0..255 by `% 256`. */
  type Byte = b: int | 0 <= b < 256

  /** `(cell + 1) % 256`: wraps 255 to 0. */
  function Inc(b: Byte): (r: Byte)
    ensures r == if b == 255 then 0 else b + 1
  {
    (b + 1) % 256
  }

  /** `(cell - 1) % 256` with Python's floored modulo: wraps 0 to 255. */
  function Dec(b: Byte): (r: Byte)
    ensures r == if b == 0 then 255 else b - 1
  {
    (b - 1) % 256
  }

  /** A fresh tape of `n` zero cells (`[0] * n`). */
  function Zeros(n: nat): (t: seq<Byte>)
    ensures |t| == n
    ensures forall i :: 0 <= i < n ==> t[i] == 0
  {
    seq(n, _ => 0)
  }
}
