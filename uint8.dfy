/** Byte buffers: the elements of a JavaScript `Uint8Array`. */
module Uint8 {

  /** One element of a `Uint8Array`. */
  type Byte = b: int | 0 <= b < 256

  /** Every cell of the buffer is 0 (dead) or 1 (alive). */
  predicate Binary(s: seq<Byte>) {
    forall i :: 0 <= i < |s| ==> s[i] == 0 || s[i] == 1
  }

  /** A zero-filled buffer of `n` bytes, as `new Uint8Array(n)` allocates it. */
  function Zeros(n: nat): seq<Byte> {
    seq(n, _ => 0)
  }
}
