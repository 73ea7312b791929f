/**
 unsigned char, and runs of zero bytes.
 */
module Bytes {
  type byte = x: int | 0 <= x < 256

  function Zeros(n: nat): seq<byte> {
    seq(n, _ => 0)
  }
}
