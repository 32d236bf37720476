/** Octets, and the optional values that stand for the sources' nullable pointers. */
module Bytes {
  type byte = x: int | 0 <= x < 256
  type bytes = seq<byte>

  datatype Option<+T> = None | Some(value: T)

  function Zeros(n: nat): bytes {
    seq(n, _ => 0)
  }
}
