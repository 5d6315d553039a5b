/** Bytes, and the optional result used across the project. */
module Bytes {
  type Byte = b: int | 0 <= b < 256

  /** A line end. */
  const CRLF: seq<Byte> := [13, 10]

  datatype Option<+T> = None | Some(value: T)

  /** A read that may run past the end of a buffer: such a byte is taken as 0. */
  function At(s: seq<Byte>, i: nat): Byte {
    if i < |s| then s[i] else 0
  }
}
