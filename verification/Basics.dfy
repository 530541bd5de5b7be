/** Bytes, and the optional values that stand for the source's nil results. */
module Basics {
  type byte = x: int | 0 <= x < 256
  type Bytes = seq<byte>

  datatype Option<+T> = None | Some(value: T)
}
