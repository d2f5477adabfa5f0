/** Byte strings, as the engine and Node's `Buffer` hold them. */
module Octets {
  newtype byte = b: int | 0 <= b < 256

  type Bytes = seq<byte>
}
