/** Go's `byte` and byte strings, shared by the rest of the model. */
module Bytes {

  /** A Go `byte` (`uint8`). */
  newtype byte = x: int | 0 <= x < 256

  /** A Go `string` is an immutable sequence of bytes; no encoding is implied. */
  type GoString = seq<byte>

  /** Go's conversion `uint8(x)` of an `int`: it keeps the low eight bits of the
      two's-complement value, which for every integer is the Euclidean remainder
      by 256. */
  function ToUint8(x: int): (b: byte)
    ensures 0 <= x < 256 ==> b as int == x
    ensures (x - b as int) % 256 == 0
  {
    (x % 256) as byte
  }
}
