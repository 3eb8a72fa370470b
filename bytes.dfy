/**
 * The C# `byte`: eight bits whose arithmetic wraps at 256, and the two
 * conversions between a byte and its integer value.
 */
module Bytes {
  type byte = bv8

  /** A byte read as an integer lies in [0, 256) and converts back to itself. */
  lemma ByteAsInt(b: byte)
    ensures 0 <= b as int < 256 && (b as int) as byte == b
  {
  }

  /** An integer in [0, 256) converted to a byte reads back as itself. */
  lemma IntAsByte(x: int)
    requires 0 <= x < 256
    ensures (x as byte) as int == x
  {
    // sixteen small ranges keep each bit-vector conversion cheap for the solver
    if x < 16 {} else if x < 32 {} else if x < 48 {} else if x < 64 {}
    else if x < 80 {} else if x < 96 {} else if x < 112 {} else if x < 128 {}
    else if x < 144 {} else if x < 160 {} else if x < 176 {} else if x < 192 {}
    else if x < 208 {} else if x < 224 {} else if x < 240 {} else {}
  }
}
