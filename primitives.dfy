/** Machine types of the automaton engine: Rust's `u8` and `u32`, and the
    4-byte colour quadruples `[u8; 4]` that the frame is painted with. */
module Primitives {

  /** An unsigned 8-bit value (`u8`), one channel of a pixel. */
  type byte = b: int | 0 <= b < 0x100

  /** An unsigned 32-bit value (`u32`), the type of the grid's dimensions. */
  type u32 = n: nat | n < 0x1_0000_0000

  /** A `[u8; 4]` colour quadruple (RGBA in the host's frame buffer). */
  type Color = c: seq<byte> | |c| == 4 witness [0, 0, 0, 0]
}
