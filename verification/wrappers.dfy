/** Small shared vocabulary: optional values, results with an error, and the
    fixed-width integer ranges the engine stores its data in. */
module Wrappers {

  datatype Option<+T> = None | Some(value: T)

  datatype Result<+T, +E> = Ok(value: T) | Err(error: E)

  /** An unsigned byte, as stored in byte buffers and pixel lists. */
  type byte = x: int | 0 <= x < 0x100

  /** The range of a C++ `i32` (two's complement, 32 bits). */
  type i32 = x: int | -0x8000_0000 <= x < 0x8000_0000

  /** The range of a C++ `u32`. */
  type u32 = x: int | 0 <= x < 0x1_0000_0000
}
