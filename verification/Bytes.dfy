/** Machine-width integers the original stores in its buffers, and a small option type. */
module Bytes {
  type Byte = x: int | 0 <= x < 0x100
  type UInt32 = x: int | 0 <= x < 0x1_0000_0000

  datatype Option<+T> = None | Some(value: T)
}
