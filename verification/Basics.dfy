/** Shared by the other modules. */
module Basics {

  datatype Option<+T> = None | Some(value: T)

  /** The number of values of an unsigned 32-bit integer. */
  const U32: int := 0x1_0000_0000
}
