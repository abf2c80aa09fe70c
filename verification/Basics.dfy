/** What every component uses. */
module Basics {
  datatype Option<+T> = None | Some(value: T)

  /** Code units of UTF-8. */
  type Bytes = seq<bv8>

  /** Counts and indices are kept in a SizeType, an unsigned 32-bit integer that wraps. */
  const SIZE_TYPE: nat := 0x1_0000_0000
}
