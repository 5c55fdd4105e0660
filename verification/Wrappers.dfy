/** What several modules share: optional values and the bounds of C's integers. */
module Wrappers {
  datatype Option<+T> = None | Some(value: T)

  /** One past the largest uint32_t. */
  const U32: nat := 0x1_0000_0000

  /** One past the largest size_t. */
  const SIZE: nat := 0x1_0000_0000_0000_0000
}
