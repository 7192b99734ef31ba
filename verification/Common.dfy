/** What several modules share: the ranges of the C integer types, and an optional value. */
module Common {
  const UINT32_MODULUS: nat := 0x1_0000_0000
  const INT32_LIMIT: int := 0x8000_0000
  const SIZE_MODULUS: nat := 0x1_0000_0000_0000_0000

  datatype Option<+T> = None | Some(value: T)
}
