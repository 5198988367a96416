/** Types that several components share. */
module Common {

  datatype Option<+T> = None | Some(value: T)

  /** 2^32: addresses, offsets and counters are 32 bits wide. */
  const U32: nat := 0x1_0000_0000

  type Byte = b: int | 0 <= b < 256
}
