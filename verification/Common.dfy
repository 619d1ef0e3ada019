/** Types that several models share. */
module Common {

  datatype Option<+T> = None | Some(value: T)

  /** `uint32_t`, and `unsigned int`. */
  type uint32 = x: int | 0 <= x < 0x1_0000_0000 witness 0
}
