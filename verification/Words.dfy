/** Machine words, clock values and optional values shared by the whole model. */
module Words {
  /** A pointer that may be null. */
  datatype Option<T> = None | Some(value: T)

  type byte = x: int | 0 <= x < 0x100

  type uint16 = x: int | 0 <= x < 0x1_0000

  type uint32 = x: int | 0 <= x < 0x1_0000_0000

  /** Microseconds, as `tv_sec * 1000000 + tv_usec` in an unsigned 64-bit word. */
  type Time = x: int | 0 <= x < 0x1_0000_0000_0000_0000
}
