/** Machine integer widths used by the firmware, and an optional value. */
module Types {

  /** An unsigned 8-bit value (`uint8_t`). */
  type uint8 = x: int | 0 <= x < 0x100

  /** An unsigned 16-bit value (`uint16_t`). */
  type uint16 = x: int | 0 <= x < 0x1_0000

  datatype Option<+T> = None | Some(value: T)
}
