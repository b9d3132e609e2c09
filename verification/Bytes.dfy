/** The integer widths of the AVR target, as subset types. */
module Bytes {
  type byte = n: int | 0 <= n < 0x100
  type u16 = n: int | 0 <= n < 0x1_0000
  type u32 = n: int | 0 <= n < 0x1_0000_0000

  const NUL: byte := 0
}
