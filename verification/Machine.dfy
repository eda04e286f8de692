/** Fixed-width unsigned integers, and the option type. A value of one of these
    types carries the proof that the arithmetic producing it did not overflow. */
module Machine {

  const U8_MAX := 0xff
  const U16_MAX := 0xffff
  const U32_MAX := 0xffff_ffff
  const U64_MAX := 0xffff_ffff_ffff_ffff

  type u8 = x: int | 0 <= x <= U8_MAX
  type u16 = x: int | 0 <= x <= U16_MAX
  type u32 = x: int | 0 <= x <= U32_MAX
  type u64 = x: int | 0 <= x <= U64_MAX

  datatype Option<+T> = None | Some(value: T) {
    function GetOr(default: T): T {
      match this
      case Some(v) => v
      case None => default
    }
  }

  function Min(a: int, b: int): int {
    if a <= b then a else b
  }

  function CheckedAdd(x: u64, y: u64): Option<u64> {
    if x + y <= U64_MAX then Some(x + y) else None
  }

  /** The `as u32` cast of a 64-bit register argument: keeps the low half. */
  function LowWord(x: u64): u32 {
    x % 0x1_0000_0000
  }
}
