/** Machine words and the wrap-around of their arithmetic. */
module MachineWords {

  type u32 = x: int | 0 <= x < 0x1_0000_0000

  type u64 = x: int | 0 <= x < 0x1_0000_0000_0000_0000

  /** Truncation to 32 bits. */
  function Wrap32(x: int): u32 {
    x % 0x1_0000_0000
  }

  /** Truncation to 64 bits. */
  function Wrap64(x: int): u64 {
    x % 0x1_0000_0000_0000_0000
  }

  type s32 = x: int | -0x8000_0000 <= x < 0x8000_0000

  /** The signed 32-bit word with these low bits. */
  function Signed32(x: int): s32 {
    (x + 0x8000_0000) % 0x1_0000_0000 - 0x8000_0000
  }
}
