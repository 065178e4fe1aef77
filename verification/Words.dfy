/** Machine words and optional values shared by the models. */
module Words {

  datatype Option<+T> = None | Some(value: T)

  type u8 = x: int | 0 <= x < 0x100
  type u16 = x: int | 0 <= x < 0x1_0000
  type u32 = x: int | 0 <= x < 0x1_0000_0000

  const USIZE_BITS: nat := 64
  const U32_SPAN: nat := 0x1_0000_0000

  function WrappingAdd(a: u32, b: u32): u32 {
    (a + b) % U32_SPAN
  }

  function WrappingSub(a: u32, b: u32): u32 {
    (a - b) % U32_SPAN
  }

  function SaturatingSub(a: u32, b: u32): u32 {
    if a < b then 0 else a - b
  }

  function Min(a: nat, b: nat): nat {
    if a < b then a else b
  }
}
