/** Fixed-width unsigned words as subset types of the unbounded integers. Wherever the C code
    lets a value wrap, the model reduces it explicitly with `%`. */
module Word {
  const MOD_8: int := 0x100
  const MOD_16: int := 0x1_0000
  const MOD_32: int := 0x1_0000_0000
  const MOD_64: int := 0x1_0000_0000_0000_0000

  const INT_32U_MAX: int := 0xFFFF_FFFF
  const INT_32S_MAX: int := 0x7FFF_FFFF
  const INT_32S_MIN: int := -0x8000_0000

  type U8 = x: int | 0 <= x < 0x100
  type U16 = x: int | 0 <= x < 0x1_0000
  type U32 = x: int | 0 <= x < 0x1_0000_0000
  type U64 = x: int | 0 <= x < 0x1_0000_0000_0000_0000
  type S32 = x: int | -0x8000_0000 <= x <= 0x7FFF_FFFF

  function Min(a: int, b: int): int {
    if a < b then a else b
  }

  function Max(a: int, b: int): int {
    if a < b then b else a
  }
}
