/** The machine's words. */
module Words {
  const WORD := 0x1_0000_0000
  const DWORD := 0x1_0000_0000_0000_0000
  const LEAST := -0x8000_0000  // INT_MIN

  type Byte = x: int | 0 <= x < 256

  predicate Int32(x: int) { LEAST <= x < 0x8000_0000 }

  predicate Int64(x: int) { -0x8000_0000_0000_0000 <= x < 0x8000_0000_0000_0000 }

  function Abs(x: int): nat { if x < 0 then -x else x }
}
