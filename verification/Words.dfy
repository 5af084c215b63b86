/** The machine words the C code computes in, as ranges of the mathematical integers. */
module Words {
  const W8 := 0x100
  const W32 := 0x1_0000_0000
  const I63 := 0x8000_0000_0000_0000
  const W64 := 0x1_0000_0000_0000_0000
  const W128 := 0x1_0000_0000_0000_0000_0000_0000_0000_0000

  type uint8 = x: int | 0 <= x < W8
  type uint32 = x: int | 0 <= x < W32
  type uint64 = x: int | 0 <= x < W64
  type int64 = x: int | -I63 <= x < I63

  datatype Option<+T> = None | Some(value: T)
}
