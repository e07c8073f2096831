// Fixed-width machine integers.  Every arithmetic result is checked against
// the range of its type, so a method that verifies over these types performs
// no overflow and no wrap-around.
module Words {
  newtype int64 = x: int | -0x8000_0000_0000_0000 <= x < 0x8000_0000_0000_0000
  newtype uint64 = x: int | 0 <= x < 0x1_0000_0000_0000_0000
  newtype uint32 = x: int | 0 <= x < 0x1_0000_0000
  newtype byte = x: int | 0 <= x < 256
}
