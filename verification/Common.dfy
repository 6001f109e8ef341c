/** Types shared by all the models: optional values, bytes and 64-bit words. */
module Common {

  datatype Option<+T> = None | Some(value: T)

  const TWO_64: int := 0x1_0000_0000_0000_0000

  /** Go's uint64: every operation on it is taken modulo 2^64. */
  type Word64 = x: int | 0 <= x < 0x1_0000_0000_0000_0000

  function WrapAdd(x: Word64, y: Word64): Word64 {
    (x + y) % TWO_64
  }

  function WrapSub(x: Word64, y: Word64): Word64 {
    (x - y) % TWO_64
  }

  /** The conversion uint64(x) of a signed counter. */
  function ToWord64(x: int): Word64 {
    x % TWO_64
  }

  type byte = x: int | 0 <= x < 256
}
