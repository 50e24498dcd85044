/** C integer types shared by the models. Plain `char` is unsigned and `unsigned long` is 32 bits
    wide, as on the ARM target the sources are built for. */
module CTypes {

  const U32_LIMIT := 0x1_0000_0000

  type byte = b: int | 0 <= b < 0x100
  type u32 = w: int | 0 <= w < U32_LIMIT

  datatype Option<+T> = None | Some(value: T)

  function Min(a: nat, b: nat): nat {
    if a <= b then a else b
  }

  /** Truncation to 32 bits, the effect of storing a value in an `unsigned long`. */
  function Wrap32(x: int): u32 {
    x % U32_LIMIT
  }
}
