/** Fixed-width integer types of the AVR target, as bounded mathematical integers. */
module IntTypes {
  /** Number of values of a 32-bit word; arithmetic on `unsigned long` is modulo this. */
  const WORD_MODULUS: int := 0x1_0000_0000

  type uint8 = x: int | 0 <= x < 0x100
  type uint32 = x: int | 0 <= x < 0x1_0000_0000

  /** The values an `int16_t` can hold. */
  predicate IsInt16(v: int) {
    -0x8000 <= v < 0x8000
  }

  function Abs(v: int): (r: nat)
    ensures r == v || r == -v
  {
    if v < 0 then -v else v
  }
}
