/** The fixed-width integer arithmetic that numpy performs on int16 and uint8 arrays. */
module FixedWidth {

  const INT16_MIN: int := -0x8000
  const INT16_MAX: int := 0x7FFF
  const INT16_MODULUS: int := 0x1_0000
  const UINT8_MODULUS: int := 0x100

  predicate InInt16(x: int) {
    INT16_MIN <= x <= INT16_MAX
  }

  /** Two's-complement reduction of an integer to int16: what numpy stores when a value is
      cast to int16 or when int16 arithmetic overflows. */
  function Wrap16(x: int): (r: int)
    ensures InInt16(r)
    ensures (r - x) % INT16_MODULUS == 0
    ensures InInt16(x) ==> r == x
  {
    (x - INT16_MIN) % INT16_MODULUS + INT16_MIN
  }

  /** Subtraction of two uint8 values, which wraps below zero. */
  function SubUint8(a: int, b: int): (r: int)
    ensures 0 <= r < UINT8_MODULUS
    ensures 0 <= b <= a < UINT8_MODULUS ==> r == a - b
  {
    (a - b) % UINT8_MODULUS
  }
}
