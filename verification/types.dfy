/** Fixed-width integers, colours and small helpers shared by the clock firmware model. */
module Types {

  /** Arduino `uint8_t`. */
  type uint8 = x: int | 0 <= x < 0x100

  /** `unsigned long` on the ESP8266 (32 bits), the type of `millis()`. */
  type uint32 = x: int | 0 <= x < 0x1_0000_0000

  const UINT32_MODULUS: int := 0x1_0000_0000

  datatype Option<T> = None | Some(value: T)

  /** An RGB colour with one byte per channel. */
  datatype Color = Color(r: uint8, g: uint8, b: uint8)

  /** The pixel value 0: an unlit LED. */
  const Dark: Color := Color(0, 0, 0)

  /** Arduino's `constrain(x, lo, hi)`: clamps `x` into `[lo, hi]`. */
  function Constrain(x: int, lo: int, hi: int): (r: int)
    requires lo <= hi
    ensures lo <= r <= hi
    ensures lo <= x <= hi ==> r == x
    ensures x < lo ==> r == lo
    ensures hi < x ==> r == hi
  {
    if x < lo then lo else if hi < x then hi else x
  }
}
