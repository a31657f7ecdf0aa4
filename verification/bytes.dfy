/** 8-bit channel values and the small integer helpers the colour-window step is built from. */
module Bytes {

  /** One uint8 channel value, as stored in a NumPy `uint8` array. */
  type Byte = x: int | 0 <= x < 256

  /** The value kept when an integer result is stored in a uint8: it wraps modulo 256. */
  function U8(x: int): (r: Byte)
    ensures (x - r) % 256 == 0
    ensures 0 <= x < 256 ==> r == x
  {
    x % 256
  }

  /** Python's `max` of two integers. */
  function Max(a: int, b: int): (r: int)
    ensures r >= a && r >= b
    ensures r == a || r == b
  {
    if a >= b then a else b
  }

  /** Python's `min` of two integers. */
  function Min(a: int, b: int): (r: int)
    ensures r <= a && r <= b
    ensures r == a || r == b
  {
    if a <= b then a else b
  }

  function Abs(x: int): (r: nat)
    ensures r == x || r == -x
  {
    if x < 0 then -x else x
  }
}
