/** Conversions between machine integer widths. */
module Ints {

  const TWO_31: int := 0x8000_0000
  const TWO_32: int := 0x1_0000_0000

  /** The value a wider integer takes when stored in a 32-bit `int`. */
  function ToInt32(x: int): (r: int)
    ensures -TWO_31 <= r < TWO_31
    ensures -TWO_31 <= x < TWO_31 ==> r == x
    ensures 0 <= x ==> r <= x
  {
    var m := x % TWO_32;
    if m < TWO_31 then m else m - TWO_32
  }
}
