/** The 32-bit two's-complement `int` of Java, written out where the source's
    arithmetic can leave its range. The rest of the model uses unbounded `int`. */
module JavaInt {

  const Int32Min: int := -0x8000_0000
  const Int32Max: int := 0x7FFF_FFFF

  predicate InInt32(x: int) {
    Int32Min <= x <= Int32Max
  }

  /** The value Java's `int` arithmetic leaves when the exact result is `x`. */
  function Wrap32(x: int): (r: int)
    ensures InInt32(r)
    ensures InInt32(x) ==> r == x
    ensures (r - x) % 0x1_0000_0000 == 0
  {
    (x - Int32Min) % 0x1_0000_0000 + Int32Min
  }
}
