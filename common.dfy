/** Values shared by the whole model: optional values, results with an error
    reason, and C#'s 32-bit integer range. */
module Common {

  datatype Option<T> = None | Some(value: T)

  datatype Result<T, E> = Ok(value: T) | Err(error: E)

  const IntMinValue: int := -0x8000_0000
  const IntMaxValue: int := 0x7FFF_FFFF
  const TwoTo32: int := 0x1_0000_0000

  /** A C# `int`. */
  type Int32 = x: int | IntMinValue <= x <= IntMaxValue

  /** A C# `uint`. */
  type UInt32 = x: int | 0 <= x < TwoTo32

  /** C#'s unchecked 32-bit signed wrap-around of an integer result. */
  function Wrap32(x: int): (r: Int32)
    ensures (r - x) % TwoTo32 == 0
    ensures IntMinValue <= x <= IntMaxValue ==> r == x
  {
    (x + 0x8000_0000) % TwoTo32 - 0x8000_0000
  }

  /** The unsigned reading of an int's 32-bit two's-complement pattern,
      C#'s unchecked `(uint)` cast. */
  function Unsigned32(v: Int32): (r: UInt32)
    ensures Wrap32(r) == v
    ensures v >= 0 <==> r <= IntMaxValue
  {
    if v >= 0 then v else v + TwoTo32
  }

  function Min(a: int, b: int): (r: int)
    ensures r <= a && r <= b && (r == a || r == b)
  {
    if a <= b then a else b
  }
}
