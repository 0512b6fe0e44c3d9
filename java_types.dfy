/** Java value types the gatekeeper relies on: nullable references and
    the fixed-width `int` and `long` of the JVM. */
module JavaTypes {

  /** A Java reference that may be null (or a configuration key that may be unset). */
  datatype Option<+T> = None | Some(value: T)

  const Int32Min: int := -0x8000_0000
  const Int32Limit: int := 0x8000_0000
  const Int64Min: int := -0x8000_0000_0000_0000
  const Int64Limit: int := 0x8000_0000_0000_0000

  /** Java `int`. */
  type Int32 = x: int | Int32Min <= x < Int32Limit

  /** Java `long`. */
  type Int64 = x: int | Int64Min <= x < Int64Limit

  /** The value a Java `long` expression holds when its exact result is `x`:
      two's-complement wrap-around to 64 bits. */
  function Wrap64(x: int): (r: Int64)
    ensures (r - x) % 0x1_0000_0000_0000_0000 == 0
    ensures Int64Min <= x < Int64Limit ==> r == x
  {
    (x - Int64Min) % 0x1_0000_0000_0000_0000 + Int64Min
  }
}
