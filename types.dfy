/** Value types shared by the whole model: optional values, bytes and Go's int64. */
module Types {

  datatype Option<+T> = None | Some(value: T)

  /** A Go `byte`. */
  type byte = b: int | 0 <= b < 0x100

  /** A Go `[]byte` (nil and empty are not distinguished here; where the source tells them apart,
      the model uses `Option<bytes>`). */
  type bytes = seq<byte>

  const Int64Min: int := -0x8000_0000_0000_0000
  const Int64Max: int := 0x7FFF_FFFF_FFFF_FFFF
  const TwoTo64: int := 0x1_0000_0000_0000_0000

  predicate IsInt64(x: int) {
    Int64Min <= x <= Int64Max
  }

  /** A Go `int64`. */
  type int64 = x: int | -0x8000_0000_0000_0000 <= x <= 0x7FFF_FFFF_FFFF_FFFF

  /** Go's `a - b` on int64: the mathematical difference reduced into the int64 range
      (two's-complement wrap-around). */
  function Sub64(a: int64, b: int64): (r: int64)
    ensures IsInt64(a - b) ==> r == a - b
    ensures !IsInt64(a - b) ==> r == a - b - TwoTo64 || r == a - b + TwoTo64
    ensures (a - b - r) % TwoTo64 == 0
  {
    var d := a - b;
    if d > Int64Max then d - TwoTo64
    else if d < Int64Min then d + TwoTo64
    else d
  }

  /** When both operands are non-negative (timestamps in milliseconds since the epoch) the
      subtraction never wraps. */
  lemma Sub64NonNegative(a: int64, b: int64)
    requires 0 <= a && 0 <= b
    ensures Sub64(a, b) == a - b
  {
  }
}
