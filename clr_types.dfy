/**
  The .NET value types the ticket core uses: 32-bit signed integers with
  unchecked (wrap-around) subtraction, GUIDs, and decimals, which the core only
  copies and never computes with.
 */
module ClrTypes {

  const MinInt32: int := -0x8000_0000
  const MaxInt32: int := 0x7FFF_FFFF
  const TwoTo32: int := 0x1_0000_0000

  /** A C# `int`. */
  type Int32 = x: int | MinInt32 <= x <= MaxInt32

  predicate InInt32Range(x: int) {
    MinInt32 <= x <= MaxInt32
  }

  /**
    Reduces a mathematical integer to the C# `int` it becomes in an unchecked
    context: the unique 32-bit value congruent to x modulo 2^32.
   */
  function Wrap32(x: int): (r: Int32)
    ensures InInt32Range(x) ==> r == x
    ensures (x - r) % TwoTo32 == 0
  {
    (x - MinInt32) % TwoTo32 + MinInt32
  }

  /** A System.Guid: 128 bits. */
  type Guid = n: nat | n < 0x1_0000_0000_0000_0000_0000_0000_0000_0000

  /**
    A System.Decimal: a mantissa scaled by a power of ten. The ticket core copies
    prices from the database and never does arithmetic on them.
   */
  datatype Decimal = Decimal(mantissa: int, scale: nat)
}
