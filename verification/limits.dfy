/** The ranges of the .NET numeric types the model's unbounded numbers stand for. */
module Limits {

  /** `int.MinValue` and `int.MaxValue`. */
  const Int32Min: int := -0x8000_0000
  const Int32Max: int := 0x7FFF_FFFF

  /** `decimal.MaxValue` (2^96 - 1); `decimal.MinValue` is its negation. */
  const DecimalMax: real := 79228162514264337593543950335.0
}
