/** Machine-integer ranges used by the Go source, written out explicitly
    because Dafny integers are unbounded. */
module Numeric {

  /** One octet of a wire buffer (Go `byte`). */
  type byte = x: int | 0 <= x < 0x100

  /** Go `uint64`, the type of every protowire varint value. */
  type uint64 = x: int | 0 <= x < 0x1_0000_0000_0000_0000

  /** Go `uint32`, the width of a path hash. */
  type uint32 = x: int | 0 <= x < 0x1_0000_0000

  /** Go `int32`, the width of protobuf enum values and request ids. */
  type int32 = x: int | -0x8000_0000 <= x < 0x8000_0000

  /** `math.MaxInt32`, the largest payload size a frame may declare. */
  const MaxInt32: int := 0x7fff_ffff

  /** 128 to the power `n`: the weight of the `n`-th seven-bit group of a varint. */
  function Pow128(n: nat): (r: nat)
    ensures r >= 1
  {
    if n == 0 then 1 else 128 * Pow128(n - 1)
  }

  /** Ten seven-bit groups, the last of them holding one bit, cover exactly `uint64`. */
  lemma Pow128Nine()
    ensures 2 * Pow128(9) == 0x1_0000_0000_0000_0000
  {
  }
}
