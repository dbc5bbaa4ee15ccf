/** Error kinds a reader operation can return, and an optional value.
    Status strings and their formatting are not modelled: only the kind is kept. */
module Common {

  /** The kinds of `Status` the page reader produces or propagates. */
  datatype Status = Ok | EndOfFile | InternalError | Corruption | IOError

  datatype Option<+T> = None | Some(value: T)

  /** Unsigned byte, as stored in the file. */
  newtype Byte = b: int | 0 <= b < 256

  /** Thrift `i32`. */
  newtype Int32 = x: int | -0x8000_0000 <= x < 0x8000_0000

  const U32: int := 0x1_0000_0000
  const U64: int := 0x1_0000_0000_0000_0000

  /** The value of `x` converted to `uint64_t` (two's-complement wrap-around). */
  function Wrap64(x: int): (r: nat)
    ensures r < U64
    ensures 0 <= x < U64 ==> r == x
    ensures -U64 <= x < 0 ==> r == x + U64
  {
    x % U64
  }

  /** The value of `x` converted to `uint32_t`. */
  function Trunc32(x: nat): (r: nat)
    ensures r <= x && r < U32
    ensures x < U32 ==> r == x
  {
    x % U32
  }

  function Min(a: nat, b: nat): nat { if a <= b then a else b }

  function Max(a: nat, b: nat): nat { if a <= b then b else a }
}
