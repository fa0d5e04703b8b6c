/** Machine integers of the original program and the big-endian reads shared by its parsers. */
module Bytes {

  type byte = x: int | 0 <= x < 0x100
  type uint16 = x: int | 0 <= x < 0x1_0000
  type uint32 = x: int | 0 <= x < 0x1_0000_0000

  datatype Option<+T> = None | Some(value: T)

  function Min(a: int, b: int): int {
    if a <= b then a else b
  }

  /** The elements but the one at `i`, in order. */
  function WithoutAt<T>(s: seq<T>, i: nat): seq<T>
    requires i < |s|
  {
    s[..i] + s[i + 1..]
  }

  /** The byte at `i`, or zero while it has not arrived. */
  function AtLeast(data: seq<byte>, i: nat): byte {
    if i < |data| then data[i] else 0
  }

  /** Two bytes at `offset`, most significant first. */
  function U16(data: seq<byte>, offset: nat): uint16
    requires offset + 2 <= |data|
  {
    var high: int, low: int := data[offset], data[offset + 1];
    high * 256 + low
  }

  /** The two-byte big-endian image of a 16-bit value. */
  function U16Bytes(value: uint16): seq<byte> {
    [value / 256, value % 256]
  }
}
