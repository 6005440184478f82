/** Fixed-width integers of the C++ source, as ranges of int, and the casts between them. */
module Bytes {
  type byte = b: int | 0 <= b < 256
  type u16 = n: int | 0 <= n < 0x1_0000
  type i16 = n: int | -0x8000 <= n < 0x8000
  type u32 = n: int | 0 <= n < 0x1_0000_0000
  type i32 = n: int | -0x8000_0000 <= n < 0x8000_0000
  type u64 = n: int | 0 <= n < 0x1_0000_0000_0000_0000

  /** static_cast<int>(quint32): the same 32 bits read as a signed number. */
  function ToInt32(u: u32): (i: i32)
    ensures i == u || i == u - 0x1_0000_0000
  {
    if u < 0x8000_0000 then u else u - 0x1_0000_0000
  }

  /** static_cast<quint32>(int). */
  function ToUInt32(i: i32): (u: u32)
    ensures u == i || u == i + 0x1_0000_0000
  {
    if i < 0 then i + 0x1_0000_0000 else i
  }

  /** Narrowing to a signed 16-bit short: keep the low 16 bits. */
  function ToInt16(n: int): (r: i16)
    ensures (n - r) % 0x1_0000 == 0
  {
    var low := n % 0x1_0000;
    if low < 0x8000 then low else low - 0x1_0000
  }

  function Zeros(n: nat): (z: seq<byte>)
    ensures |z| == n
  {
    seq(n, _ => 0)
  }
}
