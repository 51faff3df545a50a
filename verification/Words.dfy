/** Machine words and the sentinels the filters use for "no value"
    (trace_streamer/src/base/ts_common.h). */
module Words {
  const TWO32 := 0x1_0000_0000
  const TWO64 := 0x1_0000_0000_0000_0000
  const INVALID_UINT32: u32 := 0xFFFF_FFFF
  const INVALID_UINT64: u64 := 0xFFFF_FFFF_FFFF_FFFF

  type u8 = n: int | 0 <= n < 256
  type u16 = n: int | 0 <= n < 0x1_0000
  type u32 = n: int | 0 <= n < 0x1_0000_0000
  type u64 = n: int | 0 <= n < 0x1_0000_0000_0000_0000

  datatype Option<+T> = None | Some(value: T)

  /** Unsigned 64-bit arithmetic keeps the result modulo 2^64. */
  function Wrap64(n: int): (r: u64)
    ensures 0 <= n < TWO64 ==> r == n
  {
    n % TWO64
  }

  /** The cast of an unsigned word to int64_t. */
  function AsInt64(n: int): (r: int)
    ensures Wrap64(r) == Wrap64(n) && -TWO64 / 2 <= r < TWO64 / 2
  {
    var m := n % TWO64;
    if m < TWO64 / 2 then m else m - TWO64
  }
}
