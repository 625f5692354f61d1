/** Bytes and fixed-width arithmetic. */
module Bytes {
  type byte = x: int | 0 <= x < 256

  const TWO32: int := 0x1_0000_0000

  /** The value of an unsigned 32-bit variable. */
  function U32(n: int): (u: int)
    ensures 0 <= u < TWO32 && (0 <= n < TWO32 ==> u == n)
  {
    n % TWO32
  }

  /** An unsigned 32-bit value stored into an int. */
  function ToInt32(u: int): (n: int)
    ensures 0 <= u < TWO32 / 2 ==> n == u
  {
    if u < TWO32 / 2 then u else u - TWO32
  }

  lemma U32Adds(m: int, n: int)
    ensures U32(U32(m) + n) == U32(m + n)
  {
  }

  /** What an int holds of a number. */
  function Int32(n: int): int {
    ToInt32(U32(n))
  }

  lemma Int32Adds(m: int, n: int)
    ensures Int32(Int32(m) + n) == Int32(m + n)
  {
    var u := U32(m);
    U32Adds(m, n);
    assert U32(u - TWO32 + n) == U32(u + n);
  }

  /** A byte read as a signed char. */
  function Signed(b: byte): int {
    if b >= 0x80 then b - 0x100 else b
  }

  function ToByte(n: int): (b: byte)
    requires -128 <= n < 128
    ensures Signed(b) == n
  {
    if n < 0 then n + 0x100 else n
  }
}
