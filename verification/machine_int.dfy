/** Fixed-width C integer types and the conversions between them that the
    joystick module performs implicitly (an `intmax_t` stored into an `int`
    or a `DWORD`, a `uint64_t` handed to a function taking `intmax_t`). */
module MachineInt {

  const TWO_TO_31: int := 0x8000_0000
  const TWO_TO_32: int := 0x1_0000_0000
  const TWO_TO_63: int := 0x8000_0000_0000_0000
  const TWO_TO_64: int := 0x1_0000_0000_0000_0000

  type uint8 = x: int | 0 <= x < 0x100
  type int16 = x: int | -0x8000 <= x < 0x8000
  type uint32 = x: int | 0 <= x < TWO_TO_32
  type int32 = x: int | -TWO_TO_31 <= x < TWO_TO_31
  type uint64 = x: int | 0 <= x < TWO_TO_64

  /** Storing an integer into a 32-bit `int`: reduction modulo 2^32 into the
      signed range (what GCC and MSVC do for this implementation-defined case). */
  function ToInt32(n: int): (r: int32)
    ensures (n - r) % TWO_TO_32 == 0
    ensures -TWO_TO_31 <= n < TWO_TO_31 ==> r == n
  {
    var m := n % TWO_TO_32;
    if m < TWO_TO_31 then m else m - TWO_TO_32
  }

  /** Storing an integer into a `DWORD`. */
  function ToUint32(n: int): (r: uint32)
    ensures (n - r) % TWO_TO_32 == 0
    ensures 0 <= n < TWO_TO_32 ==> r == n
  {
    n % TWO_TO_32
  }

  /** Arithmetic on `uint64_t`: the mathematical result reduced modulo 2^64. */
  function WrapUint64(n: int): (r: uint64)
    ensures (n - r) % TWO_TO_64 == 0
    ensures 0 <= n < TWO_TO_64 ==> r == n
  {
    n % TWO_TO_64
  }

  /** Passing a `uint64_t` where an `intmax_t` is expected. */
  function ToInt64(n: uint64): (r: int)
    ensures -TWO_TO_63 <= r < TWO_TO_63
    ensures (n - r) % TWO_TO_64 == 0
    ensures n < TWO_TO_63 ==> r == n
  {
    if n < TWO_TO_63 then n else n - TWO_TO_64
  }
}
