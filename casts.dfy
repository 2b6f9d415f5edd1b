/** The C++ numeric conversions that the time-conversion code relies on, written
    out over Dafny's unbounded integers and exact reals. */
module Casts {

  /** An `unsigned char`. */
  type uint8 = x: int | 0 <= x < 0x100

  /** An `unsigned short`. */
  type uint16 = x: int | 0 <= x < 0x1_0000

  /** `static_cast<int32_t>(x)` (and the casts to unsigned types) of a double:
      truncation toward zero. */
  function Trunc(x: real): (n: int)
    ensures 0.0 <= x ==> 0 <= n && n as real <= x < n as real + 1.0
    ensures x < 0.0 ==> n <= 0 && n as real - 1.0 < x <= n as real
  {
    if 0.0 <= x then x.Floor else -((-x).Floor)
  }

  /** `fmod(x, 1.0)`: what is left of `x` once its truncation is taken away, so it
      carries the sign of `x`. */
  function Fmod1(x: real): (f: real)
    ensures 0.0 <= x ==> 0.0 <= f < 1.0
    ensures x < 0.0 ==> -1.0 < f <= 0.0
    ensures (x - f).Floor as real == x - f
  {
    x - Trunc(x) as real
  }

  /** `static_cast<unsigned short>(n)` of an `int`: reduction modulo 2^16. */
  function ToUInt16(n: int): (r: uint16)
    ensures 0 <= n < 0x1_0000 ==> r == n
    ensures (r - n) % 0x1_0000 == 0
  {
    n % 0x1_0000
  }

  /** The C++ `a % 7` on a signed integer: the remainder takes the sign of the
      dividend. */
  function CRem7(a: int): (r: int)
    ensures 0 <= a ==> 0 <= r < 7
    ensures a < 0 ==> -7 < r <= 0
    ensures (a - r) % 7 == 0
  {
    if 0 <= a then a % 7 else -((-a) % 7)
  }

  /** The floor of `x` is the integer `n` when `n <= x < n + 1`. */
  lemma FloorIs(x: real, n: int)
    requires n as real <= x < n as real + 1.0
    ensures x.Floor == n
  {
  }
}
