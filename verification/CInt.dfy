/**
 Fixed-width integers and the C division the sources rely on.  Dafny's `/` and
 `%` are Euclidean; C truncates toward zero, which differs on negative operands.
 */
module CInt {

  newtype int32 = x: int | -0x8000_0000 <= x < 0x8000_0000
  newtype uint32 = x: int | 0 <= x < 0x1_0000_0000

  /** C's `a / b` for a positive divisor. */
  function CDiv(a: int, b: int): (q: int)
    requires b > 0
  {
    if a >= 0 then a / b else -((-a) / b)
  }

  /** C's `a % b` for a positive divisor: the sign follows `a`. */
  function CMod(a: int, b: int): (r: int)
    requires b > 0
    ensures a >= 0 ==> 0 <= r < b
    ensures a < 0 ==> -b < r <= 0
  {
    if a >= 0 then a % b else -((-a) % b)
  }

  /** The C identity `a == b * (a / b) + a % b`. */
  lemma CDivMod(a: int, b: int)
    requires b > 0
    ensures a == b * CDiv(a, b) + CMod(a, b)
  {
  }

  /** Conversion of an unsigned 32-bit value to a signed one: same bits. */
  function ToSigned(u: uint32): (s: int32)
    ensures (s as int - u as int) % 0x1_0000_0000 == 0
  {
    if u < 0x8000_0000 then u as int32 else (u as int - 0x1_0000_0000) as int32
  }
}
