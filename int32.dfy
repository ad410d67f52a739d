/** C# `int`: 32-bit two's complement, unchecked arithmetic (the default context). */
module Int32 {
  const MinValue: int := -0x8000_0000
  const MaxValue: int := 0x7FFF_FFFF

  predicate InRange(x: int) {
    MinValue <= x <= MaxValue
  }

  /**
   * `x + 1` on a C# int: the one 32-bit value congruent to x + 1 modulo 2^32, which is
   * x + 1 itself except that int.MaxValue goes to int.MinValue.
   */
  function Increment(x: int): (r: int)
    requires InRange(x)
    ensures InRange(r) && (r - (x + 1)) % 0x1_0000_0000 == 0
  {
    if x == MaxValue then MinValue else x + 1
  }
}
