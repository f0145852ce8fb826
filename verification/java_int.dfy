/**
 Java's 32-bit `int`, where the selectors do arithmetic on one.
 */
module JavaInt {

  newtype Int32 = x: int | -0x8000_0000 <= x < 0x8000_0000

  const MaxInt: int := 0x7fff_ffff

  /** Java's `a - b` on `int`: the exact difference, wrapped around into the 32-bit range. */
  function Sub(a: Int32, b: Int32): (r: Int32)
    ensures a as int - b as int > MaxInt ==> r as int == a as int - b as int - 0x1_0000_0000
    ensures -0x8000_0000 <= a as int - b as int <= MaxInt ==> r as int == a as int - b as int
    ensures a as int - b as int < -0x8000_0000 ==> r as int == a as int - b as int + 0x1_0000_0000
  {
    ((a as int - b as int + 0x8000_0000) % 0x1_0000_0000 - 0x8000_0000) as Int32
  }
}
