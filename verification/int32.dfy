/** The C `int` of the program: 32-bit two's complement. Dafny's `int` is
    unbounded, so the width is written out here and arithmetic that the
    program does on `int` is passed through `Wrap`. */
module Int32 {

  const INT_MIN: int := -0x8000_0000
  const INT_MAX: int := 0x7fff_ffff
  const MODULUS: int := 0x1_0000_0000

  predicate IsInt32(x: int) {
    INT_MIN <= x <= INT_MAX
  }

  /** The two's-complement reading of the low 32 bits of x: what an `int`
      holds after an arithmetic result x is stored in it. */
  function Wrap(x: int): (r: int)
    ensures IsInt32(r)
    ensures (r - x) % MODULUS == 0
    ensures IsInt32(x) ==> r == x
  {
    (x - INT_MIN) % MODULUS + INT_MIN
  }
}
