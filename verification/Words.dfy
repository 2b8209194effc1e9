/** The integer types of the C code: sizes, and the cast to int. */
module Words {
  const TWO_31: nat := 0x8000_0000
  const TWO_32: nat := 0x1_0000_0000
  const TWO_64: nat := 0x1_0000_0000_0000_0000

  // The cast of a size_t or a 64-bit long to int.
  function AsInt(n: int): int {
    var low := n % TWO_32;
    if low < TWO_31 then low else low - TWO_32
  }

  // The same as a shift of the number line: the low 32 bits, from -2^31 to 2^31 - 1.
  lemma AsIntIs(n: int)
    ensures AsInt(n) == (n + 0x8000_0000) % 0x1_0000_0000 - 0x8000_0000
  {
  }
}
