/** The integers of C: int, and size_t with 64 bits. */
module Ints {
  const INT_MAX := 0x7FFF_FFFF
  const SIZE_VALUES := 0x1_0000_0000_0000_0000

  // The conversion of a size_t to an int.
  function ToInt(n: nat): (i: int)
    ensures -INT_MAX - 1 <= i <= INT_MAX && (i - n) % (2 * (INT_MAX + 1)) == 0
  {
    var r := n % (2 * (INT_MAX + 1));
    if r <= INT_MAX then r else r - 2 * (INT_MAX + 1)
  }

  // What a signed field of 31 bits keeps of an int.
  function ToInt31(i: int): (r: int)
    ensures -0x4000_0000 <= r < 0x4000_0000 && (r - i) % 0x8000_0000 == 0
  {
    var r := i % 0x8000_0000;
    if r < 0x4000_0000 then r else r - 0x8000_0000
  }
}
