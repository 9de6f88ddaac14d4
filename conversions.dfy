/**
  The two directions of the conversion between machine words and
  mathematical integers, for the widths the header uses.
*/
module Conversions {

  /** A 32-bit register read as an integer converts back to itself. */
  lemma WordConv(c: bv32)
    ensures 0 <= c as int < 0x1_0000_0000 && (c as int) as bv32 == c
  {
  }

  /** An integer in byte range survives the round trip through `bv8`. */
  lemma ByteConv(n: int)
    requires 0 <= n < 0x100
    ensures (n as bv8) as int == n
  {
    assert n % 0x100 == n;
  }

  /** A byte read as an integer is in byte range and converts back to itself. */
  lemma IntConv(b: bv8)
    ensures 0 <= b as int < 0x100 && (b as int) as bv8 == b
  {
  }
}
