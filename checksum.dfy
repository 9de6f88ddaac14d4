/**
  The CRC-32 that `zlib.crc32` computes: the ISO-HDLC / ITU-T V.42 CRC with
  the reflected polynomial 0xEDB88320, the register preset to all ones and
  the final value complemented, as in the sample code of RFC 1952 section 8.
  The wrapper uses it for both the header checksum and the payload checksum.
*/
module Checksum {

  /** The reflected generator polynomial. */
  const Polynomial: bv32 := 0xEDB8_8320

  /** Preset of the register, also the final complement mask. */
  const AllOnes: bv32 := 0xFFFF_FFFF

  /** One shift of the reflected register. */
  function BitStep(c: bv32): bv32 {
    if c & 1 == 1 then (c >> 1) ^ Polynomial else c >> 1
  }

  /** Feeds one byte into the register, least significant bit first. */
  function ByteStep(c: bv32, b: bv8): bv32 {
    var x := c ^ b as bv32;
    BitStep(BitStep(BitStep(BitStep(BitStep(BitStep(BitStep(BitStep(x))))))))
  }

  /** The register after feeding `data`, byte by byte, into a register holding `init`. */
  function Register(init: bv32, data: seq<bv8>): bv32
    decreases |data|
  {
    if data == [] then init
    else ByteStep(Register(init, data[..|data| - 1]), data[|data| - 1])
  }

  /** CRC-32 of `data`. */
  function Crc32(data: seq<bv8>): bv32 {
    Register(AllOnes, data) ^ AllOnes
  }

  /**
    The byte loop of `zlib.crc32`: an accumulator preset to all ones, updated
    once per byte and complemented at the end.
  */
  method ComputeCrc32(data: seq<bv8>) returns (crc: bv32)
    ensures crc == Crc32(data)
  {
    var c := AllOnes;
    for i := 0 to |data|
      invariant c == Register(AllOnes, data[..i])
    {
      assert data[..i + 1][..i] == data[..i];
      c := ByteStep(c, data[i]);
    }
    assert data[..|data|] == data;
    crc := c ^ AllOnes;
  }

  /** Feeding `a + b` is feeding `a`, then feeding `b` from where `a` left off. */
  lemma {:induction false} RegisterConcat(init: bv32, a: seq<bv8>, b: seq<bv8>)
    ensures Register(init, a + b) == Register(Register(init, a), b)
    decreases |b|
  {
    if b == [] {
      assert a + b == a;
    } else {
      var b' := b[..|b| - 1];
      assert (a + b)[..|a + b| - 1] == a + b';
      RegisterConcat(init, a, b');
    }
  }

  /** One shift loses no information: the bit shifted out decides the top bit of the result. */
  lemma BitStepInjective(x: bv32, y: bv32)
    requires x != y
    ensures BitStep(x) != BitStep(y)
  {
    LowBit(x);
    LowBit(y);
    if x & 1 == y & 1 {
      ShiftInjective(x, y);
    } else if x & 1 == 1 {
      TopBit(x, y);
      assert BitStep(x) & 0x8000_0000 != BitStep(y) & 0x8000_0000;
    } else {
      TopBit(y, x);
      assert BitStep(x) & 0x8000_0000 != BitStep(y) & 0x8000_0000;
    }
  }

  lemma LowBit(x: bv32)
    ensures x & 1 == 0 || x & 1 == 1
  {
  }

  lemma ShiftInjective(x: bv32, y: bv32)
    requires x != y && x & 1 == y & 1
    ensures x >> 1 != y >> 1
  {
    assert x == ((x >> 1) << 1) | (x & 1);
    assert y == ((y >> 1) << 1) | (y & 1);
  }

  /** The polynomial has its top bit set and a shifted register does not. */
  lemma TopBit(x: bv32, y: bv32)
    ensures ((x >> 1) ^ Polynomial) & 0x8000_0000 == 0x8000_0000
    ensures (y >> 1) & 0x8000_0000 == 0
  {
  }

  /** Different registers stay different after the same byte. */
  lemma ByteStepInjective(c: bv32, d: bv32, b: bv8)
    requires c != d
    ensures ByteStep(c, b) != ByteStep(d, b)
  {
    var x, y := c ^ b as bv32, d ^ b as bv32;
    assert x != y;
    BitStepInjective(x, y);
    BitStepInjective(BitStep(x), BitStep(y));
    BitStepInjective(BitStep(BitStep(x)), BitStep(BitStep(y)));
    BitStepInjective(BitStep(BitStep(BitStep(x))), BitStep(BitStep(BitStep(y))));
    BitStepInjective(BitStep(BitStep(BitStep(BitStep(x)))), BitStep(BitStep(BitStep(BitStep(y)))));
    BitStepInjective(BitStep(BitStep(BitStep(BitStep(BitStep(x))))), BitStep(BitStep(BitStep(BitStep(BitStep(y))))));
    BitStepInjective(BitStep(BitStep(BitStep(BitStep(BitStep(BitStep(x)))))), BitStep(BitStep(BitStep(BitStep(BitStep(BitStep(y)))))));
    BitStepInjective(BitStep(BitStep(BitStep(BitStep(BitStep(BitStep(BitStep(x))))))), BitStep(BitStep(BitStep(BitStep(BitStep(BitStep(BitStep(y))))))));
  }

  /** Different bytes give different registers from the same register. */
  lemma ByteStepInjectiveInByte(c: bv32, a: bv8, b: bv8)
    requires a != b
    ensures ByteStep(c, a) != ByteStep(c, b)
  {
    assert c ^ 0 ^ a as bv32 != c ^ b as bv32;
    ByteStepInjective(c ^ 0, c ^ (a as bv32) ^ (b as bv32), b);
    assert ByteStep(c ^ (a as bv32) ^ (b as bv32), b) == ByteStep(c, a);
  }

  /** Two different registers fed the same bytes never meet. */
  lemma {:induction false} RegisterInjective(c: bv32, d: bv32, data: seq<bv8>)
    requires c != d
    ensures Register(c, data) != Register(d, data)
    decreases |data|
  {
    if data != [] {
      var front := data[..|data| - 1];
      RegisterInjective(c, d, front);
      ByteStepInjective(Register(c, front), Register(d, front), data[|data| - 1]);
    }
  }

  /**
    CRC-32 detects every corruption of a single byte: two inputs of the same
    length that differ in exactly one position have different checksums.
  */
  lemma Crc32DetectsByteError(a: seq<bv8>, b: seq<bv8>, k: nat)
    requires |a| == |b| && k < |a|
    requires a[k] != b[k]
    requires forall i :: 0 <= i < |a| && i != k ==> a[i] == b[i]
    ensures Crc32(a) != Crc32(b)
  {
    var front, back := a[..k], a[k + 1..];
    assert a == front + [a[k]] + back;
    assert b == front + [b[k]] + back;
    var r := Register(AllOnes, front);
    RegisterConcat(AllOnes, front + [a[k]], back);
    RegisterConcat(AllOnes, front + [b[k]], back);
    assert (front + [a[k]])[..k] == front;
    assert (front + [b[k]])[..k] == front;
    ByteStepInjectiveInByte(r, a[k], b[k]);
    RegisterInjective(ByteStep(r, a[k]), ByteStep(r, b[k]), back);
  }

  /** The standard check value of this CRC: the nine ASCII digits "123456789". */
  lemma Crc32CheckValue()
    ensures Crc32([0x31, 0x32, 0x33, 0x34, 0x35, 0x36, 0x37, 0x38, 0x39]) == 0xCBF4_3926
  {
    var s: seq<bv8> := [0x31, 0x32, 0x33, 0x34, 0x35, 0x36, 0x37, 0x38, 0x39];
    assert Register(AllOnes, s[..1]) == 0x7C23_1048;
    assert Register(AllOnes, s[..2]) == 0xB0AC_BB32 by { assert s[..2][..1] == s[..1]; }
    assert Register(AllOnes, s[..3]) == 0x77B7_9C2D by { assert s[..3][..2] == s[..2]; }
    assert Register(AllOnes, s[..4]) == 0x641C_1F5C by { assert s[..4][..3] == s[..3]; }
    assert Register(AllOnes, s[..5]) == 0x340A_C5E3 by { assert s[..5][..4] == s[..4]; }
    assert Register(AllOnes, s[..6]) == 0xF68D_2C9E by { assert s[..6][..5] == s[..5]; }
    assert Register(AllOnes, s[..7]) == 0xAFFC_9660 by { assert s[..7][..6] == s[..6]; }
    assert Register(AllOnes, s[..8]) == 0x651F_2550 by { assert s[..8][..7] == s[..7]; }
    assert Register(AllOnes, s) == 0x340B_C6D9 by { assert s[..9] == s; assert s[..9][..8] == s[..8]; }
  }

  /** The payload checksum of the four bytes DE AD BE EF. */
  lemma Crc32DeadBeef()
    ensures Crc32([0xDE, 0xAD, 0xBE, 0xEF]) == 0x7C9C_A35A
  {
    var s: seq<bv8> := [0xDE, 0xAD, 0xBE, 0xEF];
    assert Register(AllOnes, s[..1]) == 0x4C96_EFA1;
    assert Register(AllOnes, s[..2]) == 0x09FA_DAC4 by { assert s[..2][..1] == s[..1]; }
    assert Register(AllOnes, s[..3]) == 0xB0D9_62F8 by { assert s[..3][..2] == s[..2]; }
    assert Register(AllOnes, s) == 0x8363_5CA5 by { assert s[..4] == s; assert s[..4][..3] == s[..3]; }
  }
}
