/**
  The 64-byte legacy uImage header (`ImageHeader` in the wrapper script):
  seven big-endian 32-bit words, four single bytes and a 32-byte name field,
  the layout `>IIIIIIIBBBB32s`.
*/
module ImageHeader {
  import opened Wrappers
  import opened Conversions

  /** Size of the packed header in bytes: 7 * 4 + 4 * 1 + 32. */
  const HeaderLen: nat := 64
  /** Width of the name field in bytes. */
  const NameLen: nat := 32
  /** Offset of the name field. */
  const NameOffset: nat := 32

  /** An unsigned 32-bit value, the range of a `struct` `I` member. */
  newtype u32 = x: int | 0 <= x < 0x1_0000_0000

  /** Magic word of an upstream legacy uImage. */
  const MagicStock: u32 := 0x2705_1956
  /** Magic word the EC200T bootloader expects. */
  const MagicJbc: u32 := 0x2715_1967

  /** The decoded header, one field per struct member. */
  datatype Header = Header(
    magic: u32,
    hcrc: u32,
    timestamp: u32,
    size: u32,
    load: u32,
    entry: u32,
    dcrc: u32,
    os: bv8,
    arch: bv8,
    imageType: bv8,
    comp: bv8,
    name: string)

  /** A 32-bit CRC register read as the unsigned integer `zlib.crc32(...) & 0xFFFFFFFF`. */
  function Word(c: bv32): u32 {
    WordConv(c);
    c as int as u32
  }

  /** Distinct CRC registers are distinct words. */
  lemma WordInjective(c: bv32, d: bv32)
    requires c != d
    ensures Word(c) != Word(d)
  {
    WordConv(c);
    WordConv(d);
  }

  // Big-endian 32-bit words

  function Byte(n: int): bv8
    requires 0 <= n < 0x100
  {
    n as bv8
  }

  lemma ByteOfInt(n: int)
    requires 0 <= n < 0x100
    ensures Byte(n) as int == n
  {
    ByteConv(n);
  }

  lemma IntOfByte(b: bv8)
    ensures 0 <= b as int < 0x100 && Byte(b as int) == b
  {
    IntConv(b);
  }

  /** `struct.pack(">I", x)`: the four bytes of `x`, most significant first. */
  function U32BE(x: u32): (b: seq<bv8>)
    ensures |b| == 4
  {
    var n := x as int;
    var r0 := n % 0x100_0000;
    var r1 := r0 % 0x1_0000;
    [Byte(n / 0x100_0000), Byte(r0 / 0x1_0000), Byte(r1 / 0x100), Byte(r1 % 0x100)]
  }

  /** `struct.unpack_from(">I", s, i)`: the word in bytes `i..i+4`, most significant first. */
  function U32At(s: seq<bv8>, i: nat): u32
    requires i + 4 <= |s|
  {
    (s[i] as int * 0x100_0000 + s[i + 1] as int * 0x1_0000 + s[i + 2] as int * 0x100 + s[i + 3] as int) as u32
  }

  lemma Div24(q: int, r: int)
    requires 0 <= r < 0x100_0000
    ensures (q * 0x100_0000 + r) / 0x100_0000 == q && (q * 0x100_0000 + r) % 0x100_0000 == r
  {
  }

  lemma Div16(q: int, r: int)
    requires 0 <= r < 0x1_0000
    ensures (q * 0x1_0000 + r) / 0x1_0000 == q && (q * 0x1_0000 + r) % 0x1_0000 == r
  {
  }

  lemma Div8(q: int, r: int)
    requires 0 <= r < 0x100
    ensures (q * 0x100 + r) / 0x100 == q && (q * 0x100 + r) % 0x100 == r
  {
  }

  /** Reading back the four packed bytes of a word gives the word. */
  lemma U32PackUnpack(x: u32)
    ensures U32At(U32BE(x), 0) == x
  {
    var n := x as int;
    var r0 := n % 0x100_0000;
    var r1 := r0 % 0x1_0000;
    assert n == n / 0x100_0000 * 0x100_0000 + r0;
    assert r0 == r0 / 0x1_0000 * 0x1_0000 + r1;
    assert r1 == r1 / 0x100 * 0x100 + r1 % 0x100;
    ByteOfInt(n / 0x100_0000);
    ByteOfInt(r0 / 0x1_0000);
    ByteOfInt(r1 / 0x100);
    ByteOfInt(r1 % 0x100);
  }

  lemma PackDigits(b0: int, b1: int, b2: int, b3: int)
    requires 0 <= b0 < 0x100 && 0 <= b1 < 0x100 && 0 <= b2 < 0x100 && 0 <= b3 < 0x100
    ensures U32BE((b0 * 0x100_0000 + b1 * 0x1_0000 + b2 * 0x100 + b3) as u32) == [Byte(b0), Byte(b1), Byte(b2), Byte(b3)]
  {
    var r1 := b2 * 0x100 + b3;
    var r0 := b1 * 0x1_0000 + r1;
    var n := b0 * 0x100_0000 + r0;
    Div24(b0, r0);
    Div16(b1, r1);
    Div8(b2, b3);
    assert n / 0x100_0000 == b0 && n % 0x100_0000 == r0;
    assert r0 / 0x1_0000 == b1 && r0 % 0x1_0000 == r1;
    assert r1 / 0x100 == b2 && r1 % 0x100 == b3;
    assert (n as u32) as int == n;
  }

  /** Packing the word read from four bytes gives those bytes back. */
  lemma U32UnpackPack(s: seq<bv8>)
    requires |s| == 4
    ensures U32BE(U32At(s, 0)) == s
  {
    IntOfByte(s[0]);
    IntOfByte(s[1]);
    IntOfByte(s[2]);
    IntOfByte(s[3]);
    PackDigits(s[0] as int, s[1] as int, s[2] as int, s[3] as int);
    assert s == [s[0], s[1], s[2], s[3]];
  }

  lemma U32AtSlice(s: seq<bv8>, i: nat)
    requires i + 4 <= |s|
    ensures U32At(s, i) == U32At(s[i..i + 4], 0)
  {
    var t := s[i..i + 4];
    assert t[0] == s[i] && t[1] == s[i + 1] && t[2] == s[i + 2] && t[3] == s[i + 3];
  }

  /** Reading back a packed word gives the word. */
  lemma U32RoundTrip(x: u32, s: seq<bv8>, i: nat)
    requires i + 4 <= |s| && s[i..i + 4] == U32BE(x)
    ensures U32At(s, i) == x
  {
    U32AtSlice(s, i);
    U32PackUnpack(x);
  }

  /** Packing a word read from four bytes gives those bytes back. */
  lemma U32BytesRoundTrip(s: seq<bv8>, i: nat)
    requires i + 4 <= |s|
    ensures U32BE(U32At(s, i)) == s[i..i + 4]
  {
    U32AtSlice(s, i);
    U32UnpackPack(s[i..i + 4]);
  }

  /** Two words read from four bytes each are equal only when the bytes are. */
  lemma U32AtInjective(s: seq<bv8>, i: nat, t: seq<bv8>, j: nat)
    requires i + 4 <= |s| && j + 4 <= |t| && s[i..i + 4] != t[j..j + 4]
    ensures U32At(s, i) != U32At(t, j)
  {
    U32BytesRoundTrip(s, i);
    U32BytesRoundTrip(t, j);
  }

  // The name field

  /** A name that survives encoding unchanged: at most 32 ASCII characters, none of them NUL. */
  predicate EncodableName(s: string) {
    |s| <= NameLen && forall i :: 0 <= i < |s| ==> 0 < s[i] as int < 0x80
  }

  /** The byte of an ASCII character. */
  function ByteOf(c: char): bv8
    requires c as int < 0x80
  {
    (c as int) as bv8
  }

  /** The character of an ASCII byte. */
  function CharOf(b: bv8): char
    requires b < 0x80
  {
    (b as int) as char
  }

  lemma CharByteInverse(c: char, b: bv8)
    requires c as int < 0x80 && b < 0x80
    ensures ByteOf(c) < 0x80 && CharOf(b) as int < 0x80
    ensures CharOf(ByteOf(c)) == c && ByteOf(CharOf(b)) == b
    ensures ByteOf(c) == 0 <==> c == 0 as char
  {
  }

  /** `str.encode("ascii", "ignore")`: the ASCII characters of `s`, in order, as bytes. */
  function AsciiBytes(s: string): (b: seq<bv8>)
    ensures |b| <= |s|
    ensures forall i :: 0 <= i < |b| ==> b[i] < 0x80
  {
    if s == [] then []
    else (if s[0] as int < 0x80 then [ByteOf(s[0])] else []) + AsciiBytes(s[1..])
  }

  /** `bytes.decode("ascii", "ignore")`: the bytes below 0x80, in order, as characters. */
  function AsciiChars(b: seq<bv8>): (s: string)
    ensures |s| <= |b|
    ensures forall i :: 0 <= i < |s| ==> s[i] as int < 0x80
  {
    if b == [] then []
    else (if b[0] < 0x80 then [CharOf(b[0])] else []) + AsciiChars(b[1..])
  }

  /** `split(b"\x00", 1)[0]`: the longest prefix of `b` without a zero byte. */
  function BeforeNul(b: seq<bv8>): (p: seq<bv8>)
    ensures p <= b
    ensures forall i :: 0 <= i < |p| ==> p[i] != 0
    ensures |p| < |b| ==> b[|p|] == 0
  {
    if b == [] || b[0] == 0 then [] else [b[0]] + BeforeNul(b[1..])
  }

  function Zeros(n: nat): (z: seq<bv8>)
    ensures |z| == n && forall i :: 0 <= i < n ==> z[i] == 0
  {
    seq(n, _ => 0)
  }

  /** The packed name: its ASCII bytes cut to 32 and right-padded with zero bytes. */
  function NameField(name: string): (f: seq<bv8>)
    ensures |f| == NameLen
  {
    var a := AsciiBytes(name);
    var k := if |a| < NameLen then |a| else NameLen;
    a[..k] + Zeros(NameLen - k)
  }

  /** The name read back from a packed name field. */
  function NameOf(field: seq<bv8>): string {
    AsciiChars(BeforeNul(field))
  }

  /** What `name` becomes after one encode and decode. */
  function StoredName(name: string): (s: string)
    ensures EncodableName(s)
    ensures EncodableName(name) ==> s == name
  {
    var p := BeforeNul(NameField(name));
    assert EncodableName(AsciiChars(p)) by { AsciiCharsOfNonzero(p); }
    assert EncodableName(name) ==> AsciiChars(p) == name by {
      if EncodableName(name) { NameRoundTrip(name); }
    }
    AsciiChars(p)
  }

  /**
    A name field as the encoder writes it for an encodable name: ASCII bytes,
    and once a zero byte appears, only zero bytes after it.
  */
  predicate CanonicalNameField(f: seq<bv8>) {
    && |f| == NameLen
    && (forall i :: 0 <= i < |f| ==> f[i] < 0x80)
    && (forall i, j :: 0 <= i < j < |f| && f[i] == 0 ==> f[j] == 0)
  }

  lemma {:induction false} AsciiCharsOfNonzero(p: seq<bv8>)
    requires forall i :: 0 <= i < |p| ==> p[i] != 0
    ensures forall i :: 0 <= i < |AsciiChars(p)| ==> AsciiChars(p)[i] != 0 as char
  {
    if p != [] {
      AsciiCharsOfNonzero(p[1..]);
      var head: string := if p[0] < 0x80 then [CharOf(p[0])] else [];
      if p[0] < 0x80 { CharByteInverse(CharOf(p[0]), p[0]); }
      assert AsciiChars(p) == head + AsciiChars(p[1..]);
    }
  }

  lemma {:induction false} AsciiCharsOfBytes(s: string)
    requires forall i :: 0 <= i < |s| ==> s[i] as int < 0x80
    ensures AsciiChars(AsciiBytes(s)) == s
  {
    if s != [] {
      AsciiCharsOfBytes(s[1..]);
      var b0 := ByteOf(s[0]);
      CharByteInverse(s[0], 0);
      var rest := AsciiBytes(s[1..]);
      assert AsciiBytes(s) == [b0] + rest;
      assert ([b0] + rest)[1..] == rest;
      assert AsciiChars([b0] + rest) == [s[0]] + AsciiChars(rest);
      assert s == [s[0]] + s[1..];
    }
  }

  lemma {:induction false} AsciiBytesOfChars(b: seq<bv8>)
    requires forall i :: 0 <= i < |b| ==> b[i] < 0x80
    ensures AsciiBytes(AsciiChars(b)) == b
  {
    if b != [] {
      AsciiBytesOfChars(b[1..]);
      CharByteInverse(0 as char, b[0]);
      assert AsciiChars(b) == [CharOf(b[0])] + AsciiChars(b[1..]);
      assert b == [b[0]] + b[1..];
    }
  }

  lemma {:induction false} AsciiBytesNonzero(s: string)
    requires forall i :: 0 <= i < |s| ==> 0 < s[i] as int < 0x80
    ensures |AsciiBytes(s)| == |s|
    ensures forall i :: 0 <= i < |s| ==> AsciiBytes(s)[i] != 0
  {
    if s != [] {
      AsciiBytesNonzero(s[1..]);
      CharByteInverse(s[0], 0);
      assert AsciiBytes(s) == [ByteOf(s[0])] + AsciiBytes(s[1..]);
    }
  }

  lemma {:induction false} BeforeNulPadded(p: seq<bv8>, n: nat)
    requires forall i :: 0 <= i < |p| ==> p[i] != 0
    ensures BeforeNul(p + Zeros(n)) == p
  {
    var padded := p + Zeros(n);
    if p == [] {
      assert padded == Zeros(n);
      assert padded == [] || padded[0] == 0;
    } else {
      BeforeNulPadded(p[1..], n);
      assert padded[0] == p[0] != 0;
      assert padded[1..] == p[1..] + Zeros(n);
      assert BeforeNul(padded) == [p[0]] + BeforeNul(padded[1..]);
      assert p == [p[0]] + p[1..];
    }
  }

  /** An encodable name is read back unchanged from its field. */
  lemma NameRoundTrip(name: string)
    requires EncodableName(name)
    ensures NameOf(NameField(name)) == name
  {
    var a := AsciiBytes(name);
    AsciiBytesNonzero(name);
    var f := NameField(name);
    assert a[..|a|] == a;
    BeforeNulPadded(a, NameLen - |a|);
    AsciiCharsOfBytes(name);
  }

  /** A canonical field is written back unchanged from the name read out of it. */
  lemma FieldRoundTrip(f: seq<bv8>)
    requires CanonicalNameField(f)
    ensures NameField(NameOf(f)) == f
  {
    var p := BeforeNul(f);
    AsciiBytesOfChars(p);
    assert AsciiBytes(NameOf(f)) == p;
    assert f == p + f[|p|..];
    assert f[|p|..] == Zeros(NameLen - |p|);
  }

  /** A name without NUL characters, as every command-line argument is. */
  predicate NulFree(s: string) {
    forall i :: 0 <= i < |s| ==> s[i] != 0 as char
  }

  lemma {:induction false} AsciiBytesOfNulFree(s: string)
    requires NulFree(s)
    ensures forall i :: 0 <= i < |AsciiBytes(s)| ==> AsciiBytes(s)[i] != 0
  {
    if s != [] {
      AsciiBytesOfNulFree(s[1..]);
      var head: seq<bv8> := if s[0] as int < 0x80 then [ByteOf(s[0])] else [];
      if s[0] as int < 0x80 { CharByteInverse(s[0], 0); }
      assert AsciiBytes(s) == head + AsciiBytes(s[1..]);
    }
  }

  /** The field of a name without NUL is canonical. */
  lemma NulFreeFieldCanonical(name: string)
    requires NulFree(name)
    ensures CanonicalNameField(NameField(name))
  {
    var a := AsciiBytes(name);
    AsciiBytesOfNulFree(name);
    var k := if |a| < NameLen then |a| else NameLen;
    var f := NameField(name);
    assert forall i :: 0 <= i < k ==> f[i] == a[i] && f[i] != 0;
    assert forall i :: k <= i < NameLen ==> f[i] == 0;
  }

  /**
    Writing back the stored form of a name without NUL gives the same field:
    a name is normalised once and then stays put.
  */
  lemma StoredNameField(name: string)
    requires NulFree(name)
    ensures NameField(StoredName(name)) == NameField(name)
  {
    NulFreeFieldCanonical(name);
    FieldRoundTrip(NameField(name));
  }

  /** Encoding keeps order: the ASCII bytes of a concatenation are those of its parts, concatenated. */
  lemma {:induction false} AsciiBytesConcat(s: string, t: string)
    ensures AsciiBytes(s + t) == AsciiBytes(s) + AsciiBytes(t)
  {
    if s == [] {
      assert s + t == t;
    } else {
      assert (s + t)[0] == s[0];
      assert (s + t)[1..] == s[1..] + t;
      AsciiBytesConcat(s[1..], t);
    }
  }

  /** Decoding keeps order: the ASCII characters of a concatenation are those of its parts, concatenated. */
  lemma {:induction false} AsciiCharsConcat(a: seq<bv8>, b: seq<bv8>)
    ensures AsciiChars(a + b) == AsciiChars(a) + AsciiChars(b)
  {
    if a == [] {
      assert a + b == b;
    } else {
      assert (a + b)[0] == a[0];
      assert (a + b)[1..] == a[1..] + b;
      AsciiCharsConcat(a[1..], b);
    }
  }

  /** A non-ASCII character anywhere in a name is dropped: the packed field is as if it were absent. */
  lemma NonAsciiDropped(s: string, i: nat, c: char)
    requires i <= |s| && c as int >= 0x80
    ensures NameField(s[..i] + [c] + s[i..]) == NameField(s)
  {
    CharDropped(s[..i], s[i..], c);
    assert s[..i] + s[i..] == s;
  }

  lemma CharDropped(front: string, back: string, c: char)
    requires c as int >= 0x80
    ensures AsciiBytes(front + [c] + back) == AsciiBytes(front + back)
  {
    var bytes := AsciiBytes(front);
    NonAsciiCharAlone(c);
    AsciiBytesConcat(front, [c]);
    assert AsciiBytes(front + [c]) == bytes + [];
    AsciiBytesConcat(front + [c], back);
    AsciiBytesConcat(front, back);
  }

  lemma NonAsciiCharAlone(c: char)
    requires c as int >= 0x80
    ensures AsciiBytes([c]) == []
  {
    var s := [c];
    assert s[0] == c && !(s[0] as int < 0x80);
    assert s[1..] == [];
  }

  /** A non-ASCII byte anywhere in a name field is dropped when it is read. */
  lemma NonAsciiByteDropped(b: seq<bv8>, i: nat, x: bv8)
    requires i <= |b| && x >= 0x80
    ensures AsciiChars(b[..i] + [x] + b[i..]) == AsciiChars(b)
  {
    ByteDropped(b[..i], b[i..], x);
    assert b[..i] + b[i..] == b;
  }

  lemma ByteDropped(front: seq<bv8>, back: seq<bv8>, x: bv8)
    requires x >= 0x80
    ensures AsciiChars(front + [x] + back) == AsciiChars(front + back)
  {
    var chars := AsciiChars(front);
    NonAsciiByteAlone(x);
    AsciiCharsConcat(front, [x]);
    assert AsciiChars(front + [x]) == chars + [];
    AsciiCharsConcat(front + [x], back);
    AsciiCharsConcat(front, back);
  }

  lemma NonAsciiByteAlone(x: bv8)
    requires x >= 0x80
    ensures AsciiChars([x]) == []
  {
    var b := [x];
    assert b[0] == x && !(b[0] < 0x80);
    assert b[1..] == [];
  }

  /**
    What any name without NUL is stored as: its ASCII characters, in order,
    the first 32 of them; every other character is gone.
  */
  lemma StoredNameKeepsAscii(name: string)
    requires NulFree(name)
    ensures var a := AsciiBytes(name);
      AsciiBytes(StoredName(name)) == a[..if |a| < NameLen then |a| else NameLen]
  {
    var a := AsciiBytes(name);
    var k := if |a| < NameLen then |a| else NameLen;
    var p := a[..k];
    AsciiBytesOfNulFree(name);
    assert forall i :: 0 <= i < |p| ==> p[i] != 0 && p[i] < 0x80;
    BeforeNulPadded(p, NameLen - k);
    assert BeforeNul(NameField(name)) == p;
    assert StoredName(name) == AsciiChars(p);
    AsciiBytesOfChars(p);
  }

  /** Only the first 32 ASCII bytes are kept: whatever follows them does not reach the field. */
  lemma Truncated(s: string, t: string)
    requires |AsciiBytes(s)| >= NameLen
    ensures NameField(s + t) == NameField(s)
  {
    AsciiBytesConcat(s, t);
    var a := AsciiBytes(s);
    assert (a + AsciiBytes(t))[..NameLen] == a[..NameLen];
  }

  /** A shorter name is packed whole: its ASCII bytes in order, then zero bytes up to 32. */
  lemma ShortNameField(s: string)
    requires |AsciiBytes(s)| <= NameLen
    ensures NameField(s)[..|AsciiBytes(s)|] == AsciiBytes(s)
    ensures forall i :: |AsciiBytes(s)| <= i < NameLen ==> NameField(s)[i] == 0
  {
    var a := AsciiBytes(s);
    assert a[..|a|] == a;
  }

  // The whole header

  /** `pack_from_fields`: the 64 bytes of a header. */
  function Encode(h: Header): (b: seq<bv8>)
    ensures |b| == HeaderLen
  {
    PackedWords(h) + [h.os, h.arch, h.imageType, h.comp] + NameField(h.name)
  }

  /** The seven words of a header, packed. */
  function PackedWords(h: Header): (w: seq<bv8>)
    ensures |w| == 28
  {
    U32BE(h.magic) + U32BE(h.hcrc) + U32BE(h.timestamp) + U32BE(h.size)
      + U32BE(h.load) + U32BE(h.entry) + U32BE(h.dcrc)
  }

  lemma PackedWordsLayout(h: Header)
    ensures PackedWords(h)[0..4] == U32BE(h.magic)
    ensures PackedWords(h)[4..8] == U32BE(h.hcrc)
    ensures PackedWords(h)[8..12] == U32BE(h.timestamp)
    ensures PackedWords(h)[12..16] == U32BE(h.size)
    ensures PackedWords(h)[16..20] == U32BE(h.load)
    ensures PackedWords(h)[20..24] == U32BE(h.entry)
    ensures PackedWords(h)[24..28] == U32BE(h.dcrc)
  {
  }

  /**
    The layout of the packed header: seven words at offsets 0, 4, ..., 24,
    the four single bytes at 28..32 and the name field at 32..64.
  */
  lemma EncodeLayout(h: Header)
    ensures Encode(h)[0..4] == U32BE(h.magic)
    ensures Encode(h)[4..8] == U32BE(h.hcrc)
    ensures Encode(h)[8..12] == U32BE(h.timestamp)
    ensures Encode(h)[12..16] == U32BE(h.size)
    ensures Encode(h)[16..20] == U32BE(h.load)
    ensures Encode(h)[20..24] == U32BE(h.entry)
    ensures Encode(h)[24..28] == U32BE(h.dcrc)
    ensures Encode(h)[28..32] == [h.os, h.arch, h.imageType, h.comp]
    ensures Encode(h)[NameOffset..HeaderLen] == NameField(h.name)
  {
    var w := PackedWords(h);
    PackedWordsLayout(h);
    var e := Encode(h);
    assert e[..28] == w;
    assert e[0..4] == w[0..4] && e[4..8] == w[4..8] && e[8..12] == w[8..12];
    assert e[12..16] == w[12..16] && e[16..20] == w[16..20];
    assert e[20..24] == w[20..24] && e[24..28] == w[24..28];
  }

  /**
    `unpack_from_bytes`: the header in the first 64 bytes of `blob`, or None
    when `blob` is shorter than a header (where `struct.unpack` raises).
  */
  function Decode(blob: seq<bv8>): (r: Option<Header>)
    ensures r.Some? <==> |blob| >= HeaderLen
    ensures r.Some? ==> EncodableName(r.value.name)
  {
    if |blob| < HeaderLen then None
    else
      var name := NameOf(blob[NameOffset..HeaderLen]);
      assert EncodableName(name) by {
        AsciiCharsOfNonzero(BeforeNul(blob[NameOffset..HeaderLen]));
      }
      Some(Header(
        U32At(blob, 0), U32At(blob, 4), U32At(blob, 8), U32At(blob, 12),
        U32At(blob, 16), U32At(blob, 20), U32At(blob, 24),
        blob[28], blob[29], blob[30], blob[31],
        name))
  }

  /** Bytes past the header do not affect decoding. */
  lemma DecodeReadsHeaderOnly(a: seq<bv8>, b: seq<bv8>)
    requires |a| >= HeaderLen && |b| >= HeaderLen && a[..HeaderLen] == b[..HeaderLen]
    ensures Decode(a) == Decode(b)
  {
    assert forall i :: 0 <= i < HeaderLen ==> a[i] == b[i] by {
      forall i | 0 <= i < HeaderLen ensures a[i] == b[i] {
        assert a[..HeaderLen][i] == b[..HeaderLen][i];
      }
    }
    assert a[NameOffset..HeaderLen] == b[NameOffset..HeaderLen];
  }

  /**
    Decoding an encoding gives every field back, with the name as it is
    stored: ASCII only, at most 32 bytes, cut at the first NUL.
  */
  lemma DecodeEncode(h: Header)
    ensures Decode(Encode(h)) == Some(h.(name := StoredName(h.name)))
  {
    var b := Encode(h);
    EncodeLayout(h);
    U32RoundTrip(h.magic, b, 0);
    U32RoundTrip(h.hcrc, b, 4);
    U32RoundTrip(h.timestamp, b, 8);
    U32RoundTrip(h.size, b, 12);
    U32RoundTrip(h.load, b, 16);
    U32RoundTrip(h.entry, b, 20);
    U32RoundTrip(h.dcrc, b, 24);
  }

  /** The header at the front of an image decodes the same whatever follows it. */
  lemma DecodeEncodePrefix(h: Header, rest: seq<bv8>)
    ensures Decode(Encode(h) + rest) == Some(h.(name := StoredName(h.name)))
  {
    var image := Encode(h) + rest;
    assert image[..HeaderLen] == Encode(h);
    DecodeReadsHeaderOnly(image, Encode(h));
    DecodeEncode(h);
  }

  /** The round-trip law: a header with an encodable name survives encoding and decoding. */
  lemma DecodeEncodeExact(h: Header)
    requires EncodableName(h.name)
    ensures Decode(Encode(h)) == Some(h)
  {
    DecodeEncode(h);
  }

  /** The converse law: 64 bytes whose name field is canonical are re-encoded byte for byte. */
  lemma EncodeDecode(b: seq<bv8>)
    requires |b| == HeaderLen && CanonicalNameField(b[NameOffset..])
    ensures Decode(b).Some? && Encode(Decode(b).value) == b
  {
    var h := Decode(b).value;
    var e := Encode(h);
    EncodeLayout(h);
    assert e[NameOffset..HeaderLen] == b[NameOffset..HeaderLen] by {
      FieldRoundTrip(b[NameOffset..]);
      assert b[NameOffset..HeaderLen] == b[NameOffset..];
    }
    WordsRoundTrip(h, b);
    SameSlicesSameHeader(e, b);
  }

  lemma WordsRoundTrip(h: Header, b: seq<bv8>)
    requires |b| == HeaderLen
    requires h.magic == U32At(b, 0) && h.hcrc == U32At(b, 4) && h.timestamp == U32At(b, 8)
    requires h.size == U32At(b, 12) && h.load == U32At(b, 16) && h.entry == U32At(b, 20)
    requires h.dcrc == U32At(b, 24)
    ensures U32BE(h.magic) == b[0..4] && U32BE(h.hcrc) == b[4..8] && U32BE(h.timestamp) == b[8..12]
    ensures U32BE(h.size) == b[12..16] && U32BE(h.load) == b[16..20] && U32BE(h.entry) == b[20..24]
    ensures U32BE(h.dcrc) == b[24..28]
  {
    U32BytesRoundTrip(b, 0);
    U32BytesRoundTrip(b, 4);
    U32BytesRoundTrip(b, 8);
    U32BytesRoundTrip(b, 12);
    U32BytesRoundTrip(b, 16);
    U32BytesRoundTrip(b, 20);
    U32BytesRoundTrip(b, 24);
  }

  lemma SameSlicesSameHeader(e: seq<bv8>, b: seq<bv8>)
    requires |e| == |b| == HeaderLen
    requires e[0..4] == b[0..4] && e[4..8] == b[4..8] && e[8..12] == b[8..12]
    requires e[12..16] == b[12..16] && e[16..20] == b[16..20] && e[20..24] == b[20..24]
    requires e[24..28] == b[24..28] && e[28] == b[28] && e[29] == b[29] && e[30] == b[30] && e[31] == b[31]
    requires e[32..64] == b[32..64]
    ensures e == b
  {
    forall i | 0 <= i < HeaderLen ensures e[i] == b[i] {
      if i < 4 { assert e[i] == e[0..4][i]; }
      else if i < 8 { assert e[i] == e[4..8][i - 4]; }
      else if i < 12 { assert e[i] == e[8..12][i - 8]; }
      else if i < 16 { assert e[i] == e[12..16][i - 12]; }
      else if i < 20 { assert e[i] == e[16..20][i - 16]; }
      else if i < 24 { assert e[i] == e[20..24][i - 20]; }
      else if i < 28 { assert e[i] == e[24..28][i - 24]; }
      else if i >= 32 { assert e[i] == e[32..64][i - 32]; }
    }
  }

  /**
    Bytes 4..8 hold the header checksum and nothing else: changing `hcrc`
    changes only those four bytes, and they become the new value packed.
  */
  lemma EncodeHcrcBytes(h: Header, v: u32)
    ensures Encode(h.(hcrc := v))[4..8] == U32BE(v)
    ensures forall i :: 0 <= i < HeaderLen && !(4 <= i < 8) ==> Encode(h.(hcrc := v))[i] == Encode(h)[i]
  {
    var a, b := Encode(h), Encode(h.(hcrc := v));
    EncodeLayout(h);
    EncodeLayout(h.(hcrc := v));
    forall i | 0 <= i < HeaderLen && !(4 <= i < 8)
      ensures b[i] == a[i]
    {
      if i < 4 {
        assert a[i] == a[0..4][i] && b[i] == b[0..4][i];
      } else if i < 12 {
        assert a[i] == a[8..12][i - 8] && b[i] == b[8..12][i - 8];
      } else if i < 16 {
        assert a[i] == a[12..16][i - 12] && b[i] == b[12..16][i - 12];
      } else if i < 20 {
        assert a[i] == a[16..20][i - 16] && b[i] == b[16..20][i - 16];
      } else if i < 24 {
        assert a[i] == a[20..24][i - 20] && b[i] == b[20..24][i - 20];
      } else if i < 28 {
        assert a[i] == a[24..28][i - 24] && b[i] == b[24..28][i - 24];
      } else if i < 32 {
        assert a[i] == a[28..32][i - 28] && b[i] == b[28..32][i - 28];
      } else {
        assert a[i] == a[NameOffset..HeaderLen][i - 32] && b[i] == b[NameOffset..HeaderLen][i - 32];
      }
    }
  }
}
