# jbonecloud_wrap in Dafny

`scripts/jbonecloud_wrap.py` turns an OpenWrt legacy uImage into the variant
that the EC200T (JBoneCloud/MTK) bootloader will boot. It reads the 64-byte
header (`>IIIIIIIBBBB32s`) and replaces the upstream magic 0x27051956 with
the vendor magic 0x27151967. It settles how many payload bytes the payload
checksum covers and applies the `--name`, `--load`, `--entry` and
`--timestamp` overrides. It then recomputes the payload CRC-32 and the
header CRC-32 and writes the new header in front of the unchanged payload.

This project models that core and proves its laws:

- `Checksum` defines the CRC-32 that `zlib.crc32` computes: reflected
  polynomial 0xEDB88320, preset and final complement 0xFFFFFFFF, as in the
  sample code of RFC 1952 section 8. It has a byte loop proved against that
  definition, the concatenation law of the register, detection of every
  single-byte error, and the standard check value.
- `ImageHeader` covers `unpack_from_bytes` and `pack_from_fields`:
  - big-endian words over bytes;
  - the lossy name field (ASCII only, cut at the first NUL, truncated to 32
    bytes, zero padded);
  - round trips in both directions.
- `HeaderChecksum` covers `compute_header_crc`. It works on a fresh copy of
  the caller's `bytearray`, with bytes 4..8 zeroed.
- `ImageCheck` says what a bootloader check of the image means:
  - the vendor magic;
  - the stored header checksum;
  - the stored payload checksum over the declared size.

  It also states which corruptions such a check detects.
- `WrapPolicy` covers lines 139-178 of `main`:
  - `Wrapping` and `Rewritten` are the specification;
  - the methods `Wrap`, `Rewrite`, `Seal` and `PackHeader` follow the
    script step by step, mutating the field record key by key and packing
    into a `bytearray`;
  - the lemmas cover the output, the override precedence, the error cases,
    idempotence and a worked example.

Header words are the newtype `u32`, bytes are `bv8` and CRC registers are
`bv32`. Override values are unbounded integers, as `int(v, 0)` produces
them. Packing a value that does not fit 32 bits is the `struct.error` the
script would raise. It is modelled as `FieldOutOfRange`, reported for the
first such field in packing order.

## Model

| member | source | states |
|---|---|---|
| Checksum.ComputeCrc32 | scripts/jbonecloud_wrap.py:168 | the byte loop of `zlib.crc32` (register preset to all ones, one update per byte, final complement) returns the CRC-32 of its input |
| Checksum.RegisterConcat | scripts/jbonecloud_wrap.py:168 | feeding `a + b` into the register equals feeding `a` and then `b` from where `a` left off |
| Checksum.RegisterInjective | scripts/jbonecloud_wrap.py:168 | two different register values fed the same bytes never become equal |
| Checksum.Crc32DetectsByteError | scripts/jbonecloud_wrap.py:168 | two equal-length inputs that differ in exactly one byte have different CRC-32 values |
| Checksum.Crc32CheckValue | scripts/jbonecloud_wrap.py:132 | the CRC-32 of ASCII "123456789" is 0xCBF43926, the catalogued check value of this CRC |
| Checksum.Crc32DeadBeef | scripts/jbonecloud_wrap.py:168 | the CRC-32 of the payload DE AD BE EF is 0x7C9CA35A |
| ImageHeader.U32RoundTrip | scripts/jbonecloud_wrap.py:29 | four bytes packed big-endian from a word read back as that word |
| ImageHeader.U32BytesRoundTrip | scripts/jbonecloud_wrap.py:29 | a word read from any four bytes packs back to those bytes |
| ImageHeader.U32AtInjective | scripts/jbonecloud_wrap.py:29 | words read from different 4-byte groups are different |
| ImageHeader.AsciiBytes | scripts/jbonecloud_wrap.py:73 | `encode("ascii", "ignore")` yields at most as many bytes as characters, all below 0x80 |
| ImageHeader.AsciiChars | scripts/jbonecloud_wrap.py:56 | `decode("ascii", "ignore")` yields at most as many characters as bytes, all below 0x80 |
| ImageHeader.BeforeNul | scripts/jbonecloud_wrap.py:56 | `split(b"\x00", 1)[0]` is a NUL-free prefix, followed by a NUL whenever it is shorter than the field |
| ImageHeader.NameField | scripts/jbonecloud_wrap.py:73-74 | the packed name is exactly 32 bytes |
| ImageHeader.AsciiBytesConcat | scripts/jbonecloud_wrap.py:73 | `encode("ascii", "ignore")` keeps order: the bytes of a concatenation are the bytes of its parts, concatenated |
| ImageHeader.AsciiCharsConcat | scripts/jbonecloud_wrap.py:56 | `decode("ascii", "ignore")` keeps order: the characters of a concatenation are those of its parts, concatenated |
| ImageHeader.NonAsciiDropped | scripts/jbonecloud_wrap.py:73-74 | a non-ASCII character inserted anywhere in a name leaves the packed field unchanged |
| ImageHeader.NonAsciiByteDropped | scripts/jbonecloud_wrap.py:56 | a byte of 0x80 or more inserted anywhere in a name field leaves the decoded name unchanged |
| ImageHeader.CharDropped | scripts/jbonecloud_wrap.py:73 | removing a non-ASCII character from between any two parts of a string leaves its ASCII bytes unchanged |
| ImageHeader.ByteDropped | scripts/jbonecloud_wrap.py:56 | removing a byte of 0x80 or more from between any two parts of a byte string leaves its decoded characters unchanged |
| ImageHeader.Truncated | scripts/jbonecloud_wrap.py:73-74 | once a name has 32 ASCII bytes, whatever follows it does not reach the packed field |
| ImageHeader.ShortNameField | scripts/jbonecloud_wrap.py:73-74 | a name with at most 32 ASCII bytes is packed as those bytes in order followed by zero bytes up to 32 |
| ImageHeader.StoredNameKeepsAscii | scripts/jbonecloud_wrap.py:56-74 | a name without NUL is stored as its first 32 ASCII characters in order, all other characters dropped |
| ImageHeader.StoredName | scripts/jbonecloud_wrap.py:56-74 | a name after one encode and decode is encodable (ASCII, no NUL, at most 32 characters), and an encodable name is unchanged |
| ImageHeader.NameRoundTrip | scripts/jbonecloud_wrap.py:56-74 | an encodable name is read back unchanged from its packed field |
| ImageHeader.FieldRoundTrip | scripts/jbonecloud_wrap.py:56-74 | a field the encoder could have written (ASCII, only zeros after the first zero) is re-encoded byte for byte from the name read out of it |
| ImageHeader.NulFreeFieldCanonical | scripts/jbonecloud_wrap.py:73-74 | the packed field of any name without NUL is of the form the encoder writes |
| ImageHeader.StoredNameField | scripts/jbonecloud_wrap.py:56-74 | a name without NUL and its stored form pack to the same field, so the name is normalised once and then stays put |
| ImageHeader.Encode | scripts/jbonecloud_wrap.py:72-88 | `pack_from_fields` always yields exactly 64 bytes |
| ImageHeader.EncodeLayout | scripts/jbonecloud_wrap.py:72-88 | the seven words lie at offsets 0, 4, ..., 24, the four single bytes at 28..32 and the name field at 32..64 |
| ImageHeader.EncodeHcrcBytes | scripts/jbonecloud_wrap.py:72-88 | bytes 4..8 hold `hcrc` and nothing else: changing `hcrc` changes only those bytes, and they become the new value packed |
| ImageHeader.Decode | scripts/jbonecloud_wrap.py:41-70 | `unpack_from_bytes` succeeds exactly on inputs of at least 64 bytes, and the name it reads is encodable |
| ImageHeader.DecodeReadsHeaderOnly | scripts/jbonecloud_wrap.py:55 | decoding looks only at the first 64 bytes |
| ImageHeader.DecodeEncode | scripts/jbonecloud_wrap.py:41-88 | decoding an encoding gives every field back, with the name in its stored form |
| ImageHeader.DecodeEncodePrefix | scripts/jbonecloud_wrap.py:41-88 | an encoded header decodes the same whatever bytes follow it |
| ImageHeader.DecodeEncodeExact | scripts/jbonecloud_wrap.py:41-88 | a header whose name is at most 32 ASCII characters without NUL survives encode then decode unchanged |
| ImageHeader.EncodeDecode | scripts/jbonecloud_wrap.py:41-88 | 64 bytes with a name field of the encoder's form survive decode then encode byte for byte |
| HeaderChecksum.ZeroHcrc | scripts/jbonecloud_wrap.py:130-131 | the copy keeps the length of a header of 8 or more bytes, with bytes 4..8 zero and every other byte unchanged |
| HeaderChecksum.ComputeHeaderCrc | scripts/jbonecloud_wrap.py:128-132 | copying the buffer, zeroing `[4:8]` of the copy in place and running CRC-32 gives the header checksum; the method has no licence to modify the caller's buffer |
| HeaderChecksum.HeaderCrcIgnoresHcrcField | scripts/jbonecloud_wrap.py:128-132 | two headers that differ only in bytes 4..8 have the same header checksum |
| HeaderChecksum.HeaderCrcCoversOtherBytes | scripts/jbonecloud_wrap.py:128-132 | changing any one header byte outside 4..8 changes the header checksum |
| ImageCheck.StoredWordsDecoded | scripts/jbonecloud_wrap.py:41-70 | the magic, `hcrc`, size and `dcrc` words a bootloader reads are the fields `unpack_from_bytes` returns |
| ImageCheck.SealedHeaderVerifies | scripts/jbonecloud_wrap.py:176-178 | an encoded header verifies, whatever follows it, exactly when its `hcrc` is the checksum of its own encoding with `hcrc` 0 |
| ImageCheck.SealedImageAccepted | scripts/jbonecloud_wrap.py:5-8 | a header followed by a payload passes the bootloader's checks exactly when it has the vendor magic and its own header checksum, and its declared size fits the payload with the stored `dcrc` equal to the CRC-32 of that span |
| ImageCheck.HeaderCorruptionDetected | scripts/jbonecloud_wrap.py:128-132 | changing any single byte of a verifying header makes the header check fail |
| ImageCheck.PayloadCorruptionDetected | scripts/jbonecloud_wrap.py:168 | changing any single byte inside the declared span makes the payload check fail |
| ImageCheck.TrailingBytesUnchecked | scripts/jbonecloud_wrap.py:168 | bytes past the declared span are not covered: changing one leaves the payload check passing |
| WrapPolicy.KernelSpan | scripts/jbonecloud_wrap.py:152-157 | the span never exceeds the payload and is empty only for an empty payload; it is the declared size whenever that is non-zero and fits, and otherwise the whole payload |
| WrapPolicy.Notes | scripts/jbonecloud_wrap.py:146-164 | the magic warning is emitted exactly for a magic other than the two known ones, and the size note exactly when 0 < size < payload length; nothing else is emitted |
| WrapPolicy.Sealed | scripts/jbonecloud_wrap.py:176-177 | sealing changes only `hcrc` |
| WrapPolicy.Rewritten | scripts/jbonecloud_wrap.py:165-178 | the only failure after decoding is a value to be packed that does not fit 32 bits |
| WrapPolicy.Wrapping | scripts/jbonecloud_wrap.py:139-141 | a run is rejected as too short exactly when the input is shorter than 64 bytes |
| WrapPolicy.Wrap | scripts/jbonecloud_wrap.py:139-150 | the length check, the decoding and the magic warning, then the rest of the run, produce `Wrapping` and the diagnostics `Diagnostics` |
| WrapPolicy.Rewrite | scripts/jbonecloud_wrap.py:152-178 | the span resolution with its note, the key-by-key field updates and the two-step packing produce `Rewritten` and the size note exactly when 0 < size < payload length |
| WrapPolicy.Seal | scripts/jbonecloud_wrap.py:176-177 | packing with `hcrc` 0 into a buffer, running `compute_header_crc` on it and storing the result gives `Sealed` |
| WrapPolicy.PackHeader | scripts/jbonecloud_wrap.py:176 | `bytearray(pack_from_fields(...))` is a fresh 64-byte buffer holding the encoding |
| WrapPolicy.WrapOutput | scripts/jbonecloud_wrap.py:176-185 | on success the output is as long as the input and is the sealed header followed by the whole input payload; the bootloader accepts it and it decodes to the fields written |
| WrapPolicy.RewrittenSuccess | scripts/jbonecloud_wrap.py:165-178 | on success every packed value fits, and the output is the sealed updated fields packed in front of the payload |
| WrapPolicy.RewrittenFields | scripts/jbonecloud_wrap.py:165-168 | the output magic is 0x27151967, `size` is the span, `dcrc` is the CRC-32 of exactly `payload[:span]`, and os/arch/type/comp are copied |
| WrapPolicy.OverridePrecedence | scripts/jbonecloud_wrap.py:169-174 | only a non-empty name overrides the name; any load or entry override, even 0, replaces the original; the timestamp is the override, else a non-zero original, else `now` |
| WrapPolicy.RewriteFailure | scripts/jbonecloud_wrap.py:172-176 | a decoded run fails exactly when the timestamp, span, load or entry does not fit 32 bits, and reports the first such value in packing order |
| WrapPolicy.NoOverridesFailure | scripts/jbonecloud_wrap.py:154-176 | without overrides a run fails only when `now` is out of range with a zero original timestamp, or when the span reaches 4 GiB |
| WrapPolicy.WrapIgnoresMagicAndChecksum | scripts/jbonecloud_wrap.py:146-166 | an unexpected magic is only a warning: inputs that differ only in the old magic and header checksum give the same result |
| WrapPolicy.RewriteFixedPoint | scripts/jbonecloud_wrap.py:152-178 | a header already in the written form (vendor magic, own checksum, size equal to the span, its CRC-32, non-zero timestamp, encodable name) is rewritten to itself without overrides |
| WrapPolicy.RewriteIdempotent | scripts/jbonecloud_wrap.py:152-178 | the fields a run writes, with the name in stored form, are a fixed point of a run without overrides |
| WrapPolicy.WrapIdempotent | scripts/jbonecloud_wrap.py:139-178 | wrapping an image the wrapper produced, without overrides, gives that image back byte for byte (given a non-zero written timestamp and a name override without NUL) |
| WrapPolicy.WrapExample | scripts/jbonecloud_wrap.py:139-178 | a stock header (size 4, name "test", timestamp 0) before DE AD BE EF yields, silently, a 68-byte accepted image with the vendor magic, size 4, `dcrc` 0x7C9CA35A, the current time as timestamp and the load address and name kept |

## Left out

- `parse_args` (lines 91-125) is not modelled: argument parsing and `int(v, 0)`. The overrides are an `Overrides` value of optional strings and unbounded integers. `Overrides.name` is `None` when `--name` is absent.
- File reading and writing and the output path (lines 137 and 180-185) are not modelled. The model returns the image bytes that would be written.
- The `print` calls (lines 140, 147-150, 159-164 and 187-193) are not modelled as text. The two stderr messages of a successful run are returned as `Diagnostic` tags. The error message of line 140 is the `InputTooShort` result. The closing summary on stdout is left out: it only repeats fields the result carries.
- The exit status is not modelled. A `Failure` result stands for status 1. `FieldOutOfRange` stands for the uncaught `struct.error` traceback, which also exits with status 1.
- `time.time()` (line 173) is the parameter `now`: `int(time.time())` at the moment of the run.
- `zlib.crc32` is not called. It is replaced by the CRC-32 defined in `Checksum`, with the parameters `zlib` documents.
- Text is a Dafny `string` of Unicode scalar values. A Python `str` can also hold lone surrogates (from undecodable command-line bytes). They are non-ASCII, and `encode("ascii", "ignore")` drops them before anything is packed, so the bytes written are unaffected.
- A `--name` argument cannot contain NUL, because command-line arguments never do. The model accepts any name. `WrapPolicy.WrapIdempotent` assumes a name override without NUL, which is the case for every real argument.
- HeaderChecksum.ComputeHeaderCrc: requires a buffer of at least 8 bytes, although `compute_header_crc` accepts any `bytearray`. The script always passes 64 bytes. `HeaderChecksum.ZeroHcrc` and `HeaderChecksum.HeaderCrc` model shorter buffers too, where the slice assignment grows the copy.
- The `& 0xFFFFFFFF` after `zlib.crc32` is the conversion `ImageHeader.Word` from the 32-bit register to a `u32`. Python 3 already returns an unsigned value, so the mask changes nothing.
