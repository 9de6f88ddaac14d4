/**
  What the EC200T bootloader checks of a wrapped image before booting it:
  the vendor magic, the header checksum and the payload checksum over the
  declared size. These are the properties the wrapper re-establishes.
*/
module ImageCheck {
  import opened Checksum
  import opened ImageHeader
  import opened HeaderChecksum

  /** The magic word stored at offset 0. */
  function StoredMagic(image: seq<bv8>): u32
    requires |image| >= HeaderLen
  {
    U32At(image, 0)
  }

  /** The header checksum stored at offset 4. */
  function StoredHcrc(image: seq<bv8>): u32
    requires |image| >= HeaderLen
  {
    U32At(image, 4)
  }

  /** The declared payload size stored at offset 12. */
  function StoredSize(image: seq<bv8>): u32
    requires |image| >= HeaderLen
  {
    U32At(image, 12)
  }

  /** The payload checksum stored at offset 24. */
  function StoredDcrc(image: seq<bv8>): u32
    requires |image| >= HeaderLen
  {
    U32At(image, 24)
  }

  /** The stored words are the fields the header decodes to. */
  lemma StoredWordsDecoded(image: seq<bv8>)
    requires |image| >= HeaderLen
    ensures Decode(image).Some?
    ensures StoredMagic(image) == Decode(image).value.magic
    ensures StoredHcrc(image) == Decode(image).value.hcrc
    ensures StoredSize(image) == Decode(image).value.size
    ensures StoredDcrc(image) == Decode(image).value.dcrc
  {
  }

  /** The stored header checksum is the checksum of the header with that field zeroed. */
  predicate HeaderVerifies(image: seq<bv8>) {
    |image| >= HeaderLen && StoredHcrc(image) == Word(HeaderCrc(image[..HeaderLen]))
  }

  /** The first `n` payload bytes exist and the stored payload checksum is their CRC-32. */
  predicate SpanVerifies(image: seq<bv8>, n: nat) {
    && |image| >= HeaderLen
    && n <= |image| - HeaderLen
    && StoredDcrc(image) == Word(Crc32(image[HeaderLen..HeaderLen + n]))
  }

  /** The declared size fits the payload and the stored payload checksum covers exactly that span. */
  predicate PayloadVerifies(image: seq<bv8>) {
    |image| >= HeaderLen && SpanVerifies(image, StoredSize(image) as int)
  }

  /** An image the bootloader accepts. */
  predicate Accepted(image: seq<bv8>) {
    && |image| >= HeaderLen
    && StoredMagic(image) == MagicJbc
    && HeaderVerifies(image)
    && PayloadVerifies(image)
  }

  /**
    An encoded header, whatever follows it, verifies exactly when its
    `hcrc` is the checksum of its own encoding with `hcrc` set to 0.
  */
  lemma SealedHeaderVerifies(h: Header, payload: seq<bv8>)
    ensures HeaderVerifies(Encode(h) + payload) <==> h.hcrc == Word(HeaderCrc(Encode(h.(hcrc := 0))))
  {
    var image := Encode(h) + payload;
    assert image[..HeaderLen] == Encode(h);
    DecodeReadsHeaderOnly(image, Encode(h));
    DecodeEncode(h);
    StoredWordsDecoded(image);
    assert StoredHcrc(image) == h.hcrc;
    EncodeHcrcBytes(h, 0);
    HeaderCrcIgnoresHcrcField(Encode(h), Encode(h.(hcrc := 0)));
  }

  /**
    The bootloader accepts a header followed by a payload exactly when the
    header carries the vendor magic and its own checksum, and declares a span
    that fits the payload and whose CRC-32 it stores.
  */
  lemma SealedImageAccepted(h: Header, payload: seq<bv8>)
    ensures Accepted(Encode(h) + payload) <==>
      && h.magic == MagicJbc
      && h.hcrc == Word(HeaderCrc(Encode(h.(hcrc := 0))))
      && h.size as int <= |payload|
      && h.dcrc == Word(Crc32(payload[..h.size]))
  {
    StoredWordsOfEncoding(h, payload);
    SealedHeaderVerifies(h, payload);
    SealedPayloadVerifies(h, payload);
  }

  lemma SealedPayloadVerifies(h: Header, payload: seq<bv8>)
    ensures PayloadVerifies(Encode(h) + payload) <==>
      h.size as int <= |payload| && h.dcrc == Word(Crc32(payload[..h.size]))
  {
    StoredWordsOfEncoding(h, payload);
    SpanOfPayload(Encode(h), payload, h.size as int);
  }

  lemma SpanOfPayload(header: seq<bv8>, payload: seq<bv8>, n: nat)
    requires |header| == HeaderLen
    ensures SpanVerifies(header + payload, n) <==>
      n <= |payload| && StoredDcrc(header + payload) == Word(Crc32(payload[..n]))
  {
    if n <= |payload| {
      assert (header + payload)[HeaderLen..HeaderLen + n] == payload[..n];
    }
  }

  lemma StoredWordsOfEncoding(h: Header, payload: seq<bv8>)
    ensures StoredMagic(Encode(h) + payload) == h.magic
    ensures StoredSize(Encode(h) + payload) == h.size
    ensures StoredDcrc(Encode(h) + payload) == h.dcrc
  {
    var image := Encode(h) + payload;
    assert image[..HeaderLen] == Encode(h);
    DecodeReadsHeaderOnly(image, Encode(h));
    DecodeEncode(h);
    StoredWordsDecoded(image);
  }

  /** Changing any single byte of a verifying header makes it fail the check. */
  lemma HeaderCorruptionDetected(image: seq<bv8>, k: nat, x: bv8)
    requires HeaderVerifies(image) && k < HeaderLen && x != image[k]
    ensures !HeaderVerifies(image[k := x])
  {
    var bad := image[k := x];
    assert bad[..HeaderLen] == image[..HeaderLen][k := x];
    if 4 <= k < 8 {
      StoredChecksumChanged(image, k, x);
      HeaderCrcIgnoresHcrcField(image[..HeaderLen], bad[..HeaderLen]);
    } else {
      StoredChecksumKept(image, k, x);
      HeaderCrcCoversOtherBytes(image[..HeaderLen], bad[..HeaderLen], k);
      WordInjective(HeaderCrc(image[..HeaderLen]), HeaderCrc(bad[..HeaderLen]));
    }
  }

  lemma StoredChecksumChanged(image: seq<bv8>, k: nat, x: bv8)
    requires 4 <= k < 8 && |image| >= 8 && x != image[k]
    ensures U32At(image[k := x], 4) != U32At(image, 4)
  {
    var bad := image[k := x];
    SlicesDiffer(image, bad, k);
    U32AtInjective(image, 4, bad, 4);
  }

  lemma SlicesDiffer(image: seq<bv8>, bad: seq<bv8>, k: nat)
    requires 4 <= k < 8 && |image| >= 8 && |bad| >= 8 && bad[k] != image[k]
    ensures image[4..8] != bad[4..8]
  {
    assert image[4..8][k - 4] == image[k] && bad[4..8][k - 4] == bad[k];
  }

  lemma StoredChecksumKept(image: seq<bv8>, k: nat, x: bv8)
    requires !(4 <= k < 8) && k < |image| && |image| >= 8
    ensures U32At(image[k := x], 4) == U32At(image, 4)
  {
  }

  lemma PayloadByteKeepsHeader(image: seq<bv8>, k: nat, x: bv8)
    requires HeaderLen <= k < |image|
    ensures StoredSize(image[k := x]) == StoredSize(image)
    ensures StoredDcrc(image[k := x]) == StoredDcrc(image)
  {
    assert image[k := x][..HeaderLen] == image[..HeaderLen];
  }

  /** Changing any single byte inside the declared payload span makes the payload check fail. */
  lemma PayloadCorruptionDetected(image: seq<bv8>, k: nat, x: bv8)
    requires PayloadVerifies(image)
    requires HeaderLen <= k < HeaderLen + StoredSize(image) as int && x != image[k]
    ensures !PayloadVerifies(image[k := x])
  {
    PayloadByteKeepsHeader(image, k, x);
    SpanByteCorruption(image, k, x, StoredSize(image) as int);
  }

  lemma SpanByteCorruption(image: seq<bv8>, k: nat, x: bv8, n: nat)
    requires SpanVerifies(image, n)
    requires HeaderLen <= k < HeaderLen + n && x != image[k]
    ensures !SpanVerifies(image[k := x], n)
  {
    var bad := image[k := x];
    PayloadByteKeepsHeader(image, k, x);
    var end := HeaderLen + n;
    var span, badSpan := image[HeaderLen..end], bad[HeaderLen..end];
    assert span[k - HeaderLen] != badSpan[k - HeaderLen];
    assert forall i :: 0 <= i < |span| && i != k - HeaderLen ==> span[i] == badSpan[i];
    Crc32DetectsByteError(span, badSpan, k - HeaderLen);
    WordInjective(Crc32(span), Crc32(badSpan));
  }

  /** Bytes past the declared span are not covered: changing one leaves the payload check passing. */
  lemma TrailingBytesUnchecked(image: seq<bv8>, k: nat, x: bv8)
    requires PayloadVerifies(image)
    requires HeaderLen + StoredSize(image) as int <= k < |image|
    ensures PayloadVerifies(image[k := x])
  {
    PayloadByteKeepsHeader(image, k, x);
    SpanIgnoresLaterBytes(image, k, x, StoredSize(image) as int);
  }

  lemma SpanIgnoresLaterBytes(image: seq<bv8>, k: nat, x: bv8, n: nat)
    requires SpanVerifies(image, n)
    requires HeaderLen + n <= k < |image|
    ensures SpanVerifies(image[k := x], n)
  {
    PayloadByteKeepsHeader(image, k, x);
    assert image[k := x][HeaderLen..HeaderLen + n] == image[HeaderLen..HeaderLen + n];
  }
}
