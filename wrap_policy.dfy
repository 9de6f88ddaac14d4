/**
  The transformation at the heart of `main` in the wrapper script: take a
  legacy uImage, force the vendor magic, resolve the payload span, apply the
  command-line overrides, recompute both checksums and put the new header in
  front of the untouched payload.
*/
module WrapPolicy {
  import opened Wrappers
  import opened Checksum
  import opened ImageHeader
  import opened HeaderChecksum
  import opened ImageCheck

  /**
    The optional `--name`, `--load`, `--entry` and `--timestamp` values.
    The numbers are whatever `int(v, 0)` produced, so they may be negative
    or wider than 32 bits.
  */
  datatype Overrides = Overrides(
    name: Option<string>,
    load: Option<int>,
    entry: Option<int>,
    timestamp: Option<int>)

  /** A run with no override at all. */
  const NoOverrides := Overrides(None, None, None, None)

  /** The two non-fatal messages written to standard error. */
  datatype Diagnostic =
    | UnexpectedMagic(magic: u32)
    | SizeKept(declared: u32, payloadLen: nat)

  /** The header fields `struct.pack` range-checks, in packing order. */
  datatype Field = Timestamp | Size | Load | Entry

  /** Why no image is produced. */
  datatype WrapError =
    | InputTooShort(length: nat)
    | FieldOutOfRange(field: Field, value: int)

  /** The output image and the header fields it was sealed with. */
  datatype Wrapped = Wrapped(image: seq<bv8>, fields: Header)

  /** The two magic words the script expects to see on input. */
  predicate KnownMagic(m: u32) {
    m == MagicStock || m == MagicJbc
  }

  /** What `struct.pack` accepts for an `I` member. */
  predicate Fits(v: int) {
    0 <= v < 0x1_0000_0000
  }

  /**
    The kernel span: the declared size when it is non-zero and fits the
    payload, the whole payload otherwise.
  */
  function KernelSpan(declared: u32, payloadLen: nat): (n: nat)
    ensures n <= payloadLen
    ensures n == 0 <==> payloadLen == 0
    ensures 0 < declared as int <= payloadLen ==> n == declared as int
    ensures n != declared as int ==> n == payloadLen
  {
    if declared == 0 || declared as int > payloadLen then payloadLen else declared as int
  }

  /** The name written: a non-empty override, else the original name. */
  function ChosenName(override: Option<string>, original: string): string {
    if override.Some? && override.value != [] then override.value else original
  }

  /** The timestamp written: any override, else a non-zero original, else the current time. */
  function ChosenTimestamp(override: Option<int>, original: u32, now: int): int {
    if override.Some? then override.value
    else if original != 0 then original as int
    else now
  }

  /**
    The notes for an input header followed by `payloadLen` payload bytes:
    an unknown magic, then a declared size kept although it is shorter than
    the payload.
  */
  function Notes(original: Header, payloadLen: nat): (d: seq<Diagnostic>)
    ensures UnexpectedMagic(original.magic) in d <==> !KnownMagic(original.magic)
    ensures SizeKept(original.size, payloadLen) in d <==> 0 < original.size as int < payloadLen
    ensures forall k :: 0 <= k < |d| ==> d[k] == UnexpectedMagic(original.magic) || d[k] == SizeKept(original.size, payloadLen)
  {
    (if KnownMagic(original.magic) then [] else [UnexpectedMagic(original.magic)])
    + (if original.size != 0 && original.size as int < payloadLen then [SizeKept(original.size, payloadLen)] else [])
  }

  /** The messages written to standard error: none when the input is too short to hold a header. */
  function Diagnostics(blob: seq<bv8>): seq<Diagnostic> {
    if |blob| < HeaderLen then [] else Notes(Decode(blob).value, |blob| - HeaderLen)
  }

  /** The header with `hcrc` set to the checksum of its own encoding with `hcrc` 0. */
  function Sealed(fields: Header): (h: Header)
    ensures h.(hcrc := 0) == fields.(hcrc := 0)
  {
    fields.(hcrc := Word(HeaderCrc(Encode(fields.(hcrc := 0)))))
  }

  /**
    The fields written for the decoded input header `original` and the
    payload after it, once every value is known to fit: the vendor magic, the
    span as size, the CRC-32 of the span and the overrides applied.
  */
  function Updated(original: Header, payload: seq<bv8>, overrides: Overrides, now: int): Header
    requires Fits(ChosenTimestamp(overrides.timestamp, original.timestamp, now))
    requires Fits(KernelSpan(original.size, |payload|))
    requires Fits(overrides.load.GetOr(original.load as int))
    requires Fits(overrides.entry.GetOr(original.entry as int))
  {
    var span := KernelSpan(original.size, |payload|);
    original.(
      magic := MagicJbc,
      size := span as u32,
      dcrc := Word(Crc32(payload[..span])),
      name := ChosenName(overrides.name, original.name),
      load := overrides.load.GetOr(original.load as int) as u32,
      entry := overrides.entry.GetOr(original.entry as int) as u32,
      timestamp := ChosenTimestamp(overrides.timestamp, original.timestamp, now) as u32)
  }

  /**
    The output for the decoded input header `original` and the payload after
    it: the updated fields, sealed, packed in front of the whole payload; or
    the first value `struct.pack` refuses.
  */
  function Rewritten(original: Header, payload: seq<bv8>, overrides: Overrides, now: int): (r: Result<Wrapped, WrapError>)
    ensures r.Failure? ==> r.error.FieldOutOfRange? && !Fits(r.error.value)
  {
    var span := KernelSpan(original.size, |payload|);
    var timestamp := ChosenTimestamp(overrides.timestamp, original.timestamp, now);
    var load := overrides.load.GetOr(original.load as int);
    var entry := overrides.entry.GetOr(original.entry as int);
    if !Fits(timestamp) then Failure(FieldOutOfRange(Timestamp, timestamp))
    else if !Fits(span) then Failure(FieldOutOfRange(Size, span))
    else if !Fits(load) then Failure(FieldOutOfRange(Load, load))
    else if !Fits(entry) then Failure(FieldOutOfRange(Entry, entry))
    else
      var sealed := Sealed(Updated(original, payload, overrides, now));
      Success(Wrapped(Encode(sealed) + payload, sealed))
  }

  /** The result of one run on the input image `blob`, with `now` the current time. */
  function Wrapping(blob: seq<bv8>, overrides: Overrides, now: int): (r: Result<Wrapped, WrapError>)
    ensures r == Failure(InputTooShort(|blob|)) <==> |blob| < HeaderLen
  {
    if |blob| < HeaderLen then Failure(InputTooShort(|blob|))
    else Rewritten(Decode(blob).value, blob[HeaderLen..], overrides, now)
  }

  /**
    Lines 139-150 of `main`: the length check, the decoding and the magic
    warning; the rest of the run is `Rewrite`. `now` is `int(time.time())`.
  */
  method Wrap(blob: seq<bv8>, overrides: Overrides, now: int) returns (result: Result<Wrapped, WrapError>, notes: seq<Diagnostic>)
    ensures result == Wrapping(blob, overrides, now)
    ensures notes == Diagnostics(blob)
  {
    notes := [];
    if |blob| < HeaderLen {
      return Failure(InputTooShort(|blob|)), notes;
    }
    var original := Decode(blob).value;
    if !KnownMagic(original.magic) {
      notes := notes + [UnexpectedMagic(original.magic)];
    }
    var payload := blob[HeaderLen..];
    var spanNotes;
    result, spanNotes := Rewrite(original, payload, overrides, now);
    notes := notes + spanNotes;
    assert notes == Notes(original, |payload|);
    LongDiagnostics(blob);
  }

  lemma LongDiagnostics(blob: seq<bv8>)
    requires |blob| >= HeaderLen
    ensures Diagnostics(blob) == Notes(Decode(blob).value, |blob[HeaderLen..]|)
  {
  }

  /**
    Lines 152-178 of `main`, step by step: the span and its note, the
    key-by-key update of the fields, the header checksum over a `bytearray`
    packed with `hcrc` 0, and the final re-encoding.
  */
  method Rewrite(original: Header, payload: seq<bv8>, overrides: Overrides, now: int)
    returns (result: Result<Wrapped, WrapError>, notes: seq<Diagnostic>)
    ensures result == Rewritten(original, payload, overrides, now)
    ensures notes == if 0 < original.size as int < |payload| then [SizeKept(original.size, |payload|)] else []
  {
    notes := [];
    var payloadLen := |payload|;
    var kernelLen: nat := original.size as int;
    if kernelLen == 0 || kernelLen > payloadLen {
      kernelLen := payloadLen;
    } else if kernelLen != payloadLen {
      notes := notes + [SizeKept(original.size, payloadLen)];
    }

    var dcrc := ComputeCrc32(payload[..kernelLen]);
    var name := ChosenName(overrides.name, original.name);
    var load := overrides.load.GetOr(original.load as int);
    var entry := overrides.entry.GetOr(original.entry as int);
    var timestamp := ChosenTimestamp(overrides.timestamp, original.timestamp, now);

    // `struct.pack` raises on the first `I` member, in packing order, that does not fit
    if !Fits(timestamp) {
      return Failure(FieldOutOfRange(Timestamp, timestamp)), notes;
    }
    if !Fits(kernelLen) {
      return Failure(FieldOutOfRange(Size, kernelLen)), notes;
    }
    if !Fits(load) {
      return Failure(FieldOutOfRange(Load, load)), notes;
    }
    if !Fits(entry) {
      return Failure(FieldOutOfRange(Entry, entry)), notes;
    }

    assert kernelLen == KernelSpan(original.size, payloadLen);
    var fields := original;
    fields := fields.(magic := MagicJbc);
    fields := fields.(size := kernelLen as u32);
    fields := fields.(dcrc := Word(dcrc));
    fields := fields.(name := name);
    fields := fields.(load := load as u32);
    fields := fields.(entry := entry as u32);
    fields := fields.(timestamp := timestamp as u32);

    assert fields == Updated(original, payload, overrides, now);
    fields := Seal(fields);
    result := Success(Wrapped(Encode(fields) + payload, fields));
  }

  /**
    Lines 176-177 of `main`: pack the fields with `hcrc` 0 into a fresh
    `bytearray`, take its header checksum and store it in `hcrc`.
  */
  method Seal(fields: Header) returns (sealed: Header)
    ensures sealed == Sealed(fields)
  {
    var headerBytes := PackHeader(fields.(hcrc := 0));
    ghost var packed := headerBytes[..];
    var hcrc := ComputeHeaderCrc(headerBytes);
    assert headerBytes[..] == packed;
    sealed := fields.(hcrc := Word(hcrc));
  }

  /** `bytearray(pack_from_fields(h))`: a fresh buffer holding the encoding of `h`. */
  method PackHeader(h: Header) returns (buffer: array<bv8>)
    ensures fresh(buffer)
    ensures buffer[..] == Encode(h)
  {
    var packed := Encode(h);
    buffer := new bv8[HeaderLen](i requires 0 <= i < HeaderLen => packed[i]);
  }

  /**
    A successful run writes the sealed header in front of the whole input
    payload, bytes past the span included: the output is as long as the
    input, the bootloader accepts it, and it decodes to the fields written
    (with the name as stored).
  */
  lemma WrapOutput(blob: seq<bv8>, overrides: Overrides, now: int)
    requires Wrapping(blob, overrides, now).Success?
    ensures var w := Wrapping(blob, overrides, now).value;
      && |w.image| == |blob|
      && w.image[..HeaderLen] == Encode(w.fields)
      && w.image[HeaderLen..] == blob[HeaderLen..]
      && Accepted(w.image)
      && Decode(w.image) == Some(w.fields.(name := StoredName(w.fields.name)))
  {
    var w := Wrapping(blob, overrides, now).value;
    var payload := blob[HeaderLen..];
    assert w.image == Encode(w.fields) + payload;
    assert w.image[..HeaderLen] == Encode(w.fields);
    assert w.image[HeaderLen..] == payload;
    SealedImageAccepted(w.fields, payload);
    DecodeEncodePrefix(w.fields, payload);
  }

  /** A successful rewrite packs the sealed update of the input fields in front of the payload. */
  lemma RewrittenSuccess(original: Header, payload: seq<bv8>, overrides: Overrides, now: int)
    requires Rewritten(original, payload, overrides, now).Success?
    ensures Fits(ChosenTimestamp(overrides.timestamp, original.timestamp, now))
    ensures Fits(KernelSpan(original.size, |payload|))
    ensures Fits(overrides.load.GetOr(original.load as int))
    ensures Fits(overrides.entry.GetOr(original.entry as int))
    ensures var sealed := Sealed(Updated(original, payload, overrides, now));
      Rewritten(original, payload, overrides, now).value == Wrapped(Encode(sealed) + payload, sealed)
  {
  }

  /**
    The fields of a successful run, stated against the input header: the
    vendor magic, the resolved span as size, the CRC-32 of exactly the span,
    and the original os/arch/type/comp.
  */
  lemma RewrittenFields(original: Header, payload: seq<bv8>, overrides: Overrides, now: int)
    requires Rewritten(original, payload, overrides, now).Success?
    ensures var f := Rewritten(original, payload, overrides, now).value.fields;
      var span := KernelSpan(original.size, |payload|);
      && f.magic == MagicJbc
      && f.size as int == span
      && f.dcrc == Word(Crc32(payload[..span]))
      && f.os == original.os && f.arch == original.arch
      && f.imageType == original.imageType && f.comp == original.comp
  {
    RewrittenSuccess(original, payload, overrides, now);
    var u := Updated(original, payload, overrides, now);
    assert Sealed(u).(hcrc := 0) == u.(hcrc := 0);
  }

  /**
    The override precedence of a successful run: a non-empty name override
    replaces the name; a load address or entry point override, even 0,
    replaces the original; the timestamp is the override if given, else the
    original if non-zero, else the current time.
  */
  lemma OverridePrecedence(original: Header, payload: seq<bv8>, overrides: Overrides, now: int)
    requires Rewritten(original, payload, overrides, now).Success?
    ensures var f := Rewritten(original, payload, overrides, now).value.fields;
      && (overrides.name.None? || overrides.name.value == [] ==> f.name == original.name)
      && (overrides.name.Some? && overrides.name.value != [] ==> f.name == overrides.name.value)
      && (overrides.load.None? ==> f.load == original.load)
      && (overrides.load.Some? ==> f.load as int == overrides.load.value)
      && (overrides.entry.None? ==> f.entry == original.entry)
      && (overrides.entry.Some? ==> f.entry as int == overrides.entry.value)
      && (overrides.timestamp.Some? ==> f.timestamp as int == overrides.timestamp.value)
      && (overrides.timestamp.None? && original.timestamp != 0 ==> f.timestamp == original.timestamp)
      && (overrides.timestamp.None? && original.timestamp == 0 ==> f.timestamp as int == now)
  {
    RewrittenSuccess(original, payload, overrides, now);
    var u := Updated(original, payload, overrides, now);
    assert Sealed(u).(hcrc := 0) == u.(hcrc := 0);
  }

  /**
    A run on a decoded header fails exactly when a value to be packed does
    not fit 32 bits, and reports the first such value in packing order:
    timestamp, size, load address, entry point.
  */
  lemma RewriteFailure(original: Header, payload: seq<bv8>, overrides: Overrides, now: int)
    ensures var timestamp := ChosenTimestamp(overrides.timestamp, original.timestamp, now);
      var span := KernelSpan(original.size, |payload|);
      var load := overrides.load.GetOr(original.load as int);
      var entry := overrides.entry.GetOr(original.entry as int);
      var r := Rewritten(original, payload, overrides, now);
      && (r.Success? <==> Fits(timestamp) && Fits(span) && Fits(load) && Fits(entry))
      && (!Fits(timestamp) ==> r == Failure(FieldOutOfRange(Timestamp, timestamp)))
      && (Fits(timestamp) && !Fits(span) ==> r == Failure(FieldOutOfRange(Size, span)))
      && (Fits(timestamp) && Fits(span) && !Fits(load) ==> r == Failure(FieldOutOfRange(Load, load)))
      && (Fits(timestamp) && Fits(span) && Fits(load) && !Fits(entry) ==> r == Failure(FieldOutOfRange(Entry, entry)))
  {
  }

  /** Without overrides only the current time or a payload of 4 GiB or more can make a run fail. */
  lemma NoOverridesFailure(original: Header, payload: seq<bv8>, now: int)
    ensures Rewritten(original, payload, NoOverrides, now).Success? <==>
      (original.timestamp != 0 || Fits(now)) && Fits(KernelSpan(original.size, |payload|))
  {
    RewriteFailure(original, payload, NoOverrides, now);
  }

  /** Bytes 0..8 of the input, the old magic and header checksum, do not affect the result. */
  lemma WrapIgnoresMagicAndChecksum(a: seq<bv8>, b: seq<bv8>, overrides: Overrides, now: int)
    requires |a| == |b| >= HeaderLen
    requires a[8..] == b[8..]
    ensures Wrapping(a, overrides, now) == Wrapping(b, overrides, now)
  {
    var ha, hb := Decode(a).value, Decode(b).value;
    DecodeIgnoresFirstWords(a, b);
    assert ha.(magic := MagicJbc, hcrc := 0) == hb.(magic := MagicJbc, hcrc := 0);
    assert a[HeaderLen..] == b[HeaderLen..] by {
      assert a[HeaderLen..] == a[8..][HeaderLen - 8..];
      assert b[HeaderLen..] == b[8..][HeaderLen - 8..];
    }
  }

  lemma DecodeIgnoresFirstWords(a: seq<bv8>, b: seq<bv8>)
    requires |a| == |b| >= HeaderLen
    requires a[8..] == b[8..]
    ensures Decode(a).value.(magic := 0, hcrc := 0) == Decode(b).value.(magic := 0, hcrc := 0)
  {
    forall i | 8 <= i < |a| ensures a[i] == b[i] {
      assert a[i] == a[8..][i - 8] && b[i] == b[8..][i - 8];
    }
    assert a[NameOffset..HeaderLen] == b[NameOffset..HeaderLen];
  }

  /**
    A header already in the form the wrapper writes is left as it is by a
    run without overrides: vendor magic, its own header checksum, a size that
    is the span again, the CRC-32 of that span, a non-zero timestamp and a
    name that packs unchanged.
  */
  lemma RewriteFixedPoint(h: Header, payload: seq<bv8>, later: int)
    requires EncodableName(h.name) && h.timestamp != 0
    requires h.magic == MagicJbc && h.hcrc == Word(HeaderCrc(Encode(h.(hcrc := 0))))
    requires 0 < h.size as int <= |payload| || (h.size == 0 && payload == [])
    requires h.dcrc == Word(Crc32(payload[..h.size]))
    ensures Rewritten(h, payload, NoOverrides, later) == Success(Wrapped(Encode(h) + payload, h))
  {
    assert KernelSpan(h.size, |payload|) == h.size as int;
    assert Updated(h, payload, NoOverrides, later) == h;
    assert Sealed(h) == h;
  }

  /** Two headers that differ only in names packing to the same field encode the same. */
  lemma EncodeSameNameField(h: Header, name: string)
    requires NameField(name) == NameField(h.name)
    ensures Encode(h.(name := name)) == Encode(h)
  {
    assert PackedWords(h.(name := name)) == PackedWords(h);
  }

  /**
    The header a run writes, with its name in stored form, is a fixed point
    of a run without overrides, provided its timestamp is non-zero and any
    name override had no NUL.
  */
  lemma RewriteIdempotent(original: Header, payload: seq<bv8>, overrides: Overrides, now: int, later: int)
    requires EncodableName(original.name)
    requires overrides.name.Some? ==> NulFree(overrides.name.value)
    requires Rewritten(original, payload, overrides, now).Success?
    requires Rewritten(original, payload, overrides, now).value.fields.timestamp != 0
    ensures var w := Rewritten(original, payload, overrides, now).value;
      var again := w.fields.(name := StoredName(w.fields.name));
      Rewritten(again, payload, NoOverrides, later) == Success(Wrapped(w.image, again))
  {
    var w := Rewritten(original, payload, overrides, now).value;
    var h := w.fields;
    RewrittenSuccess(original, payload, overrides, now);
    RewrittenFields(original, payload, overrides, now);
    OverridePrecedence(original, payload, overrides, now);
    assert NulFree(h.name) by {
      if !(overrides.name.Some? && overrides.name.value != []) {
        assert h.name == original.name;
      }
    }
    SealedNameNormalised(h, payload, later);
  }

  lemma SealedNameNormalised(h: Header, payload: seq<bv8>, later: int)
    requires NulFree(h.name) && h.timestamp != 0
    requires h.magic == MagicJbc && h.hcrc == Word(HeaderCrc(Encode(h.(hcrc := 0))))
    requires h.size as int == KernelSpan(h.size, |payload|)
    requires h.dcrc == Word(Crc32(payload[..h.size]))
    ensures var again := h.(name := StoredName(h.name));
      Rewritten(again, payload, NoOverrides, later) == Success(Wrapped(Encode(h) + payload, again))
  {
    StoredNameField(h.name);
    var again := h.(name := StoredName(h.name));
    EncodeSameNameField(h, StoredName(h.name));
    EncodeSameNameField(h.(hcrc := 0), StoredName(h.name));
    assert again.(hcrc := 0) == h.(hcrc := 0).(name := StoredName(h.name));
    RewriteFixedPoint(again, payload, later);
  }

  /**
    Wrapping is idempotent: running the wrapper, without overrides, on an
    image it produced gives that image back byte for byte, provided the
    timestamp written was non-zero (a zero one would be replaced by the
    time of the second run) and any name override had no NUL.
  */
  lemma WrapIdempotent(blob: seq<bv8>, overrides: Overrides, now: int, later: int)
    requires Wrapping(blob, overrides, now).Success?
    requires overrides.name.Some? ==> NulFree(overrides.name.value)
    requires Wrapping(blob, overrides, now).value.fields.timestamp != 0
    ensures var image := Wrapping(blob, overrides, now).value.image;
      Wrapping(image, NoOverrides, later) == Success(Wrapped(image, Decode(image).value))
  {
    var original := Decode(blob).value;
    var payload := blob[HeaderLen..];
    var w := Rewritten(original, payload, overrides, now).value;
    RewrittenSuccess(original, payload, overrides, now);
    assert w.image == Encode(w.fields) + payload;
    assert w.image[HeaderLen..] == payload;
    DecodeEncodePrefix(w.fields, payload);
    RewriteIdempotent(original, payload, overrides, now, later);
  }

  /**
    The worked example: a stock header with size 4 and name "test" in front
    of the payload DE AD BE EF. The output carries the vendor magic, size 4,
    the payload CRC-32 0x7C9CA35A and the current time in place of the zero
    timestamp, is 68 bytes long and is accepted by the bootloader.
  */
  lemma WrapExample(now: int)
    requires Fits(now)
    ensures var input := Header(MagicStock, 0, 0, 4, 0x8000_0000, 0x8000_0000, 0, 5, 5, 2, 0, "test");
      var blob := Encode(input) + [0xDE, 0xAD, 0xBE, 0xEF];
      var r := Wrapping(blob, NoOverrides, now);
      && Diagnostics(blob) == []
      && r.Success?
      && |r.value.image| == 68
      && r.value.fields.magic == MagicJbc
      && r.value.fields.size == 4
      && r.value.fields.dcrc == 0x7C9C_A35A
      && r.value.fields.timestamp as int == now
      && r.value.fields.load == 0x8000_0000
      && r.value.fields.name == "test"
      && Accepted(r.value.image)
  {
    var input := Header(MagicStock, 0, 0, 4, 0x8000_0000, 0x8000_0000, 0, 5, 5, 2, 0, "test");
    var payload: seq<bv8> := [0xDE, 0xAD, 0xBE, 0xEF];
    Crc32DeadBeef();
    assert EncodableName(input.name);
    ExampleRun(input, payload, now);
  }

  lemma ExampleRun(input: Header, payload: seq<bv8>, now: int)
    requires Fits(now) && EncodableName(input.name)
    requires input.magic == MagicStock && input.size == 4 && input.timestamp == 0
    requires |payload| == 4 && Crc32(payload) == 0x7C9C_A35A
    ensures var blob := Encode(input) + payload;
      var r := Wrapping(blob, NoOverrides, now);
      && Diagnostics(blob) == []
      && r.Success?
      && |r.value.image| == 68
      && r.value.fields.magic == MagicJbc
      && r.value.fields.size == 4
      && r.value.fields.dcrc == Word(0x7C9C_A35A)
      && r.value.fields.timestamp as int == now
      && r.value.fields.load == input.load
      && r.value.fields.name == input.name
      && Accepted(r.value.image)
  {
    var blob := Encode(input) + payload;
    DecodeEncodePrefix(input, payload);
    assert blob[HeaderLen..] == payload;
    assert Wrapping(blob, NoOverrides, now) == Rewritten(input, payload, NoOverrides, now);
    ExampleRewrite(input, payload, now);
    WrapOutput(blob, NoOverrides, now);
  }

  lemma ExampleRewrite(input: Header, payload: seq<bv8>, now: int)
    requires Fits(now)
    requires input.magic == MagicStock && input.size == 4 && input.timestamp == 0
    requires |payload| == 4 && Crc32(payload) == 0x7C9C_A35A
    ensures var r := Rewritten(input, payload, NoOverrides, now);
      && r.Success?
      && r.value.fields.magic == MagicJbc
      && r.value.fields.size == 4
      && r.value.fields.dcrc == Word(0x7C9C_A35A)
      && r.value.fields.timestamp as int == now
      && r.value.fields.load == input.load
      && r.value.fields.name == input.name
  {
    assert payload[..4] == payload;
    NoOverridesFailure(input, payload, now);
    RewrittenFields(input, payload, NoOverrides, now);
    OverridePrecedence(input, payload, NoOverrides, now);
  }
}
