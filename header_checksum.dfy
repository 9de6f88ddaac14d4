/**
  The header checksum (`compute_header_crc`): CRC-32 over a copy of the
  header whose bytes 4..8, the stored checksum itself, are zero.
*/
module HeaderChecksum {
  import opened Checksum

  /**
    The copy the checksum is taken over: the header with `[4:8]` replaced by
    four zero bytes, as Python slice assignment does (a buffer shorter than
    8 bytes grows to take the four zeros).
  */
  function ZeroHcrc(s: seq<bv8>): (z: seq<bv8>)
    ensures |s| >= 8 ==> |z| == |s|
    ensures |s| >= 8 ==> forall i :: 0 <= i < |s| ==> z[i] == if 4 <= i < 8 then 0 else s[i]
  {
    var i := if |s| < 4 then |s| else 4;
    var j := if |s| < 8 then |s| else 8;
    s[..i] + [0, 0, 0, 0] + s[j..]
  }

  /** The header checksum of `header`. */
  function HeaderCrc(header: seq<bv8>): bv32 {
    Crc32(ZeroHcrc(header))
  }

  /**
    `compute_header_crc`: copies the caller's buffer, zeroes bytes 4..8 of
    the copy in place and runs CRC-32 over it. The caller's buffer is only
    read: the method has no licence to modify it.
  */
  method ComputeHeaderCrc(header: array<bv8>) returns (crc: bv32)
    requires header.Length >= 8
    ensures crc == HeaderCrc(header[..])
  {
    var zeroed := new bv8[header.Length];
    forall i | 0 <= i < header.Length {
      zeroed[i] := header[i];
    }
    zeroed[4], zeroed[5], zeroed[6], zeroed[7] := 0, 0, 0, 0;
    assert zeroed[..] == ZeroHcrc(header[..]);
    crc := ComputeCrc32(zeroed[..]);
  }

  /** The checksum does not depend on the bytes it is stored in. */
  lemma HeaderCrcIgnoresHcrcField(a: seq<bv8>, b: seq<bv8>)
    requires |a| == |b|
    requires forall i :: 0 <= i < |a| && !(4 <= i < 8) ==> a[i] == b[i]
    ensures HeaderCrc(a) == HeaderCrc(b)
  {
    var i := if |a| < 4 then |a| else 4;
    var j := if |a| < 8 then |a| else 8;
    assert a[..i] == b[..i];
    assert a[j..] == b[j..];
  }

  /** Every other byte of the header is covered: changing any one of them changes the checksum. */
  lemma HeaderCrcCoversOtherBytes(a: seq<bv8>, b: seq<bv8>, k: nat)
    requires |a| == |b| >= 8 && k < |a| && !(4 <= k < 8)
    requires a[k] != b[k]
    requires forall i :: 0 <= i < |a| && i != k ==> a[i] == b[i]
    ensures HeaderCrc(a) != HeaderCrc(b)
  {
    Crc32DetectsByteError(ZeroHcrc(a), ZeroHcrc(b), k);
  }
}
