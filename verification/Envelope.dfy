/**
 The 16-byte checksummed envelope around every snapshot payload.

 CRC-32 is a function-valued parameter: everything here holds for any checksum.
 */
module Envelope {
  import opened Wire

  type Checksum = bytes -> u32

  const MAX_BODY: nat := 0x1000_0000 // 256 MiB

  const MANIFEST_MAGIC: bytes := [0x56, 0x45, 0x56, 0x4D] // "VEVM"
  const OBJECT_MAGIC: bytes := [0x56, 0x45, 0x56, 0x4F] // "VEVO"
  const MANIFEST_VERSION: u16 := 5
  const OBJECT_VERSION: u16 := 2

  function EnvelopeVersion(magic: bytes): u16 {
    if magic == MANIFEST_MAGIC then MANIFEST_VERSION
    else if magic == OBJECT_MAGIC then OBJECT_VERSION
    else 1
  }

  function Sealed(crc: Checksum, magic: bytes, version: u16, body: bytes): bytes
    requires |body| <= MAX_BODY
  {
    magic + PutU16(version, PutU16(0, PutU32(|body|, PutU32(crc(body), body))))
  }

  function Unsealed(crc: Checksum, magic: bytes, version: u16, encoded: bytes): Option<bytes>
    requires |magic| == 4
  {
    if |encoded| < 16 || encoded[..4] != magic then None
    else
      var v := GetU16(encoded[4..]);
      var flags := GetU16(v.rest);
      var n := GetU32(flags.rest);
      var sum := GetU32(n.rest);
      if v.value != version || flags.value != 0 || n.value > MAX_BODY then None
      else if |encoded| != 16 + n.value || crc(sum.rest) != sum.value then None
      else Some(sum.rest)
  }

  lemma SealedRoundTrip(crc: Checksum, magic: bytes, version: u16, body: bytes)
    requires |body| <= MAX_BODY && |magic| == 4
    ensures Unsealed(crc, magic, version, Sealed(crc, magic, version, body)) == Some(body)
  {
    var k3 := PutU32(crc(body), body);
    var k2 := PutU32(|body|, k3);
    var k1 := PutU16(0, k2);
    U32RoundTrip(crc(body), body);
    U32RoundTrip(|body|, k3);
    U16RoundTrip(0, k2);
    U16RoundTrip(version, k1);
    assert |PutU16(version, k1)| == 12 + |body|;
    var e := Sealed(crc, magic, version, body);
    assert e[..4] == magic && e[4..] == PutU16(version, k1);
  }

  lemma SealedCanonical(crc: Checksum, magic: bytes, version: u16, encoded: bytes)
    requires |magic| == 4
    requires Unsealed(crc, magic, version, encoded).Some?
    ensures |Unsealed(crc, magic, version, encoded).value| <= MAX_BODY
    ensures Sealed(crc, magic, version, Unsealed(crc, magic, version, encoded).value) == encoded
  {
    var b0 := encoded[4..];
    var b1 := GetU16(b0).rest;
    var b2 := GetU16(b1).rest;
    U16Canonical(b0);
    U16Canonical(b1);
    U32Length(b2);
    U32Canonical(b2);
    var b3 := GetU32(b2).rest;
    U32Length(b3);
    U32Canonical(b3);
    assert encoded == encoded[..4] + b0;
  }
}
