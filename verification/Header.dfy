/** MCUboot's image header and version, little-endian. */
module ImageHeader {
  import opened Bytes
  import opened Outcomes

  const IMAGE_MAGIC: u32 := 0x96f3_b83d
  const HEADER_SIZE := 32
  const BM_HDR_SIZE: u16 := 0x200

  datatype Version = Version(major: byte, minor: byte, revision: u16, buildNum: u32)

  datatype Header = Header(
    magic: u32, loadAddr: u32, hdrSize: u16, protectTlvSize: u16, imgSize: u32, flags: u32, version: Version, pad1: u32)
  {
    /** Where the TLV area starts; `None` where the C's `uint32_t` sum would wrap. */
    function TlvOff(): (r: Option<u32>)
      ensures r.Some? <==> hdrSize + imgSize < U32_LIMIT
    {
      if imgSize + hdrSize < U32_LIMIT then Some(imgSize + hdrSize) else None
    }
  }

  /** A header with no flags and no protected TLVs, loaded at no fixed address. */
  function NewHeader(imgSize: u32, version: Version): Header {
    Header(IMAGE_MAGIC, 0, BM_HDR_SIZE, 0, imgSize, 0, version, 0)
  }

  function VersionBytes(v: Version): (s: seq<byte>)
    ensures |s| == 8
  {
    [v.major, v.minor] + Le16(v.revision) + Le32(v.buildNum)
  }

  /** The 32 bytes of a header. */
  function HeaderBytes(h: Header): (s: seq<byte>)
    ensures |s| == HEADER_SIZE
  {
    Le32(h.magic) + Le32(h.loadAddr) + Le16(h.hdrSize) + Le16(h.protectTlvSize) + Le32(h.imgSize) + Le32(h.flags)
    + VersionBytes(h.version) + Le32(h.pad1)
  }

  function DecodeVersion(b: seq<byte>, at: nat): Version
    requires at + 8 <= |b|
  {
    Version(b[at], b[at + 1], FromLe16(b, at + 2), FromLe32(b, at + 4))
  }

  function Decode(b: seq<byte>): Option<Header> {
    if |b| < HEADER_SIZE then None
    else Some(Header(FromLe32(b, 0), FromLe32(b, 4), FromLe16(b, 8), FromLe16(b, 10), FromLe32(b, 12), FromLe32(b, 16),
                     DecodeVersion(b, 20), FromLe32(b, 28)))
  }

  /** `put`: store `bytes` from `at`, one at a time. */
  method Put(out: array<byte>, at: nat, bytes: seq<byte>)
    requires at + |bytes| <= out.Length
    modifies out
    ensures out[..] == Splice(old(out[..]), at, bytes)
  {
    var i := 0;
    while i < |bytes|
      invariant i <= |bytes|
      invariant forall k :: 0 <= k < out.Length ==> out[k] == if at <= k < at + i then bytes[k - at] else old(out[k])
    {
      out[at + i] := bytes[i];
      i := i + 1;
    }
  }

  /** Storing bytes after a finished prefix finishes a longer one. */
  lemma PutExtends(before: seq<byte>, at: nat, prefix: seq<byte>, bytes: seq<byte>)
    requires at + |bytes| <= |before| && before[..at] == prefix
    ensures Splice(before, at, bytes)[..at + |bytes|] == prefix + bytes
  {
  }

  /** Where each field of a header is. */
  ghost predicate FieldsAt(b: seq<byte>, h: Header) {
    && |b| >= 32
    && FromLe32(b, 0) == h.magic && FromLe32(b, 4) == h.loadAddr && FromLe16(b, 8) == h.hdrSize
    && FromLe16(b, 10) == h.protectTlvSize && FromLe32(b, 12) == h.imgSize && FromLe32(b, 16) == h.flags
    && b[20] == h.version.major && b[21] == h.version.minor && FromLe16(b, 22) == h.version.revision
    && FromLe32(b, 24) == h.version.buildNum && FromLe32(b, 28) == h.pad1
  }

  /** Decoding answers exactly for 32 bytes or more, with the fields there. */
  lemma DecodesFields(b: seq<byte>, h: Header)
    ensures Decode(b) == Some(h) <==> FieldsAt(b, h)
    ensures Decode(b).None? <==> |b| < 32
  {
  }

  method Encode(h: Header) returns (s: seq<byte>)
    ensures |s| == 32 && FieldsAt(s, h)
    ensures s == HeaderBytes(h)
  {
    s := PutFields(h);
    FieldsEncoded(h);
  }

  lemma FieldsEncoded(h: Header)
    ensures FieldsAt(HeaderBytes(h), h)
  {
    HeaderRoundTrip(h, []);
    assert HeaderBytes(h) + [] == HeaderBytes(h);
    DecodesFields(HeaderBytes(h), h);
  }

  /** The field by field stores of `encode`. */
  method PutFields(h: Header) returns (s: seq<byte>)
    ensures s == HeaderBytes(h)
  {
    var out := new byte[HEADER_SIZE](_ => 0);
    PutExtends(out[..], 0, [], Le32(h.magic));
    Put(out, 0, Le32(h.magic));
    ghost var p := Le32(h.magic);
    PutExtends(out[..], 4, p, Le32(h.loadAddr));
    Put(out, 4, Le32(h.loadAddr));
    p := p + Le32(h.loadAddr);
    PutExtends(out[..], 8, p, Le16(h.hdrSize));
    Put(out, 8, Le16(h.hdrSize));
    p := p + Le16(h.hdrSize);
    PutExtends(out[..], 10, p, Le16(h.protectTlvSize));
    Put(out, 10, Le16(h.protectTlvSize));
    p := p + Le16(h.protectTlvSize);
    PutExtends(out[..], 12, p, Le32(h.imgSize));
    Put(out, 12, Le32(h.imgSize));
    p := p + Le32(h.imgSize);
    PutExtends(out[..], 16, p, Le32(h.flags));
    Put(out, 16, Le32(h.flags));
    p := p + Le32(h.flags);
    PutExtends(out[..], 20, p, VersionBytes(h.version));
    Put(out, 20, VersionBytes(h.version));
    p := p + VersionBytes(h.version);
    PutExtends(out[..], 28, p, Le32(h.pad1));
    Put(out, 28, Le32(h.pad1));
    s := out[..];
    assert s == s[..28 + 4];
  }

  lemma Le32RoundTrip(b: seq<byte>, at: nat, v: u32)
    requires at + 4 <= |b| && b[at..at + 4] == Le32(v)
    ensures FromLe32(b, at) == v
  {
    forall i | 0 <= i < 4
      ensures b[at + i] == Le32(v)[i]
    {
      assert b[at..at + 4][i] == b[at + i];
    }
    Base256(v);
  }

  lemma Base256(v: u32)
    ensures v % 0x100 + 0x100 * (v / 0x100 % 0x100) + 0x1_0000 * (v / 0x1_0000 % 0x100) + 0x100_0000 * (v / 0x100_0000) == v
  {
    var x := v / 0x100;
    var y := x / 0x100;
    assert y == v / 0x1_0000 && y / 0x100 == v / 0x100_0000;
  }

  lemma Le16RoundTrip(b: seq<byte>, at: nat, v: u16)
    requires at + 2 <= |b| && b[at..at + 2] == Le16(v)
    ensures FromLe16(b, at) == v
  {
    assert b[at..at + 2][0] == b[at] && b[at..at + 2][1] == b[at + 1];
  }

  /** A header read back from its bytes, whatever follows them, is the header written. */
  lemma HeaderRoundTrip(h: Header, rest: seq<byte>)
    ensures Decode(HeaderBytes(h) + rest) == Some(h)
  {
    var b := HeaderBytes(h) + rest;
    Le32RoundTrip(b, 0, h.magic);
    Le32RoundTrip(b, 4, h.loadAddr);
    Le16RoundTrip(b, 8, h.hdrSize);
    Le16RoundTrip(b, 10, h.protectTlvSize);
    Le32RoundTrip(b, 12, h.imgSize);
    Le32RoundTrip(b, 16, h.flags);
    assert b[20..28] == VersionBytes(h.version);
    assert b[20] == b[20..28][0] && b[21] == b[20..28][1];
    assert b[22..24] == b[20..28][2..4] == Le16(h.version.revision);
    assert b[24..28] == b[20..28][4..8] == Le32(h.version.buildNum);
    Le16RoundTrip(b, 22, h.version.revision);
    Le32RoundTrip(b, 24, h.version.buildNum);
    Le32RoundTrip(b, 28, h.pad1);
  }

  lemma Word16(b: seq<byte>, at: nat)
    requires at + 2 <= |b|
    ensures Le16(FromLe16(b, at)) == [b[at], b[at + 1]]
  {
  }

  lemma Word32(b: seq<byte>, at: nat)
    requires at + 4 <= |b|
    ensures Le32(FromLe32(b, at)) == [b[at], b[at + 1], b[at + 2], b[at + 3]]
  {
    Digits(b[at], b[at + 1], b[at + 2], b[at + 3]);
  }

  lemma Digits(a: byte, b: byte, c: byte, d: byte)
    ensures var v := a as int + 0x100 * b as int + 0x1_0000 * c as int + 0x100_0000 * d as int;
      v % 0x100 == a && v / 0x100 % 0x100 == b && v / 0x1_0000 % 0x100 == c && v / 0x100_0000 == d
  {
    var y := c as int + 0x100 * d as int;
    var x := b as int + 0x100 * y;
    var v := a as int + 0x100 * x;
    assert v / 0x100 == x && x / 0x100 == y && y / 0x100 == d;
    assert v / 0x1_0000 == y && v / 0x100_0000 == d;
  }

  /** Decoding keeps every bit: the header encodes to the bytes it was read from. */
  lemma DecodeLosesNothing(b: seq<byte>)
    requires |b| >= HEADER_SIZE
    ensures Decode(b).Some? && HeaderBytes(Decode(b).value) == b[..HEADER_SIZE]
  {
    FirstHalf(b);
    SecondHalf(b);
    var h := Decode(b).value;
    assert HeaderBytes(h) ==
      (Le32(h.magic) + Le32(h.loadAddr) + Le16(h.hdrSize) + Le16(h.protectTlvSize) + Le32(h.imgSize))
      + (Le32(h.flags) + VersionBytes(h.version) + Le32(h.pad1));
    assert b[..HEADER_SIZE] == b[..16] + b[16..32];
  }

  lemma FirstHalf(b: seq<byte>)
    requires |b| >= HEADER_SIZE
    ensures var h := Decode(b).value;
      Le32(h.magic) + Le32(h.loadAddr) + Le16(h.hdrSize) + Le16(h.protectTlvSize) + Le32(h.imgSize) == b[..16]
  {
    Word32(b, 0);
    Word32(b, 4);
    Word16(b, 8);
    Word16(b, 10);
    Word32(b, 12);
  }

  lemma SecondHalf(b: seq<byte>)
    requires |b| >= HEADER_SIZE
    ensures var h := Decode(b).value;
      Le32(h.flags) + VersionBytes(h.version) + Le32(h.pad1) == b[16..32]
  {
    Word32(b, 16);
    Word16(b, 22);
    Word32(b, 24);
    Word32(b, 28);
  }
}
