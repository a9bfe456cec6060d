/** `.dfu.bin` and `.unified.bin`: building them, and reading one back. SHA-256, the
    signature and the CRC are functions the theorems hold for whatever they are. */
module ImageFile {
  import opened Bytes
  import opened Outcomes
  import opened ImageErrors
  import opened ImageHeader
  import opened TlvArea
  import VersionNote
  import ElfFile
  import TrailerLayout

  const BOOTLOADER_BASE: u32 := 0x0800_0000
  const BOOTLOADER_SIZE := 0xC000
  const BODY_BASE: u32 := 0x0800_C200
  const IMGTOOL_MAX_SECTORS: u32 := 128
  const MAX_IMAGE_LEN := 0xF07B0
  const HDR_SIZE := 0x200

  datatype Key = Key(keyhash: Digest, sign: Digest -> Signature)

  /** `MAX_IMAGE_LEN` is where imgtool's trailer starts, below the bootloader's own swap
      status and every trailer field. */
  lemma ImagesEndBelowTheTrailer()
    ensures TrailerLayout.BM.StatusOff(IMGTOOL_MAX_SECTORS) == Some(MAX_IMAGE_LEN)
    ensures TrailerLayout.BM.StatusOff(TrailerLayout.BM_MAX_IMG_SECTORS).Some?
    ensures MAX_IMAGE_LEN <= TrailerLayout.BM.StatusOff(TrailerLayout.BM_MAX_IMG_SECTORS).value
    ensures TrailerLayout.BM.Accepted()
    ensures TrailerLayout.BM.StatusOff(TrailerLayout.BM_MAX_IMG_SECTORS).value <= TrailerLayout.BM.SwapSizeOff()
  {
    TrailerLayout.FieldsTile(TrailerLayout.BM);
  }

  // ---------- building ----------

  function TlvSize(key: Option<Key>): nat {
    if key.Some? then ED25519_SIZE else UNSIGNED_SIZE
  }

  predicate FitsSlot(body: seq<byte>, key: Option<Key>) {
    HDR_SIZE + |body| + TlvSize(key) <= MAX_IMAGE_LEN
  }

  /** The hashed part: header, `0xFF` to 0x200, body. */
  function Hashed(body: seq<byte>, version: Version): (s: seq<byte>)
    requires |body| < U32_LIMIT
    ensures |s| == HDR_SIZE + |body|
    ensures forall i :: HEADER_SIZE <= i < HDR_SIZE ==> s[i] == 0xFF
    ensures forall i :: 0 <= i < |body| ==> s[HDR_SIZE + i] == body[i]
  {
    HeaderBytes(NewHeader(|body|, version)) + Fill(HDR_SIZE - HEADER_SIZE, 0xFF) + body
  }

  function Entries(sha: seq<byte> -> Digest, hashed: seq<byte>, key: Option<Key>): (es: seq<Entry>)
    ensures Fits(es) && |AreaBytes(es)| == TlvSize(key)
    ensures |es| == (if key.Some? then 3 else 1) && es[0] == Entry(0x10, sha(hashed))
    ensures key.Some? ==> es[1] == Entry(0x01, key.value.keyhash) && es[2] == Entry(0x24, key.value.sign(sha(hashed)))
  {
    match key
    case None => UnsignedFits(sha(hashed)); UnsignedEntries(sha(hashed))
    case Some(k) =>
      SignedFits(sha(hashed), k.keyhash, k.sign(sha(hashed)));
      SignedEntries(sha(hashed), k.keyhash, k.sign(sha(hashed)))
  }

  /** The image of `body`. */
  function ImageOf(sha: seq<byte> -> Digest, body: seq<byte>, version: Version, key: Option<Key>): (s: seq<byte>)
    requires |body| < U32_LIMIT
    ensures |s| == HDR_SIZE + |body| + TlvSize(key)
  {
    Hashed(body, version) + AreaBytes(Entries(sha, Hashed(body, version), key))
  }

  method Build(sha: seq<byte> -> Digest, body: seq<byte>, version: Version, key: Option<Key>)
    returns (r: Result<seq<byte>, Error>)
    ensures r.Success? <==> 0x200 + |body| + (if key.Some? then 144 else 40) <= 0xF07B0
    ensures r.Success? <==> FitsSlot(body, key)
    ensures r.Success? ==> r.value == ImageOf(sha, body, version, key)
    ensures r.Failure? ==> r.error == TooLong(HDR_SIZE + |body| + TlvSize(key), MAX_IMAGE_LEN)
  {
    var len := HDR_SIZE + |body| + TlvSize(key);
    if len > MAX_IMAGE_LEN {
      return Failure(TooLong(len, MAX_IMAGE_LEN));
    }
    var image := Encode(NewHeader(|body|, version));
    image := image + Fill(HDR_SIZE - |image|, 0xFF);
    image := image + body;
    assert image == Hashed(body, version);
    var digest := sha(image);
    var area: seq<byte>;
    match key {
      case Some(k) => area := EncodeEd25519(digest, k.keyhash, k.sign(digest));
      case None => area := EncodeUnsigned(digest);
    }
    r := Success(image + area);
  }

  method FromBody(sha: seq<byte> -> Digest, body: seq<byte>, key: Option<Key>) returns (r: Result<seq<byte>, Error>)
    ensures VersionNote.Find(body).None? ==> r == Failure(NoVersion)
    ensures r.Success? <==> VersionNote.Find(body).Some? && FitsSlot(body, key)
    ensures r.Success? ==> r.value == ImageOf(sha, body, VersionNote.Find(body).value.1.McubootVersion(), key)
  {
    var found := VersionNote.Find(body);
    if found.None? {
      return Failure(NoVersion);
    }
    r := Build(sha, body, found.value.1.McubootVersion(), key);
  }

  /** `r` is the image of the flattened sections of `elf`, whose bytes are `body`. */
  ghost predicate IsImageOfElf(
    sha: seq<byte> -> Digest, elf: seq<byte>, key: Option<Key>, body: seq<byte>, image: seq<byte>)
  {
    && ElfFile.Sections(elf).Success?
    && ElfFile.Flattens(ElfFile.Sections(elf).value, BODY_BASE, 0xFF, body)
    && FitsSlot(body, key) && VersionNote.Find(body).Some?
    && image == ImageOf(sha, body, VersionNote.Find(body).value.1.McubootVersion(), key)
  }

  /** A `.dfu.bin` from an ELF. It succeeds exactly when the sections read, can be placed in the
      room an image has, and hold a version note; `body` is their layout whenever there is one. */
  method Dfu(sha: seq<byte> -> Digest, elf: seq<byte>, key: Option<Key>)
    returns (r: Result<seq<byte>, Error>, ghost body: seq<byte>)
    ensures r.Success? ==> IsImageOfElf(sha, elf, key, body, r.value)
    ensures ElfFile.Sections(elf).Failure? ==> r == Failure(ElfFile.Sections(elf).error)
    ensures ElfFile.Sections(elf).Success? ==>
              var s, room := ElfFile.Sections(elf).value, MAX_IMAGE_LEN - HDR_SIZE - TlvSize(key);
              && (ElfFile.Placeable(s, BODY_BASE, room) ==> ElfFile.Flattens(s, BODY_BASE, 0xFF, body))
              && (r.Success? <==> ElfFile.Placeable(s, BODY_BASE, room) && VersionNote.Find(body).Some?)
              && (ElfFile.Placeable(s, BODY_BASE, room) && r.Failure? ==> r.error == NoVersion)
              && (!ElfFile.Placeable(s, BODY_BASE, room) && !r.error.TooLong? ==>
                    ElfFile.Justified(s, BODY_BASE, room, r.error))
    ensures r.Failure? && r.error.TooLong? ==> r.error.len > r.error.limit == MAX_IMAGE_LEN
  {
    var overhead := HDR_SIZE + TlvSize(key);
    var flat := ElfFile.Flat(elf, BODY_BASE, 0xFF, MAX_IMAGE_LEN - overhead);
    if flat.Failure? {
      r := Failure(if flat.error.TooLong? then TooLong(flat.error.len + overhead, MAX_IMAGE_LEN) else flat.error);
      return r, [];
    }
    body := flat.value;
    assert FitsSlot(body, key);
    r := FromBody(sha, flat.value, key);
  }

  predicate StartsWithHeader(file: seq<byte>) {
    Decode(file).Some? && Decode(file).value.magic == IMAGE_MAGIC
  }

  /** A bootloader there is room for: an ELF whose sections can be placed, or a flat file. */
  ghost predicate Boots(bootloader: seq<byte>) {
    if ElfFile.IsElf(bootloader) then
      && ElfFile.Sections(bootloader).Success?
      && ElfFile.Placeable(ElfFile.Sections(bootloader).value, BOOTLOADER_BASE, BOOTLOADER_SIZE)
    else |bootloader| <= BOOTLOADER_SIZE
  }

  /** A `.unified.bin` from a flat bootloader or an ELF of one. */
  method Unified(bootloader: seq<byte>, dfu: seq<byte>) returns (r: Result<seq<byte>, Error>, ghost boot: seq<byte>)
    ensures r.Success? ==>
              && |r.value| == BOOTLOADER_SIZE + |dfu| && r.value[BOOTLOADER_SIZE..] == dfu
              && StartsWithHeader(dfu) && |dfu| <= MAX_IMAGE_LEN
              && boot <= r.value && |boot| <= BOOTLOADER_SIZE
              && (forall i :: |boot| <= i < BOOTLOADER_SIZE ==> r.value[i] == 0xFF)
              && (if ElfFile.IsElf(bootloader) then
                    ElfFile.Sections(bootloader).Success?
                    && ElfFile.Flattens(ElfFile.Sections(bootloader).value, BOOTLOADER_BASE, 0xFF, boot)
                  else boot == bootloader)
    ensures r.Success? <==> Boots(bootloader) && StartsWithHeader(dfu) && |dfu| <= MAX_IMAGE_LEN
    ensures !Boots(bootloader) ==> r.Failure? && !r.error.NotAnImage?
    ensures r.Failure? && r.error.NotAnImage? ==> !StartsWithHeader(dfu)
    ensures r.Failure? && r.error.TooLong? ==> r.error == TooLong(|dfu|, MAX_IMAGE_LEN) && |dfu| > MAX_IMAGE_LEN
    ensures r.Failure? && r.error.BootloaderTooLong? ==> r.error.length > BOOTLOADER_SIZE
  {
    var out := bootloader;
    boot := bootloader;
    if ElfFile.IsElf(bootloader) {
      var flat := ElfFile.Flat(bootloader, BOOTLOADER_BASE, 0xFF, BOOTLOADER_SIZE);
      match flat {
        case Failure(TooLong(len, _)) => return Failure(BootloaderTooLong(len)), boot;
        case Failure(e) => return Failure(e), boot;
        case Success(bytes) => out := bytes;
      }
    }
    boot := out;
    if |out| > BOOTLOADER_SIZE {
      return Failure(BootloaderTooLong(|out|)), boot;
    }
    if !StartsWithHeader(dfu) {
      return Failure(NotAnImage), boot;
    }
    if |dfu| > MAX_IMAGE_LEN {
      return Failure(TooLong(|dfu|, MAX_IMAGE_LEN)), boot;
    }
    out := out + Fill(BOOTLOADER_SIZE - |out|, 0xFF);
    r := Success(out + dfu);
  }

  // ---------- reading ----------

  datatype Info = Info(
    size: u32, crc16: u16, header: Header, tlvs: seq<Entry>, sha256Ok: bool, trailing: nat,
    version: Option<(nat, VersionNote.VersionInfo)>)

  function ReadInfo(sha: seq<byte> -> Digest, crc: seq<byte> -> u16, file: seq<byte>): Result<Info, Error> {
    if !StartsWithHeader(file) then Failure(NotAnImage)
    else
      var header := Decode(file).value;
      match Parse(file, header)
      case Failure(e) => Failure(ImageErrors.Tlv(e))
      case Success(area) =>
        ParsedIsWellFormed(file, header);
        match Collect(Walk(area, area.first))
        case Failure(e) => Failure(ImageErrors.Tlv(e))
        case Success(tlvs) =>
          if |file| >= U32_LIMIT then Failure(NotAnImage)
          else
            Success(Info(|file|, crc(file), header, tlvs, Find(area, SHA256) == Some(sha(file[..area.start])),
                         |file| - area.end, VersionNote.Find(file)))
  }

  /** `signed_by`: the key hash of an image that also has a signature. */
  function SignedBy(info: Info): Option<seq<byte>> {
    if FirstOf(info.tlvs, ED25519).None? then None else FirstOf(info.tlvs, KEYHASH)
  }

  /** The first entry of the kind has the value. */
  ghost predicate FirstIs(es: seq<Entry>, kind: u16, v: seq<byte>) {
    exists i :: 0 <= i < |es| && es[i] == Entry(kind, v) && forall j :: 0 <= j < i ==> es[j].kind != kind
  }

  /** A file is read exactly when it starts with an image header, its TLV area parses and walks
      without error, and its length fits 32 bits. */
  lemma ReadsExactly(sha: seq<byte> -> Digest, crc: seq<byte> -> u16, file: seq<byte>)
    ensures var header, r := Decode(file), ReadInfo(sha, crc, file);
      if header.None? || header.value.magic != 0x96f3_b83d then r == Failure(NotAnImage)
      else if Parse(file, header.value).Failure? then r == Failure(ImageErrors.Tlv(Parse(file, header.value).error))
      else
        var area := Parse(file, header.value).value;
        && WellFormed(area)
        && (r.Success? <==> ErrorFree(Walk(area, area.first)) && |file| < 0x1_0000_0000)
        && (!ErrorFree(Walk(area, area.first)) ==> r.Failure? && r.error.Tlv?)
        && (ErrorFree(Walk(area, area.first)) && r.Failure? ==> r.error == NotAnImage)
  {
    if Decode(file).Some? && Parse(file, Decode(file).value).Success? {
      ParsedIsWellFormed(file, Decode(file).value);
      var area := Parse(file, Decode(file).value).value;
      CollectExactly(Walk(area, area.first));
    }
  }

  /** What is read of any file, built here or not, whole or damaged: the fields of its header, and
      after the area, whose end its own length words give, what trails. */
  lemma InfoExactly(sha: seq<byte> -> Digest, crc: seq<byte> -> u16, file: seq<byte>)
    requires ReadInfo(sha, crc, file).Success?
    ensures var info := ReadInfo(sha, crc, file).value;
      var start, protect := info.header.hdrSize + info.header.imgSize, info.header.protectTlvSize;
      && info.size == |file| && info.crc16 == crc(file) && FieldsAt(file, info.header) && info.header.magic == 0x96f3_b83d
      && start + protect + 4 <= |file| && info.trailing <= |file|
      && |file| - info.trailing == start + protect + FromLe16(file, start + protect + 2)
      && info.version == VersionNote.Find(file)
  {
    var info := ReadInfo(sha, crc, file).value;
    DecodesFields(file, info.header);
    AreaExactly(file, info.header);
  }

  /** The hash matches exactly when the first SHA-256 entry is the hash of the header and body;
      and with no protected part the entries are the area's bytes. */
  lemma HashExactly(sha: seq<byte> -> Digest, crc: seq<byte> -> u16, file: seq<byte>)
    requires ReadInfo(sha, crc, file).Success?
    ensures var info := ReadInfo(sha, crc, file).value;
      var start := info.header.hdrSize + info.header.imgSize;
      && start + 4 <= |file| && info.trailing <= |file|
      && (info.sha256Ok <==> FirstIs(info.tlvs, 0x10, sha(file[..start])))
      && (info.header.protectTlvSize == 0 && start + 4 <= |file| - info.trailing ==>
            EntriesBytes(info.tlvs) == file[start + 4..|file| - info.trailing])
  {
    var info := ReadInfo(sha, crc, file).value;
    ParsedIsWellFormed(file, info.header);
    AreaExactly(file, info.header);
    var area := Parse(file, info.header).value;
    TlvsExactly(area, sha(file[..area.start]));
  }

  lemma AreaExactly(file: seq<byte>, header: Header)
    requires Parse(file, header).Success?
    ensures var start, protect, a := header.hdrSize + header.imgSize, header.protectTlvSize, Parse(file, header).value;
      && a.image == file && a.start == start && a.first == start + 4 && a.protEnd == start + protect
      && start + protect + 4 <= |file| && a.end == start + protect + FromLe16(file, start + protect + 2) <= |file|
  {
    ParseExactly(file, header);
  }

  lemma TlvsExactly(a: Area, v: seq<byte>)
    requires WellFormed(a) && Collect(Walk(a, a.first)).Success?
    ensures var es := Collect(Walk(a, a.first)).value;
      && (Find(a, 0x10) == Some(v) <==> FirstIs(es, 0x10, v))
      && (a.protEnd == a.start && a.first <= a.end ==> EntriesBytes(es) == a.image[a.first..a.end])
  {
    var w := Walk(a, a.first);
    CollectExactly(w);
    FindsFirstEntry(w, 0x10, v);
    if a.protEnd == a.start && a.first <= a.end {
      WalkSpells(a, a.first);
    }
  }

  lemma FindsFirstEntry(w: seq<Step>, kind: u16, v: seq<byte>)
    requires ErrorFree(w)
    ensures Collect(w).Success? && (FindIn(w, kind) == Some(v) <==> FirstIs(Collect(w).value, kind, v))
  {
    CollectExactly(w);
    FindExactly(w, kind, v);
    var es := Collect(w).value;
    if FindIn(w, kind) == Some(v) {
      var i :| 0 <= i < |w| && FirstAt(w, kind, i) && w[i].item.value.value == v;
      assert es[i] == Entry(kind, v);
    }
    if FirstIs(es, kind, v) {
      var i :| 0 <= i < |es| && es[i] == Entry(kind, v) && forall j :: 0 <= j < i ==> es[j].kind != kind;
      assert FirstAt(w, kind, i);
    }
  }

  /** A signed image names its key, and holds the signature of its hash; an unsigned one neither. */
  lemma SignedReadsBack(sha: seq<byte> -> Digest, crc: seq<byte> -> u16, body: seq<byte>, version: Version, key: Option<Key>)
    requires FitsSlot(body, key)
    ensures var read := ReadInfo(sha, crc, ImageOf(sha, body, version, key));
      var digest := sha(Hashed(body, version));
      && read.Success? && SignedBy(read.value) == (if key.Some? then Some(key.value.keyhash) else None)
      && FirstOf(read.value.tlvs, 0x10) == Some(digest)
      && FirstOf(read.value.tlvs, 0x24) == if key.Some? then Some(key.value.sign(digest)) else None
  {
    BuiltReadsBack(sha, crc, body, version, key);
    var es := Entries(sha, Hashed(body, version), key);
    if key.Some? {
      FirstOfThree(es);
    } else {
      FirstOfOne(es);
    }
  }

  lemma FirstOfThree(es: seq<Entry>)
    requires |es| == 3 && es[0].kind == 0x10 && es[1].kind == 0x01 && es[2].kind == 0x24
    ensures FirstOf(es, 0x10) == Some(es[0].value) && FirstOf(es, 0x01) == Some(es[1].value)
    ensures FirstOf(es, 0x24) == Some(es[2].value)
  {
    var two, one := es[1..], es[1..][1..];
    assert two[0] == es[1] && one[0] == es[2];
    assert FirstOf(one, 0x24) == Some(es[2].value);
    assert FirstOf(two, 0x24) == FirstOf(one, 0x24) && FirstOf(two, 0x01) == Some(es[1].value);
  }

  lemma FirstOfOne(es: seq<Entry>)
    requires |es| == 1 && es[0].kind == 0x10
    ensures FirstOf(es, 0x10) == Some(es[0].value) && FirstOf(es, 0x24) == None
  {
    assert es[1..] == [];
  }

  /** Every image built reads back: its header, exactly the TLVs written, a hash that
      matches and nothing after them. */
  lemma BuiltReadsBack(sha: seq<byte> -> Digest, crc: seq<byte> -> u16, body: seq<byte>, version: Version, key: Option<Key>)
    requires FitsSlot(body, key)
    ensures var image := ImageOf(sha, body, version, key);
      ReadInfo(sha, crc, image) ==
      Success(Info(|image|, crc(image), NewHeader(|body|, version), Entries(sha, Hashed(body, version), key), true, 0,
                   VersionNote.Find(image)))
  {
    var hashed := Hashed(body, version);
    var es := Entries(sha, hashed, key);
    var image := ImageOf(sha, body, version, key);
    BuiltHeader(sha, body, version, key);
    BuiltArea(sha, body, version, key);
    assert image[..|hashed|] == hashed;
  }

  /** An image damaged anywhere between its header and its area still reads, and says so exactly
      unless its hash is the same. */
  lemma DamageShows(
    sha: seq<byte> -> Digest, crc: seq<byte> -> u16, body: seq<byte>, version: Version, key: Option<Key>, damaged: seq<byte>)
    requires FitsSlot(body, key) && |damaged| == HDR_SIZE + |body|
    requires damaged[..HEADER_SIZE] == HeaderBytes(NewHeader(|body|, version))
    ensures var hashed := Hashed(body, version);
      var read := ReadInfo(sha, crc, damaged + AreaBytes(Entries(sha, hashed, key)));
      read.Success? && (read.value.sha256Ok <==> sha(damaged) == sha(hashed))
  {
    var es := Entries(sha, Hashed(body, version), key);
    var header := NewHeader(|body|, version);
    DamagedHeader(damaged, AreaBytes(es), header);
    DamagedArea(damaged, es, header);
    ReadDamaged(sha, crc, damaged, es, header);
  }

  lemma DamagedHeader(damaged: seq<byte>, area: seq<byte>, header: Header)
    requires |damaged| >= HEADER_SIZE && damaged[..HEADER_SIZE] == HeaderBytes(header)
    ensures Decode(damaged + area) == Some(header)
  {
    var file := damaged + area;
    HeaderRoundTrip(header, file[HEADER_SIZE..]);
    assert file == HeaderBytes(header) + file[HEADER_SIZE..];
  }

  lemma DamagedArea(damaged: seq<byte>, es: seq<Entry>, header: Header)
    requires Fits(es) && header.TlvOff() == Some(|damaged|) && header.protectTlvSize == 0
    ensures var a := WrittenArea(damaged, es, []);
      && a.image == damaged + AreaBytes(es) && a.start == |damaged| && a.end == |a.image|
      && Parse(damaged + AreaBytes(es), header) == Success(a) && WellFormed(a)
      && Collect(Walk(a, a.first)) == Success(es) && Find(a, SHA256) == FirstOf(es, SHA256)
  {
    assert damaged + AreaBytes(es) + [] == damaged + AreaBytes(es);
    AreaRoundTrip(damaged, es, [], header);
    EntriesRoundTrip(damaged, es, [], header, SHA256);
  }

  lemma ReadDamaged(sha: seq<byte> -> Digest, crc: seq<byte> -> u16, damaged: seq<byte>, es: seq<Entry>, header: Header)
    requires Fits(es) && Decode(damaged + AreaBytes(es)) == Some(header) && header.magic == IMAGE_MAGIC
    requires |damaged + AreaBytes(es)| < U32_LIMIT
    requires Parse(damaged + AreaBytes(es), header) == Success(WrittenArea(damaged, es, []))
    requires var a := WrittenArea(damaged, es, []);
      WellFormed(a) && Collect(Walk(a, a.first)) == Success(es) && Find(a, SHA256) == FirstOf(es, SHA256) && a.start == |damaged|
    ensures var read := ReadInfo(sha, crc, damaged + AreaBytes(es));
      read.Success? && (read.value.sha256Ok <==> FirstOf(es, SHA256) == Some(sha(damaged)))
  {
    assert (damaged + AreaBytes(es))[..|damaged|] == damaged;
  }

  lemma BuiltHeader(sha: seq<byte> -> Digest, body: seq<byte>, version: Version, key: Option<Key>)
    requires FitsSlot(body, key)
    ensures Decode(ImageOf(sha, body, version, key)) == Some(NewHeader(|body|, version))
  {
    var header := HeaderBytes(NewHeader(|body|, version));
    var image := ImageOf(sha, body, version, key);
    HeaderRoundTrip(NewHeader(|body|, version), image[HEADER_SIZE..]);
    assert image[..HEADER_SIZE] == header;
    assert image == header + image[HEADER_SIZE..];
  }

  lemma BuiltArea(sha: seq<byte> -> Digest, body: seq<byte>, version: Version, key: Option<Key>)
    requires FitsSlot(body, key)
    ensures var hashed := Hashed(body, version);
      var es := Entries(sha, hashed, key);
      var a := WrittenArea(hashed, es, []);
      && a.image == ImageOf(sha, body, version, key)
      && Parse(ImageOf(sha, body, version, key), NewHeader(|body|, version)) == Success(a) && WellFormed(a)
      && Collect(Walk(a, a.first)) == Success(es) && Find(a, SHA256) == Some(sha(hashed))
  {
    var hashed := Hashed(body, version);
    var es := Entries(sha, hashed, key);
    var header := NewHeader(|body|, version);
    assert hashed + AreaBytes(es) + [] == ImageOf(sha, body, version, key);
    AreaRoundTrip(hashed, es, [], header);
    EntriesRoundTrip(hashed, es, [], header, SHA256);
  }
}
