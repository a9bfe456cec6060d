/** What an image says of itself once built, and what becomes of it in its slot. */
module EndToEnd {
  import opened Bytes
  import opened Outcomes
  import opened Nor
  import opened ImageHeader
  import opened TlvArea
  import opened ImageFile
  import opened TrailerLayout
  import opened SwapMarks
  import VersionNote

  // ---------- the version note in an image ----------

  /** The one version whose eight bytes are the note's magic. */
  const MAGIC_VERSION := Version(0x7C, 0x62, 0xEC06, 0xDF7F_9AFD)

  lemma HeaderBytesOf(imgSize: u32, v: Version)
    ensures var b := HeaderBytes(NewHeader(imgSize, v));
      && b[0] == 0x3D && b[1] == 0xB8 && b[2] == 0xF3 && b[3] == 0x96
      && b[4] == b[5] == b[6] == b[7] == 0 && b[8] == 0 && b[9] == 2 && b[10] == b[11] == 0
      && b[16] == b[17] == b[18] == b[19] == 0
      && b[20] == v.major && b[21] == v.minor && b[22] == v.revision % 0x100 && b[23] == v.revision / 0x100
      && b[24..28] == Le32(v.buildNum)
      && b[28] == b[29] == b[30] == b[31] == 0
  {
  }

  /** Below the body the magic can be read in one place only, and only if the version
      spells it. */
  lemma MagicInHeader(sha: seq<byte> -> Digest, body: seq<byte>, v: Version, key: Option<Key>, i: nat)
    requires FitsSlot(body, key) && i < HDR_SIZE
    ensures VersionNote.MagicAt(ImageOf(sha, body, v, key), i) <==> i == 20 && v == MAGIC_VERSION
  {
    HeaderInImage(sha, body, v, key);
    MagicBelowBody(ImageOf(sha, body, v, key), |body|, v, i);
  }

  /** `image` starts with the header and its padding. */
  ghost predicate StartsWith(image: seq<byte>, imgSize: u32, v: Version) {
    && |image| >= HDR_SIZE
    && (forall k :: 0 <= k < HEADER_SIZE ==> image[k] == HeaderBytes(NewHeader(imgSize, v))[k])
    && (forall k :: HEADER_SIZE <= k < HDR_SIZE ==> image[k] == 0xFF)
  }

  lemma HeaderInImage(sha: seq<byte> -> Digest, body: seq<byte>, v: Version, key: Option<Key>)
    requires FitsSlot(body, key)
    ensures StartsWith(ImageOf(sha, body, v, key), |body|, v)
  {
  }

  lemma MagicBelowBody(image: seq<byte>, imgSize: u32, v: Version, i: nat)
    requires StartsWith(image, imgSize, v) && i < HDR_SIZE
    ensures VersionNote.MagicAt(image, i) <==> i == 20 && v == MAGIC_VERSION
  {
    var h := HeaderBytes(NewHeader(imgSize, v));
    HeaderBytesOf(imgSize, v);
    if i == 20 {
      MagicSpelled(h, v, image);
    } else {
      NoMagicElsewhere(h, image, i);
    }
  }

  /** The fixed bytes of a header break the magic wherever it could start. */
  lemma NoMagicElsewhere(h: seq<byte>, image: seq<byte>, i: nat)
    requires |h| == HEADER_SIZE && |image| >= HDR_SIZE && i < HDR_SIZE && i != 20
    requires forall k :: 0 <= k < HEADER_SIZE ==> image[k] == h[k]
    requires forall k :: HEADER_SIZE <= k < HDR_SIZE ==> image[k] == 0xFF
    requires forall k :: 0 <= k < 12 || 16 <= k < 20 || 28 <= k < 32 ==> h[k] != 0x7C
    requires h[16] == 0 && h[28] == 0
    ensures !VersionNote.MagicAt(image, i)
  {
    if 12 <= i < 16 {
      assert image[16] == 0;
    } else if 20 < i < 28 {
      assert image[28] == 0;
    } else {
      assert image[i] != 0x7C;
    }
  }

  lemma MagicSpelled(h: seq<byte>, v: Version, image: seq<byte>)
    requires |h| == HEADER_SIZE && |image| >= HDR_SIZE
    requires h[20] == v.major && h[21] == v.minor && h[22] == v.revision % 0x100 && h[23] == v.revision / 0x100
    requires h[24..28] == Le32(v.buildNum)
    requires forall k :: 0 <= k < HEADER_SIZE ==> image[k] == h[k]
    ensures VersionNote.MagicAt(image, 20) <==> v == MAGIC_VERSION
  {
    forall k | 0 <= k < 4
      ensures image[24 + k] == Le32(v.buildNum)[k]
    {
      assert h[24..28][k] == h[24 + k];
    }
    Base256(v.buildNum);
  }

  /** `from_body` then `Info::read`: the first note of the image is the body's, 0x200 later,
      with the same numbers; its text is the same exactly when the body holds all of it. */
  lemma NoteSurvivesBuilding(sha: seq<byte> -> Digest, body: seq<byte>, key: Option<Key>)
    requires FitsSlot(body, key) && VersionNote.Find(body).Some?
    ensures var (at, info) := VersionNote.Find(body).value;
      var found := VersionNote.Find(ImageOf(sha, body, info.McubootVersion(), key));
      && found.Some? && found.value.0 == HDR_SIZE + at
      && found.value.1.(versionStr := info.versionStr) == info
      && found.value.1.McubootVersion() == info.McubootVersion()
      && info.versionStr <= found.value.1.versionStr
      && (found.value.1.versionStr == info.versionStr <==> TextIsWhole(body, at))
  {
    var (at, info) := VersionNote.Find(body).value;
    var v := info.McubootVersion();
    VersionNote.FoundInRange(body, 0);
    VersionNote.FindsTheFirst(body, 0, at);
    NothingBeforeTheNote(sha, body, v, key, at);
    BodyInImage(sha, body, v, key);
    FoundShifted(body, ImageOf(sha, body, v, key), at);
  }

  /** A note found in a body is found again behind a header that holds none. */
  lemma FoundShifted(body: seq<byte>, image: seq<byte>, at: nat)
    requires VersionNote.Find(body).Some? && VersionNote.Find(body).value.0 == at
    requires at + VersionNote.FIXED_LEN <= |body| && VersionNote.MagicAt(body, at)
    requires VersionNote.Find(body).value.1 == VersionNote.InfoAt(body, at)
    requires |image| > HDR_SIZE + |body| && forall k :: 0 <= k < |body| ==> image[HDR_SIZE + k] == body[k]
    requires forall i :: 0 <= i < HDR_SIZE + at ==> !VersionNote.MagicAt(image, i)
    ensures var info := VersionNote.Find(body).value.1;
      var found := VersionNote.Find(image);
      && found.Some? && found.value.0 == HDR_SIZE + at
      && found.value.1.(versionStr := info.versionStr) == info
      && found.value.1.McubootVersion() == info.McubootVersion()
      && info.versionStr <= found.value.1.versionStr
      && (found.value.1.versionStr == info.versionStr <==> TextIsWhole(body, at))
  {
    SameWindow(body, image, at);
    VersionNote.FindsTheFirst(image, 0, HDR_SIZE + at);
    NoteText(body, image, at);
  }

  lemma BodyInImage(sha: seq<byte> -> Digest, body: seq<byte>, v: Version, key: Option<Key>)
    requires FitsSlot(body, key)
    ensures forall k :: 0 <= k < |body| ==> ImageOf(sha, body, v, key)[HDR_SIZE + k] == body[k]
  {
  }

  lemma NothingBeforeTheNote(sha: seq<byte> -> Digest, body: seq<byte>, v: Version, key: Option<Key>, at: nat)
    requires FitsSlot(body, key) && v.revision < 0x100 && at + VersionNote.FIXED_LEN <= |body|
    requires forall k :: 0 <= k < at ==> !VersionNote.MagicAt(body, k)
    ensures forall i :: 0 <= i < HDR_SIZE + at ==> !VersionNote.MagicAt(ImageOf(sha, body, v, key), i)
  {
    BodyInImage(sha, body, v, key);
    HeaderInImage(sha, body, v, key);
    NothingBefore(body, ImageOf(sha, body, v, key), v, at);
  }

  lemma NothingBefore(body: seq<byte>, image: seq<byte>, v: Version, at: nat)
    requires |body| < U32_LIMIT && StartsWith(image, |body|, v) && v.revision < 0x100 && at + VersionNote.FIXED_LEN <= |body|
    requires |image| >= HDR_SIZE + |body| && forall k :: 0 <= k < |body| ==> image[HDR_SIZE + k] == body[k]
    requires forall k :: 0 <= k < at ==> !VersionNote.MagicAt(body, k)
    ensures forall i :: 0 <= i < HDR_SIZE + at ==> !VersionNote.MagicAt(image, i)
  {
    forall i | 0 <= i < HDR_SIZE + at
      ensures !VersionNote.MagicAt(image, i)
    {
      if i < HDR_SIZE {
        MagicBelowBody(image, |body|, v, i);
      } else {
        SameWindow(body, image, i - HDR_SIZE);
      }
    }
  }

  /** `from_body` then `Info::read`, whole: the header made from the note, the TLVs written, a
      matching hash, nothing trailing, and the note found again. */
  lemma BodyRoundTrip(sha: seq<byte> -> Digest, crc: seq<byte> -> u16, body: seq<byte>, key: Option<Key>)
    requires FitsSlot(body, key) && VersionNote.Find(body).Some?
    ensures var (at, info) := VersionNote.Find(body).value;
      var v := info.McubootVersion();
      var image := ImageOf(sha, body, v, key);
      var read := ReadInfo(sha, crc, image);
      && read.Success? && read.value.size == |image| && read.value.crc16 == crc(image)
      && read.value.header == NewHeader(|body|, v) && read.value.tlvs == Entries(sha, Hashed(body, v), key)
      && read.value.sha256Ok && read.value.trailing == 0
      && read.value.version.Some? && read.value.version.value.0 == HDR_SIZE + at
      && read.value.version.value.1.McubootVersion() == read.value.header.version
  {
    var (_, info) := VersionNote.Find(body).value;
    BuiltReadsBack(sha, crc, body, info.McubootVersion(), key);
    NoteSurvivesBuilding(sha, body, key);
  }

  /** The body is not cut before the end of the note's version string. */
  predicate TextIsWhole(body: seq<byte>, at: nat)
    requires at + VersionNote.FIXED_LEN <= |body|
  {
    at + VersionNote.FIXED_LEN + VersionNote.Min(FromLe16(body, at + 20), VersionNote.MAX_VERSION_STR_LEN) <= |body|
  }

  lemma SameWindow(body: seq<byte>, image: seq<byte>, k: nat)
    requires |image| >= HDR_SIZE + |body| && forall k :: 0 <= k < |body| ==> image[HDR_SIZE + k] == body[k]
    requires k + VersionNote.FIXED_LEN <= |body|
    ensures VersionNote.MagicAt(image, HDR_SIZE + k) <==> VersionNote.MagicAt(body, k)
    ensures var a, b := VersionNote.InfoAt(image, HDR_SIZE + k), VersionNote.InfoAt(body, k);
      a.(versionStr := b.versionStr) == b
    ensures FromLe16(image, HDR_SIZE + k + 20) == FromLe16(body, k + 20)
  {
  }

  lemma NoteText(body: seq<byte>, image: seq<byte>, at: nat)
    requires |image| > HDR_SIZE + |body| && forall k :: 0 <= k < |body| ==> image[HDR_SIZE + k] == body[k]
    requires at + VersionNote.FIXED_LEN <= |body|
    ensures VersionNote.TextAt(body, at) <= VersionNote.TextAt(image, HDR_SIZE + at)
    ensures VersionNote.TextAt(image, HDR_SIZE + at) == VersionNote.TextAt(body, at) <==> TextIsWhole(body, at)
  {
    SameWindow(body, image, at);
    var a, b := VersionNote.TextAt(image, HDR_SIZE + at), VersionNote.TextAt(body, at);
    forall i | 0 <= i < |b|
      ensures a[i] == b[i]
    {
      assert image[HDR_SIZE + (at + VersionNote.FIXED_LEN + i)] == body[at + VersionNote.FIXED_LEN + i];
    }
  }

  // ---------- the image in its slot ----------

  /** `image` at the start of an otherwise erased slot of this board. */
  ghost predicate StoredImage(image: seq<byte>, slot: Mem) {
    && |slot| == BM.slotSize && |image| <= MAX_IMAGE_LEN
    && image <= slot && forall i :: |image| <= i < |slot| ==> slot[i] == ERASED
  }

  /** One write of an update: its data, and the slot after it. */
  datatype ChunkWrite = ChunkWrite(data: seq<byte>, after: Mem)

  ghost function Joined(run: seq<ChunkWrite>): seq<byte> {
    if run == [] then [] else Joined(run[..|run| - 1]) + run[|run| - 1].data
  }

  ghost function EndOf(m0: Mem, run: seq<ChunkWrite>): Mem {
    if run == [] then m0 else run[|run| - 1].after
  }

  /** The client's writes, each verified, one after the other from offset 0. */
  ghost predicate ChunkRun(m0: Mem, run: seq<ChunkWrite>) {
    if run == [] then true
    else
      var before, last := run[..|run| - 1], run[|run| - 1];
      ChunkRun(m0, before) && WriteOutcome(EndOf(m0, before), |Joined(before)|, last.data, true, last.after)
  }

  /** `m` holds `bytes` from its start and is erased after them. */
  ghost predicate HoldsOnly(bytes: seq<byte>, m: Mem) {
    bytes <= m && forall j :: |bytes| <= j < |m| ==> m[j] == ERASED
  }

  /** To an erased slot they leave all the data so far, and the rest still erased. */
  lemma {:induction false} ChunksStore(m0: Mem, run: seq<ChunkWrite>)
    requires IsErased(m0, 0, |m0|) && ChunkRun(m0, run)
    ensures HoldsOnly(Joined(run), EndOf(m0, run)) && |EndOf(m0, run)| == |m0|
  {
    if run != [] {
      var before, last := run[..|run| - 1], run[|run| - 1];
      ChunksStore(m0, before);
      ChunkStores(Joined(before), last.data, EndOf(m0, before), last.after);
    }
  }

  lemma ChunkStores(before: seq<byte>, chunk: seq<byte>, m: Mem, m': Mem)
    requires HoldsOnly(before, m) && WriteOutcome(m, |before|, chunk, true, m')
    ensures |m'| == |m| && HoldsOnly(before + chunk, m')
  {
    var at := |before|;
    forall j | 0 <= j < at + |chunk|
      ensures m'[j] == (before + chunk)[j]
    {
      if at <= j {
        assert m'[at..at + |chunk|][j - at] == m'[j];
      }
    }
  }

  /** So an image sent in chunks is stored. */
  lemma WritingStores(m0: Mem, run: seq<ChunkWrite>)
    requires |m0| == BM.slotSize && IsErased(m0, 0, |m0|) && ChunkRun(m0, run) && |Joined(run)| <= MAX_IMAGE_LEN
    ensures StoredImage(Joined(run), EndOf(m0, run))
  {
    ChunksStore(m0, run);
  }

  /** Marking a stored image pending, whatever the flash does, leaves every byte of it; if
      the call succeeds, or fails after the magic went in, the bootloader tests it for
      every state of the primary slot. */
  lemma MarkingKeepsTheImage(image: seq<byte>, c: PendingCall, primary: SwapState)
    requires StoredImage(image, c.before) && ValidPending(BM, c) && !c.permanent
    ensures image <= c.after && |c.after| == BM.slotSize
    ensures c.result == Ok ==> Good(BM, c.after)
    ensures Good(BM, c.after) ==> DecideSwap(primary, StateOf(BM, c.after)) == SwapTest
  {
    ImagesEndBelowTheTrailer();
    FieldsTile(BM);
    ErasedMarks(BM, c.before);
    ErasedIsUnset(BM, c.before);
    PendingStep(BM, c);
    if c.readOk {
      MarkingStep(BM, c);
      forall i | 0 <= i < |image|
        ensures c.after[i] == image[i]
      {
        assert c.after[i] == c.before[i];
      }
    }
    if Good(BM, c.after) {
      GoodAndErasedIsTest(BM, c.after, primary);
    }
  }

  /** And the slot's TLV area parses and walks exactly as the image's does. */
  lemma SlotParsesAsBuilt(sha: seq<byte> -> Digest, body: seq<byte>, v: Version, key: Option<Key>, c: PendingCall)
    requires FitsSlot(body, key) && StoredImage(ImageOf(sha, body, v, key), c.before)
    requires ValidPending(BM, c) && !c.permanent
    ensures var image := ImageOf(sha, body, v, key);
      var a := WrittenArea(Hashed(body, v), Entries(sha, Hashed(body, v), key), []);
      && Parse(image, NewHeader(|body|, v)) == Success(a)
      && Parse(c.after, NewHeader(|body|, v)) == Success(a.(image := c.after))
      && WellFormed(a) && WellFormed(a.(image := c.after))
      && Walk(a.(image := c.after), a.first) == Walk(a, a.first)
      && Collect(Walk(a, a.first)) == Success(Entries(sha, Hashed(body, v), key))
  {
    var image := ImageOf(sha, body, v, key);
    MarkingKeepsTheImage(image, c, StateOf(BM, c.before));
    BuiltArea(sha, body, v, key);
    var a := WrittenArea(Hashed(body, v), Entries(sha, Hashed(body, v), key), []);
    ParseIgnoresTheRest(image, c.after, NewHeader(|body|, v));
    WalkIgnoresTheRest(a, c.after, a.first);
  }
}
