/** bm_protocol's `versionInfo_t`: the devkit writes it in a note, bm-image finds it in a
    binary by its magic. */
module VersionNote {
  import opened Bytes
  import opened Outcomes
  import opened ImageHeader

  const FIXED_LEN := 22
  const MAX_VERSION_STR_LEN := 96
  const INFO_LEN := 118
  const NOTE_LEN := 138
  const INFO_AT := 20

  /** `VERSION_MAGIC`, 0xDF7F9AFDEC06627C, little-endian. */
  const MAGIC: seq<byte> := [0x7C, 0x62, 0x06, 0xEC, 0xFD, 0x9A, 0x7F, 0xDF]

  datatype VersionInfo = VersionInfo(
    gitSha: u32, major: byte, minor: byte, revision: byte, hwVersion: byte, flags: u32, versionStr: seq<byte>)
  {
    /** `ih_ver` for this image; an untagged build, three `0xFF`s, is `0.0.0`. */
    function McubootVersion(): Version {
      if major == 0xFF && minor == 0xFF && revision == 0xFF then Version(0, 0, 0, gitSha)
      else Version(major, minor, revision, gitSha)
    }
  }

  // ---------- finding ----------

  predicate MagicAt(b: seq<byte>, i: nat) {
    && i + FIXED_LEN <= |b|
    && b[i] == 0x7C && b[i + 1] == 0x62 && b[i + 2] == 0x06 && b[i + 3] == 0xEC
    && b[i + 4] == 0xFD && b[i + 5] == 0x9A && b[i + 6] == 0x7F && b[i + 7] == 0xDF
  }

  /** `windows(FIXED_LEN).position(..)`, from window `i`. */
  function FirstFrom(b: seq<byte>, i: nat): Option<nat>
    decreases |b| - i
  {
    if i + FIXED_LEN > |b| then None else if MagicAt(b, i) then Some(i) else FirstFrom(b, i + 1)
  }

  function InfoAt(b: seq<byte>, at: nat): VersionInfo
    requires at + FIXED_LEN <= |b|
  {
    VersionInfo(FromLe32(b, at + 8), b[at + 12], b[at + 13], b[at + 14], b[at + 15], FromLe32(b, at + 16), TextAt(b, at))
  }

  /** The version string: at most `versionStrLen` and 96 bytes, and no more than `b` holds. */
  function TextAt(b: seq<byte>, at: nat): seq<byte>
    requires at + FIXED_LEN <= |b|
  {
    var len := Min(Min(FromLe16(b, at + 20), MAX_VERSION_STR_LEN), |b| - at - FIXED_LEN);
    b[at + FIXED_LEN..at + FIXED_LEN + len]
  }

  function Min(a: nat, b: nat): nat {
    if a < b then a else b
  }

  function Find(b: seq<byte>): Option<(nat, VersionInfo)> {
    match FirstFrom(b, 0)
    case None => None
    case Some(at) => FoundInRange(b, 0); Some((at, InfoAt(b, at)))
  }

  lemma {:induction false} FoundInRange(b: seq<byte>, i: nat)
    ensures FirstFrom(b, i).Some? ==> FirstFrom(b, i).value >= i && MagicAt(b, FirstFrom(b, i).value)
    decreases |b| - i
  {
    if i + FIXED_LEN <= |b| && !MagicAt(b, i) {
      FoundInRange(b, i + 1);
    }
  }

  /** The search answers `at` exactly when `at` is the first place the magic is. */
  lemma {:induction false} FindsTheFirst(b: seq<byte>, i: nat, at: nat)
    requires i <= at
    ensures FirstFrom(b, i) == Some(at) <==> MagicAt(b, at) && forall k :: i <= k < at ==> !MagicAt(b, k)
    decreases |b| - i
  {
    if i + FIXED_LEN <= |b| && !MagicAt(b, i) {
      if i < at {
        FindsTheFirst(b, i + 1, at);
      } else {
        FoundInRange(b, i + 1);
      }
    }
  }

  // ---------- writing ----------

  /** `versionStr` as the note stores it. */
  function Cut(version: seq<byte>): (s: seq<byte>)
    ensures |s| <= MAX_VERSION_STR_LEN && s <= version
  {
    if |version| > MAX_VERSION_STR_LEN then version[..MAX_VERSION_STR_LEN] else version
  }

  function NoteHead(): (s: seq<byte>)
    ensures |s| == INFO_AT
  {
    Le32(8) + Le32(INFO_LEN) + Le32(0x10) + [0x56, 0x45, 0x52, 0x53, 0x49, 0x4F, 0x4E, 0x00]
  }

  /** The note: an ELF note header, its name, and the packed `versionInfo_t`. */
  function NoteBytes(gitSha: u32, major: byte, minor: byte, revision: byte, flags: u32, version: seq<byte>): (s: seq<byte>)
    ensures |s| == NOTE_LEN
  {
    NoteHead() + MAGIC + Le32(gitSha) + [major, minor, revision, 0] + Le32(flags) + Le16(|Cut(version)|) + Cut(version)
    + Fill(MAX_VERSION_STR_LEN - |Cut(version)|, 0)
  }

  method Note(gitSha: u32, major: byte, minor: byte, revision: byte, flags: u32, version: seq<byte>) returns (s: seq<byte>)
    ensures |s| == 138 && FromLe32(s, 0) == 8 && FromLe32(s, 4) == 118 && FromLe32(s, 8) == 0x10
    ensures s[12..20] == [0x56, 0x45, 0x52, 0x53, 0x49, 0x4F, 0x4E, 0x00]
    ensures s == NoteBytes(gitSha, major, minor, revision, flags, version)
  {
    s := PutNote(gitSha, major, minor, revision, flags, version);
    NoteHeadReads(gitSha, major, minor, revision, flags, version);
  }

  /** The stores that make the note. */
  method PutNote(gitSha: u32, major: byte, minor: byte, revision: byte, flags: u32, version: seq<byte>) returns (s: seq<byte>)
    ensures s == NoteBytes(gitSha, major, minor, revision, flags, version)
  {
    var text := Cut(version);
    var out := new byte[NOTE_LEN](_ => 0);
    PutHead(out);
    ghost var p := NoteHead() + MAGIC + Le32(gitSha) + [major, minor, revision, 0] + Le32(flags);
    PutFixed(out, gitSha, major, minor, revision, flags);
    PutExtends(out[..], 40, p, Le16(|text|));
    Put(out, 40, Le16(|text|));
    p := p + Le16(|text|);
    PutExtends(out[..], 42, p, text);
    Put(out, 42, text);
    p := p + text;
    s := out[..];
    assert s == s[..42 + |text|] + s[42 + |text|..];
    assert s[42 + |text|..] == Fill(MAX_VERSION_STR_LEN - |text|, 0);
  }

  lemma NoteHeadReads(gitSha: u32, major: byte, minor: byte, revision: byte, flags: u32, version: seq<byte>)
    ensures var s := NoteBytes(gitSha, major, minor, revision, flags, version);
      && FromLe32(s, 0) == 8 && FromLe32(s, 4) == 118 && FromLe32(s, 8) == 0x10
      && s[12..20] == [0x56, 0x45, 0x52, 0x53, 0x49, 0x4F, 0x4E, 0x00]
  {
    var s := NoteBytes(gitSha, major, minor, revision, flags, version);
    assert s[..20] == NoteHead();
    assert s[0..4] == s[..20][0..4] == Le32(8) && s[4..8] == s[..20][4..8] == Le32(118) && s[8..12] == s[..20][8..12] == Le32(0x10);
    Le32RoundTrip(s, 0, 8);
    Le32RoundTrip(s, 4, 118);
    Le32RoundTrip(s, 8, 0x10);
    assert s[12..20] == s[..20][12..20];
  }

  /** The fields of a fixed size, after the head. */
  method PutFixed(out: array<byte>, gitSha: u32, major: byte, minor: byte, revision: byte, flags: u32)
    requires out.Length == NOTE_LEN && out[..INFO_AT] == NoteHead() && forall i :: INFO_AT <= i < NOTE_LEN ==> out[i] == 0
    modifies out
    ensures out[..40] == NoteHead() + MAGIC + Le32(gitSha) + [major, minor, revision, 0] + Le32(flags)
    ensures forall i :: 40 <= i < NOTE_LEN ==> out[i] == 0
  {
    ghost var p := NoteHead();
    PutExtends(out[..], 20, p, MAGIC);
    Put(out, 20, MAGIC);
    p := p + MAGIC;
    PutExtends(out[..], 28, p, Le32(gitSha));
    Put(out, 28, Le32(gitSha));
    p := p + Le32(gitSha);
    PutExtends(out[..], 32, p, [major, minor, revision, 0]);
    Put(out, 32, [major, minor, revision, 0]);
    p := p + [major, minor, revision, 0];
    PutExtends(out[..], 36, p, Le32(flags));
    Put(out, 36, Le32(flags));
  }

  /** The ELF note header and name, the rest left zero. */
  method PutHead(out: array<byte>)
    requires out.Length == NOTE_LEN && forall i :: 0 <= i < NOTE_LEN ==> out[i] == 0
    modifies out
    ensures out[..INFO_AT] == NoteHead() && forall i :: INFO_AT <= i < NOTE_LEN ==> out[i] == 0
  {
    Put(out, 0, Le32(8));
    Put(out, 4, Le32(INFO_LEN));
    Put(out, 8, Le32(0x10));
    Put(out, 12, [0x56, 0x45, 0x52, 0x53, 0x49, 0x4F, 0x4E, 0x00]);
  }

  /** What bm-image reads from any note the devkit writes. */
  lemma NoteRoundTrip(gitSha: u32, major: byte, minor: byte, revision: byte, flags: u32, version: seq<byte>)
    ensures Find(NoteBytes(gitSha, major, minor, revision, flags, version))
         == Some((INFO_AT, VersionInfo(gitSha, major, minor, revision, 0, flags, Cut(version))))
  {
    var b := NoteBytes(gitSha, major, minor, revision, flags, version);
    NoteFields(gitSha, major, minor, revision, flags, version);
    assert forall k :: 0 <= k < INFO_AT ==> !MagicAt(b, k) by {
      assert forall k :: 0 <= k < INFO_AT ==> b[k] == NoteHead()[k] != 0x7C;
    }
    FindsTheFirst(b, 0, INFO_AT);
  }

  lemma NoteFields(gitSha: u32, major: byte, minor: byte, revision: byte, flags: u32, version: seq<byte>)
    ensures var b := NoteBytes(gitSha, major, minor, revision, flags, version);
      MagicAt(b, INFO_AT) && InfoAt(b, INFO_AT) == VersionInfo(gitSha, major, minor, revision, 0, flags, Cut(version))
  {
    var b := NoteBytes(gitSha, major, minor, revision, flags, version);
    NoteLayout(gitSha, major, minor, revision, flags, version);
    NoteDecodes(b, gitSha, major, minor, revision, flags, Cut(version));
  }

  /** Where `b` has the fields of a note. */
  ghost predicate LaidOut(b: seq<byte>, gitSha: u32, major: byte, minor: byte, revision: byte, flags: u32, text: seq<byte>) {
    && |text| <= MAX_VERSION_STR_LEN && |b| >= 42 + |text|
    && b[20..28] == MAGIC && b[28..32] == Le32(gitSha) && b[32..36] == [major, minor, revision, 0]
    && b[36..40] == Le32(flags) && b[40..42] == Le16(|text|) && b[42..42 + |text|] == text
  }

  lemma NoteLayout(gitSha: u32, major: byte, minor: byte, revision: byte, flags: u32, version: seq<byte>)
    ensures LaidOut(NoteBytes(gitSha, major, minor, revision, flags, version), gitSha, major, minor, revision, flags, Cut(version))
  {
  }

  lemma NoteDecodes(b: seq<byte>, gitSha: u32, major: byte, minor: byte, revision: byte, flags: u32, text: seq<byte>)
    requires LaidOut(b, gitSha, major, minor, revision, flags, text)
    ensures MagicAt(b, INFO_AT) && InfoAt(b, INFO_AT) == VersionInfo(gitSha, major, minor, revision, 0, flags, text)
  {
    forall i | 0 <= i < 8
      ensures b[20 + i] == MAGIC[i]
    {
      assert b[20..28][i] == b[20 + i];
    }
    assert b[32] == b[32..36][0] && b[33] == b[32..36][1] && b[34] == b[32..36][2] && b[35] == b[32..36][3];
    Le32RoundTrip(b, 28, gitSha);
    Le32RoundTrip(b, 36, flags);
    Le16RoundTrip(b, 40, |text|);
  }

  /** The fixed fields of any note, whoever wrote it. */
  function FixedFields(gitSha: u32, major: byte, minor: byte, revision: byte, hw: byte, flags: u32, len: u16): (s: seq<byte>)
    ensures |s| == FIXED_LEN
  {
    [0x7C, 0x62, 0x06, 0xEC, 0xFD, 0x9A, 0x7F, 0xDF] + Le32(gitSha) + [major, minor, revision, hw] + Le32(flags) + Le16(len)
  }

  /** The first note in any bytes reads back whatever its fields say: the text is cut to its
      length word, to 96 bytes and to what there is. */
  lemma AnyNoteReadsBack(
    pre: seq<byte>, gitSha: u32, major: byte, minor: byte, revision: byte, hw: byte, flags: u32, len: u16, rest: seq<byte>)
    requires var b := pre + FixedFields(gitSha, major, minor, revision, hw, flags, len) + rest;
      forall k :: 0 <= k < |pre| ==> !MagicAt(b, k)
    ensures var b := pre + FixedFields(gitSha, major, minor, revision, hw, flags, len) + rest;
      var n := if len <= 96 && len <= |rest| then len else if |rest| <= 96 then |rest| else 96;
      Find(b) == Some((|pre|, VersionInfo(gitSha, major, minor, revision, hw, flags, rest[..n])))
  {
    var fixed := FixedFields(gitSha, major, minor, revision, hw, flags, len);
    var b := pre + fixed + rest;
    assert b[|pre|..] == fixed + rest;
    FieldsInPlace(b, |pre|, fixed, rest);
    TextInPlace(b, |pre|, rest);
    FixedDecode(b, |pre|, gitSha, major, minor, revision, hw, flags, len);
    FindsTheFirst(b, 0, |pre|);
  }

  lemma FieldsInPlace(b: seq<byte>, at: nat, fixed: seq<byte>, rest: seq<byte>)
    requires |fixed| == FIXED_LEN && |b| == at + FIXED_LEN + |rest| && b[at..] == fixed + rest
    ensures b[at..at + FIXED_LEN] == fixed && b[at + FIXED_LEN..] == rest
  {
    assert b[at..][..FIXED_LEN] == b[at..at + FIXED_LEN] && b[at..][FIXED_LEN..] == b[at + FIXED_LEN..];
  }

  lemma TextInPlace(b: seq<byte>, at: nat, rest: seq<byte>)
    requires at + FIXED_LEN <= |b| && b[at + FIXED_LEN..] == rest
    ensures var len := FromLe16(b, at + 20);
      var n := if len <= 96 && len <= |rest| then len else if |rest| <= 96 then |rest| else 96;
      TextAt(b, at) == rest[..n]
  {
    var len := FromLe16(b, at + 20);
    var n := if len <= 96 && len <= |rest| then len else if |rest| <= 96 then |rest| else 96;
    assert b[at + FIXED_LEN..at + FIXED_LEN + n] == b[at + FIXED_LEN..][..n];
  }

  lemma FixedDecode(b: seq<byte>, at: nat, gitSha: u32, major: byte, minor: byte, revision: byte, hw: byte, flags: u32, len: u16)
    requires at + FIXED_LEN <= |b|
    requires b[at..at + FIXED_LEN] == FixedFields(gitSha, major, minor, revision, hw, flags, len)
    ensures MagicAt(b, at) && FromLe16(b, at + 20) == len
    ensures InfoAt(b, at) == VersionInfo(gitSha, major, minor, revision, hw, flags, TextAt(b, at))
  {
    var f := FixedFields(gitSha, major, minor, revision, hw, flags, len);
    assert f[8..12] == Le32(gitSha) && f[16..20] == Le32(flags) && f[20..22] == Le16(len);
    Le32RoundTrip(f, 8, gitSha);
    Le32RoundTrip(f, 16, flags);
    Le16RoundTrip(f, 20, len);
    FixedBytes(b, at, f);
  }

  /** Reading the fixed fields where they are. */
  lemma FixedBytes(b: seq<byte>, at: nat, f: seq<byte>)
    requires |f| == FIXED_LEN && at + FIXED_LEN <= |b| && b[at..at + FIXED_LEN] == f
    ensures FromLe32(b, at + 8) == FromLe32(f, 8) && FromLe32(b, at + 16) == FromLe32(f, 16)
    ensures FromLe16(b, at + 20) == FromLe16(f, 20)
    ensures b[at + 12] == f[12] && b[at + 13] == f[13] && b[at + 14] == f[14] && b[at + 15] == f[15]
    ensures MagicAt(b, at) <==> MagicAt(f, 0)
  {
    forall i | 0 <= i < FIXED_LEN
      ensures b[at + i] == f[i]
    {
      assert b[at..at + FIXED_LEN][i] == b[at + i];
    }
  }

  /** The header's version is the note's, and `0.0.0` exactly when the note says so. */
  lemma NoteVersion(gitSha: u32, major: byte, minor: byte, revision: byte, flags: u32, version: seq<byte>)
    ensures var found := Find(NoteBytes(gitSha, major, minor, revision, flags, version));
      && found.Some? && found.value.1.McubootVersion().buildNum == gitSha
      && (found.value.1.McubootVersion() == Version(major, minor, revision, gitSha)
          <==> !(major == 0xFF && minor == 0xFF && revision == 0xFF))
      && (major == 0xFF && minor == 0xFF && revision == 0xFF ==>
          found.value.1.McubootVersion() == Version(0, 0, 0, gitSha))
  {
    NoteRoundTrip(gitSha, major, minor, revision, flags, version);
  }
}
