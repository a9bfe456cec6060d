/** The TLV area after an image's body: the encoders, the parser, and the walk. */
module TlvArea {
  import opened Bytes
  import opened Outcomes
  import opened ImageHeader

  const INFO_MAGIC: u16 := 0x6907
  const PROT_INFO_MAGIC: u16 := 0x6908
  const INFO_SIZE := 4
  const ENTRY_SIZE := 4
  const KEYHASH: u16 := 0x01
  const SHA256: u16 := 0x10
  const ED25519: u16 := 0x24
  const UNSIGNED_SIZE := 40
  const ED25519_SIZE := 144

  type Digest = s: seq<byte> | |s| == 32 witness Fill(32, 0)
  type Signature = s: seq<byte> | |s| == 64 witness Fill(64, 0)

  datatype TlvError = Truncated | BadMagic | ProtectedSize

  // ---------- writing ----------

  datatype Entry = Entry(kind: u16, value: seq<byte>)

  function EntryBytes(e: Entry): (s: seq<byte>)
    ensures |s| == ENTRY_SIZE + |e.value|
  {
    Le16(e.kind) + Le16(|e.value| % 0x1_0000) + e.value
  }

  function EntriesBytes(es: seq<Entry>): seq<byte> {
    if es == [] then [] else EntryBytes(es[0]) + EntriesBytes(es[1..])
  }

  /** An info header of the given magic and the area's length, then `es`. */
  function InfoArea(magic: u16, es: seq<Entry>): seq<byte>
    requires Fits(es)
  {
    Le16(magic) + Le16(INFO_SIZE + |EntriesBytes(es)|) + EntriesBytes(es)
  }

  /** An area with no protected part. */
  function AreaBytes(es: seq<Entry>): seq<byte>
    requires Fits(es)
  {
    InfoArea(INFO_MAGIC, es)
  }

  /** The area's length fits its 16-bit field. */
  predicate Fits(es: seq<Entry>) {
    INFO_SIZE + |EntriesBytes(es)| < 0x1_0000
  }

  method PutInfo(out: array<byte>, total: u16) returns (at: nat)
    requires out.Length >= INFO_SIZE
    modifies out
    ensures at == INFO_SIZE && out[..at] == Le16(INFO_MAGIC) + Le16(total)
  {
    Put(out, 0, Le16(INFO_MAGIC));
    Put(out, 2, Le16(total));
    at := INFO_SIZE;
  }

  method PutEntry(out: array<byte>, at: nat, kind: u16, value: seq<byte>) returns (next: nat)
    requires at + ENTRY_SIZE + |value| <= out.Length
    modifies out
    ensures next == at + ENTRY_SIZE + |value| && out[..next] == old(out[..at]) + EntryBytes(Entry(kind, value))
  {
    ghost var p := out[..at];
    PutExtends(out[..], at, p, Le16(kind));
    Put(out, at, Le16(kind));
    PutExtends(out[..], at + 2, p + Le16(kind), Le16(|value| % 0x1_0000));
    Put(out, at + 2, Le16(|value| % 0x1_0000));
    PutExtends(out[..], at + 4, p + Le16(kind) + Le16(|value| % 0x1_0000), value);
    Put(out, at + ENTRY_SIZE, value);
    next := at + ENTRY_SIZE + |value|;
    assert out[..next] == p + Le16(kind) + Le16(|value| % 0x1_0000) + value;
  }

  function UnsignedEntries(sha256: Digest): seq<Entry> {
    [Entry(SHA256, sha256)]
  }

  function SignedEntries(sha256: Digest, keyhash: Digest, signature: Signature): seq<Entry> {
    [Entry(SHA256, sha256), Entry(KEYHASH, keyhash), Entry(ED25519, signature)]
  }

  lemma UnsignedFits(sha256: Digest)
    ensures Fits(UnsignedEntries(sha256)) && |AreaBytes(UnsignedEntries(sha256))| == UNSIGNED_SIZE
    ensures EntriesBytes(UnsignedEntries(sha256)) == EntryBytes(Entry(SHA256, sha256))
  {
    assert UnsignedEntries(sha256)[1..] == [];
  }

  lemma SignedFits(sha256: Digest, keyhash: Digest, signature: Signature)
    ensures Fits(SignedEntries(sha256, keyhash, signature))
    ensures |AreaBytes(SignedEntries(sha256, keyhash, signature))| == ED25519_SIZE
    ensures EntriesBytes(SignedEntries(sha256, keyhash, signature)) ==
            EntryBytes(Entry(SHA256, sha256)) + EntryBytes(Entry(KEYHASH, keyhash)) + EntryBytes(Entry(ED25519, signature))
  {
    var es := SignedEntries(sha256, keyhash, signature);
    assert es[1..] == [es[1], es[2]] && es[1..][1..] == [es[2]] && es[1..][1..][1..] == [];
    assert EntriesBytes([es[2]]) == EntryBytes(es[2]) by { assert [es[2]][1..] == []; }
    assert EntriesBytes([es[1], es[2]]) == EntryBytes(es[1]) + EntryBytes(es[2]) by {
      assert [es[1], es[2]][1..] == [es[2]];
    }
  }

  method EncodeUnsigned(sha256: Digest) returns (s: seq<byte>)
    ensures Fits(UnsignedEntries(sha256)) && s == AreaBytes(UnsignedEntries(sha256))
  {
    UnsignedFits(sha256);
    var out := new byte[UNSIGNED_SIZE](_ => 0);
    var at := PutInfo(out, UNSIGNED_SIZE);
    at := PutEntry(out, at, SHA256, sha256);
    s := out[..];
    assert s == out[..at];
  }

  method EncodeEd25519(sha256: Digest, keyhash: Digest, signature: Signature) returns (s: seq<byte>)
    ensures Fits(SignedEntries(sha256, keyhash, signature)) && s == AreaBytes(SignedEntries(sha256, keyhash, signature))
  {
    SignedFits(sha256, keyhash, signature);
    var out := new byte[ED25519_SIZE](_ => 0);
    var at := PutInfo(out, ED25519_SIZE);
    at := PutEntry(out, at, SHA256, sha256);
    at := PutEntry(out, at, KEYHASH, keyhash);
    at := PutEntry(out, at, ED25519, signature);
    s := out[..];
    assert s == out[..at];
  }

  // ---------- reading ----------

  datatype Tlv = Tlv(kind: u16, value: seq<byte>, protected: bool)

  datatype Area = Area(image: seq<byte>, start: nat, first: nat, protEnd: nat, end: nat)

  /** The two 16-bit words from `off`, if they are there. */
  function Pair(b: seq<byte>, off: nat): Option<(u16, u16)> {
    if off + 4 <= |b| then Some((FromLe16(b, off), FromLe16(b, off + 2))) else None
  }

  function Parse(image: seq<byte>, header: Header): Result<Area, TlvError> {
    match header.TlvOff()
    case None => Failure(Truncated)
    case Some(start) =>
      match Pair(image, start)
      case None => Failure(Truncated)
      case Some((magic, total)) =>
        var protect := header.protectTlvSize;
        if magic == PROT_INFO_MAGIC then
          if protect != total then Failure(ProtectedSize)
          else
            match Pair(image, start + protect)
            case None => Failure(Truncated)
            case Some((magic', total')) => ParseInfo(image, start, protect, magic', total')
        else if protect != 0 then Failure(ProtectedSize)
        else ParseInfo(image, start, protect, magic, total)
  }

  function ParseInfo(image: seq<byte>, start: nat, protect: u16, magic: u16, total: u16): Result<Area, TlvError> {
    if magic != INFO_MAGIC then Failure(BadMagic)
    else if start + protect + total > |image| then Failure(Truncated)
    else Success(Area(image, start, start + INFO_SIZE, start + protect, start + protect + total))
  }

  /** The protected size the header gives is the one the area's first words give. */
  predicate SizesAgree(image: seq<byte>, start: nat, protect: nat)
    requires start + 4 <= |image|
  {
    if FromLe16(image, start) == 0x6908 then protect == FromLe16(image, start + 2) else protect == 0
  }

  /** When each answer is given, from the image's bytes. */
  lemma ParseExactly(image: seq<byte>, header: Header)
    ensures var start, protect := header.hdrSize + header.imgSize, header.protectTlvSize;
      var r := Parse(image, header);
      if start >= 0x1_0000_0000 || start + 4 > |image| then r == Failure(Truncated)
      else if !SizesAgree(image, start, protect) then r == Failure(ProtectedSize)
      else if start + protect + 4 > |image| then r == Failure(Truncated)
      else if FromLe16(image, start + protect) != 0x6907 then r == Failure(BadMagic)
      else
        var end := start + protect + FromLe16(image, start + protect + 2);
        if end > |image| then r == Failure(Truncated)
        else r == Success(Area(image, start, start + 4, start + protect, end))
  {
  }

  /** What every parsed area is. */
  predicate WellFormed(a: Area) {
    && a.first == a.start + INFO_SIZE <= |a.image|
    && a.start <= a.protEnd <= a.end <= |a.image|
    && (a.protEnd == a.start || a.first <= a.protEnd)
  }

  /** A protected size of 1 to 3 would put the second info header over the first, whose
      bytes cannot be the other magic: so every area that parses is well formed. */
  lemma ParsedIsWellFormed(image: seq<byte>, header: Header)
    requires Parse(image, header).Success?
    ensures WellFormed(Parse(image, header).value)
  {
    var start := header.TlvOff().value;
    var protect := header.protectTlvSize;
    var (magic, total) := Pair(image, start).value;
    if magic == PROT_INFO_MAGIC {
      assert image[start] == 0x08 && image[start + 1] == 0x69;
      assert image[start + 2] == total % 0x100;
      assert FromLe16(image, start + protect) == INFO_MAGIC;
      assert protect != 1 && protect != 2 && protect != 3;
    }
  }

  // ---------- walking ----------

  /** One step of the walk: where the entry's header is, what was read, where it ends. */
  datatype Step = Step(at: nat, item: Result<Tlv, TlvError>, next: nat)

  /** The offset an entry is read at: past the unprotected info header when there are two. */
  function Skip(a: Area, off: nat): nat {
    if a.protEnd != a.start && off == a.protEnd then off + INFO_SIZE else off
  }

  /** The entry the walk reads at `off`, before the end of the area. */
  function ReadStep(a: Area, off: nat): (s: Step)
    requires WellFormed(a) && off < a.end
    ensures off < s.next <= a.end
  {
    var at := Skip(a, off);
    match Pair(a.image, at)
    case None => Step(at, Failure(Truncated), a.end)
    case Some((kind, len)) =>
      if at + ENTRY_SIZE + len > a.end then Step(at, Failure(Truncated), a.end)
      else Step(at, Success(Tlv(kind, a.image[at + ENTRY_SIZE..at + ENTRY_SIZE + len], at < a.protEnd)), at + ENTRY_SIZE + len)
  }

  /** An entry is read exactly when its header and value end in the area; it is at the offset,
      or past the second info header where the protected part ends. */
  lemma StepExactly(a: Area, off: nat)
    requires WellFormed(a) && off < a.end
    ensures var s := ReadStep(a, off);
      var at := if a.protEnd != a.start && off == a.protEnd then off + 4 else off;
      && s.at == at
      && (s.item.Success? <==> at + 4 <= a.end && at + 4 + FromLe16(a.image, at + 2) <= a.end)
      && (s.item.Success? ==>
            && s.item.value.kind == FromLe16(a.image, at) && |s.item.value.value| == FromLe16(a.image, at + 2)
            && s.item.value.value == a.image[at + 4..s.next] && (s.item.value.protected <==> at < a.protEnd))
      && (s.item.Failure? ==> s.item.error == Truncated && s.next == a.end)
  {
  }

  /** The whole walk from `off`; it ends because every step moves on. */
  function Walk(a: Area, off: nat): seq<Step>
    requires WellFormed(a)
    decreases a.end - off
  {
    if off >= a.end then [] else [ReadStep(a, off)] + Walk(a, ReadStep(a, off).next)
  }

  class TlvIter {
    const area: Area
    var off: nat

    constructor (area: Area)
      ensures this.area == area && off == area.first
    {
      this.area, off := area, area.first;
    }

    /** `TlvIter::next`: yields the head of the remaining walk and leaves its tail. */
    method Next() returns (r: Option<Result<Tlv, TlvError>>)
      requires WellFormed(area)
      modifies this
      ensures r.None? ==> old(Walk(area, off)) == [] && off == old(off)
      ensures r.Some? ==> old(off) < area.end && old(Walk(area, off)) == [ReadStep(area, old(off))] + Walk(area, off)
      ensures r.Some? ==> r.value == ReadStep(area, old(off)).item
    {
      if off >= area.end {
        return None;
      }
      if area.protEnd != area.start && off == area.protEnd {
        off := off + INFO_SIZE;
      }
      var at := off;
      var valueOff := off + ENTRY_SIZE;
      off := area.end;
      r := Some(Failure(Truncated));
      if valueOff <= area.end {
        var (kind, len) := Pair(area.image, at).value;
        var valueEnd := valueOff + len;
        if valueEnd <= area.end {
          off := valueEnd;
          r := Some(Success(Tlv(kind, area.image[valueOff..valueEnd], at < area.protEnd)));
        }
      }
      assert ReadStep(area, old(off)) == Step(at, r.value, off);
      WalkUnfolds(area, old(off));
    }
  }

  predicate ErrorFree(w: seq<Step>) {
    forall i :: 0 <= i < |w| ==> w[i].item.Success?
  }

  /** Where the walk stands before its `i`th step. */
  function Boundary(off: nat, w: seq<Step>, i: nat): nat
    requires i <= |w|
  {
    if i == 0 then off else w[i - 1].next
  }

  /** Every walk, step by step: it reads where it stands, an error is its last step, and
      it stops exactly when it has reached the end of the area. */
  lemma {:induction false} WalkShape(a: Area, off: nat, i: nat)
    requires WellFormed(a) && i < |Walk(a, off)|
    ensures var w := Walk(a, off);
      && Boundary(off, w, i) < a.end && w[i] == ReadStep(a, Boundary(off, w, i))
      && w[i].at == Skip(a, Boundary(off, w, i)) && Boundary(off, w, i) < w[i].next <= a.end
      && (w[i].item.Failure? ==> i == |w| - 1)
      && (w[i].next == a.end <==> i == |w| - 1)
    decreases i
  {
    var s := ReadStep(a, off);
    var w, t := Walk(a, off), Walk(a, s.next);
    assert w == [s] + t;
    if i > 0 {
      WalkShape(a, s.next, i - 1);
      assert w[i] == t[i - 1] && Boundary(off, w, i) == Boundary(s.next, t, i - 1);
    }
  }

  /** What a successful step read is exactly the bytes it covers. */
  lemma StepIsItsBytes(a: Area, off: nat)
    requires WellFormed(a) && off < a.end && ReadStep(a, off).item.Success?
    ensures var s := ReadStep(a, off);
      && s.next == s.at + ENTRY_SIZE + |s.item.value.value| <= |a.image|
      && a.image[s.at..s.next] == EntryBytes(Entry(s.item.value.kind, s.item.value.value))
      && (s.item.value.protected <==> s.at < a.protEnd)
  {
    var s := ReadStep(a, off);
    EntryIsItsBytes(a.image, s.at, |s.item.value.value|);
  }

  lemma EntryIsItsBytes(b: seq<byte>, at: nat, len: nat)
    requires at + ENTRY_SIZE + len <= |b| && FromLe16(b, at + 2) == len
    ensures b[at..at + ENTRY_SIZE + len] == EntryBytes(Entry(FromLe16(b, at), b[at + ENTRY_SIZE..at + ENTRY_SIZE + len]))
  {
    var value := b[at + ENTRY_SIZE..at + ENTRY_SIZE + len];
    Word16(b, at);
    Word16(b, at + 2);
    assert b[at..at + ENTRY_SIZE] == Le16(FromLe16(b, at)) + Le16(len);
    assert b[at..at + ENTRY_SIZE + len] == b[at..at + ENTRY_SIZE] + value;
  }

  /** Disjoint, in order, protected first. */
  lemma {:induction false} WalkOrder(a: Area, off: nat, i: nat, j: nat)
    requires WellFormed(a) && i < j < |Walk(a, off)|
    ensures var w := Walk(a, off);
      && w[i].item.Success? && w[i].at < w[i].next <= Boundary(off, w, j) <= w[j].at
      && (w[j].at < a.protEnd ==> w[i].at < a.protEnd)
    decreases j
  {
    NeighboursInOrder(a, off, j);
    if i + 1 < j {
      WalkOrder(a, off, i, j - 1);
    }
  }

  lemma NeighboursInOrder(a: Area, off: nat, j: nat)
    requires WellFormed(a) && 0 < j < |Walk(a, off)|
    ensures var w := Walk(a, off);
      && w[j - 1].item.Success? && w[j - 1].at < w[j - 1].next == Boundary(off, w, j) <= w[j].at
      && (w[j].at < a.protEnd ==> w[j - 1].at < a.protEnd)
  {
    WalkShape(a, off, j - 1);
    WalkShape(a, off, j);
  }

  /** The walk passes the one skipped info header at most once. */
  lemma SkipsOnce(a: Area, off: nat, i: nat, j: nat)
    requires WellFormed(a) && i < |Walk(a, off)| && j < |Walk(a, off)|
    requires Walk(a, off)[i].at != Boundary(off, Walk(a, off), i)
    requires Walk(a, off)[j].at != Boundary(off, Walk(a, off), j)
    ensures i == j && Boundary(off, Walk(a, off), i) == a.protEnd
  {
    WalkShape(a, off, i);
    WalkShape(a, off, j);
    if i < j {
      WalkOrder(a, off, i, j);
    } else if j < i {
      WalkOrder(a, off, j, i);
    }
  }

  function Covered(w: seq<Step>): nat {
    if w == [] then 0
    else (if w[0].item.Success? then ENTRY_SIZE + |w[0].item.value.value| else 0) + Covered(w[1..])
  }

  /** An error-free walk tiles the rest of the area: the entries' bytes, and four more if
      it steps over the second info header. */
  lemma {:induction false} WalkTiles(a: Area, off: nat)
    requires WellFormed(a) && ErrorFree(Walk(a, off)) && off <= a.end
    ensures Covered(Walk(a, off)) + (if SkipsHeader(a, off) then INFO_SIZE else 0) == a.end - off
    decreases a.end - off
  {
    if off < a.end {
      var s := ReadStep(a, off);
      assert Walk(a, off)[0] == s && Walk(a, off)[1..] == Walk(a, s.next);
      assert ErrorFree(Walk(a, s.next)) by {
        forall i | 0 <= i < |Walk(a, s.next)|
          ensures Walk(a, s.next)[i].item.Success?
        {
          assert Walk(a, s.next)[i] == Walk(a, off)[i + 1];
        }
      }
      WalkTiles(a, s.next);
      if a.protEnd != a.start && off == a.protEnd {
        PastTheHeader(a, s.next);
      }
    }
  }

  /** Whether the walk from `off` stands at the second info header before the end. */
  predicate SkipsHeader(a: Area, off: nat)
    requires WellFormed(a)
    decreases a.end - off
  {
    off < a.end && ((a.protEnd != a.start && off == a.protEnd) || SkipsHeader(a, ReadStep(a, off).next))
  }

  lemma {:induction false} PastTheHeader(a: Area, off: nat)
    requires WellFormed(a) && (off > a.protEnd || a.protEnd == a.start)
    ensures !SkipsHeader(a, off)
    decreases a.end - off
  {
    if off < a.end {
      PastTheHeader(a, ReadStep(a, off).next);
    }
  }

  // ---------- finding and collecting ----------

  /** `iter().map(..).collect::<Result<..>>()`: every entry, or the first error. */
  function Collect(w: seq<Step>): Result<seq<Entry>, TlvError> {
    if w == [] then Success([])
    else
      match w[0].item
      case Failure(e) => Failure(e)
      case Success(tlv) =>
        match Collect(w[1..])
        case Failure(e) => Failure(e)
        case Success(rest) => Success([Entry(tlv.kind, tlv.value)] + rest)
  }

  /** `find`: the first entry of `kind` before any error. */
  function FindIn(w: seq<Step>, kind: u16): Option<seq<byte>> {
    if w == [] || w[0].item.Failure? then None
    else if w[0].item.value.kind == kind then Some(w[0].item.value.value)
    else FindIn(w[1..], kind)
  }

  function Find(a: Area, kind: u16): Option<seq<byte>>
    requires WellFormed(a)
  {
    FindIn(Walk(a, a.first), kind)
  }

  /** Collecting succeeds exactly on a walk with no error, and then gives each entry in turn. */
  lemma {:induction false} CollectExactly(w: seq<Step>)
    ensures Collect(w).Success? <==> ErrorFree(w)
    ensures Collect(w).Success? ==> |Collect(w).value| == |w|
    ensures Collect(w).Success? ==>
      forall i :: 0 <= i < |w| ==> Collect(w).value[i] == Entry(w[i].item.value.kind, w[i].item.value.value)
  {
    if w != [] {
      CollectExactly(w[1..]);
      if w[0].item.Success? && ErrorFree(w[1..]) {
        forall i | 0 <= i < |w|
          ensures w[i].item.Success?
        {
          assert i > 0 ==> w[i] == w[1..][i - 1];
        }
      }
      if ErrorFree(w) {
        assert forall i :: 0 <= i < |w[1..]| ==> w[1..][i] == w[i + 1];
      }
    }
  }

  /** Finding gives the value of the first entry of the kind, if every entry before it read. */
  lemma {:induction false} FindExactly(w: seq<Step>, kind: u16, v: seq<byte>)
    ensures FindIn(w, kind) == Some(v) <==>
      exists i :: 0 <= i < |w| && FirstAt(w, kind, i) && w[i].item.value.value == v
  {
    if w != [] && w[0].item.Success? {
      if w[0].item.value.kind == kind {
        assert FirstAt(w, kind, 0);
      } else {
        FindExactly(w[1..], kind, v);
        FirstShifts(w, kind);
      }
    }
  }

  /** Step `i` is the first of the kind, and every step up to it read. */
  predicate FirstAt(w: seq<Step>, kind: u16, i: nat)
    requires i < |w|
  {
    && (forall j :: 0 <= j <= i ==> w[j].item.Success?)
    && w[i].item.value.kind == kind && forall j :: 0 <= j < i ==> w[j].item.value.kind != kind
  }

  lemma FirstShifts(w: seq<Step>, kind: u16)
    requires w != [] && w[0].item.Success? && w[0].item.value.kind != kind
    ensures forall i :: 0 <= i < |w[1..]| ==> (FirstAt(w[1..], kind, i) <==> FirstAt(w, kind, i + 1))
  {
    forall i | 0 <= i < |w[1..]|
      ensures FirstAt(w[1..], kind, i) <==> FirstAt(w, kind, i + 1)
    {
      FirstShift(w, kind, i);
    }
  }

  lemma FirstShift(w: seq<Step>, kind: u16, i: nat)
    requires w != [] && w[0].item.Success? && w[0].item.value.kind != kind && i + 1 < |w|
    ensures FirstAt(w[1..], kind, i) <==> FirstAt(w, kind, i + 1)
  {
    if FirstAt(w[1..], kind, i) {
      forall j | 0 <= j <= i + 1
        ensures w[j].item.Success? && (j <= i ==> w[j].item.value.kind != kind)
      {
        assert j > 0 ==> w[j] == w[1..][j - 1];
      }
    }
    if FirstAt(w, kind, i + 1) {
      assert forall j :: 0 <= j <= i ==> w[1..][j] == w[j + 1];
    }
  }

  /** An error-free walk of an area with no protected part loses nothing: its entries are the
      bytes walked. */
  lemma {:induction false} WalkSpells(a: Area, off: nat)
    requires WellFormed(a) && a.protEnd == a.start && off <= a.end && ErrorFree(Walk(a, off))
    ensures Collect(Walk(a, off)).Success? && EntriesBytes(Collect(Walk(a, off)).value) == a.image[off..a.end]
    decreases a.end - off
  {
    if off < a.end {
      var s := ReadStep(a, off);
      WalkUnfolds(a, off);
      ErrorFreeTail(s, Walk(a, s.next));
      WalkSpells(a, s.next);
      StepIsItsBytes(a, off);
      CollectStep(s, Walk(a, s.next));
      assert a.image[off..s.next] + a.image[s.next..a.end] == a.image[off..a.end];
    }
  }

  lemma CollectStep(s: Step, w: seq<Step>)
    requires s.item.Success? && Collect(w).Success?
    ensures Collect([s] + w).Success?
    ensures EntriesBytes(Collect([s] + w).value) ==
            EntryBytes(Entry(s.item.value.kind, s.item.value.value)) + EntriesBytes(Collect(w).value)
  {
    assert ([s] + w)[0] == s && ([s] + w)[1..] == w;
    var e, rest := Entry(s.item.value.kind, s.item.value.value), Collect(w).value;
    assert ([e] + rest)[0] == e && ([e] + rest)[1..] == rest;
  }

  lemma ErrorFreeTail(s: Step, w: seq<Step>)
    requires ErrorFree([s] + w)
    ensures s.item.Success? && ErrorFree(w) && ([s] + w)[1..] == w
  {
    assert ([s] + w)[0] == s;
    forall i | 0 <= i < |w|
      ensures w[i].item.Success?
    {
      assert ([s] + w)[i + 1] == w[i];
    }
  }

  // ---------- round trip ----------

  function FirstOf(es: seq<Entry>, kind: u16): Option<seq<byte>> {
    if es == [] then None else if es[0].kind == kind then Some(es[0].value) else FirstOf(es[1..], kind)
  }

  /** The steps of a walk that reads `es` back from `off`. */
  function StepsOf(off: nat, es: seq<Entry>, protected: bool): seq<Step>
    decreases |es|
  {
    if es == [] then []
    else
      var next := off + ENTRY_SIZE + |es[0].value|;
      [Step(off, Success(Tlv(es[0].kind, es[0].value, protected)), next)] + StepsOf(next, es[1..], protected)
  }

  /** Collecting such steps and then a tail: the entries, then what the tail gives. */
  lemma {:induction false} StepsCollect(off: nat, es: seq<Entry>, protected: bool, tail: seq<Step>)
    ensures Collect(StepsOf(off, es, protected) + tail) == Prefixed(es, Collect(tail))
    decreases |es|
  {
    if es == [] {
      assert StepsOf(off, es, protected) + tail == tail;
      assert Collect(tail).Success? ==> es + Collect(tail).value == Collect(tail).value;
    } else {
      var next := off + ENTRY_SIZE + |es[0].value|;
      StepsCollect(next, es[1..], protected, tail);
      StepsAndTail(off, es, protected, tail);
      PrefixedTwice(es, Collect(tail));
    }
  }

  lemma StepsAndTail(off: nat, es: seq<Entry>, protected: bool, tail: seq<Step>)
    requires es != []
    ensures var all, next := StepsOf(off, es, protected) + tail, off + ENTRY_SIZE + |es[0].value|;
      all != [] && all[0] == StepsOf(off, es, protected)[0] && all[1..] == StepsOf(next, es[1..], protected) + tail
  {
  }

  function Prefixed(es: seq<Entry>, r: Result<seq<Entry>, TlvError>): Result<seq<Entry>, TlvError> {
    match r
    case Success(rest) => Success(es + rest)
    case Failure(e) => Failure(e)
  }

  lemma PrefixedTwice(es: seq<Entry>, r: Result<seq<Entry>, TlvError>)
    requires es != []
    ensures Prefixed(es, r) == Prefixed([Entry(es[0].kind, es[0].value)], Prefixed(es[1..], r))
  {
    if r.Success? {
      assert es + r.value == [es[0]] + (es[1..] + r.value);
    }
  }

  lemma {:induction false} StepsFind(off: nat, es: seq<Entry>, protected: bool, tail: seq<Step>, kind: u16)
    ensures FindIn(StepsOf(off, es, protected) + tail, kind) ==
            if FirstOf(es, kind).Some? then FirstOf(es, kind) else FindIn(tail, kind)
    decreases |es|
  {
    if es == [] {
      assert StepsOf(off, es, protected) + tail == tail;
    } else {
      var next := off + ENTRY_SIZE + |es[0].value|;
      StepsFind(next, es[1..], protected, tail, kind);
      StepsAndTail(off, es, protected, tail);
    }
  }

  /** `b` holds `bytes` from `off`. */
  ghost predicate Spells(b: seq<byte>, off: nat, bytes: seq<byte>) {
    off + |bytes| <= |b| && forall j :: off <= j < off + |bytes| ==> b[j] == bytes[j - off]
  }

  lemma SpellsParts(b: seq<byte>, off: nat, x: seq<byte>, y: seq<byte>)
    requires Spells(b, off, x + y)
    ensures Spells(b, off, x) && Spells(b, off + |x|, y)
  {
    assert forall j :: off <= j < off + |x| ==> b[j] == (x + y)[j - off];
    assert forall j :: off + |x| <= j < off + |x + y| ==> b[j] == (x + y)[j - off];
  }

  lemma EntryReadsBack(a: Area, off: nat, e: Entry)
    requires WellFormed(a) && off < a.end && |e.value| < 0x1_0000
    requires Spells(a.image, Skip(a, off), EntryBytes(e)) && Skip(a, off) + |EntryBytes(e)| <= a.end
    ensures var at := Skip(a, off);
      ReadStep(a, off) == Step(at, Success(Tlv(e.kind, e.value, at < a.protEnd)), at + ENTRY_SIZE + |e.value|)
  {
    var at, b := Skip(a, off), EntryBytes(e);
    Le16RoundTrip(b, 0, e.kind);
    Le16RoundTrip(b, 2, |e.value|);
    assert a.image[at] == b[0] && a.image[at + 1] == b[1] && a.image[at + 2] == b[2] && a.image[at + 3] == b[3];
    SpelledValue(a.image, at, e);
  }

  lemma SpelledValue(b: seq<byte>, at: nat, e: Entry)
    requires Spells(b, at, EntryBytes(e))
    ensures b[at + ENTRY_SIZE..at + ENTRY_SIZE + |e.value|] == e.value
  {
    var value := b[at + ENTRY_SIZE..at + ENTRY_SIZE + |e.value|];
    forall i | 0 <= i < |e.value|
      ensures value[i] == e.value[i]
    {
      var j := at + ENTRY_SIZE + i;
      assert b[j] == EntryBytes(e)[j - at];
    }
  }

  /** Entries from `off` to `to` lie on one side of the second info header: before it, or
      after it, or there is none. */
  predicate OneSide(a: Area, off: nat, to: nat, protected: bool) {
    if protected then to <= a.protEnd else off > a.protEnd || a.protEnd == a.start <= off
  }

  /** Step by step from `off`, the walk reads `es`. */
  ghost predicate ReadsAs(a: Area, off: nat, es: seq<Entry>, protected: bool)
    requires WellFormed(a)
    decreases |es|
  {
    if es == [] then true
    else
      var next := off + ENTRY_SIZE + |es[0].value|;
      && off < a.end && ReadStep(a, off) == Step(off, Success(Tlv(es[0].kind, es[0].value, protected)), next)
      && ReadsAs(a, next, es[1..], protected)
  }

  /** Entries that are written are read. */
  lemma {:induction false} WrittenIsRead(a: Area, off: nat, es: seq<Entry>, protected: bool)
    requires WellFormed(a) && Spells(a.image, off, EntriesBytes(es)) && |EntriesBytes(es)| < 0x1_0000
    requires off + |EntriesBytes(es)| <= a.end && OneSide(a, off, off + |EntriesBytes(es)|, protected)
    ensures ReadsAs(a, off, es, protected)
    decreases |es|
  {
    if es != [] {
      SpellsParts(a.image, off, EntryBytes(es[0]), EntriesBytes(es[1..]));
      EntryReadsBack(a, off, es[0]);
      WrittenIsRead(a, off + ENTRY_SIZE + |es[0].value|, es[1..], protected);
    }
  }

  /** What is read step by step is what the walk gives, and then it goes on. */
  lemma {:induction false} ReadIsWalked(a: Area, off: nat, es: seq<Entry>, protected: bool, to: nat)
    requires WellFormed(a) && ReadsAs(a, off, es, protected) && to == off + |EntriesBytes(es)|
    ensures Walk(a, off) == StepsOf(off, es, protected) + Walk(a, to)
    decreases |es|
  {
    if es == [] {
      assert StepsOf(off, es, protected) + Walk(a, to) == Walk(a, to);
    } else {
      var next := off + ENTRY_SIZE + |es[0].value|;
      ReadIsWalked(a, next, es[1..], protected, to);
      WalkUnfolds(a, off);
      Prepend(ReadStep(a, off), StepsOf(next, es[1..], protected), Walk(a, to));
    }
  }

  lemma Prepend(step: Step, steps: seq<Step>, tail: seq<Step>)
    ensures [step] + (steps + tail) == ([step] + steps) + tail
  {
  }

  lemma WalkUnfolds(a: Area, off: nat)
    requires WellFormed(a) && off < a.end
    ensures Walk(a, off) == [ReadStep(a, off)] + Walk(a, ReadStep(a, off).next)
  {
  }

  /** An info header spelled in an image is read as it is. */
  lemma InfoReadsBack(image: seq<byte>, off: nat, magic: u16, es: seq<Entry>)
    requires Fits(es) && Spells(image, off, InfoArea(magic, es))
    ensures Pair(image, off) == Some((magic, |InfoArea(magic, es)|))
    ensures Spells(image, off + INFO_SIZE, EntriesBytes(es))
  {
    var bytes := InfoArea(magic, es);
    Le16RoundTrip(bytes, 0, magic);
    Le16RoundTrip(bytes, 2, |bytes|);
    assert image[off] == bytes[0] && image[off + 1] == bytes[1] && image[off + 2] == bytes[2] && image[off + 3] == bytes[3];
    SpellsParts(image, off, bytes[..4], EntriesBytes(es));
  }

  lemma SpellsMiddle(pre: seq<byte>, bytes: seq<byte>, post: seq<byte>)
    ensures Spells(pre + bytes + post, |pre|, bytes)
  {
  }

  /** The area of an image that is `pre`, then `es` written as an area, then `post`. */
  function WrittenArea(pre: seq<byte>, es: seq<Entry>, post: seq<byte>): Area
    requires Fits(es)
  {
    Area(pre + AreaBytes(es) + post, |pre|, |pre| + INFO_SIZE, |pre|, |pre| + |AreaBytes(es)|)
  }

  /** An area written after `pre` parses as written and reads back, whatever follows it. */
  lemma AreaRoundTrip(pre: seq<byte>, es: seq<Entry>, post: seq<byte>, header: Header)
    requires Fits(es) && header.TlvOff() == Some(|pre|) && header.protectTlvSize == 0
    ensures Parse(pre + AreaBytes(es) + post, header) == Success(WrittenArea(pre, es, post))
    ensures WellFormed(WrittenArea(pre, es, post))
    ensures Walk(WrittenArea(pre, es, post), |pre| + INFO_SIZE) == StepsOf(|pre| + INFO_SIZE, es, false)
  {
    SpellsMiddle(pre, AreaBytes(es), post);
    SpelledParses(WrittenArea(pre, es, post), es, header);
    SpelledWalks(WrittenArea(pre, es, post), es);
  }

  /** `a` is an unprotected area that spells `es`. */
  ghost predicate SpelledArea(a: Area, es: seq<Entry>) {
    && Fits(es) && Spells(a.image, a.start, InfoArea(INFO_MAGIC, es))
    && a.first == a.start + INFO_SIZE && a.protEnd == a.start && a.end == a.start + |InfoArea(INFO_MAGIC, es)|
  }

  lemma SpelledParses(a: Area, es: seq<Entry>, header: Header)
    requires SpelledArea(a, es) && header.TlvOff() == Some(a.start) && header.protectTlvSize == 0
    ensures Parse(a.image, header) == Success(a)
  {
    InfoReadsBack(a.image, a.start, INFO_MAGIC, es);
  }

  lemma SpelledWalks(a: Area, es: seq<Entry>)
    requires SpelledArea(a, es)
    ensures WellFormed(a) && Walk(a, a.first) == StepsOf(a.first, es, false)
  {
    InfoReadsBack(a.image, a.start, INFO_MAGIC, es);
    WalkToTheEnd(a, a.first, es);
  }

  /** Unprotected entries that fill the area to its end are all the walk reads. */
  lemma WalkToTheEnd(a: Area, off: nat, es: seq<Entry>)
    requires WellFormed(a) && Spells(a.image, off, EntriesBytes(es)) && |EntriesBytes(es)| < 0x1_0000
    requires off + |EntriesBytes(es)| == a.end && OneSide(a, off, a.end, false)
    ensures Walk(a, off) == StepsOf(off, es, false)
  {
    WrittenIsRead(a, off, es, false);
    ReadIsWalked(a, off, es, false, a.end);
    assert Walk(a, a.end) == [];
    assert StepsOf(off, es, false) + [] == StepsOf(off, es, false);
  }

  /** So collecting gives the entries back, and finding a kind its first value. */
  lemma EntriesRoundTrip(pre: seq<byte>, es: seq<Entry>, post: seq<byte>, header: Header, kind: u16)
    requires Fits(es) && header.TlvOff() == Some(|pre|) && header.protectTlvSize == 0
    ensures WellFormed(WrittenArea(pre, es, post))
    ensures Collect(Walk(WrittenArea(pre, es, post), |pre| + INFO_SIZE)) == Success(es)
    ensures Find(WrittenArea(pre, es, post), kind) == FirstOf(es, kind)
  {
    var steps := StepsOf(|pre| + INFO_SIZE, es, false);
    AreaRoundTrip(pre, es, post, header);
    StepsCollect(|pre| + INFO_SIZE, es, false, []);
    StepsFind(|pre| + INFO_SIZE, es, false, [], kind);
    assert steps + [] == steps && es + [] == es;
  }

  // ---------- with a protected area ----------

  /** The area of an image with protected entries `ps` before the others. */
  function ProtectedArea(pre: seq<byte>, ps: seq<Entry>, es: seq<Entry>, post: seq<byte>): Area
    requires Fits(ps) && Fits(es)
  {
    var prot := InfoArea(PROT_INFO_MAGIC, ps);
    var protEnd := |pre| + |prot|;
    Area(pre + prot + (AreaBytes(es) + post), |pre|, |pre| + INFO_SIZE, protEnd, protEnd + |AreaBytes(es)|)
  }

  lemma ProtectedSpells(pre: seq<byte>, ps: seq<Entry>, es: seq<Entry>, post: seq<byte>)
    requires Fits(ps) && Fits(es)
    ensures SpelledBoth(ProtectedArea(pre, ps, es, post), ps, es)
  {
    var prot := InfoArea(PROT_INFO_MAGIC, ps);
    SpellsMiddle(pre, prot, AreaBytes(es) + post);
    SpellsMiddle(pre + prot, AreaBytes(es), post);
    assert pre + prot + (AreaBytes(es) + post) == pre + prot + AreaBytes(es) + post;
  }

  /** Two areas parse and walk as written, protected entries first. With no unprotected entry
      the walk still tries to read one past the second info header, and ends in an error. */
  lemma ProtectedRoundTrip(pre: seq<byte>, ps: seq<Entry>, es: seq<Entry>, post: seq<byte>, header: Header)
    requires Fits(ps) && Fits(es) && header.TlvOff() == Some(|pre|)
    requires header.protectTlvSize == |InfoArea(PROT_INFO_MAGIC, ps)|
    ensures var a := ProtectedArea(pre, ps, es, post);
      && Parse(a.image, header) == Success(a) && WellFormed(a)
      && Walk(a, a.first) == StepsOf(a.first, ps, true) + UnprotectedSteps(a, es)
      && Collect(Walk(a, a.first)) == if es == [] then Failure(Truncated) else Success(ps + es)
  {
    var a := ProtectedArea(pre, ps, es, post);
    ProtectedSpells(pre, ps, es, post);
    ProtectedParses(a, ps, es, header);
    BothAreas(a, ps, es);
    CollectBoth(a, ps, es);
  }

  /** `a` spells protected `ps`, then `es`. */
  ghost predicate SpelledBoth(a: Area, ps: seq<Entry>, es: seq<Entry>) {
    && Fits(ps) && Fits(es) && WellFormed(a) && a.protEnd == a.start + |InfoArea(PROT_INFO_MAGIC, ps)|
    && a.end == a.protEnd + |InfoArea(INFO_MAGIC, es)|
    && Spells(a.image, a.start, InfoArea(PROT_INFO_MAGIC, ps)) && Spells(a.image, a.protEnd, InfoArea(INFO_MAGIC, es))
  }

  lemma ProtectedParses(a: Area, ps: seq<Entry>, es: seq<Entry>, header: Header)
    requires SpelledBoth(a, ps, es) && header.TlvOff() == Some(a.start)
    requires header.protectTlvSize == |InfoArea(PROT_INFO_MAGIC, ps)|
    ensures Parse(a.image, header) == Success(a)
  {
    InfoReadsBack(a.image, a.start, PROT_INFO_MAGIC, ps);
    InfoReadsBack(a.image, a.protEnd, INFO_MAGIC, es);
  }

  function UnprotectedSteps(a: Area, es: seq<Entry>): seq<Step> {
    if es == [] then [Step(a.protEnd + INFO_SIZE, Failure(Truncated), a.end)]
    else StepsOf(a.protEnd + INFO_SIZE, es, false)
  }

  lemma BothAreas(a: Area, ps: seq<Entry>, es: seq<Entry>)
    requires SpelledBoth(a, ps, es)
    ensures Walk(a, a.first) == StepsOf(a.first, ps, true) + UnprotectedSteps(a, es)
  {
    ProtectedIsRead(a, ps, es);
    ReadIsWalked(a, a.first, ps, true, a.protEnd);
    InfoReadsBack(a.image, a.protEnd, INFO_MAGIC, es);
    SecondArea(a, es);
  }

  lemma ProtectedIsRead(a: Area, ps: seq<Entry>, es: seq<Entry>)
    requires SpelledBoth(a, ps, es)
    ensures ReadsAs(a, a.first, ps, true) && a.protEnd == a.first + |EntriesBytes(ps)|
  {
    InfoReadsBack(a.image, a.start, PROT_INFO_MAGIC, ps);
    WrittenIsRead(a, a.first, ps, true);
  }

  lemma CollectBoth(a: Area, ps: seq<Entry>, es: seq<Entry>)
    ensures Collect(StepsOf(a.first, ps, true) + UnprotectedSteps(a, es)) ==
            if es == [] then Failure(Truncated) else Success(ps + es)
  {
    StepsCollect(a.first, ps, true, UnprotectedSteps(a, es));
    if es != [] {
      var steps := StepsOf(a.protEnd + INFO_SIZE, es, false);
      StepsCollect(a.protEnd + INFO_SIZE, es, false, []);
      assert steps + [] == steps && es + [] == es;
    }
  }

  lemma SecondArea(a: Area, es: seq<Entry>)
    requires WellFormed(a) && a.protEnd != a.start && Fits(es)
    requires a.end == a.protEnd + INFO_SIZE + |EntriesBytes(es)| && Spells(a.image, a.protEnd + INFO_SIZE, EntriesBytes(es))
    ensures Walk(a, a.protEnd) == UnprotectedSteps(a, es)
  {
    WalkUnfolds(a, a.protEnd);
    if es == [] {
      assert ReadStep(a, a.protEnd) == Step(a.protEnd + INFO_SIZE, Failure(Truncated), a.end);
      assert Walk(a, a.end) == [];
    } else {
      FirstUnprotected(a, es);
    }
  }

  lemma FirstUnprotected(a: Area, es: seq<Entry>)
    requires WellFormed(a) && a.protEnd != a.start && Fits(es) && es != []
    requires a.end == a.protEnd + INFO_SIZE + |EntriesBytes(es)| && Spells(a.image, a.protEnd + INFO_SIZE, EntriesBytes(es))
    ensures [ReadStep(a, a.protEnd)] + Walk(a, ReadStep(a, a.protEnd).next) == StepsOf(a.protEnd + INFO_SIZE, es, false)
  {
    var next := FirstIsRead(a, es);
    FitsRest(es);
    WalkToTheEnd(a, next, es[1..]);
    StepsOfFirst(a.protEnd + INFO_SIZE, es);
  }

  lemma FitsRest(es: seq<Entry>)
    requires Fits(es) && es != []
    ensures |EntriesBytes(es[1..])| < 0x1_0000
  {
  }

  lemma StepsOfFirst(off: nat, es: seq<Entry>)
    requires es != []
    ensures var next := off + ENTRY_SIZE + |es[0].value|;
      StepsOf(off, es, false) == [Step(off, Success(Tlv(es[0].kind, es[0].value, false)), next)] + StepsOf(next, es[1..], false)
  {
  }

  lemma FirstIsRead(a: Area, es: seq<Entry>) returns (next: nat)
    requires WellFormed(a) && a.protEnd != a.start && Fits(es) && es != []
    requires a.end == a.protEnd + INFO_SIZE + |EntriesBytes(es)| && Spells(a.image, a.protEnd + INFO_SIZE, EntriesBytes(es))
    ensures next == a.protEnd + INFO_SIZE + ENTRY_SIZE + |es[0].value|
    ensures ReadStep(a, a.protEnd) == Step(a.protEnd + INFO_SIZE, Success(Tlv(es[0].kind, es[0].value, false)), next)
    ensures Spells(a.image, next, EntriesBytes(es[1..])) && next + |EntriesBytes(es[1..])| == a.end
  {
    next := a.protEnd + INFO_SIZE + ENTRY_SIZE + |es[0].value|;
    SpellsParts(a.image, a.protEnd + INFO_SIZE, EntryBytes(es[0]), EntriesBytes(es[1..]));
    EntryReadsBack(a, a.protEnd, es[0]);
  }

  // ---------- an area read in place ----------

  /** An image parses the same when more bytes follow it, as it does in its slot. */
  lemma ParseIgnoresTheRest(image: seq<byte>, slot: seq<byte>, header: Header)
    requires image <= slot && Parse(image, header).Success?
    ensures Parse(slot, header) == Success(Parse(image, header).value.(image := slot))
  {
  }

  lemma StepIgnoresTheRest(a: Area, slot: seq<byte>, off: nat)
    requires WellFormed(a) && a.image <= slot && off < a.end
    ensures WellFormed(a.(image := slot)) && ReadStep(a.(image := slot), off) == ReadStep(a, off)
  {
    var at := Skip(a, off);
    assert forall i :: 0 <= i < |a.image| ==> slot[i] == a.image[i];
    if ReadStep(a, off).item.Success? {
      var next := ReadStep(a, off).next;
      assert slot[at + ENTRY_SIZE..next] == a.image[at + ENTRY_SIZE..next];
    }
  }

  lemma {:induction false} WalkIgnoresTheRest(a: Area, slot: seq<byte>, off: nat)
    requires WellFormed(a) && a.image <= slot
    ensures WellFormed(a.(image := slot)) && Walk(a.(image := slot), off) == Walk(a, off)
    decreases a.end - off
  {
    if off < a.end {
      StepIgnoresTheRest(a, slot, off);
      WalkIgnoresTheRest(a, slot, ReadStep(a, off).next);
    }
  }
}
