/** The errors of bm-image. */
module ImageErrors {
  import opened Bytes
  import TlvArea

  datatype ElfFault =
    | NoMagic | NotLe32 | ShortHeader | ShortEntries | TableOutside | BytesOutside | Wraps

  datatype Error =
    | Elf(fault: ElfFault)
    | NothingAt(base: u32)
    | SectionBelow(addr: u32, lowest: u32)
    | Overlap(at: u32)
    | NoVersion
    | TooLong(len: nat, limit: nat)
    | BootloaderTooLong(length: nat)
    | NotAnImage
    | Tlv(tlv: TlvArea.TlvError)
}

/** Which bytes of a 32-bit little-endian ELF are loaded where, and their flat layout. */
module ElfFile {
  import opened Bytes
  import opened Outcomes
  import opened ImageErrors
  import opened ImageHeader

  const SHT_NOBITS := 8
  const PT_LOAD := 1
  const PHDR_SIZE := 32
  const SHDR_SIZE := 40
  const EHDR_SIZE := 52

  datatype Section = Section(addr: u32, data: seq<byte>) {
    predicate Covers(a: nat) {
      addr <= a < addr + |data|
    }
  }

  // ---------- the loaded sections ----------

  predicate IsElf(file: seq<byte>) {
    |file| >= 4 && file[0] == 0x7F && file[1] == 0x45 && file[2] == 0x4C && file[3] == 0x46
  }

  /** `chunks_exact`. */
  function Chunks(b: seq<byte>, size: nat): (r: seq<seq<byte>>)
    requires size > 0
    ensures forall c :: c in r ==> |c| == size
  {
    if |b| < size then [] else [b[..size]] + Chunks(b[size..], size)
  }

  function Product(a: nat, b: nat): nat {
    a * b
  }

  /** The entries of the table whose offset, entry size and count the header holds. */
  function Table(elf: seq<byte>, offAt: nat, sizeAt: nat, countAt: nat, minSize: nat): (r: Result<seq<seq<byte>>, Error>)
    requires offAt + 4 <= EHDR_SIZE && sizeAt + 2 <= EHDR_SIZE && countAt + 2 <= EHDR_SIZE && minSize > 0
    ensures r.Success? ==> forall c :: c in r.value ==> |c| >= minSize
    ensures r.Failure? ==> r.error in {Elf(ShortHeader), Elf(ShortEntries), Elf(TableOutside)}
  {
    if |elf| < EHDR_SIZE then Failure(Elf(ShortHeader))
    else
      var off, size, count := FromLe32(elf, offAt), FromLe16(elf, sizeAt), FromLe16(elf, countAt);
      if count == 0 then Success([])
      else if size < minSize then Failure(Elf(ShortEntries))
      else if off + Product(size, count) > |elf| then Failure(Elf(TableOutside))
      else Success(Chunks(elf[off..off + Product(size, count)], size))
  }

  /** The load address of the file bytes `[offset, end)`: that of the first `PT_LOAD`
      segment holding them, else the section's own. */
  function LoadAddress(segments: seq<seq<byte>>, offset: u32, end: nat, addr: u32): u32
    requires forall c :: c in segments ==> |c| >= PHDR_SIZE
  {
    if segments == [] then addr
    else
      var ph := segments[0];
      var pOffset, pPaddr, pFilesz := FromLe32(ph, 4), FromLe32(ph, 12), FromLe32(ph, 16);
      if FromLe32(ph, 0) == PT_LOAD && offset >= pOffset && end <= pOffset + pFilesz
      then (pPaddr + (offset - pOffset)) % U32_LIMIT
      else LoadAddress(segments[1..], offset, end, addr)
  }

  /** What one section header loads: nothing, an error, or a section. */
  function Loaded(elf: seq<byte>, segments: seq<seq<byte>>, sh: seq<byte>): (r: Result<Option<Section>, Error>)
    requires |sh| >= SHDR_SIZE && forall c :: c in segments ==> |c| >= PHDR_SIZE
    ensures r.Success? && r.value.Some? ==> r.value.value.data != [] && r.value.value.addr + |r.value.value.data| <= U32_LIMIT
    ensures r.Failure? ==> r.error in {Elf(BytesOutside), Elf(Wraps)}
  {
    var kind, flags := FromLe32(sh, 4), FromLe32(sh, 8);
    var addr, offset, size := FromLe32(sh, 12), FromLe32(sh, 16), FromLe32(sh, 20);
    if flags / 2 % 2 == 0 || kind == SHT_NOBITS || size == 0 then Success(None)
    else
      var end := offset + size;
      if end > |elf| then Failure(Elf(BytesOutside))
      else
        var load := LoadAddress(segments, offset, end, addr);
        if load + size > U32_LIMIT then Failure(Elf(Wraps)) else Success(Some(Section(load, elf[offset..end])))
  }

  /** The sections the headers load, in header order, or the first error. */
  function Gather(elf: seq<byte>, segments: seq<seq<byte>>, headers: seq<seq<byte>>): (r: Result<seq<Section>, Error>)
    requires forall c :: c in segments ==> |c| >= PHDR_SIZE
    requires forall c :: c in headers ==> |c| >= SHDR_SIZE
    ensures r.Success? ==> AllLoadable(r.value)
    ensures r.Failure? ==> r.error in {Elf(BytesOutside), Elf(Wraps)}
  {
    if headers == [] then Success([])
    else
      var last := headers[|headers| - 1];
      match Gather(elf, segments, headers[..|headers| - 1])
      case Failure(e) => Failure(e)
      case Success(sections) =>
        match Loaded(elf, segments, last)
        case Failure(e) => Failure(e)
        case Success(None) => Success(sections)
        case Success(Some(section)) => Success(sections + [section])
  }

  predicate AllLoadable(s: seq<Section>) {
    forall x :: x in s ==> x.data != [] && x.addr + |x.data| <= U32_LIMIT
  }

  /** `table` cuts its bytes into equal entries, one after the other. */
  lemma {:induction false} ChunkAt(b: seq<byte>, size: nat, k: nat)
    requires size > 0 && k < |Chunks(b, size)|
    ensures 0 <= k * size <= k * size + size <= |b| && Chunks(b, size)[k] == b[k * size..k * size + size]
  {
    if k > 0 {
      ChunkAt(b[size..], size, k - 1);
      assert (k - 1) * size + size == k * size;
      SliceOfRest(b, size, (k - 1) * size, size);
    }
  }

  lemma SliceOfRest(b: seq<byte>, off: nat, x: nat, n: nat)
    requires off + x + n <= |b|
    ensures b[off..][x..x + n] == b[off + x..off + x + n]
  {
    var rest, part, direct := b[off..], b[off..][x..x + n], b[off + x..off + x + n];
    forall j | 0 <= j < n
      ensures part[j] == direct[j]
    {
      assert part[j] == rest[x + j];
    }
  }

  /** Whether the segment is loaded and holds the file bytes `[offset, end)`. */
  predicate HoldsBytes(ph: seq<byte>, offset: nat, end: nat)
    requires |ph| >= PHDR_SIZE
  {
    FromLe32(ph, 0) == PT_LOAD && offset >= FromLe32(ph, 4) && end <= FromLe32(ph, 4) + FromLe32(ph, 16)
  }

  /** The load address is the first holding segment's, and the section's own only if none
      holds it. */
  lemma {:induction false} LoadAddressExactly(segments: seq<seq<byte>>, offset: u32, end: nat, addr: u32, k: nat)
    requires forall c :: c in segments ==> |c| >= PHDR_SIZE
    requires k <= |segments| && forall i :: 0 <= i < k ==> !HoldsBytes(segments[i], offset, end)
    ensures k == |segments| ==> LoadAddress(segments, offset, end, addr) == addr
    ensures k < |segments| && HoldsBytes(segments[k], offset, end) ==>
              LoadAddress(segments, offset, end, addr) ==
              (FromLe32(segments[k], 12) + (offset - FromLe32(segments[k], 4))) % U32_LIMIT
  {
    if k > 0 {
      assert !HoldsBytes(segments[0], offset, end);
      assert forall i :: 0 <= i < k - 1 ==> !HoldsBytes(segments[1..][i], offset, end);
      LoadAddressExactly(segments[1..], offset, end, addr, k - 1);
    }
  }

  /** Some header loads the section. */
  predicate LoadedBySome(elf: seq<byte>, segments: seq<seq<byte>>, headers: seq<seq<byte>>, x: Section)
    requires forall c :: c in segments ==> |c| >= PHDR_SIZE
    requires forall c :: c in headers ==> |c| >= SHDR_SIZE
  {
    exists h :: h in headers && Loaded(elf, segments, h) == Success(Some(x))
  }

  lemma LoadedByOneMore(elf: seq<byte>, segments: seq<seq<byte>>, headers: seq<seq<byte>>, last: seq<byte>, x: Section)
    requires forall c :: c in segments ==> |c| >= PHDR_SIZE
    requires (forall c :: c in headers ==> |c| >= SHDR_SIZE) && |last| >= SHDR_SIZE
    ensures LoadedBySome(elf, segments, headers + [last], x) <==>
            LoadedBySome(elf, segments, headers, x) || Loaded(elf, segments, last) == Success(Some(x))
  {
    if LoadedBySome(elf, segments, headers, x) {
      var h :| h in headers && Loaded(elf, segments, h) == Success(Some(x));
      assert h in headers + [last];
    }
    assert last in headers + [last];
  }

  /** The sections are exactly those some header loads. */
  lemma {:induction false} GatherExactly(elf: seq<byte>, segments: seq<seq<byte>>, headers: seq<seq<byte>>, x: Section)
    requires forall c :: c in segments ==> |c| >= PHDR_SIZE
    requires forall c :: c in headers ==> |c| >= SHDR_SIZE
    requires Gather(elf, segments, headers).Success?
    ensures x in Gather(elf, segments, headers).value <==> LoadedBySome(elf, segments, headers, x)
  {
    if headers != [] {
      var last, rest := headers[|headers| - 1], headers[..|headers| - 1];
      GatherExactly(elf, segments, rest, x);
      assert headers == rest + [last];
      LoadedByOneMore(elf, segments, rest, last, x);
    }
  }

  // ---------- in address order ----------

  predicate Sorted(s: seq<Section>) {
    forall i, j :: 0 <= i < j < |s| ==> s[i].addr <= s[j].addr
  }

  /** `x` after every section at or below its address. */
  function Insert(x: Section, s: seq<Section>): seq<Section> {
    if s == [] || x.addr < s[0].addr then [x] + s else [s[0]] + Insert(x, s[1..])
  }

  lemma {:induction false} InsertKeeps(x: Section, s: seq<Section>)
    ensures multiset(Insert(x, s)) == multiset(s) + multiset{x}
  {
    if s != [] && s[0].addr <= x.addr {
      InsertKeeps(x, s[1..]);
      assert s == [s[0]] + s[1..];
    }
  }

  lemma {:induction false} InsertSorts(x: Section, s: seq<Section>)
    requires Sorted(s)
    ensures Sorted(Insert(x, s))
  {
    if s != [] && s[0].addr <= x.addr {
      var rest := Insert(x, s[1..]);
      InsertSorts(x, s[1..]);
      InsertKeeps(x, s[1..]);
      forall i | 0 <= i < |rest|
        ensures s[0].addr <= rest[i].addr
      {
        assert rest[i] in multiset(s[1..]) + multiset{x};
      }
    }
  }

  /** `sort_by_key` on the address. */
  function SortByAddr(s: seq<Section>): seq<Section> {
    if s == [] then [] else Insert(s[|s| - 1], SortByAddr(s[..|s| - 1]))
  }

  /** In order, and the same sections. */
  lemma {:induction false} SortSorts(s: seq<Section>)
    ensures Sorted(SortByAddr(s)) && multiset(SortByAddr(s)) == multiset(s)
  {
    if s != [] {
      var last, rest := s[|s| - 1], s[..|s| - 1];
      SortSorts(rest);
      InsertSorts(last, SortByAddr(rest));
      InsertKeeps(last, SortByAddr(rest));
      assert s == rest + [last];
    }
  }

  /** The sections the headers load, ordered by where they go. */
  function Sections(elf: seq<byte>): (r: Result<seq<Section>, Error>)
    ensures r.Success? ==> Sorted(r.value) && AllLoadable(r.value)
    ensures r.Failure? ==> r.error.Elf?
  {
    if !IsElf(elf) then Failure(Elf(NoMagic))
    else if |elf| < 6 || elf[4] != 1 || elf[5] != 1 then Failure(Elf(NotLe32))
    else
      match Table(elf, 28, 42, 44, PHDR_SIZE)
      case Failure(e) => Failure(e)
      case Success(segments) =>
        match Table(elf, 32, 46, 48, SHDR_SIZE)
        case Failure(e) => Failure(e)
        case Success(headers) =>
          match Gather(elf, segments, headers)
          case Failure(e) => Failure(e)
          case Success(s) =>
            SortSorts(s);
            SortKeepsSections(s);
            Success(SortByAddr(s))
  }

  lemma SortKeepsSections(s: seq<Section>)
    requires AllLoadable(s)
    ensures AllLoadable(SortByAddr(s))
  {
    SortSorts(s);
    forall x | x in SortByAddr(s)
      ensures x in s
    {
      assert x in multiset(SortByAddr(s));
    }
  }

  /** `sections`: the loop over the section headers, then the sort. */
  method ReadSections(elf: seq<byte>) returns (r: Result<seq<Section>, Error>)
    ensures r == Sections(elf)
  {
    if !IsElf(elf) {
      return Failure(Elf(NoMagic));
    }
    if |elf| < 6 || elf[4] != 1 || elf[5] != 1 {
      return Failure(Elf(NotLe32));
    }
    var segments := Table(elf, 28, 42, 44, PHDR_SIZE);
    if segments.Failure? {
      return Failure(segments.error);
    }
    var headers := Table(elf, 32, 46, 48, SHDR_SIZE);
    if headers.Failure? {
      return Failure(headers.error);
    }
    var out: seq<Section> := [];
    for k := 0 to |headers.value|
      invariant Gather(elf, segments.value, headers.value[..k]) == Success(out)
    {
      var sh := headers.value[k];
      assert headers.value[..k + 1][..k] == headers.value[..k] && headers.value[..k + 1][k] == sh;
      var loaded := Loaded(elf, segments.value, sh);
      if loaded.Failure? {
        ErrorStays(elf, segments.value, headers.value, k + 1);
        return Failure(loaded.error);
      }
      if loaded.value.Some? {
        out := out + [loaded.value.value];
      }
    }
    assert headers.value[..|headers.value|] == headers.value;
    r := Success(SortByAddr(out));
  }

  lemma {:induction false} ErrorStays(elf: seq<byte>, segments: seq<seq<byte>>, headers: seq<seq<byte>>, k: nat)
    requires forall c :: c in segments ==> |c| >= PHDR_SIZE
    requires forall c :: c in headers ==> |c| >= SHDR_SIZE
    requires k <= |headers| && Gather(elf, segments, headers[..k]).Failure?
    ensures Gather(elf, segments, headers) == Gather(elf, segments, headers[..k])
  {
    if k == |headers| {
      assert headers[..k] == headers;
    } else {
      var shorter := headers[..|headers| - 1];
      assert shorter[..k] == headers[..k];
      ErrorStays(elf, segments, shorter, k);
    }
  }

  // ---------- the sections, from the file's bytes ----------

  /** The words of a program header and of a section header that matter. */
  datatype Ph = Ph(kind: u32, offset: u32, paddr: u32, filesz: u32) {
    predicate Holds(from: nat, end: nat) {
      kind == 1 && offset <= from && end <= offset + filesz
    }
  }

  datatype Sh = Sh(kind: u32, flags: u32, addr: u32, offset: u32, size: u32) {
    /** Its bytes are in memory, in the file, and some. */
    predicate Allocated() {
      flags / 2 % 2 == 1 && kind != 8 && size != 0
    }
  }

  function PhAt(b: seq<byte>, at: nat): Ph
    requires at + 32 <= |b|
  {
    Ph(FromLe32(b, at), FromLe32(b, at + 4), FromLe32(b, at + 12), FromLe32(b, at + 16))
  }

  function ShAt(b: seq<byte>, at: nat): Sh
    requires at + 40 <= |b|
  {
    Sh(FromLe32(b, at + 4), FromLe32(b, at + 8), FromLe32(b, at + 12), FromLe32(b, at + 16), FromLe32(b, at + 20))
  }

  /** `phs` are the program headers the ELF header points to, and `shs` the section headers. */
  ghost predicate HasSegments(elf: seq<byte>, phs: seq<Ph>) {
    |elf| >= 52 && |phs| == FromLe16(elf, 44) && PhsAt(elf, FromLe32(elf, 28), FromLe16(elf, 42), phs)
  }

  ghost predicate PhsAt(elf: seq<byte>, off: nat, size: nat, phs: seq<Ph>) {
    forall p :: 0 <= p < |phs| ==> PhIsAt(elf, off + p * size, phs[p])
  }

  ghost predicate PhIsAt(elf: seq<byte>, at: nat, ph: Ph) {
    at + 32 <= |elf| && ph == PhAt(elf, at)
  }

  ghost predicate HasSections(elf: seq<byte>, shs: seq<Sh>) {
    |elf| >= 52 && |shs| == FromLe16(elf, 48) && ShsAt(elf, FromLe32(elf, 32), FromLe16(elf, 46), shs)
  }

  ghost predicate ShsAt(elf: seq<byte>, off: nat, size: nat, shs: seq<Sh>) {
    forall k :: 0 <= k < |shs| ==> ShIsAt(elf, off + k * size, shs[k])
  }

  ghost predicate ShIsAt(elf: seq<byte>, at: nat, sh: Sh) {
    at + 40 <= |elf| && sh == ShAt(elf, at)
  }

  /** The file bytes `[from, end)` load at `addr`, by segment `p`, the first that holds them; or,
      when none does, where the section says. */
  ghost predicate LoadsVia(phs: seq<Ph>, from: nat, end: nat, own: nat, addr: nat, p: nat) {
    && p <= |phs| && (forall q :: 0 <= q < p ==> !phs[q].Holds(from, end))
    && if p == |phs| then addr == own
       else phs[p].Holds(from, end) && addr == (phs[p].paddr + from - phs[p].offset) % 0x1_0000_0000
  }

  ghost predicate LoadsTo(phs: seq<Ph>, from: nat, end: nat, own: nat, addr: nat) {
    exists p: nat :: LoadsVia(phs, from, end, own, addr, p)
  }

  /** The section header loads `x`. */
  ghost predicate Loads(elf: seq<byte>, phs: seq<Ph>, sh: Sh, x: Section) {
    && sh.Allocated() && sh.offset + sh.size <= |elf| && x.data == elf[sh.offset..sh.offset + sh.size]
    && LoadsTo(phs, sh.offset, sh.offset + sh.size, sh.addr, x.addr)
  }

  /** It asks for nothing, or for bytes that are there and end in the address space. */
  ghost predicate Loadable(elf: seq<byte>, phs: seq<Ph>, sh: Sh) {
    !sh.Allocated() || exists x :: Loads(elf, phs, sh, x) && x.addr + |x.data| <= 0x1_0000_0000
  }

  /** `s` is what the headers load, one by one: a section for each that is allocated. */
  ghost predicate PickedUp(elf: seq<byte>, phs: seq<Ph>, shs: seq<Sh>, s: seq<Section>)
    decreases |shs|
  {
    if shs == [] then s == []
    else
      var before, last := shs[..|shs| - 1], shs[|shs| - 1];
      if !last.Allocated() then PickedUp(elf, phs, before, s)
      else s != [] && Loads(elf, phs, last, s[|s| - 1]) && PickedUp(elf, phs, before, s[..|s| - 1])
  }

  // The address is the only one.

  lemma LoadsToOne(phs: seq<Ph>, from: nat, end: nat, own: nat, a: nat, b: nat)
    requires LoadsTo(phs, from, end, own, a) && LoadsTo(phs, from, end, own, b)
    ensures a == b
  {
    var p: nat :| LoadsVia(phs, from, end, own, a, p);
    var q: nat :| LoadsVia(phs, from, end, own, b, q);
  }

  lemma LoadsOne(elf: seq<byte>, phs: seq<Ph>, sh: Sh, x: Section, y: Section)
    requires Loads(elf, phs, sh, x) && Loads(elf, phs, sh, y)
    ensures x == y
  {
    LoadsToOne(phs, sh.offset, sh.offset + sh.size, sh.addr, x.addr, y.addr);
  }

  // What the code computes from the entries of the tables.

  /** The entries decode to the headers. */
  ghost predicate Decoded(entries: seq<seq<byte>>, phs: seq<Ph>) {
    |entries| == |phs| && forall p :: 0 <= p < |phs| ==> |entries[p]| >= PHDR_SIZE && phs[p] == PhAt(entries[p], 0)
  }

  ghost predicate DecodedSections(entries: seq<seq<byte>>, shs: seq<Sh>) {
    |entries| == |shs| && forall k :: 0 <= k < |shs| ==> |entries[k]| >= SHDR_SIZE && shs[k] == ShAt(entries[k], 0)
  }

  lemma LongEnough(entries: seq<seq<byte>>, phs: seq<Ph>, headers: seq<seq<byte>>, shs: seq<Sh>)
    requires Decoded(entries, phs) && DecodedSections(headers, shs)
    ensures (forall c :: c in entries ==> |c| >= PHDR_SIZE) && (forall c :: c in headers ==> |c| >= SHDR_SIZE)
  {
  }

  lemma {:induction false} AddressExactly(segments: seq<seq<byte>>, phs: seq<Ph>, from: u32, end: nat, own: u32, p: nat)
    requires Decoded(segments, phs) && (forall c :: c in segments ==> |c| >= PHDR_SIZE) && p <= |phs|
    requires forall q :: 0 <= q < p ==> !phs[q].Holds(from, end)
    ensures LoadsTo(phs, from, end, own, LoadAddress(segments, from, end, own))
    decreases |phs| - p
  {
    if p < |phs| && !phs[p].Holds(from, end) {
      AddressExactly(segments, phs, from, end, own, p + 1);
    } else {
      forall q | 0 <= q < p
        ensures !HoldsBytes(segments[q], from, end)
      {
        assert !phs[q].Holds(from, end);
      }
      LoadAddressExactly(segments, from, end, own, p);
      assert LoadsVia(phs, from, end, own, LoadAddress(segments, from, end, own), p);
    }
  }

  /** One section header: nothing, an error, or the section it loads. */
  lemma LoadedExactly(elf: seq<byte>, segments: seq<seq<byte>>, phs: seq<Ph>, entry: seq<byte>) returns (x: Section)
    requires Decoded(segments, phs) && (forall c :: c in segments ==> |c| >= PHDR_SIZE) && |entry| >= SHDR_SIZE
    ensures var r, sh := Loaded(elf, segments, entry), ShAt(entry, 0);
      if !sh.Allocated() then r == Success(None)
      else if sh.offset + sh.size > |elf| then r == Failure(Elf(BytesOutside))
      else
        && Loads(elf, phs, sh, x)
        && r == if x.addr + |x.data| > 0x1_0000_0000 then Failure(Elf(Wraps)) else Success(Some(x))
  {
    var sh := ShAt(entry, 0);
    x := Section(0, []);
    if sh.Allocated() && sh.offset + sh.size <= |elf| {
      AddressExactly(segments, phs, sh.offset, sh.offset + sh.size, sh.addr, 0);
      x := Section(LoadAddress(segments, sh.offset, sh.offset + sh.size, sh.addr), elf[sh.offset..sh.offset + sh.size]);
    }
  }

  lemma LoadableExactly(elf: seq<byte>, segments: seq<seq<byte>>, phs: seq<Ph>, entry: seq<byte>)
    requires Decoded(segments, phs) && (forall c :: c in segments ==> |c| >= PHDR_SIZE) && |entry| >= SHDR_SIZE
    ensures var r, sh := Loaded(elf, segments, entry), ShAt(entry, 0);
      && (r.Success? <==> Loadable(elf, phs, sh)) && (r.Success? ==> (r.value.Some? <==> sh.Allocated()))
      && (r.Success? && r.value.Some? ==> Loads(elf, phs, sh, r.value.value))
  {
    var x := LoadedExactly(elf, segments, phs, entry);
    var sh := ShAt(entry, 0);
    if sh.Allocated() && Loadable(elf, phs, sh) {
      var y :| Loads(elf, phs, sh, y) && y.addr + |y.data| <= 0x1_0000_0000;
      LoadsOne(elf, phs, sh, x, y);
    }
  }

  /** Every header can be loaded. */
  ghost predicate AllLoad(elf: seq<byte>, phs: seq<Ph>, shs: seq<Sh>) {
    forall k :: 0 <= k < |shs| ==> Loadable(elf, phs, shs[k])
  }

  lemma AllLoadLast(elf: seq<byte>, phs: seq<Ph>, shs: seq<Sh>, n: nat)
    requires |shs| == n + 1
    ensures AllLoad(elf, phs, shs) <==> AllLoad(elf, phs, shs[..n]) && Loadable(elf, phs, shs[n])
  {
    if AllLoad(elf, phs, shs) {
      forall k | 0 <= k < n
        ensures Loadable(elf, phs, shs[..n][k])
      {
        assert shs[..n][k] == shs[k];
      }
    }
    if AllLoad(elf, phs, shs[..n]) {
      forall k | 0 <= k < n
        ensures Loadable(elf, phs, shs[k])
      {
        assert shs[..n][k] == shs[k];
      }
    }
  }

  lemma DecodedInit(headers: seq<seq<byte>>, shs: seq<Sh>, n: nat)
    requires DecodedSections(headers, shs) && n + 1 == |shs|
    ensures DecodedSections(headers[..n], shs[..n]) && |headers[n]| >= SHDR_SIZE && shs[n] == ShAt(headers[n], 0)
    ensures forall c :: c in headers[..n] ==> |c| >= SHDR_SIZE
  {
  }

  lemma GatherLast(elf: seq<byte>, segments: seq<seq<byte>>, headers: seq<seq<byte>>, n: nat)
    requires (forall c :: c in segments ==> |c| >= PHDR_SIZE) && (forall c :: c in headers ==> |c| >= SHDR_SIZE)
    requires |headers| == n + 1
    ensures |headers[n]| >= SHDR_SIZE
    ensures Gather(elf, segments, headers).Success? <==>
            Gather(elf, segments, headers[..n]).Success? && Loaded(elf, segments, headers[n]).Success?
  {
    assert headers[n] in headers;
  }

  /** The loop succeeds exactly when every header can be loaded. */
  lemma {:induction false} GatherSucceeds(
    elf: seq<byte>, segments: seq<seq<byte>>, phs: seq<Ph>, headers: seq<seq<byte>>, shs: seq<Sh>)
    requires Decoded(segments, phs) && DecodedSections(headers, shs)
    requires (forall c :: c in segments ==> |c| >= PHDR_SIZE) && (forall c :: c in headers ==> |c| >= SHDR_SIZE)
    ensures Gather(elf, segments, headers).Success? <==> AllLoad(elf, phs, shs)
    decreases |shs|
  {
    if shs != [] {
      var n := |shs| - 1;
      DecodedInit(headers, shs, n);
      GatherSucceeds(elf, segments, phs, headers[..n], shs[..n]);
      GatherLast(elf, segments, headers, n);
      LoadableExactly(elf, segments, phs, headers[n]);
      AllLoadLast(elf, phs, shs, n);
    }
  }

  /** And then gives what they load. */
  lemma {:induction false} GatherPicksUp(
    elf: seq<byte>, segments: seq<seq<byte>>, phs: seq<Ph>, headers: seq<seq<byte>>, shs: seq<Sh>)
    requires Decoded(segments, phs) && DecodedSections(headers, shs)
    requires (forall c :: c in segments ==> |c| >= PHDR_SIZE) && (forall c :: c in headers ==> |c| >= SHDR_SIZE)
    requires Gather(elf, segments, headers).Success?
    ensures PickedUp(elf, phs, shs, Gather(elf, segments, headers).value)
    decreases |shs|
  {
    if shs != [] {
      var n := |shs| - 1;
      DecodedInit(headers, shs, n);
      GatherPicksUp(elf, segments, phs, headers[..n], shs[..n]);
      LoadableExactly(elf, segments, phs, headers[n]);
      var before, last := Gather(elf, segments, headers[..n]).value, Loaded(elf, segments, headers[n]).value;
      if last.Some? {
        PickLast(elf, phs, shs, before, last.value);
      }
    }
  }

  lemma PickLast(elf: seq<byte>, phs: seq<Ph>, shs: seq<Sh>, s: seq<Section>, x: Section)
    requires shs != [] && PickedUp(elf, phs, shs[..|shs| - 1], s) && Loads(elf, phs, shs[|shs| - 1], x)
    ensures PickedUp(elf, phs, shs, s + [x])
  {
    assert (s + [x])[..|s|] == s;
  }

  // The tables are the file's.

  lemma {:induction false} ChunkCount(b: seq<byte>, size: nat, count: nat)
    requires size > 0 && |b| == count * size
    ensures |Chunks(b, size)| == count
    decreases count
  {
    if count > 0 {
      assert count * size == (count - 1) * size + size;
      ChunkCount(b[size..], size, count - 1);
    } else {
      assert |b| == 0;
    }
  }

  /** A table the ELF header describes: absent, or long enough entries inside the file. */
  predicate TableFits(elf: seq<byte>, off: nat, size: nat, count: nat, minSize: nat) {
    count == 0 || (size >= minSize && off + count * size <= |elf|)
  }

  /** `entries` are the `count` entries of `size` bytes from `off`. */
  ghost predicate EntriesAt(elf: seq<byte>, off: nat, size: nat, count: nat, entries: seq<seq<byte>>) {
    && |entries| == count
    && forall k :: 0 <= k < count ==> EntryAt(elf, off + k * size, size, entries[k])
  }

  ghost predicate EntryAt(elf: seq<byte>, at: nat, size: nat, entry: seq<byte>) {
    at + size <= |elf| && entry == elf[at..at + size]
  }

  lemma TableExactly(elf: seq<byte>, offAt: nat, sizeAt: nat, countAt: nat, minSize: nat)
    requires offAt + 4 <= EHDR_SIZE && sizeAt + 2 <= EHDR_SIZE && countAt + 2 <= EHDR_SIZE && minSize > 0
    ensures |elf| < 52 ==> Table(elf, offAt, sizeAt, countAt, minSize) == Failure(Elf(ShortHeader))
    ensures |elf| >= 52 ==>
      var off, size, count := FromLe32(elf, offAt), FromLe16(elf, sizeAt), FromLe16(elf, countAt);
      var r := Table(elf, offAt, sizeAt, countAt, minSize);
      && (r.Success? <==> TableFits(elf, off, size, count, minSize))
      && (r.Success? ==> EntriesAt(elf, off, size, count, r.value))
      && (r.Failure? ==> r.error == Elf(if size < minSize then ShortEntries else TableOutside))
  {
    if |elf| >= 52 {
      var off: nat, size: nat, count: nat := FromLe32(elf, offAt), FromLe16(elf, sizeAt), FromLe16(elf, countAt);
      assert count * size == Product(size, count);
      if count > 0 && TableFits(elf, off, size, count, minSize) {
        ChunksInFile(elf, off, size, count);
      }
    }
  }

  lemma ChunksInFile(elf: seq<byte>, off: nat, size: nat, count: nat)
    requires size > 0 && off + count * size <= |elf|
    ensures EntriesAt(elf, off, size, count, Chunks(elf[off..off + count * size], size))
  {
    var len := count * size;
    ChunkCount(elf[off..off + len], size, count);
    forall k | 0 <= k < count
      ensures EntryAt(elf, off + k * size, size, Chunks(elf[off..off + len], size)[k])
    {
      ChunkInFile(elf, off, len, size, k);
    }
  }

  lemma ChunkInFile(elf: seq<byte>, off: nat, len: nat, size: nat, k: nat)
    requires size > 0 && off + len <= |elf| && k < |Chunks(elf[off..off + len], size)|
    ensures EntryAt(elf, off + k * size, size, Chunks(elf[off..off + len], size)[k])
  {
    ChunkAt(elf[off..off + len], size, k);
    var x := k * size;
    SliceOfSlice(elf, off, len, x, size);
  }

  lemma SliceOfSlice(b: seq<byte>, off: nat, len: nat, x: nat, n: nat)
    requires off + len <= |b| && x + n <= len
    ensures b[off..off + len][x..x + n] == b[off + x..off + x + n]
  {
    var whole, part, direct := b[off..off + len], b[off..off + len][x..x + n], b[off + x..off + x + n];
    forall j | 0 <= j < n
      ensures part[j] == direct[j]
    {
      assert part[j] == whole[x + j];
    }
  }

  lemma EntryWord(elf: seq<byte>, at: nat, size: nat, entry: seq<byte>, i: nat)
    requires EntryAt(elf, at, size, entry) && i + 4 <= size
    ensures FromLe32(entry, i) == FromLe32(elf, at + i)
  {
    assert entry[i] == elf[at + i] && entry[i + 1] == elf[at + i + 1];
    assert entry[i + 2] == elf[at + i + 2] && entry[i + 3] == elf[at + i + 3];
  }

  lemma PhInFile(elf: seq<byte>, at: nat, size: nat, entry: seq<byte>)
    requires EntryAt(elf, at, size, entry) && size >= PHDR_SIZE
    ensures PhIsAt(elf, at, PhAt(entry, 0))
  {
    EntryWord(elf, at, size, entry, 0);
    EntryWord(elf, at, size, entry, 4);
    EntryWord(elf, at, size, entry, 12);
    EntryWord(elf, at, size, entry, 16);
  }

  lemma ShInFile(elf: seq<byte>, at: nat, size: nat, entry: seq<byte>)
    requires EntryAt(elf, at, size, entry) && size >= SHDR_SIZE
    ensures ShIsAt(elf, at, ShAt(entry, 0))
  {
    EntryWord(elf, at, size, entry, 4);
    EntryWord(elf, at, size, entry, 8);
    EntryWord(elf, at, size, entry, 12);
    EntryWord(elf, at, size, entry, 16);
    EntryWord(elf, at, size, entry, 20);
  }

  lemma SegmentsOf(elf: seq<byte>) returns (phs: seq<Ph>)
    requires |elf| >= 52
    ensures var t := Table(elf, 28, 42, 44, PHDR_SIZE);
      && (t.Success? <==> TableFits(elf, FromLe32(elf, 28), FromLe16(elf, 42), FromLe16(elf, 44), 32))
      && (t.Success? ==> Decoded(t.value, phs) && HasSegments(elf, phs))
  {
    TableExactly(elf, 28, 42, 44, PHDR_SIZE);
    var t := Table(elf, 28, 42, 44, PHDR_SIZE);
    phs := [];
    if t.Success? {
      phs := DecodePhs(elf, FromLe32(elf, 28), FromLe16(elf, 42), t.value);
    }
  }

  function PhsOf(entries: seq<seq<byte>>): (r: seq<Ph>)
    requires forall p :: 0 <= p < |entries| ==> |entries[p]| >= PHDR_SIZE
    ensures |r| == |entries| && forall p :: 0 <= p < |r| ==> r[p] == PhAt(entries[p], 0)
  {
    seq(|entries|, p requires 0 <= p < |entries| => PhAt(entries[p], 0))
  }

  function ShsOf(entries: seq<seq<byte>>): (r: seq<Sh>)
    requires forall k :: 0 <= k < |entries| ==> |entries[k]| >= SHDR_SIZE
    ensures |r| == |entries| && forall k :: 0 <= k < |r| ==> r[k] == ShAt(entries[k], 0)
  {
    seq(|entries|, k requires 0 <= k < |entries| => ShAt(entries[k], 0))
  }

  lemma DecodePhs(elf: seq<byte>, off: nat, size: nat, entries: seq<seq<byte>>) returns (phs: seq<Ph>)
    requires EntriesAt(elf, off, size, |entries|, entries) && (size >= PHDR_SIZE || entries == [])
    ensures Decoded(entries, phs) && PhsAt(elf, off, size, phs)
  {
    phs := PhsOf(entries);
    forall p | 0 <= p < |phs|
      ensures PhIsAt(elf, off + p * size, phs[p])
    {
      PhInFile(elf, off + p * size, size, entries[p]);
    }
  }

  lemma HeadersOf(elf: seq<byte>) returns (shs: seq<Sh>)
    requires |elf| >= 52
    ensures var t := Table(elf, 32, 46, 48, SHDR_SIZE);
      && (t.Success? <==> TableFits(elf, FromLe32(elf, 32), FromLe16(elf, 46), FromLe16(elf, 48), 40))
      && (t.Success? ==> DecodedSections(t.value, shs) && HasSections(elf, shs))
  {
    TableExactly(elf, 32, 46, 48, SHDR_SIZE);
    var t := Table(elf, 32, 46, 48, SHDR_SIZE);
    shs := [];
    if t.Success? {
      shs := DecodeShs(elf, FromLe32(elf, 32), FromLe16(elf, 46), t.value);
    }
  }

  lemma DecodeShs(elf: seq<byte>, off: nat, size: nat, entries: seq<seq<byte>>) returns (shs: seq<Sh>)
    requires EntriesAt(elf, off, size, |entries|, entries) && (size >= SHDR_SIZE || entries == [])
    ensures DecodedSections(entries, shs) && ShsAt(elf, off, size, shs)
  {
    shs := ShsOf(entries);
    forall k | 0 <= k < |shs|
      ensures ShIsAt(elf, off + k * size, shs[k])
    {
      ShInFile(elf, off + k * size, size, entries[k]);
    }
  }

  /** What a file has to be before its section headers are looked at. */
  predicate HasTables(elf: seq<byte>) {
    && |elf| >= 52 && elf[..6] == [0x7F, 0x45, 0x4C, 0x46, 1, 1]
    && TableFits(elf, FromLe32(elf, 28), FromLe16(elf, 42), FromLe16(elf, 44), 32)
    && TableFits(elf, FromLe32(elf, 32), FromLe16(elf, 46), FromLe16(elf, 48), 40)
  }

  /** Which files read, and exactly which sections they have: a section for each header that loads
      one, ordered by address. */
  lemma SectionsExactly(elf: seq<byte>) returns (phs: seq<Ph>, shs: seq<Sh>, s: seq<Section>)
    ensures HasTables(elf) ==> HasSegments(elf, phs) && HasSections(elf, shs)
    ensures Sections(elf).Success? <==> HasTables(elf) && AllLoad(elf, phs, shs)
    ensures Sections(elf).Success? ==>
      && PickedUp(elf, phs, shs, s) && Sorted(Sections(elf).value) && multiset(Sections(elf).value) == multiset(s)
  {
    phs, shs, s := [], [], [];
    HeadMagic(elf);
    if |elf| >= 52 {
      phs := SegmentsOf(elf);
      shs := HeadersOf(elf);
    }
    if HasTables(elf) {
      var segments, headers := Table(elf, 28, 42, 44, PHDR_SIZE).value, Table(elf, 32, 46, 48, SHDR_SIZE).value;
      GatherSucceeds(elf, segments, phs, headers, shs);
      var gathered := Gather(elf, segments, headers);
      if gathered.Success? {
        GatherPicksUp(elf, segments, phs, headers, shs);
        s := gathered.value;
        SortSorts(s);
      }
    }
  }

  lemma HeadMagic(elf: seq<byte>)
    ensures |elf| >= 52 ==> (elf[..6] == [0x7F, 0x45, 0x4C, 0x46, 1, 1] <==> IsElf(elf) && elf[4] == 1 && elf[5] == 1)
    ensures |elf| < 52 ==> Sections(elf).Failure?
  {
    if |elf| >= 52 {
      var head := elf[..6];
      assert head[0] == elf[0] && head[1] == elf[1] && head[2] == elf[2] && head[3] == elf[3] && head[4] == elf[4] && head[5] == elf[5];
    }
  }

  /** One of the headers loads `x`. */
  ghost predicate LoadedByOneOf(elf: seq<byte>, phs: seq<Ph>, shs: seq<Sh>, x: Section) {
    exists k :: 0 <= k < |shs| && Loads(elf, phs, shs[k], x)
  }

  lemma {:induction false} PickedUpBy(elf: seq<byte>, phs: seq<Ph>, shs: seq<Sh>, s: seq<Section>, x: Section)
    requires PickedUp(elf, phs, shs, s)
    ensures x in s <==> LoadedByOneOf(elf, phs, shs, x)
    decreases |shs|
  {
    if shs != [] {
      var before, last := shs[..|shs| - 1], shs[|shs| - 1];
      OneOfMore(elf, phs, before, last, x);
      assert shs == before + [last];
      if last.Allocated() {
        var s', y := s[..|s| - 1], s[|s| - 1];
        assert s == s' + [y];
        PickedUpBy(elf, phs, before, s', x);
        if Loads(elf, phs, last, x) {
          LoadsOne(elf, phs, last, x, y);
        }
      } else {
        PickedUpBy(elf, phs, before, s, x);
      }
    }
  }

  lemma OneOfMore(elf: seq<byte>, phs: seq<Ph>, shs: seq<Sh>, sh: Sh, x: Section)
    ensures LoadedByOneOf(elf, phs, shs + [sh], x) <==> LoadedByOneOf(elf, phs, shs, x) || Loads(elf, phs, sh, x)
  {
    var all := shs + [sh];
    assert all[|shs|] == sh;
    if LoadedByOneOf(elf, phs, shs, x) {
      var k :| 0 <= k < |shs| && Loads(elf, phs, shs[k], x);
      assert all[k] == shs[k];
    }
  }

  /** A section is read exactly when some header of the file loads it. */
  lemma SectionIffLoaded(elf: seq<byte>, x: Section) returns (phs: seq<Ph>, shs: seq<Sh>)
    requires Sections(elf).Success?
    ensures HasSegments(elf, phs) && HasSections(elf, shs)
    ensures x in Sections(elf).value <==> LoadedByOneOf(elf, phs, shs, x)
  {
    var s;
    phs, shs, s := SectionsExactly(elf);
    assert x in Sections(elf).value <==> x in multiset(s);
    PickedUpBy(elf, phs, shs, s, x);
  }

  /** Which refusal a file that does not reach its tables gets. */
  lemma ElfRefusals(elf: seq<byte>)
    ensures Sections(elf) == Failure(Elf(NoMagic)) <==> |elf| < 4 || elf[..4] != [0x7F, 0x45, 0x4C, 0x46]
    ensures Sections(elf) == Failure(Elf(NotLe32)) <==>
              |elf| >= 4 && elf[..4] == [0x7F, 0x45, 0x4C, 0x46] && (|elf| < 6 || elf[4] != 1 || elf[5] != 1)
    ensures Sections(elf) == Failure(Elf(ShortHeader)) <==>
              6 <= |elf| < 52 && elf[..4] == [0x7F, 0x45, 0x4C, 0x46] && elf[4] == 1 && elf[5] == 1
  {
    if |elf| >= 4 {
      var head := elf[..4];
      assert head[0] == elf[0] && head[1] == elf[1] && head[2] == elf[2] && head[3] == elf[3];
    }
    TableExactly(elf, 28, 42, 44, PHDR_SIZE);
    TableExactly(elf, 32, 46, 48, SHDR_SIZE);
  }

  // ---------- flattening ----------

  /** How far the sections reach past `base`. */
  function Span(s: seq<Section>, base: nat): nat
    requires forall x :: x in s ==> base <= x.addr
  {
    if s == [] then 0
    else
      var last := s[|s| - 1];
      var rest := Span(s[..|s| - 1], base);
      var reach := last.addr - base + |last.data|;
      if rest < reach then reach else rest
  }

  lemma {:induction false} SpanIsTheMax(s: seq<Section>, base: nat)
    requires forall x :: x in s ==> base <= x.addr
    ensures forall x :: x in s ==> x.addr + |x.data| <= base + Span(s, base)
    ensures s != [] ==> exists x :: x in s && x.addr + |x.data| == base + Span(s, base)
  {
    if s != [] {
      var last, rest := s[|s| - 1], s[..|s| - 1];
      SpanIsTheMax(rest, base);
      assert s == rest + [last];
      if Span(s, base) == Span(rest, base) && rest != [] {
        var x :| x in rest && x.addr + |x.data| == base + Span(rest, base);
        assert x in s;
      } else {
        assert last in s && last.addr + |last.data| == base + Span(s, base);
      }
    }
  }

  /** No two sections share an address. */
  ghost predicate Disjoint(s: seq<Section>) {
    forall i, j :: 0 <= i < j < |s| ==> !SharesAddress(s[i], s[j])
  }

  ghost predicate SharesAddress(x: Section, y: Section) {
    exists a: nat :: x.Covers(a) && y.Covers(a)
  }

  /** The sections can be laid out from `base` in `maxLen` bytes. */
  ghost predicate Placeable(s: seq<Section>, base: nat, maxLen: nat) {
    && (forall x :: x in s ==> base <= x.addr)
    && (exists x :: x in s && x.addr == base)
    && Span(s, base) <= maxLen
    && Disjoint(s)
  }

  /** `out`, which starts at `base`, holds the whole of `x` where `x` is loaded. */
  predicate Holds(x: Section, base: nat, out: seq<byte>) {
    && base <= x.addr && x.addr - base + |x.data| <= |out|
    && forall t :: 0 <= t < |x.data| ==> out[x.addr - base + t] == x.data[t]
  }

  /** One of the first `k` sections covers `a`. */
  predicate Covered(s: seq<Section>, k: nat, a: nat)
    requires k <= |s|
  {
    exists j :: 0 <= j < k && s[j].Covers(a)
  }

  /** Every byte of `out` is the byte of the section at its address, or `fill` where there
      is none, and `out` ends with the last section. */
  ghost predicate Flattens(s: seq<Section>, base: nat, fill: byte, out: seq<byte>) {
    && (forall x :: x in s ==> base <= x.addr)
    && |out| == Span(s, base)
    && (forall j :: 0 <= j < |s| ==> Holds(s[j], base, out))
    && (forall i :: 0 <= i < |out| ==> Covered(s, |s|, base + i) || out[i] == fill)
  }

  /** Two sections share the address `a`. */
  ghost predicate SharedBy(s: seq<Section>, a: nat) {
    exists i, j :: 0 <= i < j < |s| && s[i].Covers(a) && s[j].Covers(a)
  }

  /** What each refusal says of the sections. */
  ghost predicate Justified(s: seq<Section>, base: nat, maxLen: nat, e: Error) {
    match e
    case SectionBelow(addr, lowest) => lowest == base > addr && exists x :: x in s && x.addr == addr
    case NothingAt(at) => at == base && forall x :: x in s ==> x.addr != base
    case TooLong(len, limit) =>
      (forall x :: x in s ==> base <= x.addr) && limit == maxLen < len && len == Span(s, base)
    case Overlap(at) => SharedBy(s, at)
    case _ => false
  }

  /** No section but the last ends past the 32-bit addresses. */
  ghost predicate NoWrap(s: seq<Section>) {
    forall i :: 0 <= i < |s| - 1 ==> s[i].addr + |s[i].data| < U32_LIMIT
  }

  /** Where a section ends, in 32 bits. */
  function EndOf(x: Section): u32 {
    (x.addr + |x.data|) % U32_LIMIT
  }

  /** Each of the first `k` sections starts where `end` says the one before it ended, or later. */
  ghost predicate Laid(s: seq<Section>, k: nat) {
    k <= |s| && (k < 2 || (Laid(s, k - 1) && EndOf(s[k - 2]) <= s[k - 1].addr))
  }

  /** What decides `flat`. */
  ghost predicate Accepts(s: seq<Section>, base: nat, maxLen: nat) {
    && (forall x :: x in s ==> base <= x.addr)
    && (exists x :: x in s && x.addr == base)
    && Span(s, base) <= maxLen
    && Laid(s, |s|)
  }

  /** `flat`. It accepts what can be placed, every refusal is justified, and what it accepts is
      placeable, and is then laid out, exactly when no end wraps. */
  method Flat(elf: seq<byte>, base: u32, fill: byte, maxLen: nat) returns (r: Result<seq<byte>, Error>)
    ensures Sections(elf).Failure? ==> r == Failure(Sections(elf).error)
    ensures Sections(elf).Success? ==>
              var s := Sections(elf).value;
              && (r.Success? <==> Accepts(s, base, maxLen))
              && (r.Success? ==> (Placeable(s, base, maxLen) <==> NoWrap(s)))
              && (r.Success? && NoWrap(s) ==> Flattens(s, base, fill, r.value))
              && (r.Failure? ==> Justified(s, base, maxLen, r.error) && !Placeable(s, base, maxLen))
              && (base + maxLen < U32_LIMIT && r.Success? ==> NoWrap(s))
  {
    var read := ReadSections(elf);
    if read.Failure? {
      return Failure(read.error);
    }
    r := Place(read.value, base, fill, maxLen);
  }

  /** The checks of `flat`. The sections are in order, so the first tells for all. */
  method Place(s: seq<Section>, base: u32, fill: byte, maxLen: nat) returns (r: Result<seq<byte>, Error>)
    requires Sorted(s) && AllLoadable(s)
    ensures r.Success? <==> Accepts(s, base, maxLen)
    ensures r.Success? ==> (Placeable(s, base, maxLen) <==> NoWrap(s))
    ensures r.Success? && NoWrap(s) ==> Flattens(s, base, fill, r.value)
    ensures r.Failure? ==> Justified(s, base, maxLen, r.error) && !Placeable(s, base, maxLen)
    ensures base + maxLen < U32_LIMIT && r.Success? ==> NoWrap(s)
  {
    if s != [] && s[0].addr < base {
      assert s[0] in s;
      return Failure(SectionBelow(s[0].addr, base));
    }
    SortedAbove(s, base);
    if s == [] || s[0].addr != base {
      NothingAtBase(s, base);
      return Failure(NothingAt(base));
    }
    assert s[0] in s;
    if Span(s, base) > maxLen {
      return Failure(TooLong(Span(s, base), maxLen));
    }
    ShortNeverWraps(s, base, maxLen);
    LaidExactly(s);
    r := Lay(s, base, fill);
  }

  lemma ShortNeverWraps(s: seq<Section>, base: nat, maxLen: nat)
    requires (forall x :: x in s ==> base <= x.addr) && Span(s, base) <= maxLen
    ensures base + maxLen < U32_LIMIT ==> NoWrap(s)
  {
    SpanIsTheMax(s, base);
  }

  /** Sections that are apart are always laid, and laid ones are apart exactly when no end
      wraps. */
  lemma LaidExactly(s: seq<Section>)
    requires Sorted(s) && AllLoadable(s)
    ensures Disjoint(s) ==> NoWrap(s) && Laid(s, |s|)
    ensures Laid(s, |s|) && NoWrap(s) ==> Disjoint(s)
  {
    if Disjoint(s) {
      DisjointIsLaid(s, |s|);
      DisjointNeverWraps(s);
    }
    if Laid(s, |s|) && NoWrap(s) {
      LaidIsApart(s, |s|);
      ApartIsDisjoint(s);
    }
  }

  lemma DisjointInOrder(s: seq<Section>, k: nat)
    requires Sorted(s) && AllLoadable(s) && Disjoint(s) && 0 < k < |s|
    ensures s[k - 1].addr + |s[k - 1].data| <= s[k].addr < U32_LIMIT
  {
    if s[k].addr < s[k - 1].addr + |s[k - 1].data| {
      OverlapFound(s, k);
    }
  }

  lemma DisjointNeverWraps(s: seq<Section>)
    requires Sorted(s) && AllLoadable(s) && Disjoint(s)
    ensures NoWrap(s)
  {
    forall i | 0 <= i < |s| - 1
      ensures s[i].addr + |s[i].data| < U32_LIMIT
    {
      DisjointInOrder(s, i + 1);
    }
  }

  lemma {:induction false} DisjointIsLaid(s: seq<Section>, k: nat)
    requires Sorted(s) && AllLoadable(s) && Disjoint(s) && k <= |s|
    ensures Laid(s, k)
  {
    if k >= 2 {
      DisjointIsLaid(s, k - 1);
      DisjointInOrder(s, k - 1);
    }
  }

  lemma {:induction false} LaidIsApart(s: seq<Section>, k: nat)
    requires Sorted(s) && NoWrap(s) && Laid(s, k)
    ensures Apart(s, k)
  {
    if k > 0 {
      LaidIsApart(s, k - 1);
      ApartStep(s, k - 1);
    }
  }

  lemma {:induction false} LaidSoFar(s: seq<Section>, k: nat, n: nat)
    requires Laid(s, n) && k <= n
    ensures Laid(s, k)
  {
    if k < n {
      LaidSoFar(s, k, n - 1);
    }
  }

  /** A section that ends with the address space makes `end` 0, which hides an overlap. */
  lemma WrapHidesOverlap(x: byte, y: byte, z: byte)
    ensures var s := [Section(0xFFFF_FFFE, [x, y]), Section(0xFFFF_FFFF, [z])];
      Sorted(s) && AllLoadable(s) && Accepts(s, 0xFFFF_FFFE, 2) && !Placeable(s, 0xFFFF_FFFE, 2)
  {
    var s := [Section(0xFFFF_FFFE, [x, y]), Section(0xFFFF_FFFF, [z])];
    var first := [s[0]];
    assert s[0] in s && s[..|s| - 1] == first && first[..|first| - 1] == [];
    assert Span(first, 0xFFFF_FFFE) == 2;
    assert EndOf(s[0]) == 0;
    OverlapFound(s, 1);
  }

  /** The loop of `flat`: lays the sections down in order, refusing at the first that
      starts before the one before it ends. */
  method Lay(s: seq<Section>, base: u32, fill: byte) returns (r: Result<seq<byte>, Error>)
    requires Sorted(s) && AllLoadable(s) && (forall x :: x in s ==> base <= x.addr)
    ensures r.Success? <==> Laid(s, |s|)
    ensures r.Success? && NoWrap(s) ==> Disjoint(s) && Flattens(s, base, fill, r.value)
    ensures r.Failure? ==> r.error.Overlap? && SharedBy(s, r.error.at) && !Disjoint(s)
  {
    var len := Span(s, base);
    SpanIsTheMax(s, base);
    var out := new byte[len](_ => fill);
    var end := base;
    for k := 0 to |s|
      invariant end == if k == 0 then base else EndOf(s[k - 1])
      invariant Laid(s, k)
      invariant NoWrap(s) ==> Written(s, k, base, fill, out[..])
    {
      assert s[k] in s;
      if s[k].addr < end {
        WrappedEndIsLow(s, k);
        OverlapFound(s, k);
        return Failure(Overlap(s[k].addr));
      }
      ghost var before := out[..];
      Put(out, s[k].addr - base, s[k].data);
      WriteNext(s, k, base, fill, before, out[..]);
      end := EndOf(s[k]);
    }
    LaidExactly(s);
    r := Success(out[..]);
  }

  lemma WriteNext(s: seq<Section>, k: nat, base: nat, fill: byte, before: seq<byte>, after: seq<byte>)
    requires Sorted(s) && k < |s| && Laid(s, k + 1)
    requires base <= s[k].addr && s[k].addr + |s[k].data| <= base + |before|
    requires after == Splice(before, s[k].addr - base, s[k].data)
    requires NoWrap(s) ==> Written(s, k, base, fill, before)
    ensures NoWrap(s) ==> Written(s, k + 1, base, fill, after)
  {
    if NoWrap(s) {
      LaidIsApart(s, k + 1);
      WriteSection(s, k, base, fill, before, after);
    }
  }

  lemma WrappedEndIsLow(s: seq<Section>, k: nat)
    requires 0 < k < |s| && s[k].addr < EndOf(s[k - 1])
    ensures s[k].addr < s[k - 1].addr + |s[k - 1].data| && !Laid(s, |s|)
  {
    if Laid(s, |s|) {
      LaidSoFar(s, k + 1, |s|);
    }
  }

  /** Two layouts of the same sections are the same bytes. */
  lemma FlattensOnce(s: seq<Section>, base: nat, fill: byte, a: seq<byte>, b: seq<byte>)
    requires Flattens(s, base, fill, a) && Flattens(s, base, fill, b)
    ensures a == b
  {
    forall i | 0 <= i < |a|
      ensures a[i] == b[i]
    {
      if Covered(s, |s|, base + i) {
        var j :| 0 <= j < |s| && s[j].Covers(base + i);
        var t := base + i - s[j].addr;
        assert a[s[j].addr - base + t] == s[j].data[t];
      }
    }
  }

  lemma OverlapFound(s: seq<Section>, k: nat)
    requires Sorted(s) && AllLoadable(s) && 0 < k < |s| && s[k].addr < s[k - 1].addr + |s[k - 1].data|
    ensures SharedBy(s, s[k].addr) && !Disjoint(s)
  {
    assert s[k] in s;
    assert s[k - 1].Covers(s[k].addr) && s[k].Covers(s[k].addr);
    assert SharesAddress(s[k - 1], s[k]);
  }

  lemma ApartStep(s: seq<Section>, k: nat)
    requires Sorted(s) && k < |s| && Apart(s, k) && (k > 0 ==> s[k - 1].addr + |s[k - 1].data| <= s[k].addr)
    ensures Apart(s, k + 1)
  {
  }

  lemma SortedAbove(s: seq<Section>, base: nat)
    requires Sorted(s) && (s == [] || base <= s[0].addr)
    ensures forall x :: x in s ==> base <= x.addr
  {
  }

  lemma NothingAtBase(s: seq<Section>, base: nat)
    requires Sorted(s) && (s == [] || base < s[0].addr)
    ensures forall x :: x in s ==> x.addr != base
  {
  }

  /** The first `k` sections lie one after the other. */
  ghost predicate Apart(s: seq<Section>, k: nat) {
    k <= |s| && forall i, j :: 0 <= i < j < k ==> s[i].addr + |s[i].data| <= s[j].addr
  }

  /** `out` holds the first `k` sections and `fill` elsewhere. */
  ghost predicate Written(s: seq<Section>, k: nat, base: nat, fill: byte, out: seq<byte>) {
    && k <= |s|
    && (forall j :: 0 <= j < k ==> Holds(s[j], base, out))
    && (forall i :: 0 <= i < |out| ==> Covered(s, k, base + i) || out[i] == fill)
  }

  lemma WriteSection(s: seq<Section>, k: nat, base: nat, fill: byte, before: seq<byte>, after: seq<byte>)
    requires k < |s| && Apart(s, k + 1) && Written(s, k, base, fill, before)
    requires base <= s[k].addr && s[k].addr + |s[k].data| <= base + |before|
    requires after == Splice(before, s[k].addr - base, s[k].data)
    ensures Written(s, k + 1, base, fill, after)
  {
    forall j | 0 <= j < k + 1
      ensures Holds(s[j], base, after)
    {
      if j < k {
        StillHolds(s[j], base, before, s[k]);
      }
    }
    forall i | 0 <= i < |after|
      ensures Covered(s, k + 1, base + i) || after[i] == fill
    {
      if Covered(s, k, base + i) {
        var j :| 0 <= j < k && s[j].Covers(base + i);
        assert Covered(s, k + 1, base + i);
      } else if s[k].Covers(base + i) {
        assert Covered(s, k + 1, base + i);
      }
    }
  }

  lemma StillHolds(x: Section, base: nat, out: seq<byte>, y: Section)
    requires Holds(x, base, out) && x.addr + |x.data| <= y.addr && y.addr + |y.data| <= base + |out|
    ensures Holds(x, base, Splice(out, y.addr - base, y.data))
  {
  }

  lemma ApartIsDisjoint(s: seq<Section>)
    requires Apart(s, |s|)
    ensures Disjoint(s)
  {
  }

  /** Which byte a covered position holds does not depend on which section is asked. */
  lemma OneSectionCovers(s: seq<Section>, a: nat, i: nat, j: nat)
    requires Disjoint(s) && i < |s| && j < |s| && s[i].Covers(a) && s[j].Covers(a)
    ensures i == j
  {
    if i < j {
      assert SharesAddress(s[i], s[j]);
    } else if j < i {
      assert SharesAddress(s[j], s[i]);
    }
  }
}
