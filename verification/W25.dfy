/** The W25Q64JV on SPI: the part, and the driver that stores byte ranges in it by
    reading, patching, erasing and reprogramming 4 KB sectors. */
module SpiFlash {
  import opened Bytes
  import opened Outcomes
  import opened Nor

  const SECTOR_SIZE := 4096
  const PAGE_SIZE := 256
  const PAGES := 16
  const MAX_ADDRESS := 0x7F_FFFF
  const PART_SIZE := 0x80_0000

  const READ_DATA: byte := 0x03
  const PAGE_PROGRAM: byte := 0x02
  const SECTOR_ERASE: byte := 0x20

  const WRITE_TIMEOUT_MS := 15
  const SECTOR_ERASE_TIMEOUT_MS := 400
  const POLL_US := 10

  datatype Error = Spi | Timeout | OutOfRange
  datatype StatusBit = Busy | Wel

  /** How often `wait` polls again after the first time. */
  function Polls(timeoutMs: nat): (n: nat)
    ensures n * 10 == timeoutMs * 1000
  {
    timeoutMs * 1000 / POLL_US
  }

  /** The sector `addr` is in. */
  function Base(addr: nat): (b: nat)
    ensures b <= addr < b + SECTOR_SIZE
  {
    addr - addr % SECTOR_SIZE
  }

  // ---------- addresses on the wire ----------

  function Header(command: byte, addr: u32): (h: seq<byte>)
    ensures |h| == 4 && h[0] == command
    ensures 0x1_0000 * h[1] as int + 0x100 * h[2] as int + h[3] as int == addr % 0x100_0000
  {
    Digits(addr);
    [command, addr / 0x1_0000 % 0x100, addr / 0x100 % 0x100, addr % 0x100]
  }

  /** The address the part takes from a header: 24 bits, of which it has 23. */
  function AddressOf(h: seq<byte>): (a: nat)
    requires |h| == 4
    ensures a < PART_SIZE
  {
    (0x1_0000 * h[1] as int + 0x100 * h[2] as int + h[3] as int) % PART_SIZE
  }

  /** The part sees the driver's address exactly when it is on the part. */
  lemma HeaderCarriesAddress(command: byte, addr: u32)
    ensures AddressOf(Header(command, addr)) == addr <==> addr < PART_SIZE
  {
    Digits(addr);
    LowBits(addr);
  }

  /** The three bytes sent are the address without its top byte. */
  lemma Digits(addr: u32)
    ensures 0x1_0000 * (addr / 0x1_0000 % 0x100) + 0x100 * (addr / 0x100 % 0x100) + addr % 0x100 == addr % 0x100_0000
  {
    var low, mid := addr / 0x100, addr / 0x1_0000;
    assert low / 0x100 == mid;
    assert addr == 0x100 * low + addr % 0x100 && low == 0x100 * mid + low % 0x100;
    assert mid == 0x100 * (mid / 0x100) + mid % 0x100;
  }

  lemma LowBits(addr: u32)
    ensures addr < PART_SIZE ==> addr % 0x100_0000 % PART_SIZE == addr
    ensures addr % 0x100_0000 % PART_SIZE < PART_SIZE
  {
  }

  /** `check_range`: `None` of the two overflow checks lets a larger range through. */
  predicate InRange(addr: u32, len: nat): (r: bool)
    ensures r <==> addr + len < 0x7F_FFFF
  {
    len < U32_LIMIT && addr + len < U32_LIMIT && addr + len < MAX_ADDRESS
  }

  // ---------- the part ----------

  /** The part: what its cells hold, the write-enable latch, and the contents it will
      have once the erase or program under way is over. Unless the part is `healthy` any
      transfer may fail, with or without having reached it, and an operation may go on for
      ever; a healthy one ends it within `left` more polls. `seen` is every content a power
      loss could have left, and `erases` every sector an erase was sent for. */
  class Part {
    const healthy: bool
    var mem: Mem
    var wel: bool
    var busy: Option<Mem>
    var left: nat
    ghost var seen: set<Mem>
    ghost var erases: seq<nat>

    ghost predicate Valid()
      reads this
    {
      && |mem| == PART_SIZE
      && (busy.Some? ==> wel && |busy.value| == PART_SIZE)
      && mem in seen
    }

    /** What the cells hold once the part is idle. */
    function Content(): Mem
      reads this
    {
      if busy.Some? then busy.value else mem
    }

    /** Nothing is under way, and nothing will fail. */
    ghost predicate Ready()
      reads this
    {
      healthy && busy.None?
    }

    /** `polls` polls after the first find the bit as `set_`. */
    ghost predicate WillRead(bit: StatusBit, set_: bool, polls: nat)
      reads this
    {
      && healthy
      && match (bit, set_)
         case (Busy, false) => busy.Some? ==> left <= polls
         case (Wel, true) => busy.None? && wel
         case (Wel, false) => busy.Some? && left <= polls
         case _ => false
    }

    constructor (mem: Mem, healthy: bool)
      requires |mem| == PART_SIZE
      ensures Valid() && this.mem == mem && this.healthy == healthy && busy.None? && seen == {mem} && erases == []
    {
      this.healthy, this.mem, wel, busy, left := healthy, mem, false, None, 0;
      seen, erases := {mem}, [];
    }

    /** `0x05`: the operation under way may end before the register is sampled. */
    method Status() returns (r: Option<(bool, bool)>)
      requires Valid()
      modifies this
      ensures Valid() && Content() == old(Content()) && erases == old(erases)
      ensures (busy == old(busy) && mem == old(mem) && wel == old(wel)) || (busy.None? && old(busy).Some? && !wel)
      ensures seen == old(seen) + {mem}
      ensures r.Some? ==> r.value == (busy.Some?, wel)
      ensures healthy ==> r.Some? && (busy.Some? ==> left < old(left))
    {
      var ends: bool := *;
      if busy.Some? && (ends || (healthy && left == 0)) {
        mem, wel, busy := busy.value, false, None;
        seen := seen + {mem};
      }
      left := if left == 0 then 0 else left - 1;
      var fails: bool := *;
      r := if fails && !healthy then None else Some((busy.Some?, wel));
    }

    /** `0x06`. */
    method WriteEnable() returns (ok: bool)
      requires Valid()
      modifies this
      ensures Valid() && mem == old(mem) && busy == old(busy) && seen == old(seen) && erases == old(erases)
      ensures healthy ==> ok && wel
    {
      var lost: bool := *;
      wel := wel || !lost || healthy;
      ok := *;
      ok := ok || healthy;
    }

    /** `0x03`: a busy part does not answer with its contents. */
    method ReadData(h: seq<byte>, buf: array<byte>) returns (ok: bool)
      requires Valid() && |h| == 4 && h[0] == READ_DATA
      modifies buf
      ensures ok && busy.None? && AddressOf(h) + buf.Length <= PART_SIZE ==>
                buf[..] == mem[AddressOf(h)..AddressOf(h) + buf.Length]
      ensures healthy ==> ok
    {
      var at := AddressOf(h);
      for i := 0 to buf.Length
        invariant at + buf.Length <= PART_SIZE && busy.None? ==> buf[..i] == mem[at..at + i]
      {
        if busy.None? && at + i < |mem| {
          buf[i] := mem[at + i];
        }
      }
      ok := *;
      ok := ok || healthy;
    }

    /** `0x20`: ignored unless the latch is set and the part is idle. */
    method SectorErase(h: seq<byte>) returns (ok: bool)
      requires Valid() && |h| == 4 && h[0] == SECTOR_ERASE
      modifies this
      ensures Valid() && erases == old(erases) + [Base(AddressOf(h))]
      ensures
        || (mem == old(mem) && busy == old(busy) && wel == old(wel) && (ok ==> !old(wel) || old(busy).Some?))
        || (old(busy).None? && busy == Some(Nor.Erase(old(mem), Base(AddressOf(h)), SECTOR_SIZE))
            && TornErase(old(mem), Base(AddressOf(h)), SECTOR_SIZE, mem))
      ensures seen == old(seen) + {mem}
      ensures healthy && old(wel) && old(busy).None? ==> ok && WillRead(Wel, false, Polls(SECTOR_ERASE_TIMEOUT_MS))
    {
      erases := erases + [Base(AddressOf(h))];
      ok := *;
      ok := ok || healthy;
      if wel && busy.None? && ok {
        left := *;
        if left > Polls(SECTOR_ERASE_TIMEOUT_MS) {
          left := 0;
        }
        EraseIsTorn(mem, Base(AddressOf(h)), SECTOR_SIZE);
        var torn: Mem := *;
        busy := Some(Nor.Erase(mem, Base(AddressOf(h)), SECTOR_SIZE));
        if TornErase(mem, Base(AddressOf(h)), SECTOR_SIZE, torn) {
          mem := torn;
        }
        seen := seen + {mem};
        ok := *;
        ok := ok || healthy;
      }
    }

    /** `0x02`: a program must stay in one page, or the part wraps it. */
    method PageProgram(h: seq<byte>, page: seq<byte>) returns (ok: bool)
      requires Valid() && |h| == 4 && h[0] == PAGE_PROGRAM
      requires AddressOf(h) % PAGE_SIZE + |page| <= PAGE_SIZE
      modifies this
      ensures Valid() && erases == old(erases)
      ensures
        || (mem == old(mem) && busy == old(busy) && wel == old(wel) && (ok ==> !old(wel) || old(busy).Some?))
        || (old(busy).None? && busy == Some(Program(old(mem), AddressOf(h), page))
            && TornProgram(old(mem), AddressOf(h), page, mem))
      ensures seen == old(seen) + {mem}
      ensures healthy && old(wel) && old(busy).None? ==> ok && WillRead(Wel, false, Polls(WRITE_TIMEOUT_MS))
    {
      ok := *;
      ok := ok || healthy;
      if wel && busy.None? && ok {
        left := *;
        if left > Polls(WRITE_TIMEOUT_MS) {
          left := 0;
        }
        ProgramIsTorn(mem, AddressOf(h), page);
        var torn: Mem := *;
        busy := Some(Program(mem, AddressOf(h), page));
        if TornProgram(mem, AddressOf(h), page, torn) {
          mem := torn;
        }
        seen := seen + {mem};
        ok := *;
        ok := ok || healthy;
      }
    }
  }

  // ---------- the driver ----------

  /** `m` holds `data` at `addr` below `base`, what `m0` held above the sector at `base`,
      and anything in that one sector. */
  ghost predicate CutIn(m0: Mem, addr: nat, data: seq<byte>, base: nat, m: Mem)
    requires addr + |data| <= |m0|
  {
    && |m| == |m0|
    && base == Base(base) && addr < base + SECTOR_SIZE && base < addr + |data|
    && (forall i :: 0 <= i < base && i < |m| ==> m[i] == Splice(m0, addr, data)[i])
    && (forall i :: base + SECTOR_SIZE <= i < |m| ==> m[i] == m0[i])
  }

  /** What an interrupted write of `data` at `addr` may leave: sectors before the one it
      was in are written, later ones are as they were. */
  ghost predicate CutState(m0: Mem, addr: nat, data: seq<byte>, m: Mem)
    requires addr + |data| <= |m0|
  {
    m == m0 || exists base :: CutIn(m0, addr, data, base, m)
  }

  /** `m` is `m0` with `data` stored from `addr`, as far as `to`. */
  ghost predicate Stored(m0: Mem, addr: nat, data: seq<byte>, to: nat, m: Mem) {
    && addr <= to <= addr + |data| <= |m0| && |m| == |m0|
    && forall j :: 0 <= j < |m0| ==> m[j] == if addr <= j < to then data[j - addr] else m0[j]
  }

  /** Every content first seen since `seen0` differs from `m` in one sector at most. */
  ghost predicate OnlyInSector(m: Mem, base: nat, seen0: set<Mem>, seen: set<Mem>) {
    forall s :: s in seen ==> s in seen0 || SameOutside(m, base, SECTOR_SIZE, s)
  }

  /** Every content first seen since `seen0` is an allowed cut. */
  ghost predicate OnlyCuts(m0: Mem, addr: nat, data: seq<byte>, seen0: set<Mem>, seen: set<Mem>)
    requires addr + |data| <= |m0|
  {
    forall s :: s in seen ==> s in seen0 || CutState(m0, addr, data, s)
  }

  /** The sectors a write of the addresses `[at, end)` covers, in the order it rewrites them. */
  function Sectors(at: nat, end: nat): seq<nat>
    decreases if at < end then end - at else 0
  {
    if end <= at then [] else [Base(at)] + Sectors(Base(at) + SECTOR_SIZE, end)
  }

  /** The driver's sectors are exactly those the data overlaps, each once, in order. */
  lemma {:induction false} SectorsAreTheOverlapped(at: nat, end: nat, base: nat)
    ensures base in Sectors(at, end) <==> base == Base(base) && at < end && base < end && at < base + SECTOR_SIZE
    ensures InSteps(Base(at), Sectors(at, end))
    decreases if at < end then end - at else 0
  {
    if at < end {
      var next := Base(at) + SECTOR_SIZE;
      BaseFacts(at);
      SectorsAreTheOverlapped(next, end, base);
      assert base in Sectors(at, end) <==> base == Base(at) || base in Sectors(next, end);
      if base == Base(base) && at < base + SECTOR_SIZE {
        NextSector(at, base);
      }
    }
  }

  /** One sector after the other, from `base`. */
  ghost predicate InSteps(base: nat, s: seq<nat>)
    decreases |s|
  {
    s == [] || (s[0] == base && InSteps(base + SECTOR_SIZE, s[1..]))
  }

  /** No sector starts between one and the next. */
  lemma NextSector(at: nat, base: nat)
    requires base == Base(base) && at < base + SECTOR_SIZE
    ensures base == Base(at) || Base(at) + SECTOR_SIZE <= base
  {
    var k, n := base / SECTOR_SIZE, at / SECTOR_SIZE;
    assert base == SECTOR_SIZE * k && Base(at) == SECTOR_SIZE * n && n <= k;
  }

  class W25 {
    const part: Part
    const sector: array<byte>

    constructor (part: Part)
      ensures this.part == part && fresh(sector) && sector.Length == SECTOR_SIZE
    {
      this.part := part;
      sector := new byte[SECTOR_SIZE](_ => ERASED);
    }

    ghost predicate Valid()
      reads this, part
    {
      part.Valid() && sector.Length == SECTOR_SIZE
    }

    /** Poll until the bit reads as `set`. Whatever the answer, the part's contents-to-be
        are what they were. */
    method Wait(bit: StatusBit, set_: bool, timeoutMs: nat) returns (r: Outcome<Error>)
      requires part.Valid()
      modifies part
      ensures part.Valid() && part.Content() == old(part.Content()) && part.erases == old(part.erases)
      ensures (part.busy == old(part.busy) && part.mem == old(part.mem) && part.wel == old(part.wel))
              || (part.busy.None? && old(part.busy).Some? && !part.wel)
      ensures part.seen <= old(part.seen) + {old(part.Content())}
      ensures r == Ok ==> (if bit == Busy then part.busy.Some? else part.wel) == set_
      ensures old(part.WillRead(bit, set_, Polls(timeoutMs))) ==> r == Ok
      ensures r != Err(OutOfRange)
    {
      for i := 0 to Polls(timeoutMs) + 1
        invariant part.Valid() && part.Content() == old(part.Content()) && part.erases == old(part.erases)
        invariant (part.busy == old(part.busy) && part.mem == old(part.mem) && part.wel == old(part.wel))
                  || (part.busy.None? && old(part.busy).Some? && !part.wel)
        invariant part.seen <= old(part.seen) + {old(part.Content())}
        invariant i > 0 ==> (if bit == Busy then part.busy.Some? else part.wel) != set_
        invariant part.healthy && part.busy.Some? ==> part.left + i <= old(part.left)
      {
        var status := part.Status();
        if status.None? {
          return Err(Spi);
        }
        if (if bit == Busy then status.value.0 else status.value.1) == set_ {
          return Ok;
        }
      }
      r := Err(Timeout);
    }

    /** `Bus::read`. */
    method BusRead(addr: u32, buf: array<byte>) returns (r: Outcome<Error>)
      requires part.Valid() && addr + buf.Length <= PART_SIZE
      modifies part, buf
      ensures part.Valid() && part.Content() == old(part.Content()) && part.erases == old(part.erases)
      ensures part.mem == old(part.mem) || part.mem == old(part.Content())
      ensures part.seen <= old(part.seen) + {old(part.Content())}
      ensures r == Ok ==> part.busy.None? && buf[..] == part.mem[addr..addr + buf.Length]
      ensures r != Err(OutOfRange) && (old(part.Ready()) ==> r == Ok)
    {
      r := Wait(Busy, false, WRITE_TIMEOUT_MS);
      if r != Ok {
        return;
      }
      HeaderCarriesAddress(READ_DATA, addr);
      var ok := part.ReadData(Header(READ_DATA, addr), buf);
      r := if ok then Ok else Err(Spi);
    }

    /** `Bus::erase_sector`. */
    method BusErase(addr: u32) returns (r: Outcome<Error>)
      requires part.Valid() && addr < PART_SIZE && addr == Base(addr)
      modifies part
      ensures part.Valid() && SameOutside(old(part.Content()), addr, SECTOR_SIZE, part.Content())
      ensures OnlyInSector(old(part.Content()), addr, old(part.seen), part.seen)
      ensures part.erases == old(part.erases) || part.erases == old(part.erases) + [addr]
      ensures r == Ok ==> part.busy.None? && part.mem == Nor.Erase(old(part.Content()), addr, SECTOR_SIZE)
      ensures r == Ok ==> part.erases == old(part.erases) + [addr]
      ensures r != Err(OutOfRange) && (old(part.Ready()) ==> r == Ok)
    {
      r := Wait(Busy, false, WRITE_TIMEOUT_MS);
      if r != Ok {
        return;
      }
      var ok := part.WriteEnable();
      if !ok {
        return Err(Spi);
      }
      r := Wait(Wel, true, WRITE_TIMEOUT_MS);
      if r != Ok {
        return;
      }
      HeaderCarriesAddress(SECTOR_ERASE, addr);
      ok := part.SectorErase(Header(SECTOR_ERASE, addr));
      if !ok {
        return Err(Spi);
      }
      r := Wait(Wel, false, SECTOR_ERASE_TIMEOUT_MS);
    }

    /** `Bus::program_page`. */
    method BusProgram(addr: u32, page: seq<byte>) returns (r: Outcome<Error>)
      requires part.Valid() && addr + |page| <= PART_SIZE && addr % PAGE_SIZE == 0 && |page| == PAGE_SIZE
      modifies part
      ensures part.Valid() && part.erases == old(part.erases)
      ensures SameOutside(old(part.Content()), addr, PAGE_SIZE, part.Content())
      ensures forall s :: s in part.seen ==> s in old(part.seen) || SameOutside(old(part.Content()), addr, PAGE_SIZE, s)
      ensures r == Ok ==> part.busy.None? && part.mem == Program(old(part.Content()), addr, page)
      ensures r != Err(OutOfRange) && (old(part.Ready()) ==> r == Ok)
    {
      r := Wait(Busy, false, WRITE_TIMEOUT_MS);
      if r != Ok {
        return;
      }
      var ok := part.WriteEnable();
      if !ok {
        return Err(Spi);
      }
      r := Wait(Wel, true, WRITE_TIMEOUT_MS);
      if r != Ok {
        return;
      }
      HeaderCarriesAddress(PAGE_PROGRAM, addr);
      ok := part.PageProgram(Header(PAGE_PROGRAM, addr), page);
      if !ok {
        return Err(Spi);
      }
      r := Wait(Wel, false, WRITE_TIMEOUT_MS);
    }

    /** `W25::read`. */
    method Read(addr: u32, buf: array<byte>) returns (r: Outcome<Error>)
      requires Valid()
      modifies part, buf
      ensures part.Valid() && part.Content() == old(part.Content())
      ensures InRange(addr, buf.Length) <==> r != Err(OutOfRange)
      ensures r == Ok ==> buf[..] == old(part.Content())[addr..addr + buf.Length]
      ensures old(part.Ready()) && InRange(addr, buf.Length) ==> r == Ok
    {
      if !InRange(addr, buf.Length) {
        return Err(OutOfRange);
      }
      r := BusRead(addr, buf);
    }

    /** `W25::erase_sector`. */
    method EraseSector(addr: u32) returns (r: Outcome<Error>)
      requires Valid()
      modifies part
      ensures Valid()
      ensures addr % SECTOR_SIZE != 0 || !InRange(addr, 0) <==> r == Err(OutOfRange)
      ensures r == Err(OutOfRange) ==> part.mem == old(part.mem) && part.seen == old(part.seen)
      ensures r != Err(OutOfRange) ==>
                && SameOutside(old(part.Content()), addr, SECTOR_SIZE, part.Content())
                && OnlyInSector(old(part.Content()), addr, old(part.seen), part.seen)
      ensures old(part.Ready()) && addr % SECTOR_SIZE == 0 && InRange(addr, 0) ==> r == Ok
      ensures r == Ok ==> InRange(addr, 0) && part.Content() == Nor.Erase(old(part.Content()), Base(addr), SECTOR_SIZE)
    {
      if addr % SECTOR_SIZE != 0 || !InRange(addr, 0) {
        return Err(OutOfRange);
      }
      r := BusErase(addr);
    }

    /** The page loop: programs `sector` over the erased sector at `base`. */
    method ProgramSector(base: u32) returns (r: Outcome<Error>)
      requires Valid() && part.busy.None? && base % PAGE_SIZE == 0 && base + SECTOR_SIZE <= PART_SIZE
      requires IsErased(part.mem, base, SECTOR_SIZE)
      modifies part
      ensures part.Valid() && SameOutside(old(part.mem), base, SECTOR_SIZE, part.Content())
      ensures OnlyInSector(old(part.mem), base, old(part.seen), part.seen)
      ensures part.erases == old(part.erases)
      ensures r == Ok ==> part.busy.None? && part.mem == Splice(old(part.mem), base, sector[..])
      ensures r != Err(OutOfRange) && (old(part.Ready()) ==> r == Ok)
    {
      ghost var blank := part.mem;
      var image := sector[..];
      r := Ok;
      for i := 0 to PAGES
        invariant part.Valid() && part.busy.None? && part.erases == old(part.erases) && r == Ok
        invariant Stored(blank, base, image, base + i * PAGE_SIZE, part.mem)
        invariant OnlyInSector(blank, base, old(part.seen), part.seen)
      {
        r := ProgramNext(blank, base, image, i, old(part.seen));
        if r != Ok {
          return;
        }
      }
    }

    /** One page of it. */
    method ProgramNext(ghost blank: Mem, base: u32, image: seq<byte>, i: nat, ghost seen0: set<Mem>) returns (r: Outcome<Error>)
      requires part.Valid() && part.busy.None? && base % PAGE_SIZE == 0 && base + SECTOR_SIZE <= PART_SIZE
      requires |image| == SECTOR_SIZE && i < PAGES && |blank| == PART_SIZE && IsErased(blank, base, SECTOR_SIZE)
      requires Stored(blank, base, image, base + i * PAGE_SIZE, part.mem) && OnlyInSector(blank, base, seen0, part.seen)
      modifies part
      ensures part.Valid() && part.erases == old(part.erases)
      ensures SameOutside(blank, base, SECTOR_SIZE, part.Content()) && OnlyInSector(blank, base, seen0, part.seen)
      ensures r == Ok ==> part.busy.None? && Stored(blank, base, image, base + (i + 1) * PAGE_SIZE, part.mem)
      ensures r != Err(OutOfRange) && (old(part.Ready()) ==> r == Ok)
    {
      PageAligned(base, i);
      PageProgrammed(blank, base, image, i * PAGE_SIZE, part.mem);
      r := BusProgram(base + i * PAGE_SIZE, image[i * PAGE_SIZE..i * PAGE_SIZE + PAGE_SIZE]);
      PageInSector(blank, base, image, i * PAGE_SIZE, old(part.mem), part.Content());
      PagesInSector(blank, base, image, i * PAGE_SIZE, old(part.mem), seen0, old(part.seen), part.seen);
    }

    /** One turn of `W25::write`'s loop: read the sector, patch it, erase it, program its
        pages. However it ends, no cell outside the sector is touched. */
    method RewriteSector(base: u32, start: nat, data: seq<byte>) returns (r: Outcome<Error>)
      requires Valid() && base == Base(base) && base + SECTOR_SIZE <= PART_SIZE && start + |data| <= SECTOR_SIZE
      modifies part, sector
      ensures part.Valid() && SameOutside(old(part.Content()), base, SECTOR_SIZE, part.Content())
      ensures OnlyInSector(old(part.Content()), base, old(part.seen), part.seen)
      ensures part.erases == old(part.erases) || part.erases == old(part.erases) + [base]
      ensures r == Ok ==> part.busy.None? && part.mem == Splice(old(part.Content()), base + start, data)
      ensures r == Ok ==> part.erases == old(part.erases) + [base]
      ensures r != Err(OutOfRange) && (old(part.Ready()) ==> r == Ok)
    {
      ghost var c0 := part.Content();
      r := BusRead(base, sector);
      if r != Ok {
        return;
      }
      Patch(start, data);
      r := BusErase(base);
      if r != Ok {
        return;
      }
      r := ProgramSector(base);
      PatchedSector(c0, base, start, data);
    }

    /** Copies `data` into the sector's buffer. */
    method Patch(start: nat, data: seq<byte>)
      requires start + |data| <= sector.Length
      modifies sector
      ensures sector[..] == Splice(old(sector[..]), start, data)
    {
      forall i | 0 <= i < |data| {
        sector[start + i] := data[i];
      }
    }

    /** The body of `W25::write`'s loop, with `data` stored as far as `at`. */
    method WriteNext(ghost c0: Mem, addr: u32, data: seq<byte>, at: u32) returns (r: Outcome<Error>, to: u32)
      requires Valid() && addr <= at < addr + |data| < MAX_ADDRESS && |c0| == PART_SIZE
      requires at == addr || at == Base(at)
      requires Stored(c0, addr, data, at, part.Content())
      modifies part, sector
      ensures part.Valid() && CutState(c0, addr, data, part.Content())
      ensures OnlyCuts(c0, addr, data, old(part.seen), part.seen)
      ensures r != Err(OutOfRange) && (old(part.Ready()) ==> r == Ok && part.Ready())
      ensures at < to <= addr + |data| && (to == addr + |data| || to == Base(to) == Base(at) + SECTOR_SIZE)
      ensures to <= Base(at) + SECTOR_SIZE
      ensures r == Ok ==> Stored(c0, addr, data, to, part.Content()) && part.erases == old(part.erases) + [Base(at)]
    {
      to := Until(at, addr + |data|);
      r := RewriteSector(Base(at), at - Base(at), data[at - addr..to - addr]);
      Rewritten(c0, addr, data, at, to, old(part.Content()), old(part.seen), part.seen, part.Content(), r == Ok);
    }

    /** `W25::write`. On success the part is the old one with `data` stored at `addr`;
        whenever it is cut, it is in one of the states `CutState` allows. */
    method Write(addr: u32, data: seq<byte>) returns (r: Outcome<Error>)
      requires Valid()
      modifies part, sector
      ensures Valid()
      ensures InRange(addr, |data|) <==> r != Err(OutOfRange)
      ensures r == Err(OutOfRange) ==> part.mem == old(part.mem) && part.seen == old(part.seen)
      ensures r == Ok ==> part.Content() == Splice(old(part.Content()), addr, data)
      ensures r == Ok ==> part.erases == old(part.erases) + Sectors(addr, addr + |data|)
      ensures old(part.Ready()) && InRange(addr, |data|) ==> r == Ok
      ensures r != Err(OutOfRange) ==>
                && CutState(old(part.Content()), addr, data, part.Content())
                && OnlyCuts(old(part.Content()), addr, data, old(part.seen), part.seen)
    {
      if !InRange(addr, |data|) {
        return Err(OutOfRange);
      }
      ghost var c0 := part.Content();
      var at := addr;
      while at < addr + |data|
        invariant part.Valid() && addr <= at <= addr + |data|
        invariant at == addr || at == addr + |data| || at == Base(at)
        invariant Stored(c0, addr, data, at, part.Content())
        invariant ErasedSoFar(old(part.erases), addr, addr + |data|, part.erases, at)
        invariant OnlyCuts(c0, addr, data, old(part.seen), part.seen)
        invariant old(part.Ready()) ==> part.Ready()
      {
        var to: u32;
        ghost var seen, erases := part.seen, part.erases;
        r, to := WriteNext(c0, addr, data, at);
        CutsChain(c0, addr, data, old(part.seen), seen, part.seen);
        if r != Ok {
          return;
        }
        SectorsStep(old(part.erases), addr, addr + |data|, erases, at, to);
        at := to;
      }
      WriteEnds(c0, addr, data, at, part.Content());
      return Ok;
    }
  }

  /** How far the sector at `at` lets a write that ends at `end` get. */
  function Until(at: nat, end: nat): (to: nat)
    requires at < end
    ensures at < to <= end && to <= Base(at) + SECTOR_SIZE && (to == end || to == Base(to) == Base(at) + SECTOR_SIZE)
    ensures at < PART_SIZE ==> Base(at) + SECTOR_SIZE <= PART_SIZE
    ensures Base(Base(at)) == Base(at)
  {
    BaseFacts(at);
    if end < Base(at) + SECTOR_SIZE then end else Base(at) + SECTOR_SIZE
  }

  lemma Rewritten(c0: Mem, addr: nat, data: seq<byte>, at: nat, to: nat, c1: Mem, seen0: set<Mem>, seen: set<Mem>, c: Mem, ok: bool)
    requires Stored(c0, addr, data, at, c1) && at < to <= addr + |data| && (at == addr || at == Base(at))
    requires OnlyInSector(c1, Base(at), seen0, seen) && SameOutside(c1, Base(at), SECTOR_SIZE, c)
    requires ok ==> c == Splice(c1, at, data[at - addr..to - addr])
    ensures OnlyCuts(c0, addr, data, seen0, seen) && CutState(c0, addr, data, c)
    ensures ok ==> Stored(c0, addr, data, to, c)
  {
    CutsAreAllowed(c0, addr, data, at, c1, seen0, seen);
    CutIsAllowed(c0, addr, data, at, c1, c);
    StoredNext(c0, addr, data, at, to, c1);
  }

  /** Since `erases0` the sectors of `[addr, at)` were erased, in order. */
  ghost predicate ErasedSoFar(erases0: seq<nat>, addr: nat, end: nat, erases: seq<nat>, at: nat) {
    erases + Sectors(at, end) == erases0 + Sectors(addr, end)
  }

  lemma SectorsStep(erases0: seq<nat>, addr: nat, end: nat, erases: seq<nat>, at: nat, to: nat)
    requires ErasedSoFar(erases0, addr, end, erases, at)
    requires at < to <= end && to <= Base(at) + SECTOR_SIZE && (to == end || to == Base(at) + SECTOR_SIZE)
    ensures ErasedSoFar(erases0, addr, end, erases + [Base(at)], to)
  {
    assert Sectors(at, end) == [Base(at)] + Sectors(to, end);
    assert erases + ([Base(at)] + Sectors(to, end)) == erases + [Base(at)] + Sectors(to, end);
  }

  lemma WriteEnds(c0: Mem, addr: nat, data: seq<byte>, at: nat, c: Mem)
    requires Stored(c0, addr, data, at, c) && at == addr + |data|
    ensures c == Splice(c0, addr, data) && CutState(c0, addr, data, c)
  {
    FinishedIsCut(c0, addr, data);
  }

  lemma StoredNext(c0: Mem, addr: nat, data: seq<byte>, at: nat, to: nat, c1: Mem)
    requires Stored(c0, addr, data, at, c1) && at <= to <= addr + |data|
    ensures Stored(c0, addr, data, to, Splice(c1, at, data[at - addr..to - addr]))
  {
  }

  lemma BaseFacts(at: nat)
    ensures Base(Base(at)) == Base(at) <= at < Base(at) + SECTOR_SIZE == Base(Base(at) + SECTOR_SIZE)
    ensures at < PART_SIZE ==> Base(at) + SECTOR_SIZE <= PART_SIZE
  {
    var q := at / SECTOR_SIZE;
    assert Base(at) == SECTOR_SIZE * q;
    BaseOfMultiple(q);
    BaseOfMultiple(q + 1);
    assert PART_SIZE == SECTOR_SIZE * 0x800;
  }

  lemma BaseOfMultiple(q: nat)
    ensures Base(SECTOR_SIZE * q) == SECTOR_SIZE * q
  {
    assert SECTOR_SIZE * q % SECTOR_SIZE == 0;
  }

  lemma PageAligned(base: nat, i: nat)
    requires base % PAGE_SIZE == 0
    ensures (base + i * PAGE_SIZE) % PAGE_SIZE == 0
  {
    assert base + i * PAGE_SIZE == PAGE_SIZE * (base / PAGE_SIZE + i);
  }

  /** Programming the next page of an erased sector stores it. */
  lemma PageProgrammed(blank: Mem, base: nat, image: seq<byte>, k: nat, m: Mem)
    requires Stored(blank, base, image, base + k, m) && IsErased(blank, base, |image|) && k + PAGE_SIZE <= |image|
    ensures Stored(blank, base, image, base + k + PAGE_SIZE, Program(m, base + k, image[k..k + PAGE_SIZE]))
  {
    ProgramErased(m, base + k, image[k..k + PAGE_SIZE]);
    StoredNext(blank, base, image, base + k, base + k + PAGE_SIZE, m);
  }

  /** What programming one page of a sector leaves is in the sector. */
  lemma PageInSector(blank: Mem, base: nat, image: seq<byte>, k: nat, m: Mem, m': Mem)
    requires Stored(blank, base, image, base + k, m) && |image| == SECTOR_SIZE && k + PAGE_SIZE <= SECTOR_SIZE
    requires SameOutside(m, base + k, PAGE_SIZE, m')
    ensures SameOutside(blank, base, SECTOR_SIZE, m')
  {
  }

  lemma PagesInSector(
    blank: Mem, base: nat, image: seq<byte>, k: nat, m: Mem, seen0: set<Mem>, seen1: set<Mem>, seen2: set<Mem>)
    requires Stored(blank, base, image, base + k, m) && |image| == SECTOR_SIZE && k + PAGE_SIZE <= SECTOR_SIZE
    requires OnlyInSector(blank, base, seen0, seen1)
    requires forall s :: s in seen2 ==> s in seen1 || SameOutside(m, base + k, PAGE_SIZE, s)
    ensures OnlyInSector(blank, base, seen0, seen2)
  {
    forall s | s in seen2
      ensures s in seen0 || SameOutside(blank, base, SECTOR_SIZE, s)
    {
      if s !in seen1 {
        PageInSector(blank, base, image, k, m, s);
      }
    }
  }

  /** Erasing a sector and storing its patched copy is storing the patch. */
  lemma PatchedSector(c0: Mem, base: nat, start: nat, data: seq<byte>)
    requires base + SECTOR_SIZE <= |c0| && start + |data| <= SECTOR_SIZE
    ensures Splice(Nor.Erase(c0, base, SECTOR_SIZE), base, Splice(c0[base..base + SECTOR_SIZE], start, data))
         == Splice(c0, base + start, data)
  {
  }

  /** A turn of the loop touches only the sector it is at, so it can only leave an
      allowed cut. */
  lemma CutIsAllowed(c0: Mem, addr: nat, data: seq<byte>, at: nat, c1: Mem, s: Mem)
    requires Stored(c0, addr, data, at, c1) && at < addr + |data| && (at == addr || at == Base(at))
    requires SameOutside(c1, Base(at), SECTOR_SIZE, s)
    ensures CutState(c0, addr, data, s)
  {
    BaseFacts(at);
    assert CutIn(c0, addr, data, Base(at), s);
  }

  lemma CutsChain(c0: Mem, addr: nat, data: seq<byte>, seen0: set<Mem>, seen1: set<Mem>, seen2: set<Mem>)
    requires addr + |data| <= |c0|
    requires OnlyCuts(c0, addr, data, seen0, seen1) && OnlyCuts(c0, addr, data, seen1, seen2)
    ensures OnlyCuts(c0, addr, data, seen0, seen2)
  {
  }

  lemma FinishedIsCut(c0: Mem, addr: nat, data: seq<byte>)
    requires addr + |data| <= |c0|
    ensures CutState(c0, addr, data, Splice(c0, addr, data))
  {
    if data != [] {
      assert CutIn(c0, addr, data, Base(addr + |data| - 1), Splice(c0, addr, data));
    }
  }

  lemma CutsAreAllowed(c0: Mem, addr: nat, data: seq<byte>, at: nat, c1: Mem, seen0: set<Mem>, seen: set<Mem>)
    requires Stored(c0, addr, data, at, c1) && at < addr + |data| && (at == addr || at == Base(at))
    requires OnlyInSector(c1, Base(at), seen0, seen)
    ensures OnlyCuts(c0, addr, data, seen0, seen)
  {
    forall s | s in seen
      ensures s in seen0 || CutState(c0, addr, data, s)
    {
      if s !in seen0 {
        CutIsAllowed(c0, addr, data, at, c1, s);
      }
    }
  }
}
