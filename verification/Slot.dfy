/** MCUboot's two slots in the STM32U575's internal flash: page erases and padded
    quad-word programs, each read back. */
module DevkitSlots {
  import opened Bytes
  import opened Outcomes
  import opened Nor
  import TrailerLayout

  const SLOT1_OFFSET := 0xC000
  const SLOT2_OFFSET := 0xF_E000
  const SLOT_SIZE := 0xF_2000
  const PAGE_SIZE := 0x2000
  const WRITE_SIZE := 16
  const CHUNK := 256
  const FLASH_SIZE := 0x20_0000

  /** The flash controller. Unless it is `healthy`, whatever an erase or a program answers its
      cells may be anywhere between before and after; only a read tells. */
  class InternalFlash {
    var mem: Mem
    const healthy: bool
    ghost var programs: seq<nat>

    constructor (mem: Mem, healthy: bool)
      requires |mem| == FLASH_SIZE
      ensures this.mem == mem && this.healthy == healthy && programs == []
    {
      this.mem, this.healthy, programs := mem, healthy, [];
    }

    method BlockingRead(address: nat, len: nat) returns (r: Option<seq<byte>>)
      ensures r.Some? ==> address + len <= |mem| && r.value == mem[address..address + len]
      ensures healthy && address + len <= |mem| ==> r.Some?
    {
      var fails: bool := *;
      r := if (fails && !healthy) || address + len > |mem| then None else Some(mem[address..address + len]);
    }

    method BlockingErase(from: nat, to: nat) returns (ok: bool)
      requires from <= to <= |mem| && from % PAGE_SIZE == 0 && to % PAGE_SIZE == 0
      modifies this
      ensures TornErase(old(mem), from, to - from, mem) && programs == old(programs)
      ensures healthy ==> ok && mem == Nor.Erase(old(mem), from, to - from)
    {
      var torn: Mem := *;
      EraseIsTorn(mem, from, to - from);
      mem := if !healthy && TornErase(mem, from, to - from, torn) then torn else Nor.Erase(mem, from, to - from);
      ok := *;
      ok := ok || healthy;
    }

    method BlockingWrite(address: nat, quad: seq<byte>) returns (ok: bool)
      requires address % WRITE_SIZE == 0 && |quad| == WRITE_SIZE && address + WRITE_SIZE <= |mem|
      modifies this
      ensures TornProgram(old(mem), address, quad, mem) && programs == old(programs) + [address]
      ensures healthy ==> ok && mem == Program(old(mem), address, quad)
    {
      programs := programs + [address];
      var torn: Mem := *;
      ProgramIsTorn(mem, address, quad);
      mem := if !healthy && TornProgram(mem, address, quad, torn) then torn else Program(mem, address, quad);
      ok := *;
      ok := ok || healthy;
    }
  }

  predicate InRange(off: u32, len: nat): (r: bool)
    ensures r <==> off + len <= 0xF_2000
  {
    len < U32_LIMIT && off + len < U32_LIMIT && off + len <= SLOT_SIZE
  }

  /** The slot at `base`, as offsets see it. */
  function View(m: Mem, base: nat): Mem
    requires base + SLOT_SIZE <= |m|
  {
    m[base..base + SLOT_SIZE]
  }

  class Area {
    const flash: InternalFlash
    const base: nat

    constructor (flash: InternalFlash, base: nat)
      ensures this.flash == flash && this.base == base
    {
      this.flash, this.base := flash, base;
    }

    ghost predicate Valid()
      reads this, flash
    {
      |flash.mem| == FLASH_SIZE && (base == SLOT1_OFFSET || base == SLOT2_OFFSET)
    }

    method Read(off: u32, len: nat) returns (r: Option<seq<byte>>)
      requires Valid()
      ensures r.Some? ==> InRange(off, len) && r.value == flash.mem[base + off..base + off + len]
      ensures flash.healthy && InRange(off, len) ==> r.Some?
    {
      if !InRange(off, len) {
        return None;
      }
      r := flash.BlockingRead(base + off, len);
    }

    /** The read-back of one erased page, 256 bytes at a time. */
    method PageReadsErased(start: u32) returns (ok: bool)
      requires Valid() && start + PAGE_SIZE <= SLOT_SIZE
      ensures ok ==> IsErased(flash.mem, base + start, PAGE_SIZE)
      ensures flash.healthy && IsErased(flash.mem, base + start, PAGE_SIZE) ==> ok
    {
      var chunk := start;
      while chunk < start + PAGE_SIZE
        invariant start <= chunk <= start + PAGE_SIZE && (chunk - start) % CHUNK == 0
        invariant IsErased(flash.mem, base + start, chunk - start)
      {
        var back := Read(chunk, CHUNK);
        if back.None? || exists i :: 0 <= i < CHUNK && back.value[i] != ERASED {
          return false;
        }
        forall j | base + chunk <= j < base + chunk + CHUNK
          ensures flash.mem[j] == ERASED
        {
          assert back.value[j - base - chunk] == flash.mem[j];
        }
        chunk := chunk + CHUNK;
      }
      ok := true;
    }

    /** One page of an erase: the controller's erase, then the read-back. */
    method ErasePage(ghost m0: Mem, off: u32, len: u32, start: u32) returns (ok: bool)
      requires Valid() && off % PAGE_SIZE == 0 && len % PAGE_SIZE == 0 && InRange(off, len)
      requires off <= start < off + len && (start - off) % PAGE_SIZE == 0
      requires |m0| == FLASH_SIZE && TornErase(m0, base + off, len, flash.mem) && IsErased(flash.mem, base + off, start - off)
      modifies flash
      ensures Valid() && TornErase(m0, base + off, len, flash.mem)
      ensures start + PAGE_SIZE <= off + len && (start + PAGE_SIZE - off) % PAGE_SIZE == 0
      ensures ok ==> IsErased(flash.mem, base + off, start + PAGE_SIZE - off)
      ensures flash.healthy ==> ok
    {
      PageFits(off, len, start);
      ghost var m1 := flash.mem;
      ok := flash.BlockingErase(base + start, base + start + PAGE_SIZE);
      TornEraseTwice(m0, base + off, len, m1, base + start, PAGE_SIZE, flash.mem);
      if ok {
        ok := PageReadsErased(start);
      }
    }

    /** Erase whole pages; true means exactly the range is erased. */
    method Erase(off: u32, len: u32) returns (ok: bool)
      requires Valid()
      modifies flash
      ensures Valid() && EraseOutcome(old(View(flash.mem, base)), off, len, ok, View(flash.mem, base))
      ensures SameOutside(old(flash.mem), base, SLOT_SIZE, flash.mem)
      ensures ok ==> InRange(off, len) && flash.mem == Nor.Erase(old(flash.mem), base + off, len)
      ensures off % PAGE_SIZE != 0 || len % PAGE_SIZE != 0 || !InRange(off, len) ==> !ok && flash.mem == old(flash.mem)
      ensures flash.healthy && off % PAGE_SIZE == 0 && len % PAGE_SIZE == 0 && InRange(off, len) ==> ok
    {
      ghost var m0 := flash.mem;
      if InRange(off, len) {
        EraseIsTorn(m0, base + off, len);
        EraseInView(m0, base, off, len, false, m0);
      }
      if off % PAGE_SIZE != 0 || len % PAGE_SIZE != 0 || !InRange(off, len) {
        return false;
      }
      var start := off;
      while start < off + len
        invariant off <= start <= off + len && (start - off) % PAGE_SIZE == 0
        invariant TornErase(m0, base + off, len, flash.mem)
        invariant IsErased(flash.mem, base + off, start - off)
      {
        var erased := ErasePage(m0, off, len, start);
        if !erased {
          EraseInView(m0, base, off, len, false, flash.mem);
          return false;
        }
        start := start + PAGE_SIZE;
      }
      EraseInView(m0, base, off, len, true, flash.mem);
      ok := true;
    }

    /** Program `data` in quad-words padded with `0xFF`, then read it back. */
    method Write(off: u32, data: seq<byte>) returns (ok: bool)
      requires Valid()
      modifies flash
      ensures Valid() && WriteOutcome(old(View(flash.mem, base)), off, data, ok, View(flash.mem, base))
      ensures SameOutside(old(flash.mem), base + off, if InRange(off, |data|) then |data| else 0, flash.mem)
      ensures ok ==> InRange(off, |data|) && flash.mem[base + off..base + off + |data|] == data
      ensures off % WRITE_SIZE != 0 || !InRange(off, |data|) ==> !ok && flash.mem == old(flash.mem)
      ensures QuadsInSlot(base, old(flash.programs), flash.programs)
      ensures flash.healthy && off % WRITE_SIZE == 0 && InRange(off, |data|) ==>
                && flash.mem == Program(old(flash.mem), base + off, data)
                && (ok <==> flash.mem[base + off..base + off + |data|] == data)
    {
      ghost var m0 := flash.mem;
      if off % WRITE_SIZE != 0 || !InRange(off, |data|) {
        RefusedWrite(m0, base, off, data);
        return false;
      }
      ok := ProgramAndVerify(off, data);
      WriteInView(m0, base, off, data, ok, flash.mem);
    }

    /** `write` past its checks. */
    method ProgramAndVerify(off: u32, data: seq<byte>) returns (ok: bool)
      requires Valid() && off % WRITE_SIZE == 0 && InRange(off, |data|)
      modifies flash
      ensures Valid() && TornProgram(old(flash.mem), base + off, data, flash.mem)
      ensures ok ==> flash.mem[base + off..base + off + |data|] == data
      ensures QuadsInSlot(base, old(flash.programs), flash.programs)
      ensures flash.healthy ==>
                && flash.mem == Program(old(flash.mem), base + off, data)
                && (ok <==> flash.mem[base + off..base + off + |data|] == data)
    {
      ok := ProgramQuads(off, data);
      if ok {
        ok := ReadsBack(off, data);
      }
    }

    /** The first loop of `write`. */
    method ProgramQuads(off: u32, data: seq<byte>) returns (ok: bool)
      requires Valid() && off % WRITE_SIZE == 0 && InRange(off, |data|)
      modifies flash
      ensures Valid() && TornProgram(old(flash.mem), base + off, data, flash.mem)
      ensures QuadsInSlot(base, old(flash.programs), flash.programs)
      ensures flash.healthy ==> ok && flash.mem == Program(old(flash.mem), base + off, data)
    {
      ghost var m0 := flash.mem;
      ProgramIsTorn(m0, base + off, data);
      var k := 0;
      while k < |data|
        invariant 0 <= k && k % WRITE_SIZE == 0
        invariant PartWay(m0, base + off, data, k, flash.mem)
        invariant flash.healthy ==> Programmed(m0, base + off, data, k, flash.mem)
        invariant QuadsInSlot(base, old(flash.programs), flash.programs)
        decreases |data| - k
      {
        var written := WriteQuad(m0, off, data, k);
        if !written {
          return false;
        }
        k := k + WRITE_SIZE;
      }
      ok := true;
    }

    /** One quad-word of it. */
    method WriteQuad(ghost m0: Mem, off: u32, data: seq<byte>, k: nat) returns (ok: bool)
      requires Valid() && off % WRITE_SIZE == 0 && InRange(off, |data|) && k % WRITE_SIZE == 0 && k < |data|
      requires PartWay(m0, base + off, data, k, flash.mem)
      requires flash.healthy ==> Programmed(m0, base + off, data, k, flash.mem)
      modifies flash
      ensures Valid() && PartWay(m0, base + off, data, k + WRITE_SIZE, flash.mem) && (k + WRITE_SIZE) % WRITE_SIZE == 0
      ensures QuadsInSlot(base, old(flash.programs), flash.programs)
      ensures flash.healthy ==> ok && Programmed(m0, base + off, data, k + WRITE_SIZE, flash.mem)
    {
      QuadFits(base, off, k, |data|);
      ghost var m1 := flash.mem;
      ok := flash.BlockingWrite(base + off + k, Quad(data, k));
      QuadWritten(m0, base + off, data, k, m1, flash.healthy, flash.mem);
    }

    /** The second loop of `write`. */
    method ReadsBack(off: u32, data: seq<byte>) returns (ok: bool)
      requires Valid() && InRange(off, |data|)
      ensures ok ==> flash.mem[base + off..base + off + |data|] == data
      ensures flash.healthy && flash.mem[base + off..base + off + |data|] == data ==> ok
    {
      var k := 0;
      while k < |data|
        invariant 0 <= k && Matches(flash.mem, base + off, data, k)
        decreases |data| - k
      {
        var n := if |data| - k < WRITE_SIZE then |data| - k else WRITE_SIZE;
        SliceReadsBack(flash.mem, base + off, data, k, n);
        var back := Read(off + k, n);
        if back.None? || back.value != data[k..k + n] {
          return false;
        }
        MatchesNext(flash.mem, base + off, data, k, n);
        k := k + WRITE_SIZE;
      }
      MatchesAll(flash.mem, base + off, data, k);
      ok := true;
    }
  }

  /** The first `k` bytes of `data` are in `m` at `at`. */
  ghost predicate Matches(m: Mem, at: nat, data: seq<byte>, k: nat) {
    at + |data| <= |m| && forall j :: at <= j < at + |data| && j < at + k ==> m[j] == data[j - at]
  }

  lemma MatchesNext(m: Mem, at: nat, data: seq<byte>, k: nat, n: nat)
    requires Matches(m, at, data, k) && k + n <= |data| && (n == WRITE_SIZE || k + n == |data|)
    requires m[at + k..at + k + n] == data[k..k + n]
    ensures Matches(m, at, data, k + WRITE_SIZE)
  {
    forall j | at + k <= j < at + k + n
      ensures m[j] == data[j - at]
    {
      assert m[at + k..at + k + n][j - at - k] == data[k..k + n][j - at - k];
    }
  }

  lemma MatchesAll(m: Mem, at: nat, data: seq<byte>, k: nat)
    requires Matches(m, at, data, k) && k >= |data|
    ensures m[at..at + |data|] == data
  {
  }

  lemma SliceReadsBack(m: Mem, at: nat, data: seq<byte>, k: nat, n: nat)
    requires at + |data| <= |m| && k + n <= |data|
    ensures m[at..at + |data|] == data ==> m[at + k..at + k + n] == data[k..k + n]
  {
    if m[at..at + |data|] == data {
      forall j | at + k <= j < at + k + n
        ensures m[j] == data[j - at]
      {
        assert m[at..at + |data|][j - at] == m[j];
      }
      assert m[at + k..at + k + n] == data[k..k + n];
    }
  }

  /** The quad-word at `k`: up to 16 bytes of `data`, then `0xFF`. */
  function Quad(data: seq<byte>, k: nat): (q: seq<byte>)
    requires k < |data|
    ensures |q| == WRITE_SIZE
    ensures forall i :: 0 <= i < WRITE_SIZE ==> q[i] == if k + i < |data| then data[k + i] else ERASED
  {
    var n := if |data| - k < WRITE_SIZE then |data| - k else WRITE_SIZE;
    data[k..k + n] + Fill(WRITE_SIZE - n, ERASED)
  }

  /** Every quad programmed since `before` lies inside the slot at `base`. */
  ghost predicate QuadsInSlot(base: nat, before: seq<nat>, after: seq<nat>) {
    && before <= after
    && forall i :: |before| <= i < |after| ==> base <= after[i] && after[i] + WRITE_SIZE <= base + SLOT_SIZE
  }

  lemma PageFits(off: nat, len: nat, start: nat)
    requires off % PAGE_SIZE == 0 && len % PAGE_SIZE == 0 && off <= start < off + len && (start - off) % PAGE_SIZE == 0
    ensures start % PAGE_SIZE == 0 && start + PAGE_SIZE <= off + len
  {
  }

  /** The padded quad-word stays in the slot because the slot is whole quad-words. */
  lemma QuadFits(base: nat, off: nat, k: nat, len: nat)
    requires base == SLOT1_OFFSET || base == SLOT2_OFFSET
    requires off % WRITE_SIZE == 0 && k % WRITE_SIZE == 0 && k < len && off + len <= SLOT_SIZE
    ensures (base + off + k) % WRITE_SIZE == 0 && (k + WRITE_SIZE) % WRITE_SIZE == 0
    ensures base + off + k + WRITE_SIZE <= base + SLOT_SIZE <= FLASH_SIZE
  {
    Aligned(off, k);
    Aligned(base, off + k);
    Aligned(k, WRITE_SIZE);
    NextQuad(off + k);
  }

  lemma Aligned(a: nat, b: nat)
    requires a % WRITE_SIZE == 0 && b % WRITE_SIZE == 0
    ensures (a + b) % WRITE_SIZE == 0
  {
  }

  lemma NextQuad(x: nat)
    requires x % WRITE_SIZE == 0 && x < SLOT_SIZE
    ensures x + WRITE_SIZE <= SLOT_SIZE
  {
  }

  /** `m` is part of the way from `m0` to `data` programmed at `at`, and untouched from the `k`th
      byte on. */
  ghost predicate PartWay(m0: Mem, at: nat, data: seq<byte>, k: nat, m: Mem) {
    && at + |data| <= |m0| && TornProgram(m0, at, data, m)
    && forall i :: at + k <= i < |m0| ==> m[i] == m0[i]
  }

  /** `m` is `m0` with the first `k` bytes of `data` programmed. */
  ghost predicate Programmed(m0: Mem, at: nat, data: seq<byte>, k: nat, m: Mem) {
    && at + |data| <= |m0| && |m| == |m0|
    && forall i :: 0 <= i < |m0| ==> m[i] == if at <= i < at + |data| && i < at + k then And(m0[i], data[i - at]) else m0[i]
  }

  /** One padded quad-word, finished or not, is a step of programming `data`. */
  lemma QuadStep(m0: Mem, at: nat, data: seq<byte>, k: nat, m1: Mem, m2: Mem)
    requires PartWay(m0, at, data, k, m1) && k < |data| && at + k + WRITE_SIZE <= |m0|
    requires TornProgram(m1, at + k, Quad(data, k), m2)
    ensures PartWay(m0, at, data, k + WRITE_SIZE, m2)
  {
    forall i | at <= i < at + |data|
      ensures Between(m0[i], data[i - at], m2[i])
    {
      if at + k <= i < at + k + WRITE_SIZE {
        assert Quad(data, k)[i - at - k] == data[i - at];
      }
    }
    forall i | 0 <= i < |m0| && !(at <= i < at + |data|)
      ensures m2[i] == m0[i]
    {
      if at + k <= i < at + k + WRITE_SIZE {
        assert Quad(data, k)[i - at - k] == ERASED;
        PaddingChangesNothing(m1[i], m2[i]);
      }
    }
  }

  lemma QuadWritten(m0: Mem, at: nat, data: seq<byte>, k: nat, m1: Mem, healthy: bool, m2: Mem)
    requires PartWay(m0, at, data, k, m1) && k < |data| && at + k + WRITE_SIZE <= |m0|
    requires TornProgram(m1, at + k, Quad(data, k), m2)
    requires healthy ==> Programmed(m0, at, data, k, m1) && m2 == Program(m1, at + k, Quad(data, k))
    ensures PartWay(m0, at, data, k + WRITE_SIZE, m2)
    ensures healthy ==> Programmed(m0, at, data, k + WRITE_SIZE, m2)
  {
    QuadStep(m0, at, data, k, m1, m2);
    if healthy {
      QuadProgrammed(m0, at, data, k, m1, m2);
    }
  }

  lemma QuadProgrammed(m0: Mem, at: nat, data: seq<byte>, k: nat, m1: Mem, m2: Mem)
    requires Programmed(m0, at, data, k, m1) && k < |data| && at + k + WRITE_SIZE <= |m0|
    requires m2 == Program(m1, at + k, Quad(data, k))
    ensures Programmed(m0, at, data, k + WRITE_SIZE, m2)
  {
    forall i | at + |data| <= i < at + k + WRITE_SIZE
      ensures And(m1[i], Quad(data, k)[i - at - k]) == m1[i]
    {
      AndErased(m1[i]);
    }
  }

  lemma WriteInView(m: Mem, base: nat, off: nat, data: seq<byte>, ok: bool, m': Mem)
    requires base + SLOT_SIZE <= |m| && off + |data| <= SLOT_SIZE && TornProgram(m, base + off, data, m')
    requires ok ==> m'[base + off..base + off + |data|] == data
    ensures WriteOutcome(View(m, base), off, data, ok, View(m', base))
  {
    var v := View(m', base);
    if ok {
      forall i | 0 <= i < |data|
        ensures v[off..off + |data|][i] == data[i]
      {
        assert m'[base + off..base + off + |data|][i] == m'[base + off + i] == v[off + i];
      }
    }
  }

  lemma RefusedWrite(m: Mem, base: nat, off: nat, data: seq<byte>)
    requires base + SLOT_SIZE <= |m|
    ensures WriteOutcome(View(m, base), off, data, false, View(m, base))
  {
    if off + |data| <= SLOT_SIZE {
      ProgramIsTorn(m, base + off, data);
      WriteInView(m, base, off, data, false, m);
    }
  }

  lemma EraseInView(m: Mem, base: nat, off: nat, len: nat, ok: bool, m': Mem)
    requires base + SLOT_SIZE <= |m| && off + len <= SLOT_SIZE && TornErase(m, base + off, len, m')
    requires ok ==> IsErased(m', base + off, len)
    ensures EraseOutcome(View(m, base), off, len, ok, View(m', base))
  {
  }

  /** The slots do not meet: what stays in one leaves the other. */
  lemma SlotsAreApart(m: Mem, base: nat, m': Mem)
    requires |m| == FLASH_SIZE && (base == SLOT1_OFFSET || base == SLOT2_OFFSET)
    requires SameOutside(m, base, SLOT_SIZE, m')
    ensures var other := if base == SLOT1_OFFSET then SLOT2_OFFSET else SLOT1_OFFSET; View(m', other) == View(m, other)
  {
  }

  /** No write `set_pending` or `set_confirmed` makes in a slot of this board, and not the
      erase of a whole slot, fails `Area`'s alignment and range checks. */
  lemma MarksPassTheChecks()
    ensures TrailerLayout.BM.Accepted() && TrailerLayout.BM.slotSize == SLOT_SIZE
    ensures TrailerLayout.BM.PadOff() % WRITE_SIZE == 0 && TrailerLayout.BM.ImageOkOff() % WRITE_SIZE == 0
    ensures TrailerLayout.BM.SwapInfoOff() >= 0 && TrailerLayout.BM.SwapInfoOff() % WRITE_SIZE == 0
    ensures InRange(TrailerLayout.BM.PadOff(), |TrailerLayout.BM.MagicBlock()|)
    ensures forall v: byte :: InRange(TrailerLayout.BM.ImageOkOff(), |TrailerLayout.BM.ByteBlock(v)|)
    ensures forall v: byte :: InRange(TrailerLayout.BM.SwapInfoOff(), |TrailerLayout.BM.ByteBlock(v)|)
    ensures SLOT_SIZE % PAGE_SIZE == 0 && InRange(0, SLOT_SIZE)
  {
    TrailerLayout.FieldsTile(TrailerLayout.BM);
  }
}
