/** Marking a slot: `set_pending` on the secondary, `set_confirmed` on the primary,
    over any flash that keeps the rules of `Nor`, and what any number of calls with
    any faults can leave behind. */
module SwapMarks {
  import opened Bytes
  import opened Outcomes
  import opened Nor
  import opened TrailerLayout

  datatype Error = FlashFailed | BadImage | BadVect

  /** `RamSlot`'s erase unit. */
  const PAGE_SIZE := 0x2000

  /** One slot's flash: `RamSlot`, whose operations may also fail part way unless it
      is `healthy`. */
  class Slot {
    var bytes: Mem
    const healthy: bool

    constructor (bytes: Mem, healthy: bool)
      ensures this.bytes == bytes && this.healthy == healthy
    {
      this.bytes, this.healthy := bytes, healthy;
    }

    method Read(off: nat, len: nat) returns (r: Option<seq<byte>>)
      ensures r.Some? ==> off + len <= |bytes| && r.value == bytes[off..off + len]
      ensures healthy && off + len <= |bytes| ==> r.Some?
    {
      if off + len > |bytes| {
        return None;
      }
      var fails: bool := *;
      if fails && !healthy {
        return None;
      }
      r := Some(bytes[off..off + len]);
    }

    /** Ands the data in and reports whether it then reads back. A failing part leaves each
        byte anywhere between its old and new values. */
    method Write(off: nat, data: seq<byte>) returns (ok: bool)
      modifies this
      ensures WriteOutcome(old(bytes), off, data, ok, bytes)
      ensures healthy && off + |data| <= |old(bytes)| ==>
                bytes == Program(old(bytes), off, data) && (ok <==> bytes[off..off + |data|] == data)
      ensures healthy && off + |data| <= |old(bytes)| && old(IsErased(bytes, off, |data|)) ==> ok
    {
      if off + |data| > |bytes| {
        return false;
      }
      var torn: Mem := *;
      if !healthy && TornProgram(bytes, off, data, torn) {
        bytes := torn;
        return false;
      }
      ProgramIsTorn(bytes, off, data);
      AndIn(off, data);
      if IsErased(old(bytes), off, |data|) {
        ProgramErased(old(bytes), off, data);
      }
      ok := bytes[off..off + |data|] == data;
    }

    /** The loop of `write`. */
    method AndIn(off: nat, data: seq<byte>)
      requires off + |data| <= |bytes|
      modifies this
      ensures bytes == Program(old(bytes), off, data)
    {
      for i := 0 to |data|
        invariant |bytes| == |old(bytes)|
        invariant forall k :: off <= k < off + i ==> bytes[k] == And(old(bytes)[k], data[k - off])
        invariant forall k :: 0 <= k < |bytes| && !(off <= k < off + i) ==> bytes[k] == old(bytes)[k]
      {
        bytes := bytes[off + i := And(bytes[off + i], data[i])];
      }
      assert bytes == Program(old(bytes), off, data);
    }

    /** Sets every bit of whole pages; a failing part may set some of them. */
    method Erase(off: nat, len: nat) returns (ok: bool)
      modifies this
      ensures EraseOutcome(old(bytes), off, len, ok, bytes)
      ensures off % PAGE_SIZE != 0 || len % PAGE_SIZE != 0 || off + len > |old(bytes)| ==> !ok && bytes == old(bytes)
      ensures healthy && off % PAGE_SIZE == 0 && len % PAGE_SIZE == 0 && off + len <= |old(bytes)| ==>
                ok && bytes == Nor.Erase(old(bytes), off, len)
    {
      if off + len <= |bytes| {
        EraseIsTorn(bytes, off, len);
      }
      if off % PAGE_SIZE != 0 || len % PAGE_SIZE != 0 || off + len > |bytes| {
        return false;
      }
      var torn: Mem := *;
      if !healthy && TornErase(bytes, off, len, torn) {
        bytes := torn;
        return false;
      }
      bytes := Nor.Erase(bytes, off, len);
      ok := true;
    }
  }

  method ReadFlag(flash: Slot, off: nat) returns (r: Option<Flag>)
    ensures r.Some? ==> off < |flash.bytes| && r.value == FlagOf(flash.bytes[off])
    ensures flash.healthy && off < |flash.bytes| ==> r.Some?
  {
    var flag := flash.Read(off, 1);
    if flag.None? {
      return None;
    }
    assert flag.value[0] == flash.bytes[off];
    r := Some(FlagOf(flag.value[0]));
  }

  /** `read_swap_state`: four reads, any of which may fail. */
  method ReadSwapState(flash: Slot, t: Trailer) returns (r: Option<SwapState>)
    requires t.Accepted() && |flash.bytes| == t.slotSize
    ensures r.Some? ==> r.value == StateOf(t, flash.bytes)
    ensures flash.healthy ==> r.Some?
  {
    FieldsTile(t);
    var magic := flash.Read(t.MagicOff(), MAGIC_SIZE);
    if magic.None? {
      return None;
    }
    assert magic.value == flash.bytes[t.MagicOff()..];
    var info := flash.Read(t.SwapInfoOff(), 1);
    if info.None? {
      return None;
    }
    assert info.value[0] == flash.bytes[t.SwapInfoOff()];
    var (swapType, imageNum) := SwapInfoOf(info.value[0]);
    var copyDone := ReadFlag(flash, t.CopyDoneOff());
    if copyDone.None? {
      return None;
    }
    var imageOk := ReadFlag(flash, t.ImageOkOff());
    if imageOk.None? {
      return None;
    }
    var state := if magic.value == Fill(MAGIC_SIZE, ERASED) then MagicUnset
                 else if magic.value == t.Magic() then MagicGood
                 else MagicBad;
    r := Some(SwapState(state, swapType, imageNum, copyDone.value, imageOk.value));
  }

  // ---------- set_pending ----------

  /** One call of `set_pending`: the slot before it, after each write it may make and
      at its end, and what each step reported. */
  datatype PendingCall = PendingCall(
    permanent: bool, before: Mem, afterMagic: Mem, afterFlag: Mem, after: Mem,
    readOk: bool, magicOk: bool, flagOk: bool, infoOk: bool, result: Outcome<Error>)

  function Report(ok: bool): Outcome<Error> {
    if ok then Ok else Err(FlashFailed)
  }

  ghost predicate Untouched(c: PendingCall) {
    c.afterMagic == c.before && c.afterFlag == c.before && c.after == c.before
  }

  /** Everything a call may do, over any flash. */
  ghost predicate ValidPending(t: Trailer, c: PendingCall) {
    && t.Accepted()
    && |c.before| == t.slotSize
    && if !c.readOk then
         Untouched(c) && c.result == Err(FlashFailed)
       else
         match MagicOf(t, c.before)
         case MagicGood => Untouched(c) && c.result == Ok
         case MagicBad =>
           && TornErase(c.before, 0, t.slotSize, c.after)
           && c.afterMagic == c.afterFlag == c.after && c.result == Err(BadImage)
         case MagicUnset => ValidMarking(t, c)
  }

  /** The writes of a call that finds the magic erased, in order. */
  ghost predicate ValidMarking(t: Trailer, c: PendingCall)
    requires t.Accepted()
  {
    && WriteOutcome(c.before, t.PadOff(), t.MagicBlock(), c.magicOk, c.afterMagic)
    && (if c.magicOk && c.permanent then
          WriteOutcome(c.afterMagic, t.ImageOkOff(), t.ByteBlock(FLAG_SET), c.flagOk, c.afterFlag)
        else
          c.afterFlag == c.afterMagic && c.flagOk == c.magicOk)
    && (if c.flagOk then
          t.SwapInfoOff() >= 0
          && WriteOutcome(c.afterFlag, t.SwapInfoOff(), t.ByteBlock(if c.permanent then 3 else 2), c.infoOk, c.after)
        else
          c.after == c.afterFlag && !c.infoOk)
    && c.result == Report(c.infoOk)
  }

  /** The fields of a slot nothing has been marked in. */
  ghost predicate FieldsErased(t: Trailer, m: Mem)
    requires t.Accepted() && |m| == t.slotSize
  {
    FieldsTile(t);
    IsErased(m, t.SwapSizeOff(), t.InfoSize())
  }

  method SetPending(flash: Slot, t: Trailer, permanent: bool) returns (r: Outcome<Error>, ghost c: PendingCall)
    requires t.Accepted() && |flash.bytes| == t.slotSize
    modifies flash
    ensures ValidPending(t, c) && c.permanent == permanent && c.result == r
    ensures c.before == old(flash.bytes) && c.after == flash.bytes
    ensures flash.healthy ==> c.readOk
    ensures flash.healthy && old(FieldsErased(t, flash.bytes)) ==> r == Ok
    ensures flash.healthy && t.slotSize % PAGE_SIZE == 0 && old(MagicOf(t, flash.bytes)) == MagicBad ==>
              flash.bytes == Fill(t.slotSize, ERASED)
  {
    var state := ReadSwapState(flash, t);
    c := PendingCall(permanent, flash.bytes, flash.bytes, flash.bytes, flash.bytes, state.Some?, false, false, false,
                     Err(FlashFailed));
    if state.None? {
      return Err(FlashFailed), c;
    }
    ErasedIsUnset(t, flash.bytes);
    match state.value.magic
    case MagicGood =>
      r := Ok;
      c := c.(result := r);
    case MagicBad =>
      var _ := flash.Erase(0, t.slotSize);
      r := Err(BadImage);
      c := c.(afterMagic := flash.bytes, afterFlag := flash.bytes, after := flash.bytes, result := r);
    case MagicUnset =>
      r, c := Mark(flash, t, permanent);
  }

  lemma ErasedIsUnset(t: Trailer, m: Mem)
    requires t.Accepted() && |m| == t.slotSize
    ensures FieldsErased(t, m) ==> MagicOf(t, m) == MagicUnset
  {
    FieldsTile(t);
  }

  /** `set_pending` once it has found the magic erased. */
  method Mark(flash: Slot, t: Trailer, permanent: bool) returns (r: Outcome<Error>, ghost c: PendingCall)
    requires t.Accepted() && |flash.bytes| == t.slotSize
    modifies flash
    ensures ValidMarking(t, c) && c.permanent == permanent && c.result == r
    ensures c.before == old(flash.bytes) && c.after == flash.bytes && c.readOk
    ensures flash.healthy && old(FieldsErased(t, flash.bytes)) ==> r == Ok
  {
    FieldsTile(t);
    c := PendingCall(permanent, flash.bytes, flash.bytes, flash.bytes, flash.bytes, true, false, false, false,
                     Err(FlashFailed));
    r := Err(FlashFailed);
    var magicOk := flash.Write(t.PadOff(), t.MagicBlock());
    c := c.(afterMagic := flash.bytes, afterFlag := flash.bytes, after := flash.bytes, magicOk := magicOk,
            flagOk := magicOk);
    if !magicOk {
      return;
    }
    if permanent {
      var flagOk := flash.Write(t.ImageOkOff(), t.ByteBlock(FLAG_SET));
      c := c.(afterFlag := flash.bytes, after := flash.bytes, flagOk := flagOk);
      if !flagOk {
        return;
      }
    }
    var infoOk := flash.Write(t.SwapInfoOff(), t.ByteBlock(if permanent then 3 else 2));
    r := Report(infoOk);
    c := c.(after := flash.bytes, infoOk := infoOk, result := r);
  }

  // ---------- every run of set_pending ----------

  /** The calls of `run`, one after the other on one slot, take it from `m0` to `m`; nothing
      else writes it. A call cut by a power loss is one whose last step failed. */
  ghost predicate PendingRun(t: Trailer, m0: Mem, run: seq<PendingCall>, m: Mem) {
    if run == [] then m == m0
    else
      var last := run[|run| - 1];
      ValidPending(t, last) && last.after == m && PendingRun(t, m0, run[..|run| - 1], last.before)
  }

  ghost predicate Good(t: Trailer, m: Mem) {
    t.Accepted() && |m| == t.slotSize && MagicOf(t, m) == MagicGood
  }

  function ImageOkByte(t: Trailer, m: Mem): byte
    requires t.Accepted() && |m| == t.slotSize
  {
    FieldsTile(t);
    m[t.ImageOkOff()]
  }

  /** What no call breaks: the magic's cells are never below the magic, and until the
      magic is whole every other field is erased. */
  ghost predicate MarksInvariant(t: Trailer, m: Mem) {
    && t.Accepted() && |m| == t.slotSize
    && (forall i :: 0 <= i < MAGIC_SIZE ==> Below(t.Magic()[i], m[t.MagicOff() + i]))
    && (!Good(t, m) ==> 0 <= t.SwapSizeOff() <= t.PadOff() && IsErased(m, t.SwapSizeOff(), t.PadOff() - t.SwapSizeOff()))
  }

  lemma ErasedMarks(t: Trailer, m: Mem)
    requires t.Accepted() && |m| == t.slotSize && FieldsErased(t, m)
    ensures MarksInvariant(t, m) && !Good(t, m)
  {
    FieldsTile(t);
    ErasedIsUnset(t, m);
    forall i | 0 <= i < MAGIC_SIZE
      ensures Below(t.Magic()[i], m[t.MagicOff() + i])
    {
      BelowErased(t.Magic()[i]);
    }
  }

  lemma BelowErased(a: byte)
    ensures Below(a, ERASED)
  {
    AndErased(a);
  }

  /** The magic written whole reads as good; written in part its cells stay above it. */
  lemma MagicWrite(t: Trailer, m: Mem, ok: bool, m': Mem)
    requires t.Accepted() && |m| == t.slotSize && MagicOf(t, m) == MagicUnset
    requires WriteOutcome(m, t.PadOff(), t.MagicBlock(), ok, m')
    ensures |m'| == |m| && (ok ==> Good(t, m'))
    ensures forall i :: 0 <= i < MAGIC_SIZE ==> Below(t.Magic()[i], m'[t.MagicOff() + i])
    ensures SameOutside(m, t.PadOff(), t.slotSize - t.PadOff(), m')
  {
    FieldsTile(t);
    forall i | 0 <= i < MAGIC_SIZE
      ensures Below(t.Magic()[i], m'[t.MagicOff() + i])
    {
      MagicCell(t, m, ok, m', i);
    }
    if ok {
      WrittenMagic(t, m');
    }
  }

  lemma WrittenMagic(t: Trailer, m: Mem)
    requires t.Accepted() && |m| == t.slotSize
    requires m[t.PadOff()..t.PadOff() + |t.MagicBlock()|] == t.MagicBlock()
    ensures Good(t, m)
  {
    FieldsTile(t);
    forall i | 0 <= i < MAGIC_SIZE
      ensures m[t.MagicOff() + i] == t.Magic()[i]
    {
      var k := t.MagicOff() - t.PadOff() + i;
      assert m[t.MagicOff() + i] == m[t.PadOff()..t.PadOff() + |t.MagicBlock()|][k] == t.MagicBlock()[k];
    }
    WholeMagic(t, m);
  }

  lemma MagicCell(t: Trailer, m: Mem, ok: bool, m': Mem, i: nat)
    requires t.Accepted() && |m| == t.slotSize && MagicOf(t, m) == MagicUnset && i < MAGIC_SIZE
    requires WriteOutcome(m, t.PadOff(), t.MagicBlock(), ok, m')
    ensures |m'| == |m| && Below(t.Magic()[i], m'[t.MagicOff() + i])
  {
    FieldsTile(t);
    var at := t.MagicOff() + i;
    assert m[at] == m[t.MagicOff()..][i] == ERASED;
    assert t.MagicBlock()[at - t.PadOff()] == t.Magic()[i];
    assert Between(m[at], t.MagicBlock()[at - t.PadOff()], m'[at]);
    AndErased(t.Magic()[i]);
  }

  lemma WholeMagic(t: Trailer, m: Mem)
    requires t.Accepted() && |m| == t.slotSize
    requires forall i :: 0 <= i < MAGIC_SIZE ==> m[t.MagicOff() + i] == t.Magic()[i]
    ensures Good(t, m)
  {
    assert m[t.MagicOff()..] == t.Magic();
    MagicIsNotErased(t);
  }

  lemma MagicIsNotErased(t: Trailer)
    requires t.Accepted()
    ensures t.Magic()[0] != ERASED && t.Magic() != Fill(MAGIC_SIZE, ERASED)
  {
    assert Fill(MAGIC_SIZE, ERASED)[0] == ERASED;
  }

  /** A write to another field leaves the magic as it was. */
  lemma FieldWriteKeepsMagic(t: Trailer, m: Mem, off: nat, data: seq<byte>, ok: bool, m': Mem)
    requires t.Accepted() && |m| == t.slotSize && off + |data| <= t.PadOff()
    requires WriteOutcome(m, off, data, ok, m')
    ensures |m'| == |m| && MagicOf(t, m') == MagicOf(t, m)
    ensures SameOutside(m, off, |data|, m')
  {
    FieldsTile(t);
    assert m'[t.MagicOff()..] == m[t.MagicOff()..];
  }

  /** Erasing cannot make a magic: cells above it only rise. */
  lemma EraseKeepsMarks(t: Trailer, m: Mem, m': Mem)
    requires MarksInvariant(t, m) && MagicOf(t, m) == MagicBad
    requires TornErase(m, 0, t.slotSize, m')
    ensures MarksInvariant(t, m') && !Good(t, m')
  {
    FieldsTile(t);
    forall i | 0 <= i < MAGIC_SIZE
      ensures Below(t.Magic()[i], m'[t.MagicOff() + i])
    {
      BelowTransitive(t.Magic()[i], m[t.MagicOff() + i], m'[t.MagicOff() + i]);
    }
    forall i | t.SwapSizeOff() <= i < t.PadOff()
      ensures m'[i] == ERASED
    {
      AndErased(m'[i]);
    }
    if Good(t, m') {
      ErasingMakesNoMagic(t, m, m');
    }
  }

  lemma ErasingMakesNoMagic(t: Trailer, m: Mem, m': Mem)
    requires MarksInvariant(t, m) && TornErase(m, 0, t.slotSize, m') && Good(t, m')
    ensures Good(t, m)
  {
    FieldsTile(t);
    forall i | 0 <= i < MAGIC_SIZE
      ensures m[t.MagicOff() + i] == t.Magic()[i]
    {
      assert m'[t.MagicOff()..][i] == t.Magic()[i];
      BelowAntisymmetric(t.Magic()[i], m[t.MagicOff() + i]);
    }
    WholeMagic(t, m);
  }

  /** One call, from the invariant: it keeps it, does nothing once the magic is good, and
      makes the magic good only by its own magic write. A call that makes it good leaves
      `image_ok` erased unless it is permanent and its flag write took effect. */
  lemma PendingStep(t: Trailer, c: PendingCall)
    requires ValidPending(t, c) && MarksInvariant(t, c.before)
    ensures MarksInvariant(t, c.after)
    ensures Good(t, c.before) ==> c.after == c.before
    ensures c.result == Ok ==> Good(t, c.after)
    ensures Good(t, c.after) && !Good(t, c.before) ==>
              && Good(t, c.afterMagic) && MagicOf(t, c.before) == MagicUnset
              && |c.afterFlag| == t.slotSize
              && ImageOkByte(t, c.afterMagic) == ERASED
              && ImageOkByte(t, c.after) == ImageOkByte(t, c.afterFlag)
              && (!c.permanent ==> c.afterFlag == c.afterMagic)
  {
    FieldsTile(t);
    if c.readOk && MagicOf(t, c.before) == MagicBad {
      EraseKeepsMarks(t, c.before, c.after);
    } else if c.readOk && MagicOf(t, c.before) == MagicUnset {
      MarkingStep(t, c);
    }
  }

  lemma MarkingStep(t: Trailer, c: PendingCall)
    requires ValidPending(t, c) && MarksInvariant(t, c.before)
    requires c.readOk && MagicOf(t, c.before) == MagicUnset
    ensures MarksInvariant(t, c.after)
    ensures |c.afterMagic| == |c.afterFlag| == t.slotSize
    ensures Good(t, c.after) <==> Good(t, c.afterMagic)
    ensures c.result == Ok ==> Good(t, c.after)
    ensures ImageOkByte(t, c.afterMagic) == ERASED
    ensures ImageOkByte(t, c.after) == ImageOkByte(t, c.afterFlag)
    ensures SameOutside(c.before, t.SwapSizeOff(), t.InfoSize(), c.after)
  {
    FieldsTile(t);
    MagicWrite(t, c.before, c.magicOk, c.afterMagic);
    LaterWrites(t, c);
    ErasedBelowMagic(t, c.before);
    MarkedInvariant(t, c.before, c.afterMagic, c.after);
  }

  lemma ErasedBelowMagic(t: Trailer, m: Mem)
    requires MarksInvariant(t, m) && MagicOf(t, m) == MagicUnset
    ensures 0 <= t.SwapSizeOff() <= t.PadOff() && IsErased(m, t.SwapSizeOff(), t.PadOff() - t.SwapSizeOff())
  {
  }

  /** From a slot with erased fields, through a magic write, to later field writes. */
  lemma MarkedInvariant(t: Trailer, m: Mem, m1: Mem, m2: Mem)
    requires t.Accepted() && |m| == |m1| == |m2| == t.slotSize && 0 <= t.SwapSizeOff() <= t.SwapInfoOff() <= t.PadOff()
    requires IsErased(m, t.SwapSizeOff(), t.PadOff() - t.SwapSizeOff())
    requires forall i :: 0 <= i < MAGIC_SIZE ==> Below(t.Magic()[i], m1[t.MagicOff() + i])
    requires SameOutside(m, t.PadOff(), t.slotSize - t.PadOff(), m1)
    requires SameOutside(m1, t.SwapInfoOff(), t.PadOff() - t.SwapInfoOff(), m2)
    requires MagicOf(t, m2) == MagicOf(t, m1) && (m2 == m1 || Good(t, m1))
    ensures MarksInvariant(t, m2)
    ensures SameOutside(m, t.SwapSizeOff(), t.slotSize - t.SwapSizeOff(), m2)
  {
    FieldsTile(t);
    forall i | 0 <= i < MAGIC_SIZE
      ensures Below(t.Magic()[i], m2[t.MagicOff() + i])
    {
      assert m2[t.MagicOff() + i] == m1[t.MagicOff() + i];
    }
  }

  /** What a call that succeeds on erased fields leaves to be read: the whole swap state. */
  lemma MarkedState(t: Trailer, c: PendingCall)
    requires ValidPending(t, c) && FieldsErased(t, c.before) && c.result == Ok
    ensures |c.after| == t.slotSize
    ensures StateOf(t, c.after) ==
            SwapState(MagicGood, if c.permanent then 3 else 2, 0, FlagUnset, if c.permanent then FlagSet else FlagUnset)
  {
    MarkedFields(t, c);
    StateFromFields(t, c.after, c.permanent);
  }

  lemma StateFromFields(t: Trailer, m: Mem, permanent: bool)
    requires Good(t, m) && 0 <= t.SwapSizeOff() <= t.SwapInfoOff() <= t.CopyDoneOff() <= t.ImageOkOff() < t.slotSize
    requires m[t.SwapInfoOff()] == (if permanent then 3 else 2)
    requires m[t.ImageOkOff()] == (if permanent then FLAG_SET else ERASED)
    requires m[t.CopyDoneOff()] == ERASED
    ensures StateOf(t, m) ==
            SwapState(MagicGood, if permanent then 3 else 2, 0, FlagUnset, if permanent then FlagSet else FlagUnset)
  {
  }

  lemma MarkedFields(t: Trailer, c: PendingCall)
    requires ValidPending(t, c) && FieldsErased(t, c.before) && c.result == Ok
    ensures Good(t, c.after)
    ensures 0 <= t.SwapSizeOff() <= t.SwapInfoOff() <= t.CopyDoneOff() <= t.ImageOkOff() < t.slotSize
    ensures c.after[t.SwapInfoOff()] == (if c.permanent then 3 else 2)
    ensures c.after[t.ImageOkOff()] == (if c.permanent then FLAG_SET else ERASED)
    ensures c.after[t.CopyDoneOff()] == ERASED
  {
    ErasedIsUnset(t, c.before);
    MarkingWrote(t, c);
  }

  lemma MarkingWrote(t: Trailer, c: PendingCall)
    requires t.Accepted() && |c.before| == t.slotSize && FieldsErased(t, c.before) && MagicOf(t, c.before) == MagicUnset
    requires ValidMarking(t, c) && c.infoOk
    ensures Good(t, c.after)
    ensures 0 <= t.SwapSizeOff() <= t.SwapInfoOff() <= t.CopyDoneOff() <= t.ImageOkOff() < t.slotSize
    ensures c.after[t.SwapInfoOff()] == (if c.permanent then 3 else 2)
    ensures c.after[t.ImageOkOff()] == (if c.permanent then FLAG_SET else ERASED)
    ensures c.after[t.CopyDoneOff()] == ERASED
  {
    FieldsTile(t);
    MagicWrite(t, c.before, c.magicOk, c.afterMagic);
    LaterWrites(t, c);
    BlockWrite(t, c.afterFlag, t.SwapInfoOff(), if c.permanent then 3 else 2, c.after);
    if c.permanent {
      BlockWrite(t, c.afterMagic, t.ImageOkOff(), FLAG_SET, c.afterFlag);
    }
  }

  lemma BlockWrite(t: Trailer, m: Mem, off: nat, value: byte, m': Mem)
    requires t.Accepted() && off + t.align <= |m| && WriteOutcome(m, off, t.ByteBlock(value), true, m')
    ensures |m'| == |m| && m'[off] == value
  {
    assert m'[off] == m'[off..off + |t.ByteBlock(value)|][0];
  }

  /** The flag and `swap_info` writes of a call stay out of the magic and of each other. */
  lemma LaterWrites(t: Trailer, c: PendingCall)
    requires t.Accepted() && ValidMarking(t, c) && |c.afterMagic| == t.slotSize
    ensures |c.afterFlag| == |c.after| == t.slotSize
    ensures MagicOf(t, c.after) == MagicOf(t, c.afterMagic)
    ensures c.after[t.ImageOkOff()] == c.afterFlag[t.ImageOkOff()]
    ensures !c.magicOk ==> c.after == c.afterMagic
    ensures 0 <= t.SwapSizeOff() && SameOutside(c.afterMagic, t.SwapInfoOff(), t.PadOff() - t.SwapInfoOff(), c.after)
    ensures c.after[t.CopyDoneOff()] == c.afterMagic[t.CopyDoneOff()]
  {
    FieldsTile(t);
    if c.magicOk && c.permanent {
      FieldWriteKeepsMagic(t, c.afterMagic, t.ImageOkOff(), t.ByteBlock(FLAG_SET), c.flagOk, c.afterFlag);
    }
    if c.flagOk {
      FieldWriteKeepsMagic(t, c.afterFlag, t.SwapInfoOff(), t.ByteBlock(if c.permanent then 3 else 2), c.infoOk, c.after);
    }
  }

  /** No run of calls, with any faults, leaves the invariant. */
  lemma {:induction false} RunKeepsMarks(t: Trailer, m0: Mem, run: seq<PendingCall>, m: Mem)
    requires MarksInvariant(t, m0) && PendingRun(t, m0, run, m)
    ensures MarksInvariant(t, m)
  {
    if run != [] {
      var last := run[|run| - 1];
      RunKeepsMarks(t, m0, run[..|run| - 1], last.before);
      PendingStep(t, last);
    }
  }

  /** Once the magic is in place no later call changes a byte of the slot. */
  lemma {:induction false} PendingIsFrozen(t: Trailer, m: Mem, more: seq<PendingCall>, m': Mem)
    requires MarksInvariant(t, m) && Good(t, m) && PendingRun(t, m, more, m')
    ensures m' == m
  {
    if more != [] {
      var last := more[|more| - 1];
      PendingIsFrozen(t, m, more[..|more| - 1], last.before);
      PendingStep(t, last);
    }
  }

  /** A pending slot was made so by one call of the run, which found the magic not good. */
  lemma {:induction false} ArmingCall(t: Trailer, m0: Mem, run: seq<PendingCall>, m: Mem) returns (k: nat)
    requires MarksInvariant(t, m0) && !Good(t, m0) && PendingRun(t, m0, run, m) && Good(t, m)
    ensures k < |run| && ValidPending(t, run[k]) && MarksInvariant(t, run[k].before)
    ensures !Good(t, run[k].before) && run[k].after == m
  {
    k := |run| - 1;
    var before := run[k].before;
    RunKeepsMarks(t, m0, run[..k], before);
    if Good(t, before) {
      PendingStep(t, run[k]);
      k := ArmingCall(t, m0, run[..k], before);
    }
  }

  /** The decision for a slot any run of calls, with any faults, has left pending: it is
      fixed by the `image_ok` cell of the call that put the magic in place. */
  lemma PendingDecision(t: Trailer, m0: Mem, run: seq<PendingCall>, m: Mem, primary: SwapState) returns (k: nat)
    requires t.Accepted() && |m0| == t.slotSize && FieldsErased(t, m0) && PendingRun(t, m0, run, m) && Good(t, m)
    ensures k < |run| && Good(t, run[k].afterMagic) && |run[k].afterFlag| == t.slotSize
    ensures ImageOkByte(t, run[k].afterMagic) == ERASED
    ensures DecideSwap(primary, StateOf(t, m)) ==
            match FlagOf(ImageOkByte(t, run[k].afterFlag)) {
              case FlagUnset => SwapTest
              case FlagSet => SwapPerm
              case FlagBad => SwapNone
            }
    ensures !run[k].permanent ==> DecideSwap(primary, StateOf(t, m)) == SwapTest
  {
    ErasedMarks(t, m0);
    k := ArmingCall(t, m0, run, m);
    PendingStep(t, run[k]);
  }

  /** Perm needs a permanent call whose flag write turned an erased `image_ok` into 1. */
  lemma PermNeedsItsFlag(t: Trailer, m0: Mem, run: seq<PendingCall>, m: Mem, primary: SwapState) returns (k: nat)
    requires t.Accepted() && |m0| == t.slotSize && FieldsErased(t, m0) && PendingRun(t, m0, run, m)
    requires |m| == t.slotSize && DecideSwap(primary, StateOf(t, m)) == SwapPerm
    ensures k < |run| && run[k].permanent && Good(t, run[k].afterMagic) && |run[k].afterFlag| == t.slotSize
    ensures ImageOkByte(t, run[k].afterMagic) == ERASED && ImageOkByte(t, run[k].afterFlag) == FLAG_SET
  {
    k := PendingDecision(t, m0, run, m, primary);
  }

  /** A call cut right after its magic, permanent or not, stays a test under every retry. */
  lemma CutAfterMagicStaysTest(
    t: Trailer, m0: Mem, run: seq<PendingCall>, c: PendingCall, retries: seq<PendingCall>, m: Mem, primary: SwapState)
    requires t.Accepted() && |m0| == t.slotSize && FieldsErased(t, m0) && PendingRun(t, m0, run, c.before)
    requires ValidPending(t, c) && !Good(t, c.before) && Good(t, c.afterMagic) && c.after == c.afterMagic
    requires PendingRun(t, c.after, retries, m)
    ensures m == c.after && DecideSwap(primary, StateOf(t, m)) == SwapTest
  {
    ErasedMarks(t, m0);
    RunKeepsMarks(t, m0, run, c.before);
    PendingStep(t, c);
    PendingIsFrozen(t, c.after, retries, m);
    GoodAndErasedIsTest(t, c.after, primary);
  }

  lemma GoodAndErasedIsTest(t: Trailer, m: Mem, primary: SwapState)
    requires Good(t, m) && ImageOkByte(t, m) == ERASED
    ensures DecideSwap(primary, StateOf(t, m)) == SwapTest
  {
  }

  // ---------- each outcome happens ----------

  lemma StoresOnErased(m: Mem, off: nat, data: seq<byte>, ok: bool)
    requires off + |data| <= |m| && IsErased(m, off, |data|)
    ensures WriteOutcome(m, off, data, ok, Splice(m, off, data))
  {
    ProgramErased(m, off, data);
    ProgramIsTorn(m, off, data);
    assert Splice(m, off, data)[off..off + |data|] == data;
  }

  /** The writes of an undisturbed call on erased fields. */
  function MagicStored(t: Trailer, m: Mem): Mem
    requires t.Accepted() && |m| == t.slotSize
  {
    FieldsTile(t);
    Splice(m, t.PadOff(), t.MagicBlock())
  }

  lemma MagicStoredIsValid(t: Trailer, m: Mem, ok: bool)
    requires t.Accepted() && |m| == t.slotSize && FieldsErased(t, m)
    ensures WriteOutcome(m, t.PadOff(), t.MagicBlock(), ok, MagicStored(t, m)) && Good(t, MagicStored(t, m))
    ensures 0 <= t.SwapSizeOff() <= t.SwapInfoOff() <= t.ImageOkOff() <= t.PadOff()
    ensures IsErased(MagicStored(t, m), t.SwapSizeOff(), t.PadOff() - t.SwapSizeOff())
  {
    FieldsTile(t);
    StoresOnErased(m, t.PadOff(), t.MagicBlock(), ok);
    ErasedIsUnset(t, m);
    StoresOnErased(m, t.PadOff(), t.MagicBlock(), true);
    MagicWrite(t, m, true, MagicStored(t, m));
  }

  /** A call can be cut right after its magic: it reports an error, and the slot is pending. */
  lemma CutHappens(t: Trailer, m: Mem, permanent: bool) returns (c: PendingCall)
    requires t.Accepted() && |m| == t.slotSize && FieldsErased(t, m)
    ensures ValidPending(t, c) && c.before == m && c.permanent == permanent && c.result == Err(FlashFailed)
    ensures c.after == c.afterMagic && Good(t, c.after) && !Good(t, c.before)
  {
    var m1 := MagicStored(t, m);
    MagicStoredIsValid(t, m, false);
    ErasedIsUnset(t, m);
    c := PendingCall(permanent, m, m1, m1, m1, true, false, false, false, Err(FlashFailed));
  }

  /** A call cut inside the byte of its flag write. */
  function TornCall(t: Trailer, m: Mem): PendingCall
    requires t.Accepted() && |m| == t.slotSize
  {
    FieldsTile(t);
    var m1 := MagicStored(t, m);
    var m2 := m1[t.ImageOkOff() := 3];
    PendingCall(true, m, m1, m2, m2, true, true, false, false, Err(FlashFailed))
  }

  lemma TornCallIsValid(t: Trailer, m: Mem)
    requires t.Accepted() && |m| == t.slotSize && FieldsErased(t, m)
    ensures ValidPending(t, TornCall(t, m))
  {
    FieldsTile(t);
    MagicStoredIsValid(t, m, true);
    ErasedIsUnset(t, m);
    var c := TornCall(t, m);
    TornFlag(t, c.afterMagic, c.after);
  }

  lemma TornCallIsGood(t: Trailer, m: Mem)
    requires t.Accepted() && |m| == t.slotSize && FieldsErased(t, m)
    ensures Good(t, TornCall(t, m).after) && ImageOkByte(t, TornCall(t, m).after) == 3
  {
    FieldsTile(t);
    MagicStoredIsValid(t, m, true);
    var c := TornCall(t, m);
    TornFlag(t, c.afterMagic, c.after);
    FieldWriteKeepsMagic(t, c.afterMagic, t.ImageOkOff(), t.ByteBlock(FLAG_SET), false, c.after);
  }

  lemma BadFlagIsNone(t: Trailer, m: Mem, primary: SwapState)
    requires Good(t, m) && ImageOkByte(t, m) == 3
    ensures DecideSwap(primary, StateOf(t, m)) == SwapNone
  {
  }

  /** A permanent call can leave `image_ok` between erased and set, here 3, and the bootloader
      then decides None, after the call and after every retry. */
  lemma TornFlagNeverSwaps(t: Trailer, m: Mem, retries: seq<PendingCall>, m': Mem, primary: SwapState) returns (c: PendingCall)
    requires t.Accepted() && |m| == t.slotSize && FieldsErased(t, m)
    ensures ValidPending(t, c) && c.before == m && c.permanent && c.result == Err(FlashFailed)
    ensures PendingRun(t, c.after, retries, m') ==> m' == c.after && DecideSwap(primary, StateOf(t, m')) == SwapNone
  {
    c := TornCall(t, m);
    TornCallIsValid(t, m);
    TornCallIsGood(t, m);
    ErasedMarks(t, m);
    PendingStep(t, c);
    BadFlagIsNone(t, c.after, primary);
    if PendingRun(t, c.after, retries, m') {
      PendingIsFrozen(t, c.after, retries, m');
    }
  }

  lemma TornFlag(t: Trailer, m: Mem, m': Mem)
    requires t.Accepted() && |m| == t.slotSize && 0 <= t.ImageOkOff() && t.ImageOkOff() + t.align <= t.slotSize
    requires IsErased(m, t.ImageOkOff(), t.align) && m' == m[t.ImageOkOff() := 3]
    ensures WriteOutcome(m, t.ImageOkOff(), t.ByteBlock(FLAG_SET), false, m')
  {
    var off := t.ImageOkOff();
    forall i | off <= i < off + t.align
      ensures Between(m[i], t.ByteBlock(FLAG_SET)[i - off], m'[i])
    {
      if i == off {
        AndErased(1);
        AndErased(3);
        OneIsBelowThree();
      } else {
        BetweenEnds(m[i], t.ByteBlock(FLAG_SET)[i - off]);
      }
    }
  }

  lemma OneIsBelowThree()
    ensures Below(1, 3)
  {
    assert AndBits(0, 1, 7) == 0 by {
      assert AndBits(0, 1, 7) <= 0;
    }
  }

  // ---------- set_confirmed ----------

  /** One call of `set_confirmed` on the primary slot. */
  datatype ConfirmCall = ConfirmCall(before: Mem, after: Mem, readOk: bool, writeOk: bool, result: Outcome<Error>)

  ghost predicate ValidConfirm(t: Trailer, c: ConfirmCall) {
    && t.Accepted()
    && |c.before| == t.slotSize
    && if !c.readOk then
         c.after == c.before && c.result == Err(FlashFailed)
       else
         var state := StateOf(t, c.before);
         if state.magic == MagicGood && state.imageOk == FlagUnset then
           && WriteOutcome(c.before, t.ImageOkOff(), t.ByteBlock(FLAG_SET), c.writeOk, c.after)
           && c.result == Report(c.writeOk)
         else
           c.after == c.before && c.result == if state.magic == MagicBad then Err(BadVect) else Ok
  }

  /** The write block of `image_ok`, of which only the first byte is the flag. */
  ghost predicate FlagBlockErased(t: Trailer, m: Mem)
    requires t.Accepted() && |m| == t.slotSize
  {
    FieldsTile(t);
    IsErased(m, t.ImageOkOff(), t.align)
  }

  /** The flag write reads back exactly when its whole block was erased. */
  lemma FlagReadsBack(t: Trailer, m: Mem)
    requires t.Accepted() && |m| == t.slotSize && ImageOkByte(t, m) == ERASED
    ensures 0 <= t.ImageOkOff() && t.ImageOkOff() + t.align <= t.slotSize
    ensures var off := t.ImageOkOff();
      Program(m, off, t.ByteBlock(FLAG_SET))[off..off + t.align] == t.ByteBlock(FLAG_SET) <==> FlagBlockErased(t, m)
  {
    FieldsTile(t);
    var off, block := t.ImageOkOff(), t.ByteBlock(FLAG_SET);
    if FlagBlockErased(t, m) {
      ErasedReadsBack(m, off, block);
    }
    if Program(m, off, block)[off..off + t.align] == block {
      ReadBackWasErased(m, off, block);
    }
  }

  lemma ErasedReadsBack(m: Mem, off: nat, block: seq<byte>)
    requires off + |block| <= |m| && IsErased(m, off, |block|)
    ensures Program(m, off, block)[off..off + |block|] == block
  {
    ProgramErased(m, off, block);
  }

  lemma ReadBackWasErased(m: Mem, off: nat, block: seq<byte>)
    requires off + |block| <= |m| && 0 < |block| && m[off] == ERASED
    requires (forall i :: 1 <= i < |block| ==> block[i] == ERASED) && Program(m, off, block)[off..off + |block|] == block
    ensures IsErased(m, off, |block|)
  {
    forall i | off < i < off + |block|
      ensures m[i] == ERASED
    {
      PaddingReadsBack(m, off, block, i);
    }
  }

  lemma PaddingReadsBack(m: Mem, off: nat, block: seq<byte>, i: nat)
    requires off + |block| <= |m| && off <= i < off + |block| && block[i - off] == ERASED
    requires Program(m, off, block)[off..off + |block|] == block
    ensures m[i] == ERASED
  {
    assert Program(m, off, block)[off..off + |block|][i - off] == Program(m, off, block)[i] == And(m[i], ERASED);
    AndErased(m[i]);
  }

  /** `set_confirmed`. On a healthy flash the only failures are a bad magic and a flag block
      that is not erased. */
  method SetConfirmed(flash: Slot, t: Trailer) returns (r: Outcome<Error>, ghost c: ConfirmCall)
    requires t.Accepted() && |flash.bytes| == t.slotSize
    modifies flash
    ensures ValidConfirm(t, c) && c.before == old(flash.bytes) && c.after == flash.bytes && c.result == r
    ensures flash.healthy ==> c.readOk
    ensures flash.healthy && old(StateOf(t, flash.bytes).magic) == MagicGood && old(StateOf(t, flash.bytes).imageOk) == FlagUnset ==>
              (r == Ok <==> FlagBlockErased(t, old(flash.bytes)))
  {
    var state := ReadSwapState(flash, t);
    r := Err(FlashFailed);
    c := ConfirmCall(flash.bytes, flash.bytes, state.Some?, false, r);
    if state.None? {
      return;
    }
    match state.value.magic {
      case MagicGood =>
      case MagicUnset => return Ok, c.(result := Ok);
      case MagicBad => return Err(BadVect), c.(result := Err(BadVect));
    }
    if state.value.imageOk != FlagUnset {
      return Ok, c.(result := Ok);
    }
    var ok := ConfirmFlag(flash, t);
    r := Report(ok);
    c := c.(after := flash.bytes, writeOk := ok, result := r);
  }

  /** The flag write of `set_confirmed`. */
  method ConfirmFlag(flash: Slot, t: Trailer) returns (ok: bool)
    requires t.Accepted() && |flash.bytes| == t.slotSize && ImageOkByte(t, flash.bytes) == ERASED
    modifies flash
    ensures 0 <= t.ImageOkOff() && WriteOutcome(old(flash.bytes), t.ImageOkOff(), t.ByteBlock(FLAG_SET), ok, flash.bytes)
    ensures flash.healthy ==> (ok <==> FlagBlockErased(t, old(flash.bytes)))
  {
    FieldsTile(t);
    ok := flash.Write(t.ImageOkOff(), t.ByteBlock(FLAG_SET));
    FlagReadsBack(t, old(flash.bytes));
  }

  /** Nothing the secondary slot holds can make the bootloader revert this primary. */
  ghost predicate NeverReverts(t: Trailer, m: Mem) {
    t.Accepted() && |m| == t.slotSize
    && forall secondary: SwapState :: DecideSwap(StateOf(t, m), secondary) != SwapRevert
  }

  ghost predicate ConfirmRun(t: Trailer, m0: Mem, run: seq<ConfirmCall>, m: Mem) {
    if run == [] then m == m0
    else
      var last := run[|run| - 1];
      ValidConfirm(t, last) && last.after == m && ConfirmRun(t, m0, run[..|run| - 1], last.before)
  }

  /** A slot cannot revert exactly when one of the three fields says so. */
  lemma NeverRevertsExactly(t: Trailer, m: Mem)
    requires t.Accepted() && |m| == t.slotSize
    ensures NeverReverts(t, m) <==>
            var s := StateOf(t, m); s.magic != MagicGood || s.imageOk != FlagUnset || s.copyDone != FlagSet
  {
    var unset := SwapState(MagicUnset, 1, 0, FlagUnset, FlagUnset);
    assert NeverReverts(t, m) ==> DecideSwap(StateOf(t, m), unset) != SwapRevert;
  }

  /** A call that reports success leaves a slot that never reverts; a call that fails does
      so only where a write failed, a read failed or the magic is bad. */
  lemma ConfirmStops(t: Trailer, c: ConfirmCall)
    requires ValidConfirm(t, c)
    ensures |c.after| == t.slotSize
    ensures c.result == Ok ==> NeverReverts(t, c.after)
    ensures NeverReverts(t, c.before) ==> NeverReverts(t, c.after)
    ensures c.result == Ok ==> MagicOf(t, c.after) == MagicUnset || ImageOkByte(t, c.after) != ERASED
    ensures c.result == Err(BadVect) ==> c.after == c.before && NeverReverts(t, c.after)
  {
    FieldsTile(t);
    NeverRevertsExactly(t, c.before);
    if c.readOk && MagicOf(t, c.before) == MagicGood && ImageOkByte(t, c.before) == ERASED {
      FieldWriteKeepsMagic(t, c.before, t.ImageOkOff(), t.ByteBlock(FLAG_SET), c.writeOk, c.after);
      if c.writeOk {
        BlockWrite(t, c.before, t.ImageOkOff(), FLAG_SET, c.after);
      }
    }
    NeverRevertsExactly(t, c.after);
  }

  /** After one success, no further call changes the slot, so it never reverts. */
  lemma ConfirmIsFinal(t: Trailer, c: ConfirmCall, more: seq<ConfirmCall>, m: Mem)
    requires ValidConfirm(t, c) && c.result == Ok && ConfirmRun(t, c.after, more, m)
    ensures m == c.after && NeverReverts(t, m)
  {
    ConfirmStops(t, c);
    ConfirmedStays(t, c.after, more, m);
  }

  lemma {:induction false} ConfirmedStays(t: Trailer, m: Mem, more: seq<ConfirmCall>, m': Mem)
    requires t.Accepted() && |m| == t.slotSize && ConfirmRun(t, m, more, m')
    requires MagicOf(t, m) == MagicUnset || ImageOkByte(t, m) != ERASED
    ensures m' == m
  {
    if more != [] {
      var last := more[|more| - 1];
      ConfirmedStays(t, m, more[..|more| - 1], last.before);
      ConfirmedIsQuiet(t, last);
    }
  }

  lemma ConfirmedIsQuiet(t: Trailer, c: ConfirmCall)
    requires ValidConfirm(t, c)
    requires MagicOf(t, c.before) == MagicUnset || ImageOkByte(t, c.before) != ERASED
    ensures c.after == c.before
  {
    FieldsTile(t);
  }
}
