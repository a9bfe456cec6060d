/** The trailer's methods over the board's own slots, and an update run over slot 2: erase,
    chunk writes, `set_pending`. */
module BoardUpdate {
  import opened Bytes
  import opened Outcomes
  import opened Nor
  import opened TrailerLayout
  import opened SwapMarks
  import opened DevkitSlots
  import opened ImageFile
  import opened EndToEnd

  /** The slot as the trailer's methods see it. */
  ghost function SlotOf(area: Area): (m: Mem)
    requires area.Valid()
    reads area, area.flash
    ensures |m| == BM.slotSize
  {
    View(area.flash.mem, area.base)
  }

  lemma ReadsTheView(m: Mem, base: nat, off: nat, len: nat)
    requires base + SLOT_SIZE <= |m| && off + len <= SLOT_SIZE
    ensures m[base + off..base + off + len] == View(m, base)[off..off + len]
  {
    var a, b := m[base + off..base + off + len], View(m, base)[off..off + len];
    forall j | 0 <= j < len
      ensures a[j] == b[j]
    {
      assert View(m, base)[off + j] == m[base + off + j];
    }
  }

  /** A read of a field. */
  method ReadField(area: Area, off: nat, len: nat) returns (r: Option<seq<byte>>)
    requires area.Valid() && off + len <= SLOT_SIZE
    ensures r.Some? ==> r.value == SlotOf(area)[off..off + len]
    ensures area.flash.healthy ==> r.Some?
  {
    ReadsTheView(area.flash.mem, area.base, off, len);
    r := area.Read(off, len);
  }

  method ReadByte(area: Area, off: nat) returns (r: Option<byte>)
    requires area.Valid() && off < SLOT_SIZE
    ensures r.Some? ==> r.value == SlotOf(area)[off]
    ensures area.flash.healthy ==> r.Some?
  {
    var bytes := ReadField(area, off, 1);
    if bytes.None? {
      return None;
    }
    assert bytes.value[0] == SlotOf(area)[off..off + 1][0];
    r := Some(bytes.value[0]);
  }

  /** `read_swap_state` of a slot of the board. */
  method ReadState(area: Area) returns (r: Option<SwapState>)
    requires area.Valid()
    ensures r.Some? ==> r.value == StateOf(BM, SlotOf(area))
    ensures area.flash.healthy ==> r.Some?
  {
    FieldsTile(BM);
    var magic := ReadField(area, BM.MagicOff(), MAGIC_SIZE);
    if magic.None? {
      return None;
    }
    assert magic.value == SlotOf(area)[BM.MagicOff()..];
    var info := ReadByte(area, BM.SwapInfoOff());
    if info.None? {
      return None;
    }
    var (swapType, imageNum) := SwapInfoOf(info.value);
    var copyDone := ReadByte(area, BM.CopyDoneOff());
    if copyDone.None? {
      return None;
    }
    var imageOk := ReadByte(area, BM.ImageOkOff());
    if imageOk.None? {
      return None;
    }
    var state := if magic.value == Fill(MAGIC_SIZE, ERASED) then MagicUnset
                 else if magic.value == BM.Magic() then MagicGood
                 else MagicBad;
    r := Some(SwapState(state, swapType, imageNum, FlagOf(copyDone.value), FlagOf(imageOk.value)));
  }

  /** A write of a field: as over any flash, and on a healthy one it stores on erased cells. */
  method WriteField(area: Area, off: nat, data: seq<byte>) returns (ok: bool)
    requires area.Valid() && off % WRITE_SIZE == 0 && off + |data| <= SLOT_SIZE
    modifies area.flash
    ensures area.Valid() && WriteOutcome(old(SlotOf(area)), off, data, ok, SlotOf(area))
    ensures SameOutside(old(area.flash.mem), area.base, SLOT_SIZE, area.flash.mem)
    ensures area.flash.healthy && IsErased(old(SlotOf(area)), off, |data|) ==> ok
  {
    ghost var m0 := area.flash.mem;
    ok := area.Write(off, data);
    if IsErased(View(m0, area.base), off, |data|) {
      ErasedInView(m0, area.base, off, |data|);
      ErasedReadsBack(m0, area.base + off, data);
    }
  }

  lemma ErasedInView(m: Mem, base: nat, off: nat, len: nat)
    requires base + SLOT_SIZE <= |m| && off + len <= SLOT_SIZE && IsErased(View(m, base), off, len)
    ensures IsErased(m, base + off, len)
  {
    forall i | base + off <= i < base + off + len
      ensures m[i] == ERASED
    {
      assert View(m, base)[i - base] == m[i];
    }
  }

  /** `set_pending` over a slot of the board does what `ValidPending` allows, and nothing
      outside the slot. */
  method SetPending(area: Area, permanent: bool) returns (r: Outcome<SwapMarks.Error>, ghost c: PendingCall)
    requires area.Valid()
    modifies area.flash
    ensures area.Valid() && ValidPending(BM, c) && c.permanent == permanent && c.result == r
    ensures c.before == old(SlotOf(area)) && c.after == SlotOf(area)
    ensures SameOutside(old(area.flash.mem), area.base, SLOT_SIZE, area.flash.mem)
    ensures area.flash.healthy && FieldsErased(BM, old(SlotOf(area))) ==> r == Ok
  {
    var state := ReadState(area);
    ghost var m := SlotOf(area);
    c := PendingCall(permanent, m, m, m, m, state.Some?, false, false, false, Err(FlashFailed));
    if state.None? {
      return Err(FlashFailed), c;
    }
    ErasedIsUnset(BM, m);
    match state.value.magic
    case MagicGood =>
      r := Ok;
      c := c.(result := r);
    case MagicBad =>
      var _ := area.Erase(0, SLOT_SIZE);
      r := Err(BadImage);
      m := SlotOf(area);
      c := c.(afterMagic := m, afterFlag := m, after := m, result := r);
    case MagicUnset =>
      r, c := Mark(area, permanent);
  }

  /** `set_pending` once it has found the magic erased. */
  method Mark(area: Area, permanent: bool) returns (r: Outcome<SwapMarks.Error>, ghost c: PendingCall)
    requires area.Valid()
    modifies area.flash
    ensures area.Valid() && ValidMarking(BM, c) && c.permanent == permanent && c.result == r
    ensures c.before == old(SlotOf(area)) && c.after == SlotOf(area) && c.readOk
    ensures SameOutside(old(area.flash.mem), area.base, SLOT_SIZE, area.flash.mem)
    ensures area.flash.healthy && FieldsErased(BM, old(SlotOf(area))) ==> r == Ok
  {
    FieldsTile(BM);
    MarksPassTheChecks();
    ghost var m := SlotOf(area);
    c := PendingCall(permanent, m, m, m, m, true, false, false, false, Err(FlashFailed));
    r := Err(FlashFailed);
    var magicOk := WriteField(area, BM.PadOff(), BM.MagicBlock());
    m := SlotOf(area);
    c := c.(afterMagic := m, afterFlag := m, after := m, magicOk := magicOk, flagOk := magicOk);
    if !magicOk {
      return;
    }
    if permanent {
      var flagOk := WriteField(area, BM.ImageOkOff(), BM.ByteBlock(FLAG_SET));
      m := SlotOf(area);
      c := c.(afterFlag := m, after := m, flagOk := flagOk);
      if !flagOk {
        return;
      }
    }
    var infoOk := WriteField(area, BM.SwapInfoOff(), BM.ByteBlock(if permanent then 3 else 2));
    r := Report(infoOk);
    c := c.(after := SlotOf(area), infoOk := infoOk, result := r);
  }

  /** `set_confirmed` over a slot of the board, likewise. */
  method SetConfirmed(area: Area) returns (r: Outcome<SwapMarks.Error>, ghost c: ConfirmCall)
    requires area.Valid()
    modifies area.flash
    ensures area.Valid() && ValidConfirm(BM, c) && c.result == r
    ensures c.before == old(SlotOf(area)) && c.after == SlotOf(area)
    ensures SameOutside(old(area.flash.mem), area.base, SLOT_SIZE, area.flash.mem)
    ensures area.flash.healthy ==> c.readOk && (FlagBlockErased(BM, c.before) && MagicOf(BM, c.before) != MagicBad ==> r == Ok)
  {
    FieldsTile(BM);
    MarksPassTheChecks();
    var state := ReadState(area);
    r := Err(FlashFailed);
    c := ConfirmCall(SlotOf(area), SlotOf(area), state.Some?, false, r);
    if state.None? {
      return;
    }
    match state.value.magic {
      case MagicGood =>
      case MagicUnset => return Ok, c.(result := Ok);
      case MagicBad => return Err(BadVect), c.(result := Err(BadVect));
    }
    if state.value.imageOk != FlagUnset {
      return Ok, c.(result := Ok);
    }
    var ok := WriteField(area, BM.ImageOkOff(), BM.ByteBlock(FLAG_SET));
    r := Report(ok);
    c := c.(after := SlotOf(area), writeOk := ok, result := r);
  }

  // ---------- an update ----------

  function Concat(chunks: seq<seq<byte>>): seq<byte> {
    if chunks == [] then [] else Concat(chunks[..|chunks| - 1]) + chunks[|chunks| - 1]
  }

  /** Every chunk but the last is whole quad-words. */
  predicate WholeQuads(chunks: seq<seq<byte>>) {
    forall i :: 0 <= i < |chunks| - 1 ==> |chunks[i]| % WRITE_SIZE == 0
  }

  /** The slot is erased, then the chunks are written one after the other, each verified. */
  method Store(area: Area, chunks: seq<seq<byte>>) returns (ok: bool)
    requires area.Valid()
    modifies area.flash
    ensures area.Valid() && SameOutside(old(area.flash.mem), area.base, SLOT_SIZE, area.flash.mem)
    ensures ok ==> HoldsOnly(Concat(chunks), SlotOf(area))
    ensures area.flash.healthy && WholeQuads(chunks) && |Concat(chunks)| <= SLOT_SIZE ==> ok
  {
    MarksPassTheChecks();
    ok := area.Erase(0, SLOT_SIZE);
    if !ok {
      return;
    }
    var at := 0;
    for i := 0 to |chunks|
      invariant area.Valid() && SameOutside(old(area.flash.mem), area.base, SLOT_SIZE, area.flash.mem) && ok
      invariant HoldsOnly(Concat(chunks[..i]), SlotOf(area)) && at == |Concat(chunks[..i])|
      invariant WholeQuads(chunks) && i < |chunks| ==> at % WRITE_SIZE == 0
    {
      ConcatNext(chunks, i);
      ok := StoreNext(area, at, chunks[i], Concat(chunks[..i]));
      if !ok {
        return;
      }
      at := at + |chunks[i]|;
    }
    assert chunks[..|chunks|] == chunks;
  }

  lemma ConcatNext(chunks: seq<seq<byte>>, i: nat)
    requires i < |chunks|
    ensures Concat(chunks[..i + 1]) == Concat(chunks[..i]) + chunks[i]
    ensures |Concat(chunks[..i + 1])| <= |Concat(chunks)|
    ensures WholeQuads(chunks) && i + 1 < |chunks| && |Concat(chunks[..i])| % WRITE_SIZE == 0 ==>
              (|Concat(chunks[..i])| + |chunks[i]|) % WRITE_SIZE == 0
  {
    assert chunks[..i + 1][..i] == chunks[..i];
    ConcatGrows(chunks, i + 1);
  }

  lemma {:induction false} ConcatGrows(chunks: seq<seq<byte>>, k: nat)
    requires k <= |chunks|
    ensures |Concat(chunks[..k])| <= |Concat(chunks)|
    decreases |chunks|
  {
    if k == |chunks| {
      assert chunks[..k] == chunks;
    } else {
      ConcatGrows(chunks[..|chunks| - 1], k);
      assert chunks[..|chunks| - 1][..k] == chunks[..k];
    }
  }

  method StoreNext(area: Area, at: nat, data: seq<byte>, ghost before: seq<byte>) returns (ok: bool)
    requires area.Valid() && HoldsOnly(before, SlotOf(area)) && at == |before|
    modifies area.flash
    ensures area.Valid() && SameOutside(old(area.flash.mem), area.base, SLOT_SIZE, area.flash.mem)
    ensures ok ==> HoldsOnly(before + data, SlotOf(area))
    ensures area.flash.healthy && at % WRITE_SIZE == 0 && at + |data| <= SLOT_SIZE ==> ok
  {
    ghost var m0 := area.flash.mem;
    ghost var slot := SlotOf(area);
    ok := area.Write(at, data);
    if ok {
      ChunkStores(before, data, slot, SlotOf(area));
    }
    if at + |data| <= SLOT_SIZE {
      ErasedInView(m0, area.base, at, |data|);
      ErasedReadsBack(m0, area.base + at, data);
    }
  }

  /** An update of slot 2: the image goes in, then `set_pending`. However the flash behaves, what
      was stored stays whole while the slot is marked, and a marked slot is tested for every
      state of the other; the other slot keeps every byte. A healthy flash stores and marks
      every image that fits. */
  method Update(area: Area, chunks: seq<seq<byte>>) returns (stored: bool, r: Outcome<SwapMarks.Error>, ghost c: PendingCall)
    requires area.Valid() && area.base == SLOT2_OFFSET
    modifies area.flash
    ensures area.Valid() && View(area.flash.mem, SLOT1_OFFSET) == old(View(area.flash.mem, SLOT1_OFFSET))
    ensures stored && |Concat(chunks)| <= MAX_IMAGE_LEN ==>
              && StoredImage(Concat(chunks), c.before) && ValidPending(BM, c) && !c.permanent
              && c.result == r && c.after == SlotOf(area)
              && Concat(chunks) <= SlotOf(area) && (r == Ok ==> Good(BM, SlotOf(area)))
    ensures stored && |Concat(chunks)| <= MAX_IMAGE_LEN && Good(BM, SlotOf(area)) ==>
              forall primary :: DecideSwap(primary, StateOf(BM, SlotOf(area))) == SwapTest
    ensures area.flash.healthy && WholeQuads(chunks) && |Concat(chunks)| <= MAX_IMAGE_LEN ==> stored && r == Ok
  {
    ghost var m0 := area.flash.mem;
    ghost var m := SlotOf(area);
    c := PendingCall(false, m, m, m, m, false, false, false, false, Err(FlashFailed));
    r := Err(FlashFailed);
    stored := Store(area, chunks);
    SlotsAreApart(m0, SLOT2_OFFSET, area.flash.mem);
    if !stored {
      return;
    }
    ghost var m1 := area.flash.mem;
    StoredLeavesFields(Concat(chunks), SlotOf(area));
    r, c := SetPending(area, false);
    SlotsAreApart(m1, SLOT2_OFFSET, area.flash.mem);
    if |Concat(chunks)| <= MAX_IMAGE_LEN {
      MarkedForTest(Concat(chunks), c);
    }
  }

  lemma StoredLeavesFields(image: seq<byte>, slot: Mem)
    requires HoldsOnly(image, slot) && |slot| == BM.slotSize
    ensures |image| <= MAX_IMAGE_LEN ==> StoredImage(image, slot) && FieldsErased(BM, slot)
  {
    ImagesEndBelowTheTrailer();
    FieldsTile(BM);
  }

  lemma MarkedForTest(image: seq<byte>, c: PendingCall)
    requires StoredImage(image, c.before) && ValidPending(BM, c) && !c.permanent
    ensures image <= c.after && |c.after| == BM.slotSize && (c.result == Ok ==> Good(BM, c.after))
    ensures Good(BM, c.after) ==> forall primary :: DecideSwap(primary, StateOf(BM, c.after)) == SwapTest
  {
    forall primary: SwapState
      ensures Good(BM, c.after) ==> DecideSwap(primary, StateOf(BM, c.after)) == SwapTest
    {
      MarkingKeepsTheImage(image, c, primary);
    }
    MarkingKeepsTheImage(image, c, StateOf(BM, c.before));
  }
}
