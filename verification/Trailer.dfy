/** The end of an MCUboot slot: where its fields are, what they decode to, and the
    decision the bootloader takes from both slots' fields. */
module TrailerLayout {
  import opened Bytes
  import opened Outcomes
  import opened Nor

  const MAGIC_SIZE := 16
  const BM_MAX_IMG_SECTORS: u32 := 121
  const FLAG_SET: byte := 1

  /** The three values MCUboot accepts for `BOOT_MAX_ALIGN`. */
  predicate IsAlignment(align: nat) {
    align == 8 || align == 16 || align == 32
  }

  /** `a % align`, spelled out for the three alignments. */
  function Rem(a: nat, align: nat): (r: nat)
    requires IsAlignment(align)
    ensures r < align && r <= a
  {
    if align == 8 then a % 8 else if align == 16 then a % 16 else a % 32
  }

  /** `a` rounded down to a multiple of `align`, a mask in the code. */
  function RoundDown(a: nat, align: nat): nat
    requires IsAlignment(align)
  {
    a - Rem(a, align)
  }

  datatype Trailer = Trailer(slotSize: u32, align: u32) {
    function MagicAlignSize(): nat {
      if align > MAGIC_SIZE then align else MAGIC_SIZE
    }

    function InfoSize(): nat {
      align * 4 + MagicAlignSize()
    }

    /** The slots `New` lets through. */
    predicate Accepted() {
      IsAlignment(align) && Rem(slotSize, align) == 0 && InfoSize() <= slotSize
    }

    /** Swap status and fields; `None` where the `u32` sum would overflow. */
    function Size(maxSectors: u32): Option<u32> {
      var size := maxSectors * (3 * align) + InfoSize();
      if size < U32_LIMIT then Some(size) else None
    }

    function StatusOff(maxSectors: u32): Option<u32> {
      match Size(maxSectors)
      case Some(size) => if size <= slotSize then Some(slotSize - size) else None
      case None => None
    }

    function MagicOff(): nat
      requires Accepted()
    {
      slotSize - MAGIC_SIZE
    }

    /** The write boundary the magic's block starts at. */
    function PadOff(): nat
      requires Accepted()
    {
      RoundDown(MagicOff(), align)
    }

    function ImageOkOff(): nat
      requires Accepted()
    {
      RoundDown(MagicOff() - align, align)
    }

    function CopyDoneOff(): int
      requires Accepted()
    {
      ImageOkOff() - align
    }

    function SwapInfoOff(): int
      requires Accepted()
    {
      CopyDoneOff() - align
    }

    function SwapSizeOff(): int
      requires Accepted()
    {
      SwapInfoOff() - align
    }

    /** `BOOT_IMG_MAGIC`. */
    function Magic(): (s: seq<byte>)
      requires Accepted()
      ensures |s| == MAGIC_SIZE
    {
      if align == 8 then
        [0x77, 0xc2, 0x95, 0xf3, 0x60, 0xd2, 0xef, 0x7f, 0x35, 0x52, 0x50, 0x0f, 0x2c, 0xb6, 0x79, 0x80]
      else
        [align, 0x00, 0x2d, 0xe1, 0x5d, 0x29, 0x41, 0x0b, 0x8d, 0x77, 0x67, 0x9c, 0x11, 0x0f, 0x1f, 0x8a]
    }

    /** What `write_magic` programs at `PadOff`: `0xFF`, then the magic. */
    function MagicBlock(): (s: seq<byte>)
      requires Accepted()
      ensures |s| == MagicAlignSize()
    {
      Fill(MagicAlignSize() - MAGIC_SIZE, ERASED) + Magic()
    }

    /** What `write_byte` programs: `value`, then `0xFF` to `align`. */
    function ByteBlock(value: byte): (s: seq<byte>)
      requires Accepted()
      ensures |s| == align
    {
      [value] + Fill(align - 1, ERASED)
    }
  }

  const BM := Trailer(0xF2000, 16)

  lemma RemStep(a: nat, align: nat)
    requires IsAlignment(align) && Rem(a, align) == 0 && align <= a
    ensures Rem(a - align, align) == 0
  {
  }

  lemma RoundedOffsets(t: Trailer)
    requires t.Accepted()
    ensures t.PadOff() == t.slotSize - t.MagicAlignSize()
    ensures t.ImageOkOff() == t.PadOff() - t.align
    ensures Rem(t.PadOff(), t.align) == 0
    ensures Rem(t.MagicAlignSize(), t.align) == 0
  {
    if t.align == 8 {
      Below8(t.slotSize);
    } else if t.align == 16 {
      Below16(t.slotSize);
    } else {
      Below32(t.slotSize);
    }
  }

  lemma Below8(s: nat)
    requires s % 8 == 0 && s >= 24
    ensures (s - 16) % 8 == 0 && (s - 24) % 8 == 0
  {
  }

  lemma Below16(s: nat)
    requires s % 16 == 0 && s >= 32
    ensures (s - 16) % 16 == 0 && (s - 32) % 16 == 0
  {
  }

  lemma Below32(s: nat)
    requires s % 32 == 0 && s >= 64
    ensures (s - 16) % 32 == 16 && (s - 48) % 32 == 16 && (s - 32) % 32 == 0
  {
  }

  /** The five fields are aligned blocks that tile the slot's last `InfoSize` bytes,
      the magic in the last 16 of the last block. */
  ghost predicate Tiled(t: Trailer)
    requires t.Accepted()
  {
    && t.SwapSizeOff() == t.slotSize - t.InfoSize() && t.SwapSizeOff() >= 0
    && t.SwapInfoOff() == t.SwapSizeOff() + t.align
    && t.CopyDoneOff() == t.SwapInfoOff() + t.align
    && t.ImageOkOff() == t.CopyDoneOff() + t.align
    && t.PadOff() == t.ImageOkOff() + t.align
    && t.PadOff() + |t.MagicBlock()| == t.slotSize == t.MagicOff() + MAGIC_SIZE
    && t.PadOff() <= t.MagicOff()
    && Rem(t.SwapSizeOff(), t.align) == 0 && Rem(t.SwapInfoOff(), t.align) == 0
    && Rem(t.CopyDoneOff(), t.align) == 0 && Rem(t.ImageOkOff(), t.align) == 0
    && Rem(t.PadOff(), t.align) == 0 && Rem(|t.MagicBlock()|, t.align) == 0
  }

  lemma FieldsTile(t: Trailer)
    requires t.Accepted()
    ensures Tiled(t)
  {
    RoundedOffsets(t);
    RemStep(t.PadOff(), t.align);
    RemStep(t.ImageOkOff(), t.align);
    RemStep(t.CopyDoneOff(), t.align);
    RemStep(t.SwapInfoOff(), t.align);
  }

  /** Four blocks of `align` and one for the magic, all at write boundaries, fit against the
      slot's end. */
  ghost predicate HasRoom(slotSize: nat, align: nat)
    requires IsAlignment(align)
  {
    exists start: nat :: Rem(start, align) == 0 && start + 4 * align + (if align > 16 then align else 16) == slotSize
  }

  lemma RoomExactly(t: Trailer)
    requires IsAlignment(t.align)
    ensures t.Accepted() <==> HasRoom(t.slotSize, t.align)
  {
    if t.Accepted() {
      FieldsTile(t);
      assert Rem(t.SwapSizeOff(), t.align) == 0;
    }
    if HasRoom(t.slotSize, t.align) {
      var start: nat :| Rem(start, t.align) == 0 && start + t.InfoSize() == t.slotSize;
      FieldsAbove(t, start);
    }
  }

  lemma FieldsAbove(t: Trailer, start: nat)
    requires IsAlignment(t.align) && Rem(start, t.align) == 0 && start + t.InfoSize() == t.slotSize
    ensures t.Accepted()
  {
    Above(start, t.align);
  }

  lemma Above(start: nat, align: nat)
    requires IsAlignment(align) && Rem(start, align) == 0
    ensures align == 8 ==> Rem(start + 48, 8) == 0
    ensures align == 16 ==> Rem(start + 80, 16) == 0
    ensures align == 32 ==> Rem(start + 160, 32) == 0
  {
  }

  /** The trailers there are: `BM`, and what this gives. A slot is taken exactly when its
      fields have room at its end, and they are then laid out there. */
  function New(slotSize: u32, align: u32): (r: Option<Trailer>)
    ensures r.Some? <==> IsAlignment(align) && HasRoom(slotSize, align)
    ensures r.Some? ==> r.value == Trailer(slotSize, align) && r.value.Accepted() && Tiled(r.value)
  {
    var t := Trailer(slotSize, align);
    if IsAlignment(align) && Rem(slotSize, align) == 0 && t.InfoSize() <= slotSize then
      RoomExactly(t);
      FieldsTile(t);
      Some(t)
    else
      assert !IsAlignment(align) || !HasRoom(slotSize, align) by {
        if IsAlignment(align) {
          RoomExactly(t);
        }
      }
      None
  }

  // ---------- what the fields say ----------

  datatype Magic = MagicGood | MagicBad | MagicUnset
  datatype Flag = FlagSet | FlagBad | FlagUnset
  datatype SwapType = SwapNone | SwapTest | SwapPerm | SwapRevert
  datatype SwapState = SwapState(magic: Magic, swapType: nat, imageNum: nat, copyDone: Flag, imageOk: Flag)

  function MagicOf(t: Trailer, m: Mem): Magic
    requires t.Accepted() && |m| == t.slotSize
  {
    var bytes := m[t.MagicOff()..];
    if bytes == Fill(MAGIC_SIZE, ERASED) then MagicUnset
    else if bytes == t.Magic() then MagicGood
    else MagicBad
  }

  function FlagOf(b: byte): Flag {
    if b == ERASED then FlagUnset else if b == FLAG_SET then FlagSet else FlagBad
  }

  /** `BOOT_GET_SWAP_TYPE` and `BOOT_GET_IMAGE_NUM`, replaced when out of range. */
  function SwapInfoOf(b: byte): (nat, nat) {
    if b == ERASED || b % 16 > 4 then (1, 0) else (b % 16, b / 16)
  }

  /** The low nibble is the type and the high one the image, for the five types there are; every
      other byte, the erased one too, is no swap of image 0. */
  lemma SwapInfoExactly(imageNum: nat, swapType: nat)
    requires imageNum <= 15 && swapType <= 15
    ensures SwapInfoOf(16 * imageNum + swapType) == if swapType <= 4 then (swapType, imageNum) else (1, 0)
  {
  }

  /** `read_swap_state` when every read succeeds. */
  function StateOf(t: Trailer, m: Mem): SwapState
    requires t.Accepted() && |m| == t.slotSize
  {
    FieldsTile(t);
    var (swapType, imageNum) := SwapInfoOf(m[t.SwapInfoOff()]);
    SwapState(MagicOf(t, m), swapType, imageNum, FlagOf(m[t.CopyDoneOff()]), FlagOf(m[t.ImageOkOff()]))
  }

  /** `boot_swap_type`: the first row of the table that matches. */
  function DecideSwap(primary: SwapState, secondary: SwapState): SwapType {
    match (secondary.magic, secondary.imageOk)
    case (MagicGood, FlagUnset) => SwapTest
    case (MagicGood, FlagSet) => SwapPerm
    case _ =>
      if primary.magic.MagicGood? && secondary.magic.MagicUnset? && primary.imageOk.FlagUnset?
         && primary.copyDone.FlagSet?
      then SwapRevert
      else SwapNone
  }

  /** A row of MCUboot's `boot_swap_tables`; `None` matches anything. */
  datatype Row = Row(primaryMagic: Option<Magic>, secondaryMagic: Option<Magic>,
                     primaryOk: Option<Flag>, secondaryOk: Option<Flag>, primaryDone: Option<Flag>, decision: SwapType)
  {
    predicate Matches(primary: SwapState, secondary: SwapState) {
      && (primaryMagic.Some? ==> primaryMagic.value == primary.magic)
      && (secondaryMagic.Some? ==> secondaryMagic.value == secondary.magic)
      && (primaryOk.Some? ==> primaryOk.value == primary.imageOk)
      && (secondaryOk.Some? ==> secondaryOk.value == secondary.imageOk)
      && (primaryDone.Some? ==> primaryDone.value == primary.copyDone)
    }
  }

  const TABLE: seq<Row> := [
    Row(None, Some(MagicGood), None, Some(FlagUnset), None, SwapTest),
    Row(None, Some(MagicGood), None, Some(FlagSet), None, SwapPerm),
    Row(Some(MagicGood), Some(MagicUnset), Some(FlagUnset), None, Some(FlagSet), SwapRevert)]

  /** The decision of the first row that matches, or nothing to do. */
  function FirstMatch(rows: seq<Row>, primary: SwapState, secondary: SwapState): SwapType {
    if rows == [] then SwapNone
    else if rows[0].Matches(primary, secondary) then rows[0].decision
    else FirstMatch(rows[1..], primary, secondary)
  }

  /** The branches decide as the bootloader's table does. */
  lemma DecidesByTable(primary: SwapState, secondary: SwapState)
    ensures DecideSwap(primary, secondary) == FirstMatch(TABLE, primary, secondary)
  {
    var second, third := TABLE[1..], TABLE[1..][1..];
    assert third == [TABLE[2]] && third[1..] == [] && second[0] == TABLE[1];
    assert FirstMatch(third, primary, secondary) ==
      if TABLE[2].Matches(primary, secondary) then SwapRevert else SwapNone;
    assert FirstMatch(second, primary, secondary) ==
      if TABLE[1].Matches(primary, secondary) then SwapPerm else FirstMatch(third, primary, secondary);
  }
}
