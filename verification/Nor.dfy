/** NOR flash: programming a cell ands the new byte into it, erasing sets every
    bit. An operation that reports failure, or is the last before the power goes,
    leaves each cell it covers part of the way there and every other cell alone.

    `Write` and `Erase` outcomes below are the rules every flash in this project
    is held to: bm-mcuboot-diff's `RamSlot`, and bm-devkit's `Area` and `W25`. */
module Nor {
  import opened Bytes

  type Mem = seq<byte>

  /** A cell that held `o` may hold `v` while `d` is programmed into it. */
  predicate Between(o: byte, d: byte, v: byte) {
    Below(And(o, d), v) && Below(v, o)
  }

  predicate SameOutside(m: Mem, off: nat, len: nat, m': Mem) {
    |m'| == |m| && forall i :: 0 <= i < |m| && !(off <= i < off + len) ==> m'[i] == m[i]
  }

  /** `m` after the whole of `data` is programmed at `off`. */
  function Program(m: Mem, off: nat, data: seq<byte>): (r: Mem)
    requires off + |data| <= |m|
    ensures |r| == |m|
    ensures forall i :: 0 <= i < |m| ==> r[i] == if off <= i < off + |data| then And(m[i], data[i - off]) else m[i]
  {
    seq(|m|, i requires 0 <= i < |m| => if off <= i < off + |data| then And(m[i], data[i - off]) else m[i])
  }

  predicate TornProgram(m: Mem, off: nat, data: seq<byte>, m': Mem)
    requires off + |data| <= |m|
  {
    && SameOutside(m, off, |data|, m')
    && forall i :: off <= i < off + |data| ==> Between(m[i], data[i - off], m'[i])
  }

  function Erase(m: Mem, off: nat, len: nat): (r: Mem)
    requires off + len <= |m|
    ensures |r| == |m|
    ensures forall i :: 0 <= i < |m| ==> r[i] == if off <= i < off + len then ERASED else m[i]
  {
    seq(|m|, i requires 0 <= i < |m| => if off <= i < off + len then ERASED else m[i])
  }

  predicate TornErase(m: Mem, off: nat, len: nat, m': Mem)
    requires off + len <= |m|
  {
    && SameOutside(m, off, len, m')
    && forall i :: off <= i < off + len ==> Below(m[i], m'[i])
  }

  predicate IsErased(m: Mem, off: nat, len: nat)
    requires off + len <= |m|
  {
    forall i :: off <= i < off + len ==> m[i] == ERASED
  }

  /** What a write that answers `ok` may leave: out of range it refuses and does
      nothing; in range it clears bits, and success means the bytes read back. */
  predicate WriteOutcome(m: Mem, off: nat, data: seq<byte>, ok: bool, m': Mem) {
    if off + |data| <= |m| then
      TornProgram(m, off, data, m') && (ok ==> m'[off..off + |data|] == data)
    else
      !ok && m' == m
  }

  /** What an erase that answers `ok` may leave. */
  predicate EraseOutcome(m: Mem, off: nat, len: nat, ok: bool, m': Mem) {
    if off + len <= |m| then
      TornErase(m, off, len, m') && (ok ==> IsErased(m', off, len))
    else
      !ok && m' == m
  }

  lemma BetweenEnds(o: byte, d: byte)
    ensures Between(o, d, o) && Between(o, d, And(o, d))
  {
    AndIsBelow(o, d);
    AndSelf(o);
    AndSelf(And(o, d));
  }

  /** Programming `0xFF` never changes a cell, finished or not. */
  lemma PaddingChangesNothing(o: byte, v: byte)
    requires Between(o, ERASED, v)
    ensures v == o
  {
    AndErased(o);
    BelowAntisymmetric(o, v);
  }

  lemma ProgramIsTorn(m: Mem, off: nat, data: seq<byte>)
    requires off + |data| <= |m|
    ensures TornProgram(m, off, data, Program(m, off, data))
    ensures TornProgram(m, off, data, m)
  {
    forall i | off <= i < off + |data|
      ensures Between(m[i], data[i - off], And(m[i], data[i - off])) && Between(m[i], data[i - off], m[i])
    {
      BetweenEnds(m[i], data[i - off]);
    }
  }

  lemma EraseIsTorn(m: Mem, off: nat, len: nat)
    requires off + len <= |m|
    ensures TornErase(m, off, len, Erase(m, off, len))
    ensures TornErase(m, off, len, m)
  {
    forall i | off <= i < off + len
      ensures Below(m[i], ERASED) && Below(m[i], m[i])
    {
      AndErased(m[i]);
      AndSelf(m[i]);
    }
  }

  /** Erasing and then programming stores the data, whatever was there. */
  lemma ProgramErased(m: Mem, off: nat, data: seq<byte>)
    requires off + |data| <= |m| && IsErased(m, off, |data|)
    ensures Program(m, off, data) == Splice(m, off, data)
  {
    forall i | off <= i < off + |data|
      ensures And(m[i], data[i - off]) == data[i - off]
    {
      AndErased(data[i - off]);
    }
  }

  /** Erasing twice in the middle of being interrupted is erasing once, interrupted. */
  lemma TornEraseTwice(m: Mem, off: nat, len: nat, m1: Mem, off1: nat, len1: nat, m2: Mem)
    requires off + len <= |m| && off <= off1 && off1 + len1 <= off + len
    requires TornErase(m, off, len, m1) && TornErase(m1, off1, len1, m2)
    ensures TornErase(m, off, len, m2)
  {
    forall i | off <= i < off + len
      ensures Below(m[i], m2[i])
    {
      if off1 <= i < off1 + len1 {
        BelowTransitive(m[i], m1[i], m2[i]);
      }
    }
  }
}
