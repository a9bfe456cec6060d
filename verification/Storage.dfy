/** The three config partitions at the start of the W25. */
module ConfigStorage {
  import opened Bytes
  import opened Outcomes
  import opened Nor
  import opened SpiFlash

  const PARTITION_SIZE := 10 * 1024

  datatype Partition = Hardware | System | User

  function PartitionOffset(p: Partition): u32 {
    match p
    case Hardware => 0x0000
    case System => 0x3000
    case User => 0x6000
  }

  /** The address of a range strictly inside its partition. */
  function Address(p: Partition, offset: u32, len: nat): (a: Option<u32>)
    ensures a.Some? <==> offset + len < PARTITION_SIZE
    ensures a.Some? ==> PartitionOffset(p) <= a.value && a.value + len < PartitionOffset(p) + PARTITION_SIZE
    ensures a.Some? ==> InRange(a.value, len)
  {
    if len < U32_LIMIT && offset + len < U32_LIMIT && offset + len < PARTITION_SIZE
    then Some(PartitionOffset(p) + offset)
    else None
  }

  /** `m'` holds what `m` does in partition `p`. */
  ghost predicate SamePartition(p: Partition, m: Mem, m': Mem) {
    && |m| == |m'| == PART_SIZE
    && m[PartitionOffset(p)..PartitionOffset(p) + PARTITION_SIZE]
    == m'[PartitionOffset(p)..PartitionOffset(p) + PARTITION_SIZE]
  }

  /** Partitions do not share a sector, so a write to one, finished or cut anywhere,
      leaves every byte of the others. */
  lemma CutKeepsOtherPartitions(p: Partition, q: Partition, offset: u32, data: seq<byte>, m: Mem, s: Mem)
    requires |m| == PART_SIZE && p != q && Address(p, offset, |data|).Some?
    requires CutState(m, Address(p, offset, |data|).value, data, s)
    ensures SamePartition(q, m, s)
  {
    var addr := Address(p, offset, |data|).value;
    if s != m {
      var base :| CutIn(m, addr, data, base, s);
      SectorInPartition(p, base, addr, |data|);
      forall i | PartitionOffset(q) <= i < PartitionOffset(q) + PARTITION_SIZE
        ensures s[i] == m[i]
      {
      }
    }
  }

  /** A sector that meets a partition stays within the 12 KB the partition starts. */
  lemma SectorInPartition(p: Partition, base: nat, addr: nat, len: nat)
    requires base == Base(base) && base < addr + len && addr < base + SECTOR_SIZE
    requires PartitionOffset(p) <= addr && addr + len < PartitionOffset(p) + PARTITION_SIZE
    ensures PartitionOffset(p) <= base && base + SECTOR_SIZE <= PartitionOffset(p) + 0x3000
  {
  }

  class FlashConfigStorage {
    const flash: W25

    constructor (flash: W25)
      ensures this.flash == flash
    {
      this.flash := flash;
    }

    method Read(p: Partition, offset: u32, buf: array<byte>) returns (ok: bool)
      requires flash.Valid() && buf != flash.sector
      modifies flash.part, buf
      ensures flash.part.Valid() && flash.part.Content() == old(flash.part.Content())
      ensures ok ==> offset + buf.Length < PARTITION_SIZE
      ensures old(flash.part.Ready()) && offset + buf.Length < PARTITION_SIZE ==> ok
      ensures ok ==> var at := PartitionOffset(p) + offset; buf[..] == old(flash.part.Content())[at..at + buf.Length]
    {
      var addr := Address(p, offset, buf.Length);
      if addr.None? {
        return false;
      }
      var r := flash.Read(addr.value, buf);
      ok := r == Ok;
    }

    /** On success the range holds `buf` and nothing else changed. However it ends, and
        wherever it is cut, the other partitions keep every byte. */
    method Write(p: Partition, offset: u32, buf: seq<byte>) returns (ok: bool)
      requires flash.Valid()
      modifies flash.part, flash.sector
      ensures flash.Valid()
      ensures offset + |buf| >= PARTITION_SIZE ==>
                !ok && flash.part.mem == old(flash.part.mem) && flash.part.seen == old(flash.part.seen)
      ensures ok ==> offset + |buf| < PARTITION_SIZE
      ensures old(flash.part.Ready()) && offset + |buf| < PARTITION_SIZE ==> ok
      ensures ok ==> flash.part.Content() == Splice(old(flash.part.Content()), PartitionOffset(p) + offset, buf)
      ensures forall q :: q != p && offset + |buf| < PARTITION_SIZE ==>
                SamePartition(q, old(flash.part.Content()), flash.part.Content())
      ensures forall q, s :: q != p && s in flash.part.seen && s !in old(flash.part.seen) ==>
                SamePartition(q, old(flash.part.Content()), s)
    {
      var addr := Address(p, offset, |buf|);
      if addr.None? {
        return false;
      }
      var r := flash.Write(addr.value, buf);
      forall q, s | q != p && (s == flash.part.Content() || (s in flash.part.seen && s !in old(flash.part.seen)))
        ensures SamePartition(q, old(flash.part.Content()), s)
      {
        CutKeepsOtherPartitions(p, q, offset, buf, old(flash.part.Content()), s);
      }
      ok := r == Ok;
    }
  }
}
