/** blkdev.c: partitions and bounded reads of a block device, over an immutable disk. */
module Blkdev {
  import opened Common

  const BLKDEV_MAX_PARTS: nat := 32

  type Byte = bv8

  /**
   The fields of `struct blkdev` that reads and partitioning use. Mutexes are named by the address of their byte;
   `mutex` is the device's own.
   */
  datatype Dev = Dev(part: bool, syncDepChild: bool, partBase: nat, blkSize: nat, nblk: nat, mutex: nat,
                     parentMutex: nat)

  // ----- which mutex

  /** The mutex `blkdev_rd` takes. */
  function RdMutex(d: Dev): nat {
    if d.part || d.syncDepChild then d.parentMutex else d.mutex
  }

  /** The mutex `blkdev_mk_part` takes and hands to the partition. */
  function PartMutex(d: Dev): nat {
    if d.syncDepChild then d.parentMutex else d.mutex
  }

  /** The partition `blkdev_mk_part` describes; `own` is the address of its own, unused, mutex. */
  function PartOf(d: Dev, base: nat, limit: nat, own: nat): Dev {
    Dev(true, d.syncDepChild, base, d.blkSize, limit, own, PartMutex(d))
  }

  /** The disk itself, or a partition it was split into. */
  ghost predicate ViewOf(disk: Dev, d: Dev) {
    d == disk || exists base, limit, own :: d == PartOf(disk, base, limit, own)
  }

  /** Reads of a disk and of each of its partitions, and partitioning it, all take one mutex. */
  lemma OneMutex(disk: Dev, d: Dev)
    requires !disk.part && ViewOf(disk, d)
    ensures RdMutex(d) == PartMutex(disk) == if disk.syncDepChild then disk.parentMutex else disk.mutex
  {
  }

  // ----- partitions

  /** The guards of `blkdev_mk_part`. */
  predicate MayPart(d: Dev, nchildren: nat, base: nat, limit: nat) {
    !d.part && nchildren < BLKDEV_MAX_PARTS && Wrap64(base + limit) <= d.nblk
  }

  /** A partition that was accepted lies inside its disk exactly when `base + limit` fits a 64-bit register. */
  lemma PartInsideIff(d: Dev, nchildren: nat, base: nat, limit: nat)
    requires base < TWO64 && limit < TWO64 && d.nblk < TWO64 && MayPart(d, nchildren, base, limit)
    ensures base + limit <= d.nblk <==> base + limit < TWO64
  {
    WrapFitsIff(base, limit, d.nblk);
  }

  /** A partition is accepted exactly when the device is none itself, has room for one, and the sum passes the check. */
  lemma PartAcceptedIff(d: Dev, nchildren: nat, base: nat, limit: nat)
    requires base < TWO64 && limit < TWO64 && d.nblk < TWO64
    ensures MayPart(d, nchildren, base, limit) <==>
      !d.part && nchildren < 32 && (base + limit <= d.nblk || TWO64 <= base + limit <= TWO64 + d.nblk)
  {
    WrapOnce(base + limit);
  }

  /** A disk of eight blocks accepts a partition of two blocks that starts at the last 64-bit block address. */
  lemma PartMayWrap()
    ensures var d := Dev(false, false, 0, 512, 8, 1, 0); MayPart(d, 0, TWO64 - 1, 2) && TWO64 - 1 + 2 > d.nblk
  {
  }

  class Blkdev {
    const dev: Dev
    /** Allocated to its full size when the device is made. */
    const children: array<Dev>
    var nchildren: nat

    ghost predicate Valid()
      reads this
    {
      children.Length == BLKDEV_MAX_PARTS && nchildren <= BLKDEV_MAX_PARTS && dev.nblk < TWO64
    }

    constructor (dev: Dev)
      requires dev.nblk < TWO64
      ensures Valid() && this.dev == dev && nchildren == 0 && fresh(children)
    {
      this.dev := dev;
      children := new Dev[BLKDEV_MAX_PARTS](_ => dev);
      nchildren := 0;
    }

    /** `blkdev_mk_part`, with the slot of the new partition. */
    method MkPart(base: nat, limit: nat, own: nat) returns (slot: Option<nat>)
      requires Valid() && base < TWO64 && limit < TWO64
      modifies this`nchildren, children
      ensures Valid()
      ensures slot == if MayPart(dev, old(nchildren), base, limit) then Some(old(nchildren)) else None
      ensures children[..nchildren]
           == old(children[..nchildren]) + if slot.Some? then [PartOf(dev, base, limit, own)] else []
      ensures slot.Some? ==>
        && slot.value < nchildren
        && children[slot.value].part && children[slot.value].syncDepChild == dev.syncDepChild
        && children[slot.value].blkSize == dev.blkSize
        && children[slot.value].partBase == base && children[slot.value].nblk == limit
      ensures slot.Some? && base + limit < TWO64 ==> base + limit <= dev.nblk
    {
      if dev.part {
        return None;
      }
      if nchildren >= BLKDEV_MAX_PARTS {
        return None;
      }
      if Wrap64(base + limit) > dev.nblk {
        return None;
      }
      PartInsideIff(dev, nchildren, base, limit);
      var mutex := if dev.syncDepChild then dev.parentMutex else dev.mutex;
      nchildren := nchildren + 1;
      children[nchildren - 1] := Dev(true, dev.syncDepChild, base, dev.blkSize, limit, own, mutex);
      slot := Some(nchildren - 1);
    }
  }

  // ----- reads

  /** The first block of the device on the disk. */
  function FirstBlk(d: Dev): nat {
    if d.part then d.partBase else 0
  }

  /** The disk holds every block of the device. */
  ghost predicate OnDisk(d: Dev, disk: seq<Byte>) {
    0 < d.blkSize && FirstBlk(d) + d.nblk < TWO64 && (FirstBlk(d) + d.nblk) * d.blkSize <= |disk|
  }

  /** Bytes `addr` to `addr + n` of the device. */
  function Slice(disk: seq<Byte>, d: Dev, addr: nat, n: nat): (s: seq<Byte>)
    requires FirstBlk(d) * d.blkSize + addr + n <= |disk|
    ensures |s| == n
    ensures forall i :: 0 <= i < n ==> s[i] == disk[FirstBlk(d) * d.blkSize + addr + i]
  {
    disk[FirstBlk(d) * d.blkSize + addr..FirstBlk(d) * d.blkSize + addr + n]
  }

  /** Bytes inside the device are on the disk. */
  lemma SliceOnDisk(d: Dev, disk: seq<Byte>, addr: nat, n: nat)
    requires OnDisk(d, disk) && addr + n <= d.nblk * d.blkSize
    ensures FirstBlk(d) * d.blkSize + addr + n <= |disk|
  {
    Distribute(FirstBlk(d), d.nblk, d.blkSize);
  }

  /** A partition that lies inside its disk is on the disk too, and its slice is the disk's slice further on. */
  lemma PartOnDisk(d: Dev, disk: seq<Byte>, base: nat, limit: nat, own: nat, addr: nat, n: nat)
    requires OnDisk(d, disk) && !d.part && base + limit <= d.nblk && addr + n <= limit * d.blkSize
    ensures var p := PartOf(d, base, limit, own);
      && OnDisk(p, disk)
      && base * d.blkSize + addr + n <= d.nblk * d.blkSize
      && FirstBlk(p) * p.blkSize + addr + n <= |disk|
      && Slice(disk, p, addr, n) == Slice(disk, d, base * d.blkSize + addr, n)
  {
    MulMono(base + limit, d.nblk, d.blkSize);
    Distribute(base, limit, d.blkSize);
  }

  /**
   The driver: blocks `lba` to `lba + n` of the disk. It is taken to read every range of blocks on the disk
   correctly; `stray` is what it delivers for any other.
   */
  function Driver(blkSize: nat, disk: seq<Byte>, lba: nat, n: nat, stray: seq<Byte>): seq<Byte> {
    if (lba + n) * blkSize <= |disk| then
      Distribute(lba, n, blkSize);
      disk[lba * blkSize..(lba + n) * blkSize]
    else stray
  }

  /** `blkdev_rd`: None when the range check fails, otherwise what the driver delivers. */
  function Rd(d: Dev, disk: seq<Byte>, src: nat, n: nat, stray: seq<Byte>): Option<seq<Byte>> {
    if Wrap64(src + n) > d.nblk then None
    else Some(Driver(d.blkSize, disk, if d.part then Wrap64(src + d.partBase) else src, n, stray))
  }

  /**
   A read that does not wrap delivers exactly its slice of the device, and is refused exactly when it leaves the
   device; one that wraps is refused only when the wrapped sum is too large.
   */
  lemma RdMeaning(d: Dev, disk: seq<Byte>, src: nat, n: nat, stray: seq<Byte>)
    requires OnDisk(d, disk) && src < TWO64 && n < TWO64
    ensures src + n < TWO64 ==> (Rd(d, disk, src, n, stray).Some? <==> src + n <= d.nblk)
    ensures src + n >= TWO64 ==> (Rd(d, disk, src, n, stray).Some? <==> src + n - TWO64 <= d.nblk)
    ensures src + n <= d.nblk ==>
      && FirstBlk(d) * d.blkSize + src * d.blkSize + n * d.blkSize <= |disk|
      && Rd(d, disk, src, n, stray) == Some(Slice(disk, d, src * d.blkSize, n * d.blkSize))
  {
    WrapOnce(src + n);
    if src + n <= d.nblk {
      var lba := FirstBlk(d) + src;
      WrapOnce(lba);
      MulMono(lba + n, FirstBlk(d) + d.nblk, d.blkSize);
      Distribute(lba, n, d.blkSize);
      Distribute(FirstBlk(d), src, d.blkSize);
    }
  }

  /** A partition is read like a disk of `limit` blocks: its block `src` is the disk's block `base + src`. */
  lemma PartRd(d: Dev, disk: seq<Byte>, base: nat, limit: nat, own: nat, src: nat, n: nat, stray: seq<Byte>)
    requires OnDisk(d, disk) && !d.part && base + limit <= d.nblk && src + n < TWO64
    ensures Rd(PartOf(d, base, limit, own), disk, src, n, stray).Some? <==> src + n <= limit
    ensures src + n <= limit ==>
      && (base + src + n) * d.blkSize <= |disk|
      && Rd(PartOf(d, base, limit, own), disk, src, n, stray)
           == Some(disk[(base + src) * d.blkSize..(base + src + n) * d.blkSize])
  {
    WrapOnce(src + n);
    if src + n <= limit {
      WrapOnce(src + base);
      MulMono(base + src + n, d.nblk, d.blkSize);
      Distribute(base + src, n, d.blkSize);
    }
  }

  /** The range check lets through only ranges of the device exactly when `src + n` fits a 64-bit register. */
  lemma RangeCheckIff(d: Dev, src: nat, n: nat)
    requires src < TWO64 && n < TWO64 && d.nblk < TWO64 && Wrap64(src + n) <= d.nblk
    ensures src + n <= d.nblk <==> src + n < TWO64
  {
    WrapFitsIff(src, n, d.nblk);
  }

  /** On a disk of eight blocks the check lets a block at the last 64-bit block address through. */
  lemma RangeMayWrap(disk: seq<Byte>, stray: seq<Byte>)
    ensures Rd(Dev(false, false, 0, 512, 8, 1, 0), disk, TWO64 - 1, 1, stray).Some?
  {
  }

  lemma DriverSize(blkSize: nat, disk: seq<Byte>, lba: nat, n: nat, stray: seq<Byte>)
    ensures (lba + n) * blkSize <= |disk| ==> |Driver(blkSize, disk, lba, n, stray)| == n * blkSize
  {
    Distribute(lba, n, blkSize);
  }

  method DriverRd(blkSize: nat, disk: seq<Byte>, dst: array<Byte>, lba: nat, n: nat, stray: seq<Byte>)
    requires n * blkSize <= dst.Length && |Driver(blkSize, disk, lba, n, stray)| == n * blkSize
    modifies dst
    ensures dst[..n * blkSize] == Driver(blkSize, disk, lba, n, stray)
    ensures dst[n * blkSize..] == old(dst[n * blkSize..])
  {
    var data := Driver(blkSize, disk, lba, n, stray);
    forall i | 0 <= i < n * blkSize {
      dst[i] := data[i];
    }
  }

  /** `blkdev_rd` into a buffer; 1 on a range error, and then the buffer is left alone. */
  method RdInto(d: Dev, disk: seq<Byte>, dst: array<Byte>, src: nat, n: nat, stray: seq<Byte>) returns (code: nat)
    requires OnDisk(d, disk) && src < TWO64 && n < TWO64 && n * d.blkSize <= dst.Length
    requires src + n < TWO64 || |stray| == n * d.blkSize
    modifies dst
    ensures code == if Rd(d, disk, src, n, stray).None? then 1 else 0
    ensures code == 1 ==> dst[..] == old(dst[..])
    ensures code == 0 ==> dst[..n * d.blkSize] == Rd(d, disk, src, n, stray).value
    ensures dst[n * d.blkSize..] == old(dst[n * d.blkSize..])
  {
    if Wrap64(src + n) > d.nblk {
      return 1;
    }
    RdMeaning(d, disk, src, n, stray);
    var lba := if d.part then Wrap64(src + d.partBase) else src;
    DriverSize(d.blkSize, disk, lba, n, stray);
    DriverRd(d.blkSize, disk, dst, lba, n, stray);
    code := 0;
  }
}
