/** fat.c: open files. */
module FatFiles {
  import opened Common
  import opened Blkdev
  import opened BlkCache
  import FatGeometry

  const FAT_MAX_FILE_DESCS: nat := 128

  /** `struct fat_file_desc`; the flags are FFDF_OPEN, FFDF_READ and FFDF_WRITE. */
  datatype Desc = Desc(cluster: nat, size: nat, filePos: nat, open: bool, read: bool, write: bool)

  const CLOSED: Desc := Desc(0, 0, 0, false, false, false)

  /** What the path walk of `fat_vfs_open` finds out about a file. */
  datatype Info = Info(cluster: nat, size: nat, dir: bool, readOnly: bool)

  datatype Whence = VwStart | VwCur | VwEnd

  // ----- seeking

  /** The value of a signed 64-bit number converted to unsigned. */
  function Unsigned(x: int): nat {
    Wrap64(x)
  }

  /** The new position as `fat_vfs_seek` computes it, with its signed and unsigned comparisons. */
  function SeekPos(size: nat, pos: nat, whence: Whence, off: int): int {
    match whence
    case VwStart =>
      var o := if off < 0 then 0 else off;
      if Unsigned(o) > size then size else o
    case VwCur =>
      var o := if off < 0 - pos then 0 - pos else off;
      var o' := if Unsigned(o) > Wrap64(size - pos) then size - pos else o;
      Wrap64(pos + o')
    case VwEnd =>
      var o := if off < 0 - size then 0 - size else off;
      var o' := if o > 0 then 0 else o;
      Wrap64(size + o')
  }

  function Clamp(x: int, size: nat): nat {
    if x < 0 then 0 else if x > size then size else x
  }

  /** Where the position should go: to the offset from the start, the position, or the end, kept within the file. */
  function SeekTarget(size: nat, pos: nat, whence: Whence, off: int): nat {
    match whence
    case VwStart => Clamp(off, size)
    case VwCur => Clamp(pos + off, size)
    case VwEnd => Clamp(size + off, size)
  }

  predicate LongLong(x: int) {
    -0x8000_0000_0000_0000 <= x < 0x8000_0000_0000_0000
  }

  lemma Small(x: int)
    requires 0 <= x < 0x8000_0000_0000_0000
    ensures Unsigned(x) == x
  {
  }

  lemma Negative(x: int)
    requires -0x1_0000_0000 <= x < 0
    ensures Unsigned(x) == x + TWO64 > 0x1_0000_0000
  {
  }

  /**
   Seeking goes where it should except backwards from the current position: there the unsigned comparison takes the
   negative offset for a huge one, and the position lands at the end of the file.
   */
  lemma SeekMeaning(size: nat, pos: nat, whence: Whence, off: int)
    requires pos <= size < 0x1_0000_0000 && LongLong(off)
    ensures SeekPos(size, pos, whence, off) == SeekTarget(size, pos, whence, off)
      <==> !(whence == VwCur && off < 0 && 0 < pos)
    ensures whence == VwCur && off < 0 && 0 < pos ==> SeekPos(size, pos, whence, off) == size
    ensures 0 <= SeekPos(size, pos, whence, off) <= size
  {
    match whence
    case VwStart => Small(if off < 0 then 0 else off);
    case VwCur =>
      var o := if off < 0 - pos then 0 - pos else off;
      if o < 0 {
        Negative(o);
      } else {
        Small(o);
      }
    case VwEnd =>
  }

  /** One byte back from position 5 of a file of 10 bytes is its end. */
  lemma SeekBack()
    ensures SeekPos(10, 5, VwCur, -1) == 10 && SeekTarget(10, 5, VwCur, -1) == 4
  {
    Negative(-1);
  }

  // ----- descriptors

  /** The first slot from `i` on that is not open, or the number of slots. */
  function LowestSlot(ds: seq<Desc>, i: nat): (k: nat)
    requires i <= |ds|
    ensures i <= k <= |ds| && (k < |ds| ==> !ds[k].open) && forall j :: i <= j < k ==> ds[j].open
    decreases |ds| - i
  {
    if i == |ds| || !ds[i].open then i else LowestSlot(ds, i + 1)
  }

  /** `fat_vfs_open` behind the path walk, which found `info` or failed: the descriptors and the file ID. */
  function Open(ds: seq<Desc>, info: Option<Info>, read: bool, write: bool): (seq<Desc>, nat) {
    if info.None? || info.value.dir || (write && info.value.readOnly) then (ds, 0)
    else
      var slot := LowestSlot(ds, 0);
      if slot == |ds| then (ds, 0)
      else (ds[slot := Desc(info.value.cluster, info.value.size, 0, true, read, write)], slot + 1)
  }

  /** File IDs are slots counted from 1; callers pass those they were given. */
  predicate IsFid(ds: seq<Desc>, fid: nat) {
    1 <= fid <= |ds|
  }

  function Close(ds: seq<Desc>, fid: nat): seq<Desc>
    requires IsFid(ds, fid)
  {
    ds[fid - 1 := CLOSED]
  }

  /** No position lies behind the end of its file; sizes are 32 bits, as directory entries hold them. */
  ghost predicate DescsOk(ds: seq<Desc>) {
    |ds| == FAT_MAX_FILE_DESCS && forall i :: 0 <= i < |ds| ==> ds[i].filePos <= ds[i].size < 0x1_0000_0000
  }

  function Seek(ds: seq<Desc>, fid: nat, whence: Whence, off: int): seq<Desc>
    requires IsFid(ds, fid) && DescsOk(ds) && LongLong(off)
  {
    var d := ds[fid - 1];
    SeekMeaning(d.size, d.filePos, whence, off);
    ds[fid - 1 := d.(filePos := SeekPos(d.size, d.filePos, whence, off))]
  }

  /** Opening takes the lowest free slot, fails exactly when it should, and alters no descriptor that is open. */
  lemma OpenMeaning(ds: seq<Desc>, info: Option<Info>, read: bool, write: bool)
    ensures var (ds', fid) := Open(ds, info, read, write);
      && |ds'| == |ds|
      && (fid == 0 <==>
            || info.None? || info.value.dir || (write && info.value.readOnly)
            || forall i :: 0 <= i < |ds| ==> ds[i].open)
      && (fid == 0 ==> ds' == ds)
      && (fid != 0 ==>
            && IsFid(ds, fid) && !ds[fid - 1].open && (forall i :: 0 <= i < fid - 1 ==> ds[i].open)
            && ds'[fid - 1] == Desc(info.value.cluster, info.value.size, 0, true, read, write))
      && (forall i :: 0 <= i < |ds| && ds[i].open ==> ds'[i] == ds[i])
  {
  }

  datatype Event =
    | OpenEv(info: Option<Info>, read: bool, write: bool)
    | CloseEv(fid: nat)
    | SeekEv(fid: nat, whence: Whence, off: int)
    | ReadEv(fid: nat, n: nat)

  ghost predicate LegalEvent(e: Event) {
    match e
    case OpenEv(info, _, _) => info.Some? ==> info.value.size < 0x1_0000_0000
    case CloseEv(fid) => 1 <= fid <= FAT_MAX_FILE_DESCS
    case SeekEv(fid, _, off) => 1 <= fid <= FAT_MAX_FILE_DESCS && LongLong(off)
    case ReadEv(fid, _) => 1 <= fid <= FAT_MAX_FILE_DESCS
  }

  /** Reading moves no position: `fat_vfs_rd` leaves its descriptor as it is. */
  ghost function Step(ds: seq<Desc>, e: Event): (ds': seq<Desc>)
    requires DescsOk(ds) && LegalEvent(e)
    ensures DescsOk(ds')
  {
    match e
    case OpenEv(info, read, write) =>
      OpenMeaning(ds, info, read, write);
      Open(ds, info, read, write).0
    case CloseEv(fid) => Close(ds, fid)
    case SeekEv(fid, whence, off) =>
      SeekMeaning(ds[fid - 1].size, ds[fid - 1].filePos, whence, off);
      Seek(ds, fid, whence, off)
    case ReadEv(_, _) => ds
  }

  /** Over every run of open, seek, read and close, each position stays within its file. */
  ghost function Run(ds: seq<Desc>, es: seq<Event>): (ds': seq<Desc>)
    requires DescsOk(ds) && forall e :: e in es ==> LegalEvent(e)
    ensures DescsOk(ds')
    decreases |es|
  {
    if es == [] then ds
    else
      assert es[0] in es && forall e :: e in es[1..] ==> e in es;
      Run(Step(ds, es[0]), es[1..])
  }

  predicate Names(e: Event, fid: nat) {
    match e
    case OpenEv(_, _, _) => false
    case CloseEv(f) => f == fid
    case SeekEv(f, _, _) => f == fid
    case ReadEv(f, _) => f == fid
  }

  /** An open file is not disturbed by anything done to other files, nor by opening more. */
  lemma {:induction false} OpenFilesApart(ds: seq<Desc>, es: seq<Event>, fid: nat)
    requires DescsOk(ds) && (forall e :: e in es ==> LegalEvent(e) && !Names(e, fid))
    requires 1 <= fid <= FAT_MAX_FILE_DESCS && ds[fid - 1].open
    ensures Run(ds, es)[fid - 1] == ds[fid - 1]
    decreases |es|
  {
    if es == [] {
    } else {
      assert es[0] in es && forall e :: e in es[1..] ==> e in es;
      if es[0].OpenEv? {
        OpenMeaning(ds, es[0].info, es[0].read, es[0].write);
      }
      assert Step(ds, es[0])[fid - 1] == ds[fid - 1];
      OpenFilesApart(Step(ds, es[0]), es[1..], fid);
    }
  }

  // ----- reading

  /** Where the bytes of an open file are read from: its first cluster and on, as if the file were contiguous. */
  function ReadPos(b: FatGeometry.Bpb, d: Desc): nat
    requires 0 < b.sectorSize
  {
    Wrap64(FatGeometry.ClusterToPos(b, d.cluster) + d.filePos)
  }

  /** The checks of `fat_vfs_rd`. */
  predicate MayRead(d: Desc, n: nat) {
    d.filePos < d.size && Wrap64(d.filePos + n) <= d.size
  }

  /** The checks let through only reads inside the file exactly when `file_pos + n` fits a 64-bit register. */
  lemma MayReadIff(d: Desc, n: nat)
    requires d.filePos <= d.size < 0x1_0000_0000 && n < TWO64 && MayRead(d, n)
    ensures d.filePos + n <= d.size <==> d.filePos + n < TWO64
  {
    WrapFitsIff(d.filePos, n, d.size);
  }

  /** A read of almost 2^64 bytes at position 5 of a file of 10 bytes is let through. */
  lemma ReadMayWrap()
    ensures var d := Desc(2, 10, 5, true, true, false); MayRead(d, TWO64 - 5) && d.size < d.filePos + (TWO64 - 5)
  {
  }

  /** `fat_vfs_rd`: 1 when a check or the cache refuses, otherwise what the cache reads at the file's position. */
  function FileRead(b: FatGeometry.Bpb, d: Desc, c: Cache, dev: Dev, disk: seq<Byte>, n: nat,
                    beyond: seq<Byte>): Outcome
    requires 0 < b.sectorSize && OnDisk(dev, disk) && |c.buf| == dev.blkSize <= |beyond|
    requires MayRead(d, n) ==> NoWrap(dev, ReadPos(b, d), n)
  {
    if MayRead(d, n) then CacheRead(c, dev, disk, ReadPos(b, d), n, beyond) else Outcome(c, 1, [])
  }

  /** At the end of a file nothing is read, not even nothing. */
  lemma EndRefuses(b: FatGeometry.Bpb, d: Desc, c: Cache, dev: Dev, disk: seq<Byte>, n: nat, beyond: seq<Byte>)
    requires 0 < b.sectorSize && OnDisk(dev, disk) && |c.buf| == dev.blkSize <= |beyond| && d.size <= d.filePos
    ensures FileRead(b, d, c, dev, disk, n, beyond) == Outcome(c, 1, [])
  {
  }

  class FatDriver {
    const bpb: FatGeometry.Bpb
    const cache: BlockCache
    const fileDescs: array<Desc>

    ghost predicate Valid(disk: seq<Byte>)
      reads cache, cache.buf, fileDescs
    {
      && 0 < bpb.sectorSize && DescsOk(fileDescs[..])
      && OnDisk(cache.dev, disk) && cache.buf.Length == cache.dev.blkSize && CacheOk(cache.Abs(), cache.dev, disk)
      && fileDescs as object != cache && fileDescs as object != cache.buf
    }

    constructor (bpb: FatGeometry.Bpb, cache: BlockCache, ghost disk: seq<Byte>)
      requires 0 < bpb.sectorSize
      requires OnDisk(cache.dev, disk) && cache.buf.Length == cache.dev.blkSize && CacheOk(cache.Abs(), cache.dev, disk)
      ensures Valid(disk) && this.bpb == bpb && this.cache == cache && fresh(fileDescs)
      ensures forall i :: 0 <= i < FAT_MAX_FILE_DESCS ==> fileDescs[i] == CLOSED
    {
      this.bpb, this.cache := bpb, cache;
      fileDescs := new Desc[FAT_MAX_FILE_DESCS](_ => CLOSED);
    }

    /** `find_slot` */
    method FindSlot() returns (slot: nat)
      ensures slot == LowestSlot(fileDescs[..], 0)
    {
      slot := 0;
      while slot < fileDescs.Length
        invariant slot <= fileDescs.Length && LowestSlot(fileDescs[..], 0) == LowestSlot(fileDescs[..], slot)
      {
        if !fileDescs[slot].open {
          return;
        }
        slot := slot + 1;
      }
    }

    /** `fat_vfs_open` behind the path walk. */
    method OpenFile(info: Option<Info>, read: bool, write: bool, ghost disk: seq<Byte>) returns (fid: nat)
      requires Valid(disk) && (info.Some? ==> info.value.size < 0x1_0000_0000)
      modifies fileDescs
      ensures Valid(disk) && (fileDescs[..], fid) == Open(old(fileDescs[..]), info, read, write)
    {
      OpenMeaning(fileDescs[..], info, read, write);
      if info.None? {
        return 0;
      }
      if info.value.dir {
        return 0;
      }
      if write && info.value.readOnly {
        return 0;
      }
      var slot := FindSlot();
      if slot == fileDescs.Length {
        return 0;
      }
      fileDescs[slot] := Desc(info.value.cluster, info.value.size, 0, true, read, write);
      fid := slot + 1;
    }

    /** `fat_vfs_close` */
    method CloseFile(fid: nat, ghost disk: seq<Byte>)
      requires Valid(disk) && IsFid(fileDescs[..], fid)
      modifies fileDescs
      ensures Valid(disk) && fileDescs[..] == Close(old(fileDescs[..]), fid)
      ensures !fileDescs[fid - 1].open && fileDescs[fid - 1].size == 0
      ensures forall i :: 0 <= i < fileDescs.Length && i != fid - 1 ==> fileDescs[i] == old(fileDescs[i])
    {
      fileDescs[fid - 1] := CLOSED;
    }

    /** `fat_vfs_seek` */
    method SeekFile(fid: nat, whence: Whence, off: int, ghost disk: seq<Byte>)
      requires Valid(disk) && IsFid(fileDescs[..], fid) && LongLong(off)
      modifies fileDescs
      ensures Valid(disk) && fileDescs[..] == Seek(old(fileDescs[..]), fid, whence, off)
    {
      var d := fileDescs[fid - 1];
      SeekMeaning(d.size, d.filePos, whence, off);
      fileDescs[fid - 1] := d.(filePos := SeekPos(d.size, d.filePos, whence, off));
    }

    /** `fat_vfs_rd` */
    method ReadFile(fid: nat, disk: seq<Byte>, dst: array<Byte>, n: nat, beyond: seq<Byte>) returns (code: nat)
      requires Valid(disk) && IsFid(fileDescs[..], fid) && n <= dst.Length && |beyond| >= cache.dev.blkSize
      requires dst != cache.buf && dst as object != fileDescs && dst as object != cache
      requires MayRead(fileDescs[fid - 1], n) ==> NoWrap(cache.dev, ReadPos(bpb, fileDescs[fid - 1]), n)
      modifies cache`loadedBlk, cache.buf, dst
      ensures Valid(disk) && fileDescs[..] == old(fileDescs[..])
      ensures var r := FileRead(bpb, old(fileDescs[fid - 1]), old(cache.Abs()), cache.dev, disk, n, beyond);
        code == r.code && cache.Abs() == r.cache && dst[..n] == if code == 0 then r.data else old(dst[..n])
    {
      var d := fileDescs[fid - 1];
      if d.filePos >= d.size {
        return 1;
      }
      if Wrap64(d.filePos + n) > d.size {
        return 1;
      }
      var rdPos := Wrap64(FatGeometry.ClusterToPos(bpb, d.cluster) + d.filePos);
      ReadKeeps(cache.Abs(), cache.dev, disk, Request(rdPos, n, beyond));
      code := cache.Read(disk, dst, rdPos, n, beyond);
    }
  }

  /** A file whose first cluster exists on the sound volume that fills the start of `dev`. */
  ghost predicate OnVolume(b: FatGeometry.Bpb, d: Desc, dev: Dev) {
    && FatGeometry.FieldsFit(b) && b.sectorSize == FatGeometry.SECTOR == dev.blkSize && 0 < b.clusterSize
    && FatGeometry.Sound(FatGeometry.LayoutOf(b)) && 2 <= d.cluster <= FatGeometry.ClusterCnt(b) + 1
    && FatGeometry.SectorCnt(b) <= dev.nblk
  }

  /** The first sector of the file's first cluster. */
  ghost function FileStart(b: FatGeometry.Bpb, d: Desc): int
    requires 0 < b.sectorSize && 0 < b.clusterSize
  {
    FatGeometry.AreaStart(FatGeometry.LayoutOf(b), FatGeometry.Cluster(d.cluster))
  }

  lemma InsideDevice(first: nat, size: nat, off: nat, n: nat, total: nat, nblk: nat)
    requires first + size <= total < 0x1_0000_0000 && total <= nblk && off + n <= 512 * size
    ensures Wrap64(512 * first + off) == 512 * first + off && 512 * first + off + n <= 512 * nblk
    ensures 512 * first + off + n + 512 < TWO64 && Wrap64(off + n) == off + n
    ensures (512 * first + off) % 512 == off % 512
  {
  }

  lemma ReadInCluster(b: FatGeometry.Bpb, d: Desc, dev: Dev, n: nat)
    requires OnVolume(b, d, dev) && 0 < n && d.filePos + n <= FatGeometry.SECTOR * b.clusterSize
    ensures ReadPos(b, d) == FatGeometry.SECTOR * FileStart(b, d) + d.filePos
    ensures NoWrap(dev, ReadPos(b, d), n) && InRange(dev, ReadPos(b, d), n)
    ensures Offset(dev, ReadPos(b, d)) == d.filePos % FatGeometry.SECTOR
    ensures MayRead(d, n) <==> d.filePos + n <= d.size
  {
    FatGeometry.ClusterPosition(b, d.cluster);
    FatGeometry.ClusterInside(FatGeometry.LayoutOf(b), d.cluster);
    InsideDevice(FileStart(b, d), b.clusterSize, d.filePos, n, FatGeometry.SectorCnt(b), dev.nblk);
  }

  /** The bytes delivered are those of the device from `pos` on. */
  ghost predicate Returns(r: Outcome, dev: Dev, disk: seq<Byte>, pos: int, n: nat) {
    && r.code == 0 && 0 <= pos && FirstBlk(dev) * dev.blkSize + pos + n <= |disk|
    && r.data == Slice(disk, dev, pos, n)
  }

  /**
   Inside the first cluster of a file on a sound volume, a read the blocks asked for cover succeeds exactly when it
   ends inside the file, and then returns the bytes of that cluster from the file's position on.
   */
  lemma ReadAgrees(b: FatGeometry.Bpb, d: Desc, c: Cache, dev: Dev, disk: seq<Byte>, n: nat, beyond: seq<Byte>)
    requires OnVolume(b, d, dev) && OnDisk(dev, disk) && CacheOk(c, dev, disk) && |beyond| >= dev.blkSize
    requires 0 < n && d.filePos + n <= FatGeometry.SECTOR * b.clusterSize
    requires d.filePos % FatGeometry.SECTOR + n <= FatGeometry.SECTOR * ReadCount(dev, n)
    ensures NoWrap(dev, ReadPos(b, d), n)
    ensures FileRead(b, d, c, dev, disk, n, beyond).code == 0 <==> d.filePos + n <= d.size
    ensures d.filePos + n <= d.size ==>
      Returns(FileRead(b, d, c, dev, disk, n, beyond), dev, disk, FatGeometry.SECTOR * FileStart(b, d) + d.filePos, n)
  {
    ReadInCluster(b, d, dev, n);
    CacheAgrees(c, dev, disk, [], Request(ReadPos(b, d), n, beyond));
  }

  /** Every byte read belongs to cluster `c` of the volume. */
  ghost predicate ReadsCluster(l: FatGeometry.Layout, pos: nat, n: nat, c: nat) {
    forall p :: pos <= p < pos + n ==> FatGeometry.InArea(l, FatGeometry.Cluster(c), p / FatGeometry.SECTOR)
  }

  lemma FirstSector(first: nat, off: nat)
    requires first < 0x1_0000_0000 && off < 0x1_0000_0000
    ensures Wrap64(512 * first + off) == 512 * first + off
  {
  }

  lemma SectorWithin(first: nat, size: nat, p: nat)
    requires 512 * first <= p < 512 * (first + size)
    ensures first <= p / 512 < first + size
  {
  }

  lemma LastByteOutside(first: nat, size: nat, off: nat, n: nat)
    requires 512 * size < off + n
    ensures (512 * first + off + n - 1) / 512 >= first + size
  {
  }

  /**
   `fat_vfs_rd` does not follow the FAT: what it reads are bytes of the file's first cluster exactly when the read
   ends inside that cluster.
   */
  lemma ReadsFirstClusterIff(b: FatGeometry.Bpb, d: Desc, n: nat)
    requires FatGeometry.FieldsFit(b) && b.sectorSize == FatGeometry.SECTOR && 0 < b.clusterSize
    requires FatGeometry.Sound(FatGeometry.LayoutOf(b)) && 2 <= d.cluster <= FatGeometry.ClusterCnt(b) + 1
    requires d.filePos < 0x1_0000_0000 && 0 < n
    ensures ReadsCluster(FatGeometry.LayoutOf(b), ReadPos(b, d), n, d.cluster)
      <==> d.filePos + n <= FatGeometry.SECTOR * b.clusterSize
  {
    var l := FatGeometry.LayoutOf(b);
    var first := FatGeometry.AreaStart(l, FatGeometry.Cluster(d.cluster));
    FatGeometry.ClusterPosition(b, d.cluster);
    FatGeometry.ClusterInside(l, d.cluster);
    FirstSector(first, d.filePos);
    if d.filePos + n <= 512 * b.clusterSize {
      forall p | ReadPos(b, d) <= p < ReadPos(b, d) + n
        ensures FatGeometry.InArea(l, FatGeometry.Cluster(d.cluster), p / FatGeometry.SECTOR)
      {
        SectorWithin(first, l.clusterSize, p);
      }
    } else {
      var p := ReadPos(b, d) + n - 1;
      LastByteOutside(first, l.clusterSize, d.filePos, n);
      assert !FatGeometry.InArea(l, FatGeometry.Cluster(d.cluster), p / FatGeometry.SECTOR);
    }
  }

  /** The smallest FAT16 cluster size on a volume of 5000 sectors. */
  const SMALL_VOLUME: FatGeometry.Bpb := FatGeometry.Bpb(512, 1, 1, 1, 16, 5000, 20, 0)

  lemma SmallLayout()
    ensures FatGeometry.LayoutOf(SMALL_VOLUME) == FatGeometry.Layout(1, 21, 22, 1, 4978, 5000)
    ensures FatGeometry.Accepts(SMALL_VOLUME, 0xaa55)
  {
    assert FatGeometry.RootSectorCnt(SMALL_VOLUME) == 1;
  }

  /** There the second sector of a file is read from the cluster behind its first, whosever that is. */
  lemma ReadsNextCluster()
    ensures var d := Desc(2, 1000, 512, true, true, false);
      MayRead(d, 1) && FatGeometry.Accepts(SMALL_VOLUME, 0xaa55) && ReadPos(SMALL_VOLUME, d) == 512 * 23
    ensures var l := FatGeometry.LayoutOf(SMALL_VOLUME);
      FatGeometry.Sound(l) && FatGeometry.AreaOf(l, 23) == FatGeometry.Cluster(3)
  {
    SmallLayout();
    assert FatGeometry.FirstDataSector(SMALL_VOLUME) == 22;
    FatGeometry.PosHigh(22, 1, 2);
    FirstSector(22, 512);
  }

  lemma FirstOffset(first: nat, off: nat, n: nat)
    requires first < 0x1_0000_0000 && off + n < 0x1_0000_0000
    ensures (512 * first + off) % 512 == off % 512 && 512 * first + off + n + 512 < TWO64 && Wrap64(off + n) == off + n
  {
  }

  lemma ReadFits(b: FatGeometry.Bpb, d: Desc, dev: Dev, n: nat)
    requires OnVolume(b, d, dev) && 0 < n && d.filePos + n <= d.size < 0x1_0000_0000
    ensures ReadPos(b, d) == FatGeometry.SECTOR * FileStart(b, d) + d.filePos
    ensures NoWrap(dev, ReadPos(b, d), n) && MayRead(d, n)
    ensures Offset(dev, ReadPos(b, d)) == d.filePos % FatGeometry.SECTOR
  {
    FatGeometry.ClusterPosition(b, d.cluster);
    FatGeometry.ClusterInside(FatGeometry.LayoutOf(b), d.cluster);
    FirstSector(FileStart(b, d), d.filePos);
    FirstOffset(FileStart(b, d), d.filePos, n);
  }

  /** Whatever follows the scratch buffer, the read succeeds and delivers bytes of the file's first cluster. */
  ghost predicate ReadsFile(b: FatGeometry.Bpb, d: Desc, c: Cache, dev: Dev, disk: seq<Byte>, n: nat)
    requires 0 < b.sectorSize && 0 < b.clusterSize && OnDisk(dev, disk) && |c.buf| == dev.blkSize
    requires NoWrap(dev, ReadPos(b, d), n)
  {
    && (forall beyond: seq<Byte> :: |beyond| >= dev.blkSize ==>
          Returns(FileRead(b, d, c, dev, disk, n, beyond), dev, disk, ReadPos(b, d), n))
    && ReadsCluster(FatGeometry.LayoutOf(b), ReadPos(b, d), n, d.cluster)
  }

  /** A read the blocks asked for do not cover depends on what follows the scratch buffer. */
  lemma ExactIsCovered(c: Cache, dev: Dev, disk: seq<Byte>, addr: nat, n: nat)
    requires OnDisk(dev, disk) && CacheOk(c, dev, disk) && NoWrap(dev, addr, n) && 0 < n
    requires forall beyond: seq<Byte> :: |beyond| >= dev.blkSize ==>
      Returns(CacheRead(c, dev, disk, addr, n, beyond), dev, disk, addr, n)
    ensures Offset(dev, addr) + n <= dev.blkSize * ReadCount(dev, n)
  {
    Positions(dev, addr, n);
    CountAtLeastOne(dev, n);
    if AcrossBlocks(dev, addr, n) {
      var zeros := seq(dev.blkSize, _ => 0 as Byte);
      assert Returns(CacheRead(c, dev, disk, addr, n, zeros), dev, disk, addr, n);
      CrossRead(c, dev, disk, addr, n, zeros);
      CrossReadExactIff(c, dev, disk, addr, n);
    }
  }

  /**
   A read inside a file on a sound volume delivers bytes of the file's first cluster, whatever follows the scratch
   buffer, exactly when the blocks asked for cover it and it ends in that cluster.
   */
  lemma FileReadIff(b: FatGeometry.Bpb, d: Desc, c: Cache, dev: Dev, disk: seq<Byte>, n: nat)
    requires OnVolume(b, d, dev) && OnDisk(dev, disk) && CacheOk(c, dev, disk)
    requires 0 < n && d.filePos + n <= d.size < 0x1_0000_0000
    ensures NoWrap(dev, ReadPos(b, d), n)
    ensures ReadsFile(b, d, c, dev, disk, n) <==>
      (d.filePos % FatGeometry.SECTOR + n <= FatGeometry.SECTOR * ReadCount(dev, n)
        && d.filePos + n <= FatGeometry.SECTOR * b.clusterSize)
  {
    ReadFits(b, d, dev, n);
    ReadsFirstClusterIff(b, d, n);
    if ReadsFile(b, d, c, dev, disk, n) {
      ExactIsCovered(c, dev, disk, ReadPos(b, d), n);
    } else if d.filePos % FatGeometry.SECTOR + n <= FatGeometry.SECTOR * ReadCount(dev, n)
      && d.filePos + n <= FatGeometry.SECTOR * b.clusterSize
    {
      forall beyond: seq<Byte> | |beyond| >= dev.blkSize
        ensures Returns(FileRead(b, d, c, dev, disk, n, beyond), dev, disk, ReadPos(b, d), n)
      {
        ReadAgrees(b, d, c, dev, disk, n, beyond);
      }
    }
  }
}
