/** fat.c: the layout of a FAT16 volume as its boot sector describes it. */
module FatGeometry {
  import opened Common
  import opened Blkdev

  const SECTOR: nat := 512

  /** The fields of the BIOS parameter block that the driver reads. */
  datatype Bpb = Bpb(sectorSize: nat, clusterSize: nat, resSectorCnt: nat, fatCnt: nat, rootDirentCnt: nat,
                     sectorCnt: nat, fatSectors: nat, largeSectorCnt: nat)

  function U16(s: seq<Byte>, i: nat): (v: nat)
    requires i + 2 <= |s|
    ensures v < 0x1_0000
  {
    s[i] as nat + 256 * s[i + 1] as nat
  }

  function U32(s: seq<Byte>, i: nat): (v: nat)
    requires i + 4 <= |s|
    ensures v < 0x1_0000_0000
  {
    U16(s, i) + 0x1_0000 * U16(s, i + 2)
  }

  predicate FieldsFit(b: Bpb) {
    && b.sectorSize < 0x1_0000 && b.clusterSize < 0x100 && b.resSectorCnt < 0x1_0000 && b.fatCnt < 0x100
    && b.rootDirentCnt < 0x1_0000 && b.sectorCnt < 0x1_0000 && b.fatSectors < 0x1_0000
    && b.largeSectorCnt < 0x1_0000_0000
  }

  /** The packed `struct bpb` at the start of the boot sector. */
  function ParseBpb(boot: seq<Byte>): (b: Bpb)
    requires |boot| == SECTOR
    ensures FieldsFit(b)
  {
    Bpb(U16(boot, 11), boot[13] as nat, U16(boot, 14), boot[16] as nat, U16(boot, 17), U16(boot, 19), U16(boot, 22),
        U32(boot, 32))
  }

  // ----- the driver's numbers

  function SectorCnt(b: Bpb): nat {
    if b.sectorCnt != 0 then b.sectorCnt else b.largeSectorCnt
  }

  function RootSectorCnt(b: Bpb): nat
    requires 0 < b.sectorSize
  {
    (32 * b.rootDirentCnt + b.sectorSize - 1) / b.sectorSize
  }

  function FirstDataSector(b: Bpb): nat
    requires 0 < b.sectorSize
  {
    b.resSectorCnt + b.fatCnt * b.fatSectors + RootSectorCnt(b)
  }

  /** `sector_cnt - res - fats - root` in a 64-bit register. */
  function DataSectorCnt(b: Bpb): nat
    requires 0 < b.sectorSize
  {
    Wrap64(SectorCnt(b) - b.resSectorCnt - b.fatCnt * b.fatSectors - RootSectorCnt(b))
  }

  function ClusterCnt(b: Bpb): nat
    requires 0 < b.sectorSize && 0 < b.clusterSize
  {
    DataSectorCnt(b) / b.clusterSize
  }

  /** The checks of `fat_verify` after the boot sector has been read, for a cluster size other than zero. */
  predicate Accepts(b: Bpb, signature: nat)
    requires 0 < b.clusterSize
  {
    && signature == 0xaa55
    && b.sectorSize == SECTOR
    && b.fatSectors != 0
    && SectorCnt(b) != 0
    && ClusterCnt(b) >= 4085
  }

  /** A boot sector with which `fat_verify` divides by a cluster size of zero. */
  predicate Divides(b: Bpb, signature: nat) {
    signature == 0xaa55 && b.sectorSize == SECTOR && b.fatSectors != 0 && b.clusterSize == 0
  }

  /** `sector_cnt` and `cluster_cnt` as `fat_verify` computes them. */
  method Counts(bpb: Bpb) returns (sectorCnt: nat, clusterCnt: nat)
    requires 0 < bpb.sectorSize && 0 < bpb.clusterSize
    ensures sectorCnt == SectorCnt(bpb) && clusterCnt == ClusterCnt(bpb)
  {
    sectorCnt := if bpb.sectorCnt != 0 then bpb.sectorCnt else bpb.largeSectorCnt;
    var rootSectorCnt := (32 * bpb.rootDirentCnt + bpb.sectorSize - 1) / bpb.sectorSize;
    var dataSectorCnt := Wrap64(sectorCnt - bpb.resSectorCnt - bpb.fatCnt * bpb.fatSectors - rootSectorCnt);
    clusterCnt := dataSectorCnt / bpb.clusterSize;
  }

  /** The part of `fat_verify` behind the read; None stands for a division by zero. */
  method CheckBoot(buf: seq<Byte>) returns (code: Option<nat>)
    requires |buf| == SECTOR
    ensures code == None <==> Divides(ParseBpb(buf), U16(buf, 510))
    ensures code == None || code == Some(0) || code == Some(1)
    ensures code == Some(0) <==> 0 < ParseBpb(buf).clusterSize && Accepts(ParseBpb(buf), U16(buf, 510))
  {
    if U16(buf, 510) != 0xaa55 {
      return Some(1);
    }
    var bpb := ParseBpb(buf);
    if bpb.sectorSize != 512 {
      return Some(1);
    }
    if bpb.fatSectors == 0 {
      return Some(1);
    }
    if bpb.clusterSize == 0 {
      return None;
    }
    var sectorCnt, clusterCnt := Counts(bpb);
    if sectorCnt == 0 {
      return Some(1);
    }
    if clusterCnt < 4085 {
      return Some(1);
    }
    code := Some(0);
  }

  /** The first block of the device. */
  function Boot(d: Dev, disk: seq<Byte>): (s: seq<Byte>)
    requires OnDisk(d, disk) && d.blkSize == SECTOR && 0 < d.nblk
    ensures |s| == SECTOR
  {
    MulMono(1, d.nblk, d.blkSize);
    SliceOnDisk(d, disk, 0, d.blkSize);
    Slice(disk, d, 0, d.blkSize)
  }

  /** `fat_verify`: 0 for a volume it takes, None for one with which it divides by zero. */
  method Verify(d: Dev, disk: seq<Byte>) returns (code: Option<nat>)
    requires OnDisk(d, disk)
    ensures code == None <==>
      d.blkSize == SECTOR && 0 < d.nblk && Divides(ParseBpb(Boot(d, disk)), U16(Boot(d, disk), 510))
    ensures code == None || code == Some(0) || code == Some(1)
    ensures code == Some(0) <==>
      && d.blkSize == SECTOR && 0 < d.nblk && 0 < ParseBpb(Boot(d, disk)).clusterSize
      && Accepts(ParseBpb(Boot(d, disk)), U16(Boot(d, disk), 510))
  {
    if d.blkSize != 512 {
      return Some(1);
    }
    RdMeaning(d, disk, 0, 1, []);
    var buf := new Byte[512];
    var rd := RdInto(d, disk, buf, 0, 1, []);
    if rd != 0 {
      return Some(1);
    }
    var boot := buf[..];
    assert boot == buf[..1 * d.blkSize] == Boot(d, disk);
    code := CheckBoot(boot);
  }

  // ----- the areas tile the volume

  /** Where the areas of a volume end, in sectors, and its clusters. */
  datatype Layout = Layout(resEnd: nat, fatsEnd: nat, rootEnd: nat, clusterSize: nat, clusterCnt: nat, total: nat)

  function LayoutOf(b: Bpb): Layout
    requires 0 < b.sectorSize && 0 < b.clusterSize
  {
    Layout(b.resSectorCnt, b.resSectorCnt + b.fatCnt * b.fatSectors, FirstDataSector(b), b.clusterSize, ClusterCnt(b),
           SectorCnt(b))
  }

  /** The areas follow each other, the clusters fit, and one more cluster would not. */
  predicate Sound(l: Layout) {
    && 0 < l.clusterSize && l.resEnd <= l.fatsEnd <= l.rootEnd
    && l.rootEnd + l.clusterCnt * l.clusterSize <= l.total < l.rootEnd + l.clusterCnt * l.clusterSize + l.clusterSize
  }

  lemma MetadataSmall(b: Bpb)
    requires FieldsFit(b) && b.sectorSize == SECTOR
    ensures FirstDataSector(b) < 0x200_0000
  {
    MulMono(b.fatCnt, 0x100, b.fatSectors);
  }

  lemma WrapBelow(x: nat)
    requires 0 < x <= TWO64
    ensures Wrap64(-(x as int)) == TWO64 - x
  {
  }

  /** The layout whose clusters fill `data` sectors, the wrapped space behind the metadata. */
  lemma SoundIff(l: Layout, data: nat)
    requires 0 < l.clusterSize < 0x100 && l.resEnd <= l.fatsEnd <= l.rootEnd < 0x200_0000 && l.total < 0x1_0000_0000
    requires data == Wrap64(l.total - l.rootEnd) && l.clusterCnt == data / l.clusterSize
    ensures Sound(l) <==> l.rootEnd <= l.total
  {
    DivMod(data, l.clusterSize);
    if l.rootEnd <= l.total {
      WrapOnce(l.total - l.rootEnd);
    } else {
      WrapBelow(l.rootEnd - l.total);
    }
  }

  /**
   `fat_verify` never compares the metadata with the size of the volume: the layout of a volume it takes is sound
   exactly when the metadata fits.
   */
  lemma AcceptedSoundIff(b: Bpb, signature: nat)
    requires FieldsFit(b) && 0 < b.clusterSize && Accepts(b, signature)
    ensures Sound(LayoutOf(b)) <==> FirstDataSector(b) <= SectorCnt(b)
  {
    assert SectorCnt(b) - b.resSectorCnt - b.fatCnt * b.fatSectors - RootSectorCnt(b)
      == SectorCnt(b) - FirstDataSector(b);
    MetadataSmall(b);
    SoundIff(LayoutOf(b), DataSectorCnt(b));
  }

  /** The sectors before the data area of a volume with sectors of 512 bytes. */
  function Metadata(b: Bpb): nat {
    b.resSectorCnt + b.fatCnt * b.fatSectors + (32 * b.rootDirentCnt + 511) / 512
  }

  lemma ManyClusters(data: nat, cs: nat)
    requires 0 < cs
    ensures data / cs >= 4085 <==> 4085 * cs <= data
  {
    DivMod(data, cs);
    if 4085 * cs <= data {
      if data / cs < 4085 {
        MulMono(data / cs + 1, 4085, cs);
      }
    } else if data / cs >= 4085 {
      MulMono(4085, data / cs, cs);
    }
  }

  lemma EnoughClusters(total: nat, meta: nat, cs: nat)
    requires total < 0x1_0000_0000 && meta < 0x200_0000 && 0 < cs < 0x100
    ensures Wrap64(total - meta) / cs >= 4085 <==> total < meta || meta + 4085 * cs <= total
  {
    ManyClusters(Wrap64(total - meta), cs);
    if total < meta {
      WrapBelow(meta - total);
    } else {
      WrapOnce(total - meta);
    }
  }

  /**
   `fat_verify` takes a volume exactly for the signature, sectors of 512 bytes, a FAT16 layout, and a size that leaves
   room for 4085 clusters behind the metadata, or not even for the metadata.
   */
  lemma AcceptedIff(b: Bpb, signature: nat)
    requires FieldsFit(b) && 0 < b.clusterSize
    ensures var total := if b.sectorCnt != 0 then b.sectorCnt else b.largeSectorCnt;
      Accepts(b, signature) <==>
        && signature == 0xaa55 && b.sectorSize == 512 && b.fatSectors != 0 && total != 0
        && (total < Metadata(b) || Metadata(b) + 4085 * b.clusterSize <= total)
  {
    if b.sectorSize == SECTOR {
      MetadataSmall(b);
      assert SectorCnt(b) - b.resSectorCnt - b.fatCnt * b.fatSectors - RootSectorCnt(b)
        == SectorCnt(b) - FirstDataSector(b);
      EnoughClusters(SectorCnt(b), FirstDataSector(b), b.clusterSize);
    }
  }

  datatype Area = Reserved | Fats | RootDir | Cluster(number: nat) | Leftover

  function AreaStart(l: Layout, a: Area): int {
    match a
    case Reserved => 0
    case Fats => l.resEnd
    case RootDir => l.fatsEnd
    case Cluster(c) => l.rootEnd + (c - 2) * l.clusterSize
    case Leftover => l.rootEnd + l.clusterCnt * l.clusterSize
  }

  function AreaEnd(l: Layout, a: Area): int {
    match a
    case Reserved => l.resEnd
    case Fats => l.fatsEnd
    case RootDir => l.rootEnd
    case Cluster(c) => l.rootEnd + (c - 2) * l.clusterSize + l.clusterSize
    case Leftover => l.total
  }

  /** How many sectors the areas have. */
  lemma AreaSizes(b: Bpb)
    requires b.sectorSize == SECTOR && 0 < b.clusterSize
    ensures var l := LayoutOf(b);
      && AreaEnd(l, Reserved) - AreaStart(l, Reserved) == b.resSectorCnt
      && AreaEnd(l, Fats) - AreaStart(l, Fats) == b.fatCnt * b.fatSectors
      && AreaEnd(l, RootDir) - AreaStart(l, RootDir) == (32 * b.rootDirentCnt + 511) / 512
      && (forall c: nat :: AreaEnd(l, Cluster(c)) - AreaStart(l, Cluster(c)) == b.clusterSize)
      && AreaEnd(l, Leftover) == if b.sectorCnt != 0 then b.sectorCnt else b.largeSectorCnt
  {
  }

  /** A volume of one sector with one reserved sector and a one-sector FAT is taken. */
  lemma TooSmallAccepted()
    ensures var b := Bpb(512, 1, 1, 1, 0, 1, 1, 0); FieldsFit(b) && Accepts(b, 0xaa55) && !Sound(LayoutOf(b))
  {
  }

  /** Clusters are numbered from 2. */
  predicate IsArea(l: Layout, a: Area) {
    a.Cluster? ==> 2 <= a.number <= l.clusterCnt + 1
  }

  predicate InArea(l: Layout, a: Area, sector: nat) {
    AreaStart(l, a) <= sector < AreaEnd(l, a)
  }

  /** The area a sector of the volume belongs to. */
  function AreaOf(l: Layout, sector: nat): Area
    requires Sound(l)
  {
    if sector < l.resEnd then Reserved
    else if sector < l.fatsEnd then Fats
    else if sector < l.rootEnd then RootDir
    else if sector < l.rootEnd + l.clusterCnt * l.clusterSize then Cluster((sector - l.rootEnd) / l.clusterSize + 2)
    else Leftover
  }

  /** A sector of the data area lies in cluster `c` exactly when `c` is its quotient. */
  lemma ClusterOf(cs: nat, first: nat, c: nat, sector: nat)
    requires 0 < cs && 2 <= c && first <= sector
    ensures first + (c - 2) * cs <= sector < first + (c - 2) * cs + cs <==> c == (sector - first) / cs + 2
  {
    DivMod(sector - first, cs);
    if first + (c - 2) * cs <= sector < first + (c - 2) * cs + cs {
      DivUnique(sector - first, cs, c - 2);
    }
  }

  lemma InCluster(cs: nat, x: nat, n: nat)
    requires 0 < cs && x < n * cs
    ensures x / cs < n
  {
    DivMod(x, cs);
    if n <= x / cs {
      MulMono(n, x / cs, cs);
    }
  }

  lemma SectorHasArea(l: Layout, sector: nat)
    requires Sound(l)
    ensures IsArea(l, AreaOf(l, sector))
  {
    var data := l.clusterCnt * l.clusterSize;
    if l.rootEnd <= sector < l.rootEnd + data {
      InCluster(l.clusterSize, sector - l.rootEnd, l.clusterCnt);
    }
  }

  lemma PlainTile(l: Layout, sector: nat, a: Area)
    requires Sound(l) && sector < l.total && !a.Cluster?
    ensures InArea(l, a, sector) <==> a == AreaOf(l, sector)
  {
    var data := l.clusterCnt * l.clusterSize;
    assert l.rootEnd + data <= l.total;
  }

  lemma ClusterTile(l: Layout, sector: nat, c: nat)
    requires Sound(l) && 2 <= c <= l.clusterCnt + 1
    ensures InArea(l, Cluster(c), sector) <==> AreaOf(l, sector) == Cluster(c)
  {
    MulMono(c - 2 + 1, l.clusterCnt, l.clusterSize);
    Distribute(c - 2, 1, l.clusterSize);
    if l.rootEnd <= sector {
      ClusterOf(l.clusterSize, l.rootEnd, c, sector);
    }
  }

  /**
   Reserved sectors, FATs, root directory, the clusters from 2 to `cluster_cnt + 1`, and fewer than one cluster of
   leftover sectors tile the volume: every sector lies in exactly one of them.
   */
  lemma AreasTile(l: Layout, sector: nat, a: Area)
    requires Sound(l) && sector < l.total && IsArea(l, a)
    ensures InArea(l, a, sector) <==> a == AreaOf(l, sector)
    ensures IsArea(l, AreaOf(l, sector))
    ensures AreaEnd(l, Leftover) - AreaStart(l, Leftover) < l.clusterSize
  {
    SectorHasArea(l, sector);
    if a.Cluster? {
      ClusterTile(l, sector, a.number);
    } else {
      PlainTile(l, sector, a);
    }
  }

  // ----- positions

  function PosOf(sectorSize: nat, firstData: nat, clusterSize: nat, cluster: nat): nat {
    Wrap64(sectorSize * Wrap64(firstData + Wrap64(Wrap64(cluster - 2) * clusterSize)))
  }

  /** `cluster_to_pos`, with its 64-bit wrap for clusters below 2. */
  function ClusterToPos(b: Bpb, cluster: nat): nat
    requires 0 < b.sectorSize
  {
    PosOf(b.sectorSize, FirstDataSector(b), b.clusterSize, cluster)
  }

  /** `fat_get_root` */
  function GetRoot(b: Bpb): nat
    requires 0 < b.sectorSize
  {
    b.sectorSize * (FirstDataSector(b) - RootSectorCnt(b))
  }

  /** The root directory starts where its area starts, on an entry boundary, and its area holds all its entries. */
  lemma RootPosition(b: Bpb)
    requires b.sectorSize == SECTOR && 0 < b.clusterSize
    ensures GetRoot(b) == SECTOR * AreaStart(LayoutOf(b), RootDir) && GetRoot(b) % 32 == 0
    ensures GetRoot(b) + 32 * b.rootDirentCnt <= SECTOR * AreaEnd(LayoutOf(b), RootDir)
          < GetRoot(b) + 32 * b.rootDirentCnt + SECTOR
  {
  }

  /** Whether the byte at `pos` lies in one of the clusters. */
  predicate InClusters(l: Layout, pos: nat) {
    l.rootEnd <= pos / SECTOR < l.rootEnd + l.clusterCnt * l.clusterSize
  }

  lemma ClusterInside(l: Layout, cluster: nat)
    requires Sound(l) && 2 <= cluster <= l.clusterCnt + 1
    ensures var first := l.rootEnd + (cluster - 2) * l.clusterSize;
      first + l.clusterSize <= l.total && AreaOf(l, first) == Cluster(cluster)
  {
    MulMono(cluster - 1, l.clusterCnt, l.clusterSize);
    Distribute(cluster - 2, 1, l.clusterSize);
    ClusterTile(l, l.rootEnd + (cluster - 2) * l.clusterSize, cluster);
  }

  lemma NoWrapPos(first: nat, off: nat)
    requires first + off < 0x100_0000_0000
    ensures Wrap64(off) == off && Wrap64(first + off) == first + off
      && Wrap64(SECTOR * (first + off)) == SECTOR * (first + off)
    ensures SECTOR * (first + off) / SECTOR == first + off
  {
  }

  lemma PosHigh(first: nat, cs: nat, cluster: nat)
    requires 2 <= cluster < TWO64 && first + (cluster - 2) * cs < 0x100_0000_0000
    ensures PosOf(SECTOR, first, cs, cluster) == SECTOR * (first + (cluster - 2) * cs)
    ensures PosOf(SECTOR, first, cs, cluster) / SECTOR == first + (cluster - 2) * cs
  {
    var off := (cluster - 2) * cs;
    assert Wrap64(cluster - 2) == cluster - 2;
    NoWrapPos(first, off);
  }

  /** The position of a cluster of the volume is its first byte: no register wraps, and its sector is its own. */
  lemma ClusterPosition(b: Bpb, cluster: nat)
    requires FieldsFit(b) && b.sectorSize == SECTOR && 0 < b.clusterSize && Sound(LayoutOf(b))
    requires 2 <= cluster <= ClusterCnt(b) + 1
    ensures ClusterToPos(b, cluster) == SECTOR * AreaStart(LayoutOf(b), Cluster(cluster))
    ensures AreaOf(LayoutOf(b), ClusterToPos(b, cluster) / SECTOR) == Cluster(cluster)
    ensures ClusterToPos(b, cluster) + SECTOR * b.clusterSize <= SECTOR * SectorCnt(b)
  {
    ClusterInside(LayoutOf(b), cluster);
    PosHigh(FirstDataSector(b), b.clusterSize, cluster);
  }

  lemma WrapProduct(cs: nat, back: nat)
    requires 0 < cs && 0 < back <= TWO64
    ensures back <= TWO64 * cs && Wrap64(TWO64 * cs - back) == TWO64 - back
  {
    var x := TWO64 * cs - back;
    DivUnique(x, TWO64, cs - 1);
    DivMod(x, TWO64);
  }

  lemma LowCluster(cluster: nat, cs: nat)
    requires cluster < 2 && 0 < cs < 0x100
    ensures Wrap64(Wrap64(cluster - 2) * cs) == TWO64 - (2 - cluster) * cs
  {
    WrapBelow(2 - cluster);
    if cluster == 0 {
      assert (TWO64 - 2) * cs == TWO64 * cs - 2 * cs;
      WrapProduct(cs, 2 * cs);
    } else {
      assert (TWO64 - 1) * cs == TWO64 * cs - cs;
      WrapProduct(cs, cs);
    }
  }

  /** Counting clusters below 2 back from the data area leads before it or past every volume. */
  lemma LowPos(first: nat, back: nat)
    requires first < 0x100_0000_0000 && 0 < back < 0x200
    ensures var pos := Wrap64(SECTOR * Wrap64(first + (TWO64 - back)));
      pos / SECTOR < first || 0x1_0000_0000 <= pos / SECTOR
  {
    if back <= first {
      assert Wrap64(first + (TWO64 - back)) == first - back;
    } else {
      var m := back - first;
      assert Wrap64(first + (TWO64 - back)) == TWO64 - m;
      assert SECTOR * (TWO64 - m) == TWO64 * 511 + (TWO64 - 512 * m);
    }
  }

  lemma PosLow(first: nat, cs: nat, cluster: nat)
    requires cluster < 2 && 0 < cs < 0x100 && first < 0x100_0000_0000
    ensures var pos := PosOf(SECTOR, first, cs, cluster); pos / SECTOR < first || 0x1_0000_0000 <= pos / SECTOR
  {
    LowCluster(cluster, cs);
    LowPos(first, (2 - cluster) * cs);
  }

  lemma SectorOutside(l: Layout, pos: nat)
    requires Sound(l) && l.total < 0x1_0000_0000
    requires pos / SECTOR < l.rootEnd || 0x1_0000_0000 <= pos / SECTOR
    ensures !InClusters(l, pos)
  {
  }

  lemma ClusterRange(l: Layout, cluster: nat)
    requires Sound(l) && 2 <= cluster
    ensures (cluster - 2) * l.clusterSize < l.clusterCnt * l.clusterSize <==> cluster <= l.clusterCnt + 1
  {
    if cluster <= l.clusterCnt + 1 {
      MulMono(cluster - 1, l.clusterCnt, l.clusterSize);
      Distribute(cluster - 2, 1, l.clusterSize);
    } else {
      MulMono(l.clusterCnt, cluster - 2, l.clusterSize);
    }
  }

  lemma SectorInside(l: Layout, cluster: nat, pos: nat)
    requires Sound(l) && 2 <= cluster && pos / SECTOR == l.rootEnd + (cluster - 2) * l.clusterSize
    ensures InClusters(l, pos) <==> cluster <= l.clusterCnt + 1
  {
    ClusterRange(l, cluster);
  }

  lemma SmallProduct(x: nat, cs: nat)
    requires x < 0x1_0000 && cs < 0x100
    ensures x * cs < 0x100_0000
  {
    MulMono(x, 0x1_0000, cs);
  }

  lemma PosInClustersIff(l: Layout, cluster: nat)
    requires Sound(l) && l.total < 0x1_0000_0000 && l.clusterSize < 0x100 && cluster < 0x1_0000
    ensures InClusters(l, PosOf(SECTOR, l.rootEnd, l.clusterSize, cluster)) <==> 2 <= cluster <= l.clusterCnt + 1
  {
    var pos := PosOf(SECTOR, l.rootEnd, l.clusterSize, cluster);
    if cluster < 2 {
      PosLow(l.rootEnd, l.clusterSize, cluster);
      SectorOutside(l, pos);
    } else {
      SmallProduct(cluster - 2, l.clusterSize);
      PosHigh(l.rootEnd, l.clusterSize, cluster);
      SectorInside(l, cluster, pos);
    }
  }

  /**
   Cluster numbers as directory entries store them: the position computed lies in the clusters of the volume exactly
   for the numbers 2 to `cluster_cnt + 1`.
   */
  lemma ClusterPositionIff(b: Bpb, cluster: nat)
    requires FieldsFit(b) && b.sectorSize == SECTOR && 0 < b.clusterSize && Sound(LayoutOf(b)) && cluster < 0x1_0000
    ensures InClusters(LayoutOf(b), ClusterToPos(b, cluster)) <==> 2 <= cluster <= ClusterCnt(b) + 1
  {
    PosInClustersIff(LayoutOf(b), cluster);
  }
}
