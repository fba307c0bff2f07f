/** blk_cache.c: byte-level reads through a one-block buffer. */
module BlkCache {
  import opened Common
  import opened Blkdev

  /** `loadedBlk` starts at `nblk`, which stands for "nothing loaded". */
  datatype Cache = Cache(loadedBlk: nat, buf: seq<Byte>)

  /** The cache after a read, its return code, and the bytes written to `dst`. */
  datatype Outcome = Outcome(cache: Cache, code: nat, data: seq<Byte>)

  lemma BlockOnDisk(d: Dev, disk: seq<Byte>, b: nat)
    requires OnDisk(d, disk) && b < d.nblk
    ensures FirstBlk(d) * d.blkSize + b * d.blkSize + d.blkSize <= |disk|
  {
    MulMono(b + 1, d.nblk, d.blkSize);
    SliceOnDisk(d, disk, b * d.blkSize, d.blkSize);
  }

  ghost predicate HoldsBlock(buf: seq<Byte>, d: Dev, disk: seq<Byte>, b: nat)
    requires OnDisk(d, disk) && b < d.nblk
  {
    BlockOnDisk(d, disk, b);
    buf == Slice(disk, d, b * d.blkSize, d.blkSize)
  }

  /** Nothing is loaded, or the buffer holds the block it says. */
  ghost predicate CacheOk(c: Cache, d: Dev, disk: seq<Byte>)
    requires OnDisk(d, disk)
  {
    && |c.buf| == d.blkSize
    && (c.loadedBlk != d.nblk ==> c.loadedBlk < d.nblk && HoldsBlock(c.buf, d, disk, c.loadedBlk))
  }

  // ----- block arithmetic

  function FirstLba(d: Dev, addr: nat): nat
    requires 0 < d.blkSize
  {
    addr / d.blkSize
  }

  function LastLba(d: Dev, addr: nat, n: nat): nat
    requires 0 < d.blkSize && 0 < n
  {
    (addr + n - 1) / d.blkSize
  }

  function Offset(d: Dev, addr: nat): nat
    requires 0 < d.blkSize
  {
    addr % d.blkSize
  }

  /** The blocks a read across blocks asks for: as many as `n` bytes fill, wherever they start. */
  function ReadCount(d: Dev, n: nat): nat
    requires 0 < d.blkSize
  {
    (n + d.blkSize - 1) / d.blkSize
  }

  /** No sum of the read wraps a 64-bit register. */
  predicate NoWrap(d: Dev, addr: nat, n: nat) {
    addr + n < TWO64 && n + d.blkSize <= TWO64
  }

  lemma Crosses(addr: nat, n: nat, bs: nat)
    requires 0 < bs && addr % bs + n > bs
    ensures (addr + n - 1) / bs > addr / bs
  {
    DivMod(addr, bs);
    DivMod(addr + n - 1, bs);
    if (addr + n - 1) / bs <= addr / bs {
      MulMono((addr + n - 1) / bs, addr / bs, bs);
    }
  }

  lemma CountSmall(addr: nat, n: nat, bs: nat)
    requires 0 < bs && 0 < n
    ensures addr / bs + (n + bs - 1) / bs <= addr + n && addr / bs + 1 <= addr + n
  {
    DivSmall(addr, bs);
    DivSmall(n - 1, bs);
    DivUnique(n + bs - 1, bs, (n - 1) / bs + 1) by {
      DivMod(n - 1, bs);
      Distribute((n - 1) / bs, 1, bs);
    }
  }

  /** Where a read starts and ends, and how many blocks it asks for when it crosses into another block. */
  lemma Positions(d: Dev, addr: nat, n: nat)
    requires 0 < d.blkSize && 0 < n && NoWrap(d, addr, n)
    ensures FirstLba(d, addr) <= LastLba(d, addr, n)
    ensures addr == FirstLba(d, addr) * d.blkSize + Offset(d, addr) && Offset(d, addr) < d.blkSize
    ensures FirstLba(d, addr) == LastLba(d, addr, n) <==> Offset(d, addr) + n <= d.blkSize
    ensures n <= ReadCount(d, n) * d.blkSize < n + d.blkSize
    ensures FirstLba(d, addr) + ReadCount(d, n) < TWO64 && FirstLba(d, addr) + 1 < TWO64
  {
    var bs, lb := d.blkSize, FirstLba(d, addr);
    DivMod(addr, bs);
    DivMod(addr + n - 1, bs);
    DivMod(n + bs - 1, bs);
    DivMono(addr, addr + n - 1, bs);
    if Offset(d, addr) + n <= bs {
      DivUnique(addr + n - 1, bs, lb);
    } else {
      Crosses(addr, n, bs);
    }
    CountSmall(addr, n, bs);
  }

  /** `blk_cache_rd`. `beyond` is what follows the scratch buffer in memory. */
  function CacheRead(c: Cache, d: Dev, disk: seq<Byte>, addr: nat, n: nat, beyond: seq<Byte>): Outcome
    requires OnDisk(d, disk) && |c.buf| == d.blkSize <= |beyond| && NoWrap(d, addr, n)
  {
    if n == 0 then Outcome(c, 0, [])
    else
      var lb, ub, off := FirstLba(d, addr), LastLba(d, addr, n), Offset(d, addr);
      Positions(d, addr, n);
      if lb != ub then
        match Rd(d, disk, lb, ReadCount(d, n), [])
        case None => Outcome(c, 1, [])
        case Some(blocks) =>
          RdMeaning(d, disk, lb, ReadCount(d, n), []);
          Outcome(c, 0, (blocks + beyond)[off..off + n])
      else if lb != c.loadedBlk then
        match Rd(d, disk, lb, 1, [])
        case None => Outcome(c, 1, [])
        case Some(block) =>
          RdMeaning(d, disk, lb, 1, []);
          Outcome(Cache(lb, block), 0, block[off..off + n])
      else Outcome(c, 0, c.buf[off..off + n])
  }

  lemma LastIs(addr: nat, n: nat, bs: nat, q: nat)
    requires 0 < bs && 0 < n && q * bs < addr + n <= q * bs + bs
    ensures (addr + n - 1) / bs == q
  {
    DivUnique(addr + n - 1, bs, q);
  }

  /**
   A read across blocks needs the blocks it asks for or exactly one more, and no more exactly when its bytes end
   inside the blocks asked for.
   */
  lemma BlocksNeeded(d: Dev, addr: nat, n: nat)
    requires 0 < d.blkSize && 0 < n && NoWrap(d, addr, n)
    ensures var needed := LastLba(d, addr, n) - FirstLba(d, addr) + 1;
      && ReadCount(d, n) <= needed <= ReadCount(d, n) + 1
      && (needed == ReadCount(d, n) <==> Offset(d, addr) + n <= d.blkSize * ReadCount(d, n))
  {
    var bs, cnt, lb, off := d.blkSize, ReadCount(d, n), FirstLba(d, addr), Offset(d, addr);
    Positions(d, addr, n);
    if off + n <= bs * cnt {
      LastIs(addr, n, bs, lb + cnt - 1) by {
        Distribute(lb, cnt, bs);
        Distribute(lb + cnt - 1, 1, bs);
      }
    } else {
      LastIs(addr, n, bs, lb + cnt) by {
        Distribute(lb, cnt, bs);
      }
    }
  }

  // ----- reads inside one block

  /** The bytes of the device a read asks for lie on it. */
  predicate InRange(d: Dev, addr: nat, n: nat) {
    addr + n <= d.nblk * d.blkSize
  }

  predicate OneBlock(d: Dev, addr: nat, n: nat)
    requires 0 < d.blkSize
  {
    0 < n && FirstLba(d, addr) == LastLba(d, addr, n)
  }

  lemma RangeIsBlocks(d: Dev, addr: nat, n: nat)
    requires 0 < d.blkSize && 0 < n && NoWrap(d, addr, n)
    ensures InRange(d, addr, n) <==> LastLba(d, addr, n) < d.nblk
  {
    DivMod(addr + n - 1, d.blkSize);
    if LastLba(d, addr, n) < d.nblk {
      MulMono(LastLba(d, addr, n) + 1, d.nblk, d.blkSize);
    } else {
      MulMono(d.nblk, LastLba(d, addr, n), d.blkSize);
    }
  }

  /** Cutting a slice of the device out of one of its blocks. */
  lemma SliceOfBlock(d: Dev, disk: seq<Byte>, buf: seq<Byte>, addr: nat, n: nat)
    requires OnDisk(d, disk) && OneBlock(d, addr, n) && NoWrap(d, addr, n) && InRange(d, addr, n)
    requires FirstLba(d, addr) < d.nblk && HoldsBlock(buf, d, disk, FirstLba(d, addr))
    ensures FirstBlk(d) * d.blkSize + addr + n <= |disk| && Offset(d, addr) + n <= |buf|
    ensures buf[Offset(d, addr)..Offset(d, addr) + n] == Slice(disk, d, addr, n)
  {
    Positions(d, addr, n);
    BlockOnDisk(d, disk, FirstLba(d, addr));
    SliceOnDisk(d, disk, addr, n);
  }

  /** A block just read is the block the cache will say it holds. */
  lemma LoadedBlock(d: Dev, disk: seq<Byte>, lb: nat)
    requires OnDisk(d, disk) && lb + 1 < TWO64
    ensures Rd(d, disk, lb, 1, []).Some? <==> lb < d.nblk
    ensures lb < d.nblk ==> HoldsBlock(Rd(d, disk, lb, 1, []).value, d, disk, lb)
  {
    RdMeaning(d, disk, lb, 1, []);
  }

  /**
   A read inside one block. In range, it returns the device's bytes and the cache stays right. Out of range it
   fails with the cache unchanged, except when the block is the one the cache claims to hold: that is the sentinel,
   and then the read succeeds with whatever the buffer contains.
   */
  lemma OneBlockRead(c: Cache, d: Dev, disk: seq<Byte>, addr: nat, n: nat, beyond: seq<Byte>)
    requires OnDisk(d, disk) && CacheOk(c, d, disk) && |beyond| >= d.blkSize && NoWrap(d, addr, n)
      && OneBlock(d, addr, n)
    ensures var r := CacheRead(c, d, disk, addr, n, beyond);
      && CacheOk(r.cache, d, disk)
      && (InRange(d, addr, n) ==>
            && FirstBlk(d) * d.blkSize + addr + n <= |disk|
            && r.code == 0 && r.data == Slice(disk, d, addr, n) && r.cache.loadedBlk == FirstLba(d, addr))
      && (!InRange(d, addr, n) ==>
            && r.cache == c
            && (r.code == 1 <==> FirstLba(d, addr) != c.loadedBlk)
            && (r.code == 0 ==>
                  && FirstLba(d, addr) == d.nblk == c.loadedBlk && Offset(d, addr) + n <= |c.buf|
                  && r.data == c.buf[Offset(d, addr)..Offset(d, addr) + n]))
  {
    var lb := FirstLba(d, addr);
    Positions(d, addr, n);
    RangeIsBlocks(d, addr, n);
    LoadedBlock(d, disk, lb);
    if InRange(d, addr, n) {
      SliceOfBlock(d, disk, if lb == c.loadedBlk then c.buf else Rd(d, disk, lb, 1, []).value, addr, n);
    }
  }

  /** The range check holds for reads inside one block exactly when they do not hit a sentinel still in place. */
  lemma OneBlockCheckedIff(c: Cache, d: Dev, disk: seq<Byte>, addr: nat, n: nat, beyond: seq<Byte>)
    requires OnDisk(d, disk) && CacheOk(c, d, disk) && |beyond| >= d.blkSize && NoWrap(d, addr, n)
      && OneBlock(d, addr, n)
    ensures (CacheRead(c, d, disk, addr, n, beyond).code == 0 <==> InRange(d, addr, n))
      <==> !(c.loadedBlk == d.nblk && FirstLba(d, addr) == d.nblk)
  {
    OneBlockRead(c, d, disk, addr, n, beyond);
    RangeIsBlocks(d, addr, n);
  }

  /** On a fresh cache over one block of eight bytes, reading the byte just past the device succeeds with garbage. */
  lemma SentinelRead(garbage: Byte)
    ensures var d, disk := Dev(false, false, 0, 8, 1, 1, 0), seq(8, _ => 0 as Byte);
      var c, beyond := Cache(1, seq(8, _ => garbage)), seq(8, _ => 0 as Byte);
      && OnDisk(d, disk) && CacheOk(c, d, disk)
      && CacheRead(c, d, disk, 8, 1, beyond) == Outcome(c, 0, [garbage])
  {
    var d, disk := Dev(false, false, 0, 8, 1, 1, 0), seq(8, _ => 0 as Byte);
    var c, beyond := Cache(1, seq(8, _ => garbage)), seq(8, _ => 0 as Byte);
    assert FirstLba(d, 8) == LastLba(d, 8, 1) == 1 && Offset(d, 8) == 0;
    assert c.buf[0..0 + 1] == [garbage];
  }

  // ----- reads across blocks

  predicate AcrossBlocks(d: Dev, addr: nat, n: nat)
    requires 0 < d.blkSize
  {
    0 < n && FirstLba(d, addr) != LastLba(d, addr, n)
  }

  lemma CountAtLeastOne(d: Dev, n: nat)
    requires 0 < d.blkSize && 0 < n
    ensures 1 <= ReadCount(d, n) && d.blkSize <= d.blkSize * ReadCount(d, n)
  {
    DivUnique(d.blkSize, d.blkSize, 1);
    DivMono(d.blkSize, n + d.blkSize - 1, d.blkSize);
    MulMono(1, ReadCount(d, n), d.blkSize);
  }

  /** The bytes of the read that the blocks it asks for hold. */
  function Covered(d: Dev, addr: nat, n: nat): (k: nat)
    requires 0 < d.blkSize && 0 < n && NoWrap(d, addr, n)
    ensures k <= n && (k == n <==> Offset(d, addr) + n <= d.blkSize * ReadCount(d, n))
  {
    Positions(d, addr, n);
    CountAtLeastOne(d, n);
    Min(n, d.blkSize * ReadCount(d, n) - Offset(d, addr))
  }

  lemma CutAcross(a: seq<Byte>, b: seq<Byte>, off: nat, n: nat)
    requires off <= |a| && off + n <= |a| + |b|
    ensures var k := Min(n, |a| - off); n - k <= |b| && (a + b)[off..off + n] == a[off..off + k] + b[..n - k]
  {
  }

  /**
   What a read across blocks returns: the device's bytes as far as the blocks it asked for go, and then whatever
   follows the scratch buffer. It never touches the cache.
   */
  lemma CrossRead(c: Cache, d: Dev, disk: seq<Byte>, addr: nat, n: nat, beyond: seq<Byte>)
    requires OnDisk(d, disk) && |c.buf| == d.blkSize <= |beyond| && NoWrap(d, addr, n) && AcrossBlocks(d, addr, n)
    ensures var r, k := CacheRead(c, d, disk, addr, n, beyond), Covered(d, addr, n);
      && r.cache == c
      && (r.code == 0 <==> FirstLba(d, addr) + ReadCount(d, n) <= d.nblk)
      && (r.code == 0 ==>
            && FirstBlk(d) * d.blkSize + addr + k <= |disk| && n - k <= |beyond|
            && r.data == Slice(disk, d, addr, k) + beyond[..n - k])
      && (r.code != 0 ==> r.data == [])
  {
    var bs, lb, off, cnt, k := d.blkSize, FirstLba(d, addr), Offset(d, addr), ReadCount(d, n), Covered(d, addr, n);
    Positions(d, addr, n);
    CountAtLeastOne(d, n);
    RdMeaning(d, disk, lb, cnt, []);
    if lb + cnt <= d.nblk {
      var blocks := Rd(d, disk, lb, cnt, []).value;
      assert |blocks| == cnt * bs;
      CutAcross(blocks, beyond, off, n);
      assert blocks[off..off + k] == Slice(disk, d, addr, k);
    }
  }

  /** Whatever follows the scratch buffer, the read delivers the device's bytes. */
  ghost predicate ReadsExactly(c: Cache, d: Dev, disk: seq<Byte>, addr: nat, n: nat)
    requires OnDisk(d, disk) && |c.buf| == d.blkSize && NoWrap(d, addr, n)
  {
    FirstBlk(d) * d.blkSize + addr + n <= |disk| &&
    forall beyond: seq<Byte> :: |beyond| >= d.blkSize ==>
      CacheRead(c, d, disk, addr, n, beyond).data == Slice(disk, d, addr, n)
  }

  /**
   A read across blocks that is let through returns the device's bytes, whatever lies after the scratch buffer,
   exactly when its bytes end inside the blocks it asks for; and then it is let through exactly when it is in range.
   */
  lemma CrossReadExactIff(c: Cache, d: Dev, disk: seq<Byte>, addr: nat, n: nat)
    requires OnDisk(d, disk) && |c.buf| == d.blkSize && NoWrap(d, addr, n) && AcrossBlocks(d, addr, n)
    requires FirstLba(d, addr) + ReadCount(d, n) <= d.nblk
    ensures ReadsExactly(c, d, disk, addr, n) <==> Offset(d, addr) + n <= d.blkSize * ReadCount(d, n)
    ensures Offset(d, addr) + n <= d.blkSize * ReadCount(d, n) ==> InRange(d, addr, n)
  {
    Positions(d, addr, n);
    BlocksNeeded(d, addr, n);
    RangeIsBlocks(d, addr, n);
    if Offset(d, addr) + n <= d.blkSize * ReadCount(d, n) {
      SliceOnDisk(d, disk, addr, n);
      forall beyond: seq<Byte> | |beyond| >= d.blkSize
        ensures CacheRead(c, d, disk, addr, n, beyond).data == Slice(disk, d, addr, n)
      {
        CrossRead(c, d, disk, addr, n, beyond);
      }
    } else {
      var zeros, ones := seq(d.blkSize, _ => 0 as Byte), seq(d.blkSize, _ => 1 as Byte);
      CrossRead(c, d, disk, addr, n, zeros);
      CrossRead(c, d, disk, addr, n, ones);
      var k := Covered(d, addr, n);
      assert CacheRead(c, d, disk, addr, n, zeros).data[k] == 0 && CacheRead(c, d, disk, addr, n, ones).data[k] == 1;
    }
  }

  /** Where the blocks asked for cover the read, the range check refuses exactly the reads that leave the device. */
  lemma CrossCheckedIff(c: Cache, d: Dev, disk: seq<Byte>, addr: nat, n: nat, beyond: seq<Byte>)
    requires OnDisk(d, disk) && |c.buf| == d.blkSize <= |beyond| && NoWrap(d, addr, n) && AcrossBlocks(d, addr, n)
    ensures (CacheRead(c, d, disk, addr, n, beyond).code == 0 <==> InRange(d, addr, n))
      <==> Offset(d, addr) + n <= d.blkSize * ReadCount(d, n) || LastLba(d, addr, n) != d.nblk
  {
    Positions(d, addr, n);
    CrossRead(c, d, disk, addr, n, beyond);
    BlocksNeeded(d, addr, n);
    RangeIsBlocks(d, addr, n);
  }

  // ----- runs

  datatype Request = Request(addr: nat, n: nat, beyond: seq<Byte>)

  predicate LegalRequest(d: Dev, q: Request) {
    NoWrap(d, q.addr, q.n) && |q.beyond| >= d.blkSize
  }

  /** No read, failed or not, leaves a wrong block in the cache, and one of no bytes changes nothing. */
  lemma ReadKeeps(c: Cache, d: Dev, disk: seq<Byte>, q: Request)
    requires OnDisk(d, disk) && CacheOk(c, d, disk) && LegalRequest(d, q)
    ensures CacheOk(CacheRead(c, d, disk, q.addr, q.n, q.beyond).cache, d, disk)
    ensures q.n == 0 ==> CacheRead(c, d, disk, q.addr, q.n, q.beyond) == Outcome(c, 0, [])
  {
    if q.n > 0 {
      if OneBlock(d, q.addr, q.n) {
        OneBlockRead(c, d, disk, q.addr, q.n, q.beyond);
      } else {
        CrossRead(c, d, disk, q.addr, q.n, q.beyond);
      }
    }
  }

  /** The cache after a series of reads. */
  ghost function AfterReads(c: Cache, d: Dev, disk: seq<Byte>, qs: seq<Request>): (c': Cache)
    requires OnDisk(d, disk) && CacheOk(c, d, disk) && forall q :: q in qs ==> LegalRequest(d, q)
    ensures CacheOk(c', d, disk)
  {
    if qs == [] then c
    else
      var before := AfterReads(c, d, disk, qs[..|qs| - 1]);
      var q := qs[|qs| - 1];
      ReadKeeps(before, d, disk, q);
      CacheRead(before, d, disk, q.addr, q.n, q.beyond).cache
  }

  /** After any series of reads, a read the blocks asked for cover agrees with the disk. */
  lemma CacheAgrees(c: Cache, d: Dev, disk: seq<Byte>, qs: seq<Request>, q: Request)
    requires OnDisk(d, disk) && CacheOk(c, d, disk) && (forall r :: r in qs ==> LegalRequest(d, r))
      && LegalRequest(d, q)
    requires 0 < q.n && InRange(d, q.addr, q.n) && Offset(d, q.addr) + q.n <= d.blkSize * ReadCount(d, q.n)
    ensures var r := CacheRead(AfterReads(c, d, disk, qs), d, disk, q.addr, q.n, q.beyond);
      && FirstBlk(d) * d.blkSize + q.addr + q.n <= |disk|
      && r.code == 0 && r.data == Slice(disk, d, q.addr, q.n)
  {
    var c' := AfterReads(c, d, disk, qs);
    if OneBlock(d, q.addr, q.n) {
      OneBlockRead(c', d, disk, q.addr, q.n, q.beyond);
    } else {
      CrossCheckedIff(c', d, disk, q.addr, q.n, q.beyond);
      CrossRead(c', d, disk, q.addr, q.n, q.beyond);
      assert q.beyond[..0] == [];
    }
  }

  /**
   The same through a partition: after any series of reads of the partition, a covered read inside it returns the
   bytes of the whole disk's device, `base` blocks further on.
   */
  lemma PartitionCacheAgrees(d: Dev, base: nat, limit: nat, own: nat, c: Cache, disk: seq<Byte>, qs: seq<Request>,
                             q: Request)
    requires OnDisk(d, disk) && !d.part && base + limit <= d.nblk
    requires var p := PartOf(d, base, limit, own);
      && OnDisk(p, disk) && CacheOk(c, p, disk) && (forall r :: r in qs ==> LegalRequest(p, r)) && LegalRequest(p, q)
      && 0 < q.n && InRange(p, q.addr, q.n) && Offset(p, q.addr) + q.n <= p.blkSize * ReadCount(p, q.n)
    ensures var p := PartOf(d, base, limit, own);
      var r := CacheRead(AfterReads(c, p, disk, qs), p, disk, q.addr, q.n, q.beyond);
      && InRange(d, base * d.blkSize + q.addr, q.n)
      && FirstBlk(d) * d.blkSize + base * d.blkSize + q.addr + q.n <= |disk|
      && r.code == 0 && r.data == Slice(disk, d, base * d.blkSize + q.addr, q.n)
  {
    CacheAgrees(c, PartOf(d, base, limit, own), disk, qs, q);
    PartOnDisk(d, disk, base, limit, own, q.addr, q.n);
  }

  /** Reading two bytes across the first boundary asks for one block and takes the second byte from behind it. */
  lemma CrossReadMisses(c: Cache, disk: seq<Byte>, beyond: seq<Byte>)
    requires |c.buf| == 512 && |disk| == 1024 && |beyond| == 512
    ensures var d := Dev(false, false, 0, 512, 2, 1, 0);
      && OnDisk(d, disk) && AcrossBlocks(d, 511, 2) && InRange(d, 511, 2)
      && CacheRead(c, d, disk, 511, 2, beyond) == Outcome(c, 0, [disk[511], beyond[0]])
  {
    var d := Dev(false, false, 0, 512, 2, 1, 0);
    assert FirstLba(d, 511) == 0 && LastLba(d, 511, 2) == 1 && Offset(d, 511) == 511 && ReadCount(d, 2) == 1;
    CrossRead(c, d, disk, 511, 2, beyond);
    assert Covered(d, 511, 2) == 1;
  }

  // ----- the cache in place

  class BlockCache {
    const dev: Dev
    const buf: array<Byte>
    var loadedBlk: nat

    ghost function Abs(): Cache
      reads this, buf
    {
      Cache(loadedBlk, buf[..])
    }

    /** `blk_cache_create`; the buffer comes from the heap as it is. */
    constructor (dev: Dev, buf: array<Byte>, ghost disk: seq<Byte>)
      requires OnDisk(dev, disk) && buf.Length == dev.blkSize
      ensures this.dev == dev && this.buf == buf && CacheOk(Abs(), dev, disk)
    {
      this.dev, this.buf, loadedBlk := dev, buf, dev.nblk;
    }

    /** The bytes of `src` from `off` on, copied to `dst`: `ku_memcpy`. */
    method Copy(dst: array<Byte>, src: array<Byte>, off: nat, n: nat)
      requires dst != src && n <= dst.Length && off + n <= src.Length
      modifies dst
      ensures dst[..n] == src[off..off + n] && dst[n..] == old(dst[n..])
    {
      forall i | 0 <= i < n {
        dst[i] := src[off + i];
      }
    }

    /** The scratch buffer `kheap_alloc` gives, and what follows it in memory. */
    method Scratch(size: nat, beyond: seq<Byte>) returns (a: array<Byte>)
      ensures fresh(a) && a.Length == size + |beyond| && a[size..] == beyond
    {
      a := new Byte[size + |beyond|](i requires 0 <= i < size + |beyond| => if i < size then 0 else beyond[i - size]);
    }

    /** A read across blocks: a scratch buffer, and no caching. */
    method ReadAcross(disk: seq<Byte>, dst: array<Byte>, addr: nat, n: nat, beyond: seq<Byte>) returns (code: nat)
      requires OnDisk(dev, disk) && buf.Length == dev.blkSize <= |beyond| && NoWrap(dev, addr, n)
      requires AcrossBlocks(dev, addr, n) && n <= dst.Length && dst != buf
      modifies dst
      ensures var r := CacheRead(Abs(), dev, disk, addr, n, beyond);
        code == r.code && dst[..n] == if code == 0 then r.data else old(dst[..n])
      ensures dst[n..] == old(dst[n..])
    {
      Positions(dev, addr, n);
      var rdBlkCnt := (n + dev.blkSize - 1) / dev.blkSize;
      RdMeaning(dev, disk, addr / dev.blkSize, rdBlkCnt, []);
      var rdBuf := Scratch(rdBlkCnt * dev.blkSize, beyond);
      code := RdInto(dev, disk, rdBuf, addr / dev.blkSize, rdBlkCnt, []);
      if code != 0 {
        return 1;
      }
      assert rdBuf[..] == rdBuf[..rdBlkCnt * dev.blkSize] + rdBuf[rdBlkCnt * dev.blkSize..];
      Copy(dst, rdBuf, addr % dev.blkSize, n);
    }

    /** A read inside one block, through the buffer. */
    method ReadBuffered(disk: seq<Byte>, dst: array<Byte>, addr: nat, n: nat,
                        ghost beyond: seq<Byte>) returns (code: nat)
      requires OnDisk(dev, disk) && buf.Length == dev.blkSize <= |beyond| && NoWrap(dev, addr, n)
      requires OneBlock(dev, addr, n) && n <= dst.Length && dst != buf
      modifies this`loadedBlk, buf, dst
      ensures var r := CacheRead(old(Abs()), dev, disk, addr, n, beyond);
        code == r.code && Abs() == r.cache && dst[..n] == if code == 0 then r.data else old(dst[..n])
      ensures dst[n..] == old(dst[n..])
    {
      Positions(dev, addr, n);
      var lbaLb := addr / dev.blkSize;
      RdMeaning(dev, disk, lbaLb, 1, []);
      if lbaLb != loadedBlk {
        code := RdInto(dev, disk, buf, lbaLb, 1, []);
        if code != 0 {
          return 1;
        }
        loadedBlk := lbaLb;
      }
      Copy(dst, buf, addr % dev.blkSize, n);
      code := 0;
    }

    /** `blk_cache_rd` with a driver that succeeds and a heap that has room. */
    method Read(disk: seq<Byte>, dst: array<Byte>, addr: nat, n: nat, beyond: seq<Byte>) returns (code: nat)
      requires OnDisk(dev, disk) && buf.Length == dev.blkSize <= |beyond| && NoWrap(dev, addr, n)
      requires n <= dst.Length && dst != buf
      modifies this`loadedBlk, buf, dst
      ensures var r := CacheRead(old(Abs()), dev, disk, addr, n, beyond);
        code == r.code && Abs() == r.cache && dst[..n] == if code == 0 then r.data else old(dst[..n])
      ensures dst[n..] == old(dst[n..])
    {
      if n == 0 {
        return 0;
      }
      var lbaLb := addr / dev.blkSize;
      var lbaUb := (addr + n - 1) / dev.blkSize;
      if lbaLb != lbaUb {
        code := ReadAcross(disk, dst, addr, n, beyond);
      } else {
        code := ReadBuffered(disk, dst, addr, n, beyond);
      }
    }
  }
}
