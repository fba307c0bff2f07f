/** kheap.c on values: the list of headers the search walks and the addresses it computes in 64-bit arithmetic. */
module HeapSpec {
  import opened Common

  const KH_START: nat := 0xffff_fbbb_0000_0000
  const KH_MAX_NPAGES: nat := 0x40000
  const HDR: nat := 16

  /** A header at `addr` and the `size` bytes of data after it. */
  datatype Block = Block(addr: nat, size: nat)

  /** The linked list from `kh_head` to `kh_tail`, and the pages mapped. */
  datatype Heap = Heap(blocks: seq<Block>, npages: nat)

  function HeapEnd(h: Heap): nat {
    KH_START + PAGE_SIZE * h.npages
  }

  /** `kheap_init`: one page holding a dummy entry. */
  const INITIAL_HEAP: Heap := Heap([Block(KH_START, 0)], 1)

  // ----- the search as written

  /** The end of a block in a 64-bit register. */
  function EndReg(b: Block): nat {
    Wrap64(b.addr + HDR + b.size)
  }

  /** The candidate `find_free` derives from an entry. */
  function Candidate(b: Block): nat {
    Wrap64(EndReg(b) + HDR - EndReg(b) % HDR)
  }

  /** One round of `is_free`. */
  predicate Clears(h: Heap, b: Block, base: nat, limit: nat) {
    !(Wrap64(base + limit) > HeapEnd(h)) && !(base < EndReg(b) && Wrap64(base + limit) > b.addr)
  }

  predicate IsFree(h: Heap, base: nat, limit: nat) {
    forall i :: 0 <= i < |h.blocks| ==> Clears(h, h.blocks[i], base, limit)
  }

  /** `find_free` from entry `i` on. */
  function FindFrom(h: Heap, n: nat, i: nat): Option<nat>
    requires i <= |h.blocks|
    decreases |h.blocks| - i
  {
    if i == |h.blocks| then None
    else if IsFree(h, Candidate(h.blocks[i]), Wrap64(HDR + n)) then Some(Candidate(h.blocks[i]))
    else FindFrom(h, n, i + 1)
  }

  function FindFree(h: Heap, n: nat): Option<nat> {
    FindFrom(h, n, 0)
  }

  /** The header written and linked at the tail. */
  function Append(h: Heap, addr: nat, n: nat): Heap {
    h.(blocks := h.blocks + [Block(addr, n)])
  }

  // ----- the bump allocator it is

  function End(b: Block): nat {
    b.addr + HDR + b.size
  }

  /** The first multiple of 16 strictly above the end of a block. */
  function Above(b: Block): nat {
    End(b) + HDR - End(b) % HDR
  }

  /** Each entry sits right above its predecessor and all lie in the mapped pages. */
  ghost predicate Bump(h: Heap) {
    && 0 < |h.blocks| && h.blocks[0] == Block(KH_START, 0)
    && (forall i :: 0 < i < |h.blocks| ==> h.blocks[i].addr == Above(h.blocks[i - 1]))
    && (forall i :: 0 <= i < |h.blocks| ==> End(h.blocks[i]) <= HeapEnd(h))
    && 1 <= h.npages <= KH_MAX_NPAGES
  }

  /** Where the next block goes. */
  function Top(h: Heap): nat
    requires 0 < |h.blocks|
  {
    Above(h.blocks[|h.blocks| - 1])
  }

  /** The pages from the start of the heap that hold every address below `limit`. */
  function PagesUpTo(limit: nat): nat {
    if limit <= KH_START then 0 else (limit - KH_START + PAGE_SIZE - 1) / PAGE_SIZE
  }

  /** The pages the heap must have for a block of `n` bytes at the top. */
  function Need(h: Heap, n: nat): nat
    requires 0 < |h.blocks|
  {
    PagesUpTo(Top(h) + HDR + n)
  }

  lemma InitialBump()
    ensures Bump(INITIAL_HEAP)
  {
  }

  /** Entries are 16-aligned, at or above the start, and in ascending order without touching. */
  lemma {:induction false} Ascending(h: Heap, i: nat, j: nat)
    requires Bump(h) && i < j < |h.blocks|
    ensures End(h.blocks[i]) < h.blocks[j].addr
    decreases j
  {
    if i < j - 1 {
      Ascending(h, i, j - 1);
    }
  }

  lemma AboveAligned(b: Block)
    ensures Above(b) % HDR == 0 && End(b) < Above(b) <= End(b) + HDR
  {
  }

  lemma {:induction false} Aligned(h: Heap, i: nat)
    requires Bump(h) && i < |h.blocks|
    ensures h.blocks[i].addr % HDR == 0 && KH_START <= h.blocks[i].addr
    decreases i
  {
    if i > 0 {
      Aligned(h, i - 1);
      AboveAligned(h.blocks[i - 1]);
    }
  }

  /**
   Where blocks lie, by address: a header of 16 bytes at the first multiple of 16 above the end of the block before it,
   everything between the start of the heap and the end of its last page.
   */
  lemma BlockPlaces(h: Heap, i: nat)
    requires Bump(h) && 0 < i <= |h.blocks|
    ensures var addr, end := (if i == |h.blocks| then Top(h) else h.blocks[i].addr),
        h.blocks[i - 1].addr + 16 + h.blocks[i - 1].size;
      addr % 16 == 0 && end < addr <= end + 16 && end <= 0xffff_fbbb_0000_0000 + 4096 * h.npages
    ensures h.blocks[0] == Block(0xffff_fbbb_0000_0000, 0) && 1 <= h.npages <= 0x4_0000
  {
    var b := h.blocks[i - 1];
    assert End(b) <= HeapEnd(h);
    assert i < |h.blocks| ==> h.blocks[i].addr == Above(b);
  }

  /** Header and data of different blocks never overlap, and every block lies in the mapped pages. */
  lemma BlocksDisjoint(h: Heap, i: nat, j: nat)
    requires Bump(h) && i < |h.blocks| && j < |h.blocks| && i != j
    ensures End(h.blocks[i]) <= h.blocks[j].addr || End(h.blocks[j]) <= h.blocks[i].addr
    ensures KH_START <= h.blocks[i].addr && End(h.blocks[i]) <= HeapEnd(h) && h.blocks[i].addr % HDR == 0
  {
    Aligned(h, i);
    if i < j {
      Ascending(h, i, j);
    } else {
      Ascending(h, j, i);
    }
  }

  /** In a bump heap no register wraps before the request does. */
  lemma NoWrapBelow(h: Heap, i: nat)
    requires Bump(h) && i < |h.blocks|
    ensures EndReg(h.blocks[i]) == End(h.blocks[i]) && Candidate(h.blocks[i]) == Above(h.blocks[i])
    ensures HeapEnd(h) + HDR < TWO64
  {
    AboveAligned(h.blocks[i]);
  }

  /** The sum `is_free` forms, in a 64-bit register. */
  lemma LimitReg(base: nat, n: nat)
    requires base + HDR < TWO64 && n < TWO64
    ensures Wrap64(base + Wrap64(HDR + n)) == if base + HDR + n < TWO64 then base + HDR + n else base + HDR + n - TWO64
  {
    WrapOnce(HDR + n);
    WrapOnce(base + Wrap64(HDR + n));
  }

  /**
   The candidate after an entry that has a successor is the successor's own address; `is_free` lets it through
   exactly when the sum wraps to that address or below.
   */
  lemma InnerFreeIff(h: Heap, n: nat, i: nat)
    requires Bump(h) && i + 1 < |h.blocks| && n < TWO64
    ensures Candidate(h.blocks[i]) == h.blocks[i + 1].addr
    ensures IsFree(h, Candidate(h.blocks[i]), Wrap64(HDR + n)) <==> HDR + n <= TWO64 <= h.blocks[i + 1].addr + HDR + n
  {
    NoWrapBelow(h, i);
    NoWrapBelow(h, i + 1);
    LimitReg(h.blocks[i + 1].addr, n);
    if HDR + n <= TWO64 <= h.blocks[i + 1].addr + HDR + n {
      forall k | 0 <= k < |h.blocks| ensures Clears(h, h.blocks[k], h.blocks[i + 1].addr, Wrap64(HDR + n)) {
        NoWrapBelow(h, k);
        if k <= i {
          Ascending(h, k, i + 1);
        } else if i + 1 < k {
          Ascending(h, i + 1, k);
        }
      }
    } else {
      assert !Clears(h, h.blocks[i + 1], h.blocks[i + 1].addr, Wrap64(HDR + n));
    }
  }

  /** The candidate after the tail is free exactly when it fits in the mapped pages. */
  lemma TopCandidate(h: Heap, n: nat)
    requires Bump(h) && Top(h) + HDR + n < TWO64
    ensures IsFree(h, Candidate(h.blocks[|h.blocks| - 1]), Wrap64(HDR + n)) <==> Top(h) + HDR + n <= HeapEnd(h)
  {
    var last := |h.blocks| - 1;
    NoWrapBelow(h, last);
    assert Wrap64(HDR + n) == HDR + n && Wrap64(Top(h) + (HDR + n)) == Top(h) + HDR + n;
    forall i | 0 <= i < |h.blocks|
      ensures Clears(h, h.blocks[i], Top(h), HDR + n) <==> Top(h) + HDR + n <= HeapEnd(h)
    {
      NoWrapBelow(h, i);
      AboveAligned(h.blocks[last]);
      if i < last {
        Ascending(h, i, last);
      }
    }
    assert Clears(h, h.blocks[0], Top(h), HDR + n) <==> Top(h) + HDR + n <= HeapEnd(h);
  }

  lemma BelowTop(h: Heap, i: nat)
    requires Bump(h) && i < |h.blocks|
    ensures h.blocks[i].addr < Top(h)
  {
    AboveAligned(h.blocks[|h.blocks| - 1]);
    if i < |h.blocks| - 1 {
      Ascending(h, i, |h.blocks| - 1);
    }
  }

  /** Every block ends at or below the top. */
  lemma EndsBelowTop(h: Heap, i: nat)
    requires Bump(h) && i < |h.blocks|
    ensures End(h.blocks[i]) <= Top(h)
  {
    var last := |h.blocks| - 1;
    AboveAligned(h.blocks[last]);
    if i < last {
      Ascending(h, i, last);
    }
  }

  /** The quadratic search finds the top of the heap or nothing, for every request that does not wrap. */
  lemma {:induction false} FindFromIsBump(h: Heap, n: nat, i: nat)
    requires Bump(h) && Top(h) + HDR + n < TWO64 && i < |h.blocks|
    ensures FindFrom(h, n, i) == if Top(h) + HDR + n <= HeapEnd(h) then Some(Top(h)) else None
    decreases |h.blocks| - i
  {
    if i + 1 < |h.blocks| {
      BelowTop(h, i + 1);
      InnerFreeIff(h, n, i);
      FindFromIsBump(h, n, i + 1);
    } else {
      NoWrapBelow(h, i);
      TopCandidate(h, n);
    }
  }

  /** The top is no entry's address. */
  lemma AboveAll(h: Heap)
    requires Bump(h)
    ensures 0 < Top(h) && forall i :: 0 <= i < |h.blocks| ==> h.blocks[i].addr != Top(h)
  {
    forall i | 0 <= i < |h.blocks| ensures h.blocks[i].addr < Top(h) {
      BelowTop(h, i);
    }
  }

  lemma TopSmall(h: Heap)
    requires Bump(h)
    ensures Top(h) <= KH_START + PAGE_SIZE * KH_MAX_NPAGES + HDR
  {
    AboveAligned(h.blocks[|h.blocks| - 1]);
  }

  /** The candidate after the tail, when the request wraps: only the wrapped sum is compared with the heap's end. */
  lemma TopWraps(h: Heap, n: nat)
    requires Bump(h) && n < TWO64 <= Top(h) + HDR + n
    ensures IsFree(h, Candidate(h.blocks[|h.blocks| - 1]), Wrap64(HDR + n)) <==> Top(h) + HDR + n - TWO64 <= HeapEnd(h)
  {
    var last := |h.blocks| - 1;
    NoWrapBelow(h, last);
    TopSmall(h);
    LimitReg(Top(h), n);
    forall i | 0 <= i < |h.blocks|
      ensures Clears(h, h.blocks[i], Top(h), Wrap64(HDR + n)) <==> Top(h) + HDR + n - TWO64 <= HeapEnd(h)
    {
      NoWrapBelow(h, i);
      EndsBelowTop(h, i);
    }
    assert Clears(h, h.blocks[0], Top(h), Wrap64(HDR + n)) <==> Top(h) + HDR + n - TWO64 <= HeapEnd(h);
  }

  /** The address of a block handed out before. */
  ghost predicate InUse(h: Heap, addr: nat) {
    exists i :: 0 < i < |h.blocks| && h.blocks[i].addr == addr
  }

  /** A request that wraps at the last block's address: the search stops at a block in use. */
  predicate HitsBlock(h: Heap, n: nat) {
    |h.blocks| > 1 && HDR + n <= TWO64 <= h.blocks[|h.blocks| - 1].addr + HDR + n
  }

  lemma {:induction false} FindFromPast(h: Heap, n: nat, i: nat)
    requires Bump(h) && n < TWO64 <= Top(h) + HDR + n && i < |h.blocks|
    ensures i + 1 < |h.blocks| && HitsBlock(h, n) ==> FindFrom(h, n, i).Some? && InUse(h, FindFrom(h, n, i).value)
    ensures !(i + 1 < |h.blocks| && HitsBlock(h, n)) ==>
      FindFrom(h, n, i) == if Top(h) + HDR + n - TWO64 <= HeapEnd(h) then Some(Top(h)) else None
    decreases |h.blocks| - i
  {
    if i + 1 < |h.blocks| {
      InnerFreeIff(h, n, i);
      if i + 2 < |h.blocks| {
        Ascending(h, i + 1, |h.blocks| - 1);
      }
      FindFromPast(h, n, i + 1);
    } else {
      NoWrapBelow(h, i);
      TopWraps(h, n);
    }
  }

  /**
   What the search returns is new exactly unless the sum of the last block's address and the request wraps: then it
   hands out a block that is in use.
   */
  lemma FoundIsNewIff(h: Heap, n: nat)
    requires Bump(h) && n < TWO64 && FindFree(h, n).Some?
    ensures InUse(h, FindFree(h, n).value) <==> HitsBlock(h, n)
    ensures !HitsBlock(h, n) ==> FindFree(h, n).value == Top(h)
  {
    forall i | 0 < i < |h.blocks| ensures h.blocks[i].addr < Top(h) {
      BelowTop(h, i);
    }
    if Top(h) + HDR + n < TWO64 {
      FindFromIsBump(h, n, 0);
    } else {
      FindFromPast(h, n, 0);
    }
  }

  /** Past the bound every address found leaves the address space. */
  lemma {:induction false} PastIsHigh(h: Heap, n: nat, i: nat)
    requires Bump(h) && n < TWO64 <= Top(h) + HDR + n && i < |h.blocks| && FindFrom(h, n, i).Some?
    ensures FindFrom(h, n, i).value + HDR + n >= TWO64 > HeapEnd(h)
    decreases |h.blocks| - i
  {
    NoWrapBelow(h, i);
    if i + 1 < |h.blocks| {
      InnerFreeIff(h, n, i);
      if FindFrom(h, n, i) == FindFrom(h, n, i + 1) {
        PastIsHigh(h, n, i + 1);
      }
    } else {
      TopWraps(h, n);
    }
  }

  /**
   When the search succeeds, the block it returns lies in the mapped pages exactly when the request does not wrap
   a 64-bit register at the top of the heap; past that bound it returns addresses whose block does not fit.
   */
  lemma FoundFitsIff(h: Heap, n: nat)
    requires Bump(h) && n < TWO64 && FindFree(h, n).Some?
    ensures FindFree(h, n).value + HDR + n <= HeapEnd(h) <==> Top(h) + HDR + n < TWO64
  {
    if Top(h) + HDR + n < TWO64 {
      FindFromIsBump(h, n, 0);
    } else {
      FindFromPast(h, n, 0);
      PastIsHigh(h, n, 0);
    }
  }

  /** The largest request that wraps in no heap. */
  const MAX_REQUEST: nat := TWO64 - KH_START - PAGE_SIZE * KH_MAX_NPAGES - 2 * HDR - 1

  /** What a caller can check: a request up to the maximum wraps in no heap. */
  lemma RequestBound(h: Heap, n: nat)
    requires Bump(h) && n <= MAX_REQUEST
    ensures Top(h) + HDR + n < TWO64
  {
    TopSmall(h);
  }

  /** On the initial heap a huge request is given the 32 bytes behind the dummy entry. */
  lemma HugeIsFound()
    ensures var n := TWO64 - HDR - 0x1_0000; Bump(INITIAL_HEAP) && FindFree(INITIAL_HEAP, n) == Some(KH_START + 32)
  {
    FindFromPast(INITIAL_HEAP, TWO64 - HDR - 0x1_0000, 0);
  }

  /** With one block of 100 bytes allocated, the same request is given that block. */
  lemma HugeOverlaps()
    ensures var h, n := Heap([Block(KH_START, 0), Block(KH_START + 32, 100)], 1), TWO64 - HDR - 0x1_0000;
      Bump(h) && FindFree(h, n) == Some(h.blocks[1].addr)
  {
    var h, n := Heap([Block(KH_START, 0), Block(KH_START + 32, 100)], 1), TWO64 - HDR - 0x1_0000;
    assert Above(h.blocks[0]) == KH_START + 32;
    FindFromPast(h, n, 0);
  }

  /** A block at the top keeps the heap a bump heap. */
  lemma AppendKeeps(h: Heap, n: nat)
    requires Bump(h) && Top(h) + HDR + n <= HeapEnd(h)
    ensures Bump(Append(h, Top(h), n)) && Top(h) < Top(Append(h, Top(h), n))
  {
    AboveAligned(Block(Top(h), n));
  }

  /** One page more is what the need counts. */
  lemma FitsIff(h: Heap, n: nat)
    requires Bump(h)
    ensures Top(h) + HDR + n <= HeapEnd(h) <==> Need(h, n) <= h.npages
  {
    Aligned(h, |h.blocks| - 1);
    AboveAligned(h.blocks[|h.blocks| - 1]);
  }
}
