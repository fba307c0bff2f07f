/**
 kheap.c's headers where the code keeps them: two words of heap memory each, written and read through the pages the
 heap has mapped.
 */
module HeapHeaders {
  import opened Common
  import PmmSpec
  import opened PageTables
  import opened PageRuns
  import opened PageData
  import opened VmmSpec
  import opened HeapSpec
  import opened HeapGrowth

  /** A sound heap on a machine whose frames the processor can address. */
  ghost predicate Addressed(g: PmmSpec.Geometry, root: nat, k: Kernel) {
    HeapOk(g, root, k) && PhysSmall(g)
  }

  predicate InHeap(h: Heap, va: nat) {
    KH_START <= va < HeapEnd(h) && va % 8 == 0
  }

  /** The page of the heap an address lies in. */
  function PageNoOf(va: nat): nat
    requires KH_START <= va
  {
    (va - KH_START) / PAGE_SIZE
  }

  lemma PagePlus(n: nat, off: nat)
    requires off < PAGE_SIZE
    ensures (PAGE_SIZE * n + off) / PAGE_SIZE == n && PAGE_SIZE * n / PAGE_SIZE == n
  {
  }

  lemma HeapPage(h: Heap, root: nat, va: nat)
    requires InHeap(h, va)
    ensures PageNoOf(va) < h.npages && PagePath(root, va) == PagePath(root, PageVa(PageNoOf(va)))
  {
    var n, off := PageNoOf(va), (va - KH_START) % PAGE_SIZE;
    assert va == KH_START + PAGE_SIZE * n + off;
    PagePlus(KH_START / PAGE_SIZE + n, off);
    SamePage(root, va, PageVa(n));
  }

  lemma SmallEntry(f: nat)
    requires f % PAGE_SIZE == 0 && f < 0x10_0000_0000_0000
    ensures PhysFrame(MakeEntry(f, WRITE_FLAGS)) == f / PAGE_SIZE && PAGE_SIZE * (f / PAGE_SIZE) == f
  {
    WriteFlagsOk();
    EntryFacts(f, WRITE_FLAGS);
  }

  /** The frame behind an address of the heap. */
  function FrameAt(k: Kernel, va: nat): nat
    requires KH_START <= va && PageNoOf(va) < |k.frames|
  {
    k.frames[PageNoOf(va)] / PAGE_SIZE
  }

  /** Every address of the heap is mapped writable, to owned data. */
  lemma HeapWord(g: PmmSpec.Geometry, root: nat, k: Kernel, va: nat)
    requires Addressed(g, root, k) && InHeap(k.h, va)
    ensures PageNoOf(va) < |k.frames| && PAGE_SIZE * FrameAt(k, va) == k.frames[PageNoOf(va)]
    ensures var q := PagePath(root, va);
      && q in k.am && Writable(k.am[q]) && PhysFrame(k.am[q]) == FrameAt(k, va)
      && DataFrame(k.w, FrameAt(k, va)) && PageIn(k.w, q)
  {
    var n := PageNoOf(va);
    HeapPage(k.h, root, va);
    HeapVa(n);
    PmmSpec.FrameFacts(g, k.frames[n]);
    SmallEntry(k.frames[n]);
    WriteFlagsOk();
    EntryFacts(k.frames[n], WRITE_FLAGS);
  }

  /** Stores to the heap are legal. */
  lemma HeapStoreLegal(g: PmmSpec.Geometry, root: nat, k: Kernel, va: nat, word: nat)
    requires Addressed(g, root, k) && InHeap(k.h, va)
    ensures Legal(k.w, StoreOp(root, va, word))
  {
    HeapWord(g, root, k, va);
    PageWritableIff(k.w, PagePath(root, va));
  }

  lemma FromStart(va: nat)
    requires KH_START <= va
    ensures va % PAGE_SIZE == (va - KH_START) % PAGE_SIZE
  {
    var n, off := PageNoOf(va), (va - KH_START) % PAGE_SIZE;
    DivMod(va - KH_START, PAGE_SIZE);
    PagePlus(KH_START / PAGE_SIZE + n, off);
    DivMod(va, PAGE_SIZE);
  }

  lemma EightTimes(x: int)
    ensures 8 * x % 8 == 0
  {
  }

  lemma WordAligned(va: nat)
    requires va % 8 == 0
    ensures va % PAGE_SIZE % 8 == 0
  {
    DivMod(va, PAGE_SIZE);
    EightTimes(va / 8 - 512 * (va / PAGE_SIZE));
  }

  lemma Eighths(a: nat, b: nat)
    requires a % 8 == 0 && b % 8 == 0 && a != b
    ensures a / 8 != b / 8
  {
  }

  lemma WordsInPage(va: nat, vb: nat)
    requires KH_START <= va && KH_START <= vb && PageNoOf(va) == PageNoOf(vb) && va != vb
    requires va % 8 == 0 && vb % 8 == 0
    ensures WordOf(va) != WordOf(vb)
  {
    FromStart(va);
    FromStart(vb);
    DivMod(va - KH_START, PAGE_SIZE);
    DivMod(vb - KH_START, PAGE_SIZE);
    WordAligned(va);
    WordAligned(vb);
    Eighths(va % PAGE_SIZE, vb % PAGE_SIZE);
  }

  /** Different words of the heap are different words of memory. */
  lemma WordsApart(g: PmmSpec.Geometry, root: nat, k: Kernel, va: nat, vb: nat)
    requires Addressed(g, root, k) && InHeap(k.h, va) && InHeap(k.h, vb) && va != vb
    ensures PageNoOf(va) < |k.frames| && PageNoOf(vb) < |k.frames|
    ensures FrameAt(k, va) != FrameAt(k, vb) || WordOf(va) != WordOf(vb)
  {
    HeapWord(g, root, k, va);
    HeapWord(g, root, k, vb);
    if PageNoOf(va) == PageNoOf(vb) {
      WordsInPage(va, vb);
    }
  }

  // ----- what the heap's own calls and others do to words of the heap

  /** An operation that leaves a word and its page alone leaves what is loaded from it. */
  lemma OpLoads(g: PmmSpec.Geometry, root: nat, k: Kernel, op: Op, va: nat)
    requires Addressed(g, root, k) && InHeap(k.h, va) && Legal(k.w, op) && MapsWritable(op)
    requires !Touches(op, PagePath(root, va)) && PageNoOf(va) < |k.frames|
    requires LeavesWord(k.w, op, FrameAt(k, va), WordOf(va))
    ensures Load(Step(g, k.w, op).mem, root, va) == Load(k.w.mem, root, va)
  {
    HeapWord(g, root, k, va);
    LoadStep(g, k.w, k.am, op, root, va);
  }

  lemma AddPageLoads(g: PmmSpec.Geometry, root: nat, k: Kernel, va: nat)
    requires Addressed(g, root, k) && InHeap(k.h, va)
    requires k.h.npages < KH_MAX_NPAGES && Legal(k.w, MapPage(root, k.h.npages))
    ensures Load(AddPage(g, root, k).w.mem, root, va) == Load(k.w.mem, root, va)
  {
    var n := PageNoOf(va);
    HeapPage(k.h, root, va);
    HeapDistinct(root);
    HeapVa(n);
    HeapVa(k.h.npages);
    WriteFlagsOk();
    AddPageParts(g, root, k);
    OpLoads(g, root, k, MapPage(root, k.h.npages), va);
  }

  lemma {:induction false} GrowLoads(g: PmmSpec.Geometry, root: nat, k: Kernel, n: nat, va: nat)
    requires Addressed(g, root, k) && InHeap(k.h, va) && LegalGrow(g, root, k, n)
    ensures Load(Grow(g, root, k, n).0.w.mem, root, va) == Load(k.w.mem, root, va)
    decreases KH_MAX_NPAGES - k.h.npages
  {
    AllocFails(g, k.w);
    if k.h.npages < KH_MAX_NPAGES && 0 < PmmSpec.Avail(k.w.pool) {
      var k1 := GrownOnce(g, root, k, n);
      AddPageLoads(g, root, k, va);
      if FindFree(k1.h, n).None? {
        GrowLoads(g, root, k1, n, va);
      }
    }
  }

  lemma AllocLoads(g: PmmSpec.Geometry, root: nat, k: Kernel, n: nat, va: nat)
    requires Addressed(g, root, k) && InHeap(k.h, va) && LegalAlloc(g, root, k, n)
    ensures Load(HeapAlloc(g, root, k, n).0.w.mem, root, va) == Load(k.w.mem, root, va)
  {
    if FindFree(k.h, n).None? {
      GrowLoads(g, root, k, n, va);
    }
  }

  /** A word written to the heap. */
  function Write(k: Kernel, root: nat, va: nat, word: nat): (k': Kernel)
    ensures k'.h == k.h && k'.frames == k.frames && k'.am == k.am
  {
    k.(w := Store(k.w, root, va, word))
  }

  lemma WriteHeap(g: PmmSpec.Geometry, root: nat, k: Kernel, va: nat, word: nat)
    requires Addressed(g, root, k) && InHeap(k.h, va)
    ensures Addressed(g, root, Write(k, root, va, word)) && Write(k, root, va, word).h == k.h
    ensures Load(Write(k, root, va, word).w.mem, root, va) == Some(word)
  {
    HeapStoreLegal(g, root, k, va, word);
    OtherBacks(g, k.w, k.am, root, HeapRange(), k.frames, StoreOp(root, va, word));
    LoadAfterStore(g, k.w, k.am, root, va, word, root, va);
  }

  lemma WriteElsewhere(g: PmmSpec.Geometry, root: nat, k: Kernel, va: nat, word: nat, vb: nat)
    requires Addressed(g, root, k) && InHeap(k.h, va) && InHeap(k.h, vb) && va != vb
    ensures Load(Write(k, root, va, word).w.mem, root, vb) == Load(k.w.mem, root, vb)
  {
    HeapStoreLegal(g, root, k, va, word);
    HeapWord(g, root, k, va);
    HeapWord(g, root, k, vb);
    WordsApart(g, root, k, va, vb);
    LoadAfterStore(g, k.w, k.am, root, va, word, root, vb);
  }

  // ----- the list, for any way of reading words

  /** What is read at each address. */
  type Reads = nat -> Option<nat>

  /** The words of memory, read through the map. */
  function Reader(root: nat, mem: Memory): Reads {
    va => Load(mem, root, va)
  }

  ghost predicate SameReads(rd: Reads, rd': Reads, h: Heap) {
    forall v :: InHeap(h, v) ==> rd'(v) == rd(v)
  }

  /** One word of the heap has been written. */
  ghost predicate Wrote(rd: Reads, rd': Reads, h: Heap, va: nat, word: nat) {
    rd'(va) == Some(word) && forall v :: InHeap(h, v) && v != va ==> rd'(v) == rd(v)
  }

  /** The `next` field of entry `i`: the address of the entry behind it, or NULL. */
  function NextOf(h: Heap, i: nat): nat
    requires i < |h.blocks|
  {
    if i + 1 < |h.blocks| then h.blocks[i + 1].addr else 0
  }

  /** The two words of entry `i` hold its `struct kh_ent`. */
  predicate HeaderAt(rd: Reads, h: Heap, i: nat)
    requires i < |h.blocks|
  {
    rd(h.blocks[i].addr) == Some(NextOf(h, i)) && rd(h.blocks[i].addr + 8) == Some(h.blocks[i].size)
  }

  /** The headers link the blocks in order and hold their sizes. */
  ghost predicate HeadersOf(rd: Reads, h: Heap) {
    forall i :: 0 <= i < |h.blocks| ==> HeaderAt(rd, h, i)
  }

  lemma HeaderInHeap(h: Heap, i: nat)
    requires Bump(h) && i < |h.blocks|
    ensures InHeap(h, h.blocks[i].addr) && InHeap(h, h.blocks[i].addr + 8)
  {
    Aligned(h, i);
  }

  /** Headers do not overlap. */
  lemma HeadersApart(h: Heap, i: nat, j: nat)
    requires Bump(h) && i < |h.blocks| && j < |h.blocks| && i != j
    ensures h.blocks[i].addr + 8 < h.blocks[j].addr || h.blocks[j].addr + 8 < h.blocks[i].addr
  {
    BlocksDisjoint(h, i, j);
  }

  lemma HeadersSame(rd: Reads, rd': Reads, h: Heap)
    requires Bump(h) && SameReads(rd, rd', h) && HeadersOf(rd, h)
    ensures HeadersOf(rd', h)
  {
    forall i | 0 <= i < |h.blocks| ensures HeaderAt(rd', h, i) {
      HeaderInHeap(h, i);
      assert HeaderAt(rd, h, i);
    }
  }

  /** A list with one block more at its end. */
  predicate OneMore(h: Heap, h': Heap) {
    0 < |h.blocks| && |h'.blocks| == |h.blocks| + 1 && h'.blocks[..|h.blocks|] == h.blocks
  }

  lemma OldEntry(h: Heap, h': Heap, i: nat)
    requires OneMore(h, h') && i < |h.blocks|
    ensures h'.blocks[i] == h.blocks[i]
  {
    assert h'.blocks[i] == h'.blocks[..|h.blocks|][i];
  }

  lemma OldEntryStays(rd: Reads, rd': Reads, h: Heap, h': Heap, i: nat)
    requires Bump(h') && OneMore(h, h') && i + 1 < |h.blocks| && HeaderAt(rd, h, i)
    requires var last := |h.blocks|;
      forall v :: InHeap(h', v) && v !in {h'.blocks[last].addr, h'.blocks[last].addr + 8, h.blocks[last - 1].addr} ==>
        rd'(v) == rd(v)
    ensures HeaderAt(rd', h', i)
  {
    var last := |h.blocks|;
    OldEntry(h, h', i);
    OldEntry(h, h', i + 1);
    OldEntry(h, h', last - 1);
    HeaderInHeap(h', i);
    HeadersApart(h', i, last);
    HeadersApart(h', i, last - 1);
  }

  /** The header written and the link from the tail make the longer list. */
  lemma LinkHeaders(rd: Reads, rd1: Reads, rd2: Reads, rd3: Reads, h: Heap, h': Heap, addr: nat, second: nat, n: nat)
    requires Bump(h') && OneMore(h, h') && HeadersOf(rd, h)
    requires h'.blocks[|h.blocks|] == Block(addr, n) && second == addr + 8
    requires Wrote(rd, rd1, h', addr, 0) && Wrote(rd1, rd2, h', second, n)
    requires Wrote(rd2, rd3, h', h.blocks[|h.blocks| - 1].addr, addr)
    ensures HeadersOf(rd3, h')
  {
    var last := |h.blocks|;
    OldEntry(h, h', last - 1);
    HeaderInHeap(h', last);
    HeaderInHeap(h', last - 1);
    HeadersApart(h', last - 1, last);
    assert HeaderAt(rd3, h', last);
    assert HeaderAt(rd, h, last - 1);
    assert HeaderAt(rd3, h', last - 1);
    forall i | 0 <= i < last - 1 ensures HeaderAt(rd3, h', i) {
      OldEntryStays(rd, rd3, h, h', i);
    }
  }

  // ----- the list in memory

  /** Read through the page tables, the headers are those of the blocks. */
  ghost predicate Headers(root: nat, k: Kernel) {
    HeadersOf(Reader(root, k.w.mem), k.h)
  }

  /** `kheap_init` with the header of the dummy entry. */
  function InitStored(g: PmmSpec.Geometry, root: nat, w: World, am: PageMap): Kernel {
    Write(Write(Init(g, root, w, am), root, KH_START, 0), root, KH_START + 8, 0)
  }

  /** The header of a block of `n` bytes at `addr`, and the link to it. */
  function WriteHeader(k: Kernel, root: nat, addr: nat, n: nat, tail: nat): Kernel {
    Write(Write(Write(k, root, addr, 0), root, addr + 8, n), root, tail, addr)
  }

  /** The header in front of the data at `data`. */
  function HeaderOf(data: nat): nat {
    if HDR <= data then data - HDR else 0
  }

  /** `kheap_alloc` with the header it writes and the link from the tail. */
  function AllocStored(g: PmmSpec.Geometry, root: nat, k: Kernel, n: nat): (Kernel, Option<nat>)
    requires 0 < |k.h.blocks|
  {
    match HeapAlloc(g, root, k, n)
    case (k1, None) => (k1, None)
    case (k1, Some(data)) =>
      (WriteHeader(k1, root, HeaderOf(data), n, k.h.blocks[|k.h.blocks| - 1].addr), Some(data))
  }

  lemma AllocReads(g: PmmSpec.Geometry, root: nat, k: Kernel, n: nat)
    requires Addressed(g, root, k) && LegalAlloc(g, root, k, n)
    ensures SameReads(Reader(root, k.w.mem), Reader(root, HeapAlloc(g, root, k, n).0.w.mem), k.h)
  {
    forall v | InHeap(k.h, v)
      ensures Reader(root, HeapAlloc(g, root, k, n).0.w.mem)(v) == Reader(root, k.w.mem)(v)
    {
      AllocLoads(g, root, k, n, v);
    }
  }

  lemma WriteReads(g: PmmSpec.Geometry, root: nat, k: Kernel, va: nat, word: nat)
    requires Addressed(g, root, k) && InHeap(k.h, va)
    ensures Addressed(g, root, Write(k, root, va, word)) && Write(k, root, va, word).h == k.h
    ensures Wrote(Reader(root, k.w.mem), Reader(root, Write(k, root, va, word).w.mem), k.h, va, word)
  {
    WriteHeap(g, root, k, va, word);
    forall v | InHeap(k.h, v) && v != va
      ensures Reader(root, Write(k, root, va, word).w.mem)(v) == Reader(root, k.w.mem)(v)
    {
      WriteElsewhere(g, root, k, va, word, v);
    }
  }

  lemma FirstHeader(rd: Reads, rd1: Reads, rd2: Reads, h: Heap)
    requires Bump(h) && |h.blocks| == 1 && Wrote(rd, rd1, h, KH_START, 0) && Wrote(rd1, rd2, h, KH_START + 8, 0)
    ensures HeadersOf(rd2, h)
  {
    HeaderInHeap(h, 0);
    assert HeaderAt(rd2, h, 0);
  }

  lemma StartHeader(g: PmmSpec.Geometry, root: nat, k: Kernel)
    requires Addressed(g, root, k) && k.h == INITIAL_HEAP
    ensures var k' := Write(Write(k, root, KH_START, 0), root, KH_START + 8, 0);
      Addressed(g, root, k') && Headers(root, k')
  {
    HeaderInHeap(k.h, 0);
    WriteReads(g, root, k, KH_START, 0);
    var k1 := Write(k, root, KH_START, 0);
    WriteReads(g, root, k1, KH_START + 8, 0);
    FirstHeader(Reader(root, k.w.mem), Reader(root, k1.w.mem),
                Reader(root, Write(k1, root, KH_START + 8, 0).w.mem), k.h);
  }

  lemma InitHeaders(g: PmmSpec.Geometry, root: nat, w: World, am: PageMap)
    requires Stage(g, w, am, root) && Legal(w, MapPage(root, 0)) && PhysSmall(g)
    ensures Addressed(g, root, InitStored(g, root, w, am)) && Headers(root, InitStored(g, root, w, am))
  {
    var k := Init(g, root, w, am);
    InitOk(g, root, w, am);
    StartHeader(g, root, k);
  }

  /** Three words stored one after the other. */
  lemma ThreeWrites(g: PmmSpec.Geometry, root: nat, k: Kernel, a: nat, x: nat, b: nat, y: nat, c: nat, z: nat)
    returns (rd1: Reads, rd2: Reads)
    requires Addressed(g, root, k) && InHeap(k.h, a) && InHeap(k.h, b) && InHeap(k.h, c)
    ensures var k' := Write(Write(Write(k, root, a, x), root, b, y), root, c, z);
      && Addressed(g, root, k') && k'.h == k.h && k'.frames == k.frames
      && Wrote(Reader(root, k.w.mem), rd1, k.h, a, x) && Wrote(rd1, rd2, k.h, b, y)
      && Wrote(rd2, Reader(root, k'.w.mem), k.h, c, z)
  {
    WriteReads(g, root, k, a, x);
    var k1 := Write(k, root, a, x);
    WriteReads(g, root, k1, b, y);
    var k2 := Write(k1, root, b, y);
    WriteReads(g, root, k2, c, z);
    rd1, rd2 := Reader(root, k1.w.mem), Reader(root, k2.w.mem);
  }

  lemma LastInHeap(h: Heap, h': Heap, addr: nat, second: nat)
    requires Bump(h') && OneMore(h, h') && addr == h'.blocks[|h.blocks|].addr && second == addr + 8
    ensures InHeap(h', addr) && InHeap(h', second) && InHeap(h', h.blocks[|h.blocks| - 1].addr)
  {
    OldEntry(h, h', |h.blocks| - 1);
    HeaderInHeap(h', |h.blocks|);
    HeaderInHeap(h', |h.blocks| - 1);
  }

  /** The stores of the header of the last block of `k`, whose second word is at `second`. */
  lemma HeaderStores(g: PmmSpec.Geometry, root: nat, k: Kernel, h: Heap, addr: nat, second: nat, n: nat, tail: nat)
    requires Addressed(g, root, k) && OneMore(h, k.h) && HeadersOf(Reader(root, k.w.mem), h)
    requires k.h.blocks[|h.blocks|] == Block(addr, n) && tail == h.blocks[|h.blocks| - 1].addr && second == addr + 8
    ensures var k' := Write(Write(Write(k, root, addr, 0), root, second, n), root, tail, addr);
      Addressed(g, root, k') && k'.h == k.h && k'.frames == k.frames && Headers(root, k')
  {
    LastInHeap(h, k.h, addr, second);
    var rd1, rd2 := ThreeWrites(g, root, k, addr, 0, second, n, tail, addr);
    var k' := Write(Write(Write(k, root, addr, 0), root, second, n), root, tail, addr);
    LinkHeaders(Reader(root, k.w.mem), rd1, rd2, Reader(root, k'.w.mem), h, k.h, addr, second, n);
  }

  lemma SecondWord(k: Kernel, root: nat, addr: nat, n: nat, tail: nat) returns (second: nat)
    ensures second == addr + 8
    ensures WriteHeader(k, root, addr, n, tail)
         == Write(Write(Write(k, root, addr, 0), root, second, n), root, tail, addr)
  {
    second := addr + 8;
  }

  /** Writing the header of the last block of `k`, whose other headers are in place. */
  lemma HeaderWritten(g: PmmSpec.Geometry, root: nat, k: Kernel, h: Heap, addr: nat, n: nat)
    requires Addressed(g, root, k) && OneMore(h, k.h) && HeadersOf(Reader(root, k.w.mem), h)
    requires k.h.blocks[|h.blocks|] == Block(addr, n)
    ensures var k' := WriteHeader(k, root, addr, n, h.blocks[|h.blocks| - 1].addr);
      Addressed(g, root, k') && k'.h == k.h && k'.frames == k.frames && Headers(root, k')
  {
    var tail := h.blocks[|h.blocks| - 1].addr;
    var second := SecondWord(k, root, addr, n, tail);
    HeaderStores(g, root, k, h, addr, second, n, tail);
  }

  lemma BlockPlaced(h: Heap, h': Heap, addr: nat, n: nat, data: nat)
    requires 0 < |h.blocks| && h'.blocks == h.blocks + [Block(addr, n)] && data == addr + HDR
    ensures OneMore(h, h') && h'.blocks[|h.blocks|] == Block(HeaderOf(data), n)
  {
  }

  /** What an allocation does before it writes a header. */
  lemma AllocPlaces(g: PmmSpec.Geometry, root: nat, k: Kernel, n: nat)
    requires HeapOk(g, root, k) && LegalAlloc(g, root, k, n)
    ensures var (k1, p) := HeapAlloc(g, root, k, n);
      && HeapOk(g, root, k1)
      && match p
         case Some(data) => OneMore(k.h, k1.h) && k1.h.blocks[|k.h.blocks|] == Block(HeaderOf(data), n)
         case None => k1.h.blocks == k.h.blocks
  {
    AllocWell(g, root, k, n);
    var (k1, p) := HeapAlloc(g, root, k, n);
    match p
    case Some(data) => BlockPlaced(k.h, k1.h, Top(k.h), n, data);
    case None =>
  }

  lemma SameBlocks(rd: Reads, h: Heap, h': Heap)
    requires HeadersOf(rd, h) && h'.blocks == h.blocks
    ensures HeadersOf(rd, h')
  {
    forall i | 0 <= i < |h'.blocks| ensures HeaderAt(rd, h', i) {
      assert HeaderAt(rd, h, i);
    }
  }

  /** `kheap_alloc` keeps the list in memory in step with the blocks. */
  lemma AllocKeepsHeaders(g: PmmSpec.Geometry, root: nat, k: Kernel, n: nat)
    requires Addressed(g, root, k) && LegalAlloc(g, root, k, n) && Headers(root, k)
    ensures var (k', p) := AllocStored(g, root, k, n);
      && Addressed(g, root, k') && Headers(root, k')
      && k'.h == HeapAlloc(g, root, k, n).0.h && p == HeapAlloc(g, root, k, n).1
      && k'.frames == HeapAlloc(g, root, k, n).0.frames
  {
    AllocPlaces(g, root, k, n);
    AllocReads(g, root, k, n);
    var (k1, p) := HeapAlloc(g, root, k, n);
    HeadersSame(Reader(root, k.w.mem), Reader(root, k1.w.mem), k.h);
    match p
    case Some(data) => HeaderWritten(g, root, k1, k.h, HeaderOf(data), n);
    case None => SameBlocks(Reader(root, k1.w.mem), k.h, k1.h);
  }

  // ----- runs

  function StoredStep(g: PmmSpec.Geometry, root: nat, k: Kernel, e: HeapEvent): Kernel
    requires 0 < |k.h.blocks|
  {
    match e
    case KAlloc(n) => AllocStored(g, root, k, n).0
    case Other(_) => EventStep(g, root, k, e)
  }

  /** The address of a word of a header. */
  ghost predicate HeaderWord(h: Heap, va: nat) {
    exists i :: 0 <= i < |h.blocks| && (va == h.blocks[i].addr || va == h.blocks[i].addr + 8)
  }

  /** Others store to no header; they may store anywhere else they own, also inside blocks. */
  ghost predicate SparesHeaders(k: Kernel, e: HeapEvent) {
    e.Other? ==>
      forall va :: HeaderWord(k.h, va) && KH_START <= va && PageNoOf(va) < |k.frames| ==>
        !HitsWord(k.w, e.op, FrameAt(k, va), WordOf(va))
  }

  lemma OtherKeepsWord(g: PmmSpec.Geometry, root: nat, k: Kernel, e: HeapEvent, va: nat)
    requires Addressed(g, root, k) && e.Other? && LegalEvent(g, root, k, e) && SparesHeaders(k, e)
    requires InHeap(k.h, va) && HeaderWord(k.h, va)
    ensures Reader(root, EventStep(g, root, k, e).w.mem)(va) == Reader(root, k.w.mem)(va)
  {
    HeapWord(g, root, k, va);
    HeapPage(k.h, root, va);
    HeapVa(PageNoOf(va));
    OpLoads(g, root, k, e.op, va);
  }

  lemma WordsKept(rd: Reads, rd': Reads, h: Heap)
    requires Bump(h) && HeadersOf(rd, h)
    requires forall va :: HeaderWord(h, va) && InHeap(h, va) ==> rd'(va) == rd(va)
    ensures HeadersOf(rd', h)
  {
    forall i | 0 <= i < |h.blocks| ensures HeaderAt(rd', h, i) {
      HeaderInHeap(h, i);
      assert HeaderAt(rd, h, i);
      assert HeaderWord(h, h.blocks[i].addr) && HeaderWord(h, h.blocks[i].addr + 8);
    }
  }

  lemma OtherKeepsHeaders(g: PmmSpec.Geometry, root: nat, k: Kernel, e: HeapEvent)
    requires Addressed(g, root, k) && e.Other? && LegalEvent(g, root, k, e) && SparesHeaders(k, e)
    requires Headers(root, k)
    ensures Headers(root, EventStep(g, root, k, e))
  {
    var rd, rd' := Reader(root, k.w.mem), Reader(root, EventStep(g, root, k, e).w.mem);
    forall va | HeaderWord(k.h, va) && InHeap(k.h, va) ensures rd'(va) == rd(va) {
      OtherKeepsWord(g, root, k, e, va);
    }
    WordsKept(rd, rd', k.h);
  }

  function StoredRun(g: PmmSpec.Geometry, root: nat, k: Kernel, es: seq<HeapEvent>): Kernel
    decreases |es|
  {
    if es == [] || k.h.blocks == [] then k else StoredRun(g, root, StoredStep(g, root, k, es[0]), es[1..])
  }

  ghost predicate LegalStoredRun(g: PmmSpec.Geometry, root: nat, k: Kernel, es: seq<HeapEvent>)
    decreases |es|
  {
    es != [] && k.h.blocks != [] ==>
      && LegalEvent(g, root, k, es[0]) && SparesHeaders(k, es[0])
      && LegalStoredRun(g, root, StoredStep(g, root, k, es[0]), es[1..])
  }

  lemma LegalFirst(g: PmmSpec.Geometry, root: nat, k: Kernel, es: seq<HeapEvent>)
    requires es != [] && k.h.blocks != [] && LegalStoredRun(g, root, k, es)
    ensures LegalEvent(g, root, k, es[0]) && SparesHeaders(k, es[0])
    ensures LegalStoredRun(g, root, StoredStep(g, root, k, es[0]), es[1..])
  {
  }

  lemma EventKeepsHeaders(g: PmmSpec.Geometry, root: nat, k: Kernel, e: HeapEvent)
    requires Addressed(g, root, k) && Headers(root, k) && LegalEvent(g, root, k, e) && SparesHeaders(k, e)
    ensures var k' := StoredStep(g, root, k, e);
      Addressed(g, root, k') && Headers(root, k') && k.h.blocks <= k'.h.blocks
  {
    EventKeeps(g, root, k, e);
    match e
    case KAlloc(n) => AllocKeepsHeaders(g, root, k, n);
    case Other(_) => OtherKeepsHeaders(g, root, k, e);
  }

  /**
   Over every run of allocations that write their headers, and of mapping, allocating, releasing and storing by others:
   the list read through the page tables stays the list of blocks, and no block is ever lost from it.
   */
  lemma {:induction false} HeadersStay(g: PmmSpec.Geometry, root: nat, k: Kernel, es: seq<HeapEvent>)
    requires Addressed(g, root, k) && Headers(root, k) && LegalStoredRun(g, root, k, es)
    ensures var k' := StoredRun(g, root, k, es);
      Addressed(g, root, k') && Headers(root, k') && k.h.blocks <= k'.h.blocks
    decreases |es|
  {
    if es == [] {
    } else {
      LegalFirst(g, root, k, es);
      EventKeepsHeaders(g, root, k, es[0]);
      HeadersStay(g, root, StoredStep(g, root, k, es[0]), es[1..]);
    }
  }
}
