/** kheap.c on top of the page tables: heap pages are mapped one at a time, each to a frame of its own. */
module HeapGrowth {
  import opened Common
  import Pmm
  import PmmSpec
  import opened PageTables
  import opened PageRuns
  import opened VmmSpec
  import opened HeapSpec

  /**
   The machine and the heap. `am` and `frames` record which entry each page has and which frame backs each heap
   page; the code has no such record.
   */
  datatype Kernel = Kernel(w: World, am: PageMap, h: Heap, frames: seq<nat>)

  function HeapRange(): (vas: seq<nat>)
    ensures |vas| == KH_MAX_NPAGES
  {
    Range(KH_START, KH_MAX_NPAGES)
  }

  /** The address of page `i` of the heap. */
  function PageVa(i: nat): nat {
    KH_START + PAGE_SIZE * i
  }

  /** `vmm_map_cur` of a new frame at page `i` of the heap. */
  function MapPage(root: nat, i: nat): Op {
    MapNew(root, PageVa(i), WRITE_FLAGS)
  }

  /** A new frame mapped at `va`. */
  function AddPageAt(g: PmmSpec.Geometry, root: nat, k: Kernel, va: nat): Kernel {
    var op := MapNew(root, va, WRITE_FLAGS);
    Kernel(Step(g, k.w, op), AbsStep(g, k.w, k.am, op), k.h.(npages := k.h.npages + 1),
           k.frames + [PmmSpec.Alloc(g, k.w.pool).1])
  }

  /** One more heap page. */
  function AddPage(g: PmmSpec.Geometry, root: nat, k: Kernel): Kernel {
    AddPageAt(g, root, k, PageVa(k.h.npages))
  }

  lemma AddPageParts(g: PmmSpec.Geometry, root: nat, k: Kernel)
    ensures AddPage(g, root, k).w == Step(g, k.w, MapNew(root, PageVa(k.h.npages), WRITE_FLAGS))
    ensures AddPage(g, root, k).h == k.h.(npages := k.h.npages + 1)
  {
  }

  /** `kheap_init`, when the allocator has a frame for the first page. */
  function Init(g: PmmSpec.Geometry, root: nat, w: World, am: PageMap): Kernel {
    AddPage(g, root, Kernel(w, am, Heap([Block(KH_START, 0)], 0), [])).(h := INITIAL_HEAP)
  }

  lemma InitParts(g: PmmSpec.Geometry, root: nat, w: World, am: PageMap)
    ensures Init(g, root, w, am).w == Step(g, w, MapNew(root, KH_START, WRITE_FLAGS))
    ensures Init(g, root, w, am).h == INITIAL_HEAP && MapPage(root, 0) == MapNew(root, KH_START, WRITE_FLAGS)
  {
  }

  /** The header at `addr`, linked at the tail, and the address returned for it. */
  function Place(k: Kernel, addr: nat, n: nat): (Kernel, Option<nat>) {
    (k.(h := Append(k.h, addr, n)), Some(addr + HDR))
  }

  /** The loop of `kheap_alloc`. */
  function Grow(g: PmmSpec.Geometry, root: nat, k: Kernel, n: nat): (Kernel, Option<nat>)
    decreases KH_MAX_NPAGES - k.h.npages
  {
    if k.h.npages >= KH_MAX_NPAGES then (k, None)
    else if PmmSpec.Alloc(g, k.w.pool).1 == PHYS_ADDR_NULL then
      (k.(w := k.w.(pool := PmmSpec.Alloc(g, k.w.pool).0)), None)
    else
      var k1 := AddPage(g, root, k);
      match FindFree(k1.h, n)
      case Some(addr) => Place(k1, addr, n)
      case None => Grow(g, root, k1, n)
  }

  function HeapAlloc(g: PmmSpec.Geometry, root: nat, k: Kernel, n: nat): (Kernel, Option<nat>) {
    match FindFree(k.h, n)
    case Some(addr) => Place(k, addr, n)
    case None => Grow(g, root, k, n)
  }

  /** Everything that holds of the heap between calls. */
  ghost predicate HeapOk(g: PmmSpec.Geometry, root: nat, k: Kernel) {
    && Stage(g, k.w, k.am, root)
    && Bump(k.h)
    && |k.frames| == k.h.npages && Backs(k.w, k.am, root, HeapRange(), k.frames)
  }

  /** A page that can be had at all can be had with the tables it needs. */
  ghost predicate TablesSuffice(root: nat, k: Kernel) {
    0 < PmmSpec.Avail(k.w.pool) ==> Legal(k.w, MapPage(root, k.h.npages))
  }

  /** A page and its tables never take more than four frames. */
  lemma FourFramesSuffice(root: nat, k: Kernel)
    requires Root(root) in k.w.tabs && (PmmSpec.Avail(k.w.pool) == 0 || 4 <= PmmSpec.Avail(k.w.pool))
    ensures TablesSuffice(root, k)
  {
    WriteFlagsOk();
    AtMostThree(k.w, root, PageVa(k.h.npages));
  }

  ghost predicate LegalGrow(g: PmmSpec.Geometry, root: nat, k: Kernel, n: nat)
    decreases KH_MAX_NPAGES - k.h.npages
  {
    k.h.npages < KH_MAX_NPAGES ==>
      && TablesSuffice(root, k)
      && (0 < PmmSpec.Avail(k.w.pool) && FindFree(AddPage(g, root, k).h, n).None? ==>
            LegalGrow(g, root, AddPage(g, root, k), n))
  }

  /** The request does not wrap a register at the top of the heap. */
  predicate RequestFits(h: Heap, n: nat) {
    0 < |h.blocks| && Top(h) + HDR + n < TWO64
  }

  ghost predicate LegalAlloc(g: PmmSpec.Geometry, root: nat, k: Kernel, n: nat) {
    RequestFits(k.h, n) && (FindFree(k.h, n).None? ==> LegalGrow(g, root, k, n))
  }

  lemma HeapDistinct(root: nat)
    ensures DistinctPages(root, HeapRange())
  {
    RangeDistinct(root, KH_START, KH_MAX_NPAGES);
  }

  lemma HeapVa(i: nat)
    requires i < KH_MAX_NPAGES
    ensures HeapRange()[i] == PageVa(i) && HIGH_HALF <= HeapRange()[i] < TWO64
  {
  }

  lemma AddPageIs(g: PmmSpec.Geometry, root: nat, k: Kernel)
    requires k.h.npages < KH_MAX_NPAGES
    ensures MapPage(root, k.h.npages) == MapNew(root, HeapRange()[k.h.npages], WRITE_FLAGS)
    ensures AddPage(g, root, k) == AddPageAt(g, root, k, HeapRange()[k.h.npages])
  {
    HeapVa(k.h.npages);
  }

  lemma AddPageBacks(g: PmmSpec.Geometry, root: nat, k: Kernel, vas: seq<nat>, va: nat)
    requires Stage(g, k.w, k.am, root) && Backs(k.w, k.am, root, vas, k.frames) && |k.frames| == k.h.npages < |vas|
    requires DistinctPages(root, vas) && vas[k.h.npages] == va && Legal(k.w, MapNew(root, va, WRITE_FLAGS))
    ensures var k1 := AddPageAt(g, root, k, va);
      && Stage(g, k1.w, k1.am, root) && Backs(k1.w, k1.am, root, vas, k1.frames)
      && k1.h == k.h.(npages := k.h.npages + 1) && |k1.frames| == k1.h.npages && k.frames <= k1.frames
  {
    var op, k1 := MapNew(root, va, WRITE_FLAGS), AddPageAt(g, root, k, va);
    assert op == MapNew(root, vas[|k.frames|], WRITE_FLAGS);
    MapNewBacks(g, k.w, k.am, root, vas, k.frames);
    assert k1.w == Step(g, k.w, op) && k1.am == AbsStep(g, k.w, k.am, op);
    assert Stage(g, k1.w, k1.am, root);
  }

  /** A new page is backed by a frame no other page and no table uses. */
  lemma AddPageKeeps(g: PmmSpec.Geometry, root: nat, k: Kernel)
    requires Stage(g, k.w, k.am, root) && Backs(k.w, k.am, root, HeapRange(), k.frames) && |k.frames| == k.h.npages
    requires k.h.npages < KH_MAX_NPAGES && Legal(k.w, MapPage(root, k.h.npages))
    ensures var k1 := AddPage(g, root, k);
      && Stage(g, k1.w, k1.am, root) && Backs(k1.w, k1.am, root, HeapRange(), k1.frames)
      && k1.h == k.h.(npages := k.h.npages + 1) && |k1.frames| == k1.h.npages && k.frames <= k1.frames
  {
    var vas, i := HeapRange(), k.h.npages;
    HeapDistinct(root);
    AddPageIs(g, root, k);
    AddPageBacks(g, root, k, vas, vas[i]);
  }

  lemma MorePages(h: Heap, h1: Heap)
    requires Bump(h) && h1.blocks == h.blocks && h.npages <= h1.npages <= KH_MAX_NPAGES
    ensures Bump(h1) && Top(h1) == Top(h)
  {
  }

  /** The heap after `kheap_init`. */
  lemma InitOk(g: PmmSpec.Geometry, root: nat, w: World, am: PageMap)
    requires Stage(g, w, am, root) && Legal(w, MapPage(root, 0))
    ensures HeapOk(g, root, Init(g, root, w, am))
  {
    AddPageKeeps(g, root, Kernel(w, am, Heap([Block(KH_START, 0)], 0), []));
    InitialBump();
  }

  /**
   What an allocation of `n` bytes does. Success: a block at the top of the heap, and no page more than it needs.
   Failure: the heap is as large as it may get and still too small, or no frame is left for a page it needs.
   */
  ghost predicate AllocOutcome(k: Kernel, n: nat, k': Kernel, p: Option<nat>)
    requires 0 < |k.h.blocks|
  {
    && k.frames <= k'.frames
    && match p
       case Some(addr) =>
         && addr == Top(k.h) + HDR
         && k'.h == Heap(k.h.blocks + [Block(Top(k.h), n)], Max(k.h.npages, Need(k.h, n)))
       case None =>
         && k'.h.blocks == k.h.blocks && k.h.npages <= k'.h.npages < Need(k.h, n)
         && (k'.h.npages == KH_MAX_NPAGES || PmmSpec.Avail(k'.w.pool) == 0)
  }

  /** Placing a block that fits. */
  lemma PlaceKeeps(g: PmmSpec.Geometry, root: nat, k: Kernel, n: nat)
    requires HeapOk(g, root, k) && RequestFits(k.h, n) && Need(k.h, n) <= k.h.npages
    ensures FindFree(k.h, n) == Some(Top(k.h)) && HeapOk(g, root, Place(k, Top(k.h), n).0)
  {
    FitsIff(k.h, n);
    FindFromIsBump(k.h, n, 0);
    AppendKeeps(k.h, n);
  }

  lemma NoFit(h: Heap, n: nat)
    requires Bump(h) && RequestFits(h, n) && h.npages < Need(h, n)
    ensures FindFree(h, n) == None
  {
    FitsIff(h, n);
    FindFromIsBump(h, n, 0);
  }

  lemma AllocFails(g: PmmSpec.Geometry, w: World)
    requires PmmSpec.ValidGeometry(g) && PmmSpec.Owned(g, w.pool)
    ensures PmmSpec.Alloc(g, w.pool).1 == PHYS_ADDR_NULL <==> PmmSpec.Avail(w.pool) == 0
    ensures PmmSpec.Avail(w.pool) == 0 ==> PmmSpec.Alloc(g, w.pool).0 == w.pool
  {
    PmmSpec.AllocMeaning(g, w.pool);
    PmmSpec.AvailZero(w.pool);
  }

  /** One round of the growth loop. */
  lemma GrownOnce(g: PmmSpec.Geometry, root: nat, k: Kernel, n: nat) returns (k1: Kernel)
    requires HeapOk(g, root, k) && k.h.npages < KH_MAX_NPAGES && Legal(k.w, MapPage(root, k.h.npages))
    ensures k1 == AddPage(g, root, k) && HeapOk(g, root, k1) && k.frames <= k1.frames
    ensures k1.h == k.h.(npages := k.h.npages + 1) && Top(k1.h) == Top(k.h) && Need(k1.h, n) == Need(k.h, n)
  {
    k1 := AddPage(g, root, k);
    AddPageKeeps(g, root, k);
    MorePages(k.h, k1.h);
  }

  /** The growth loop stops at the first page count that holds the block, or when no page is left. */
  lemma {:induction false} GrowWell(g: PmmSpec.Geometry, root: nat, k: Kernel, n: nat)
    requires HeapOk(g, root, k) && RequestFits(k.h, n) && k.h.npages < Need(k.h, n) && LegalGrow(g, root, k, n)
    ensures var (k', p) := Grow(g, root, k, n); HeapOk(g, root, k') && AllocOutcome(k, n, k', p)
    decreases KH_MAX_NPAGES - k.h.npages
  {
    AllocFails(g, k.w);
    if k.h.npages < KH_MAX_NPAGES && 0 < PmmSpec.Avail(k.w.pool) {
      var k1 := GrownOnce(g, root, k, n);
      if Need(k.h, n) == k1.h.npages {
        PlaceKeeps(g, root, k1, n);
      } else {
        NoFit(k1.h, n);
        GrowWell(g, root, k1, n);
      }
    }
  }

  /** One round of the loop, as the code goes through it, whatever the pool and the request are. */
  lemma GrowRound(g: PmmSpec.Geometry, root: nat, k: Kernel, n: nat)
    requires PmmSpec.ValidGeometry(g) && PmmSpec.Owned(g, k.w.pool) && Ready(g, k.w, root)
    requires Bump(k.h) && k.h.npages < KH_MAX_NPAGES
    ensures PmmSpec.Avail(k.w.pool) == 0 ==> Grow(g, root, k, n) == (k, None)
    ensures 0 < PmmSpec.Avail(k.w.pool) ==>
      var k1 := AddPage(g, root, k);
      && Ready(g, k1.w, root) && Bump(k1.h) && k1.h.blocks == k.h.blocks && k1.h.npages == k.h.npages + 1
      && Grow(g, root, k, n) == match FindFree(k1.h, n)
                                case Some(addr) => Place(k1, addr, n)
                                case None => Grow(g, root, k1, n)
  {
    AllocFails(g, k.w);
    if 0 < PmmSpec.Avail(k.w.pool) {
      StaysReady(g, k.w, root, PageVa(k.h.npages));
      AddPageParts(g, root, k);
      MorePages(k.h, AddPage(g, root, k).h);
    }
  }

  /** `kheap_alloc` is a bump allocator that maps exactly the pages it needs. */
  lemma AllocWell(g: PmmSpec.Geometry, root: nat, k: Kernel, n: nat)
    requires HeapOk(g, root, k) && LegalAlloc(g, root, k, n)
    ensures var (k', p) := HeapAlloc(g, root, k, n); HeapOk(g, root, k') && AllocOutcome(k, n, k', p)
  {
    if Need(k.h, n) <= k.h.npages {
      PlaceKeeps(g, root, k, n);
    } else {
      NoFit(k.h, n);
      GrowWell(g, root, k, n);
    }
  }

  /** With the pool empty and the tables broken the loop stops and mends nothing. */
  lemma GrowStaysBroken(g: PmmSpec.Geometry, root: nat, k: Kernel, n: nat)
    requires Broken(g, k.w)
    ensures Grow(g, root, k, n).0.w == k.w
  {
    AllocFails(g, k.w);
  }

  /** A page that had no frames for its tables breaks the address space before the loop can notice. */
  lemma PageBreaks(g: PmmSpec.Geometry, root: nat, k: Kernel, n: nat)
    requires HeapOk(g, root, k) && k.h.npages < KH_MAX_NPAGES && !TablesSuffice(root, k)
    ensures Broken(g, Grow(g, root, k, n).0.w)
  {
    NewShort(k.w, root, PageVa(k.h.npages));
    MapNewBreaks(g, k.w, root, PageVa(k.h.npages));
    AddPageParts(g, root, k);
    GrowRound(g, root, k, n);
    GrowStaysBroken(g, root, AddPage(g, root, k), n);
  }

  lemma {:induction false} GrowBreaks(g: PmmSpec.Geometry, root: nat, k: Kernel, n: nat)
    requires HeapOk(g, root, k) && !LegalGrow(g, root, k, n)
    ensures Broken(g, Grow(g, root, k, n).0.w)
    decreases KH_MAX_NPAGES - k.h.npages
  {
    if TablesSuffice(root, k) {
      var k1 := GrownOnce(g, root, k, n);
      GrowRound(g, root, k, n);
      GrowBreaks(g, root, k1, n);
    } else {
      PageBreaks(g, root, k, n);
    }
  }

  /** A block past the end of the heap, or none. */
  ghost predicate Overshoots(h: Heap, n: nat, h': Heap, p: Option<nat>) {
    match p
    case Some(data) =>
      HDR <= data && h'.blocks == h.blocks + [Block(data - HDR, n)] && HeapEnd(h') < data + n
    case None => h'.blocks == h.blocks
  }

  lemma WrapPlaces(k: Kernel, n: nat, addr: nat)
    requires Bump(k.h) && n < TWO64 && !RequestFits(k.h, n) && FindFree(k.h, n) == Some(addr)
    ensures Overshoots(k.h, n, Place(k, addr, n).0.h, Place(k, addr, n).1)
  {
    PastIsHigh(k.h, n, 0);
  }

  /** The loop ends with the same blocks on some more pages, with no block or with the one found there. */
  lemma {:induction false} GrowEnds(g: PmmSpec.Geometry, root: nat, k: Kernel, n: nat) returns (k1: Kernel)
    requires k.h.npages <= KH_MAX_NPAGES
    ensures k1.h.blocks == k.h.blocks && k.h.npages <= k1.h.npages <= KH_MAX_NPAGES
    ensures var (k', p) := Grow(g, root, k, n);
      match p
      case None => k'.h == k1.h
      case Some(_) => FindFree(k1.h, n).Some? && (k', p) == Place(k1, FindFree(k1.h, n).value, n)
    decreases KH_MAX_NPAGES - k.h.npages
  {
    k1 := k;
    if k.h.npages < KH_MAX_NPAGES && PmmSpec.Alloc(g, k.w.pool).1 != PHYS_ADDR_NULL {
      k1 := AddPage(g, root, k);
      AddPageParts(g, root, k);
      if FindFree(k1.h, n).None? {
        k1 := GrowEnds(g, root, k1, n);
      }
    }
  }

  /** A request that wraps a register at the top of the heap never gets a block that fits. */
  lemma GrowWraps(g: PmmSpec.Geometry, root: nat, k: Kernel, n: nat)
    requires Bump(k.h) && n < TWO64 && !RequestFits(k.h, n)
    ensures var (k', p) := Grow(g, root, k, n); Overshoots(k.h, n, k'.h, p)
  {
    var k1 := GrowEnds(g, root, k, n);
    MorePages(k.h, k1.h);
    if FindFree(k1.h, n).Some? {
      WrapPlaces(k1, n, FindFree(k1.h, n).value);
    }
  }

  /**
   The growth loop: while every page has frames for its tables it stops at the first page count that holds the block,
   or when no page is left; otherwise it leaves the tables broken.
   */
  lemma GrowMeaning(g: PmmSpec.Geometry, root: nat, k: Kernel, n: nat)
    requires HeapOk(g, root, k) && RequestFits(k.h, n) && k.h.npages < Need(k.h, n)
    ensures var (k', p) := Grow(g, root, k, n);
      if LegalGrow(g, root, k, n) then HeapOk(g, root, k') && AllocOutcome(k, n, k', p) else Broken(g, k'.w)
  {
    if LegalGrow(g, root, k, n) {
      GrowWell(g, root, k, n);
    } else {
      GrowBreaks(g, root, k, n);
    }
  }

  /** The block fits as the heap is, or each page that has to be mapped for it has frames for its tables. */
  ghost predicate Pays(g: PmmSpec.Geometry, root: nat, k: Kernel, n: nat) {
    FindFree(k.h, n).Some? || LegalGrow(g, root, k, n)
  }

  /**
   What `kheap_alloc` does with every request. One that wraps no register and whose pages can be paid for: a bump
   allocator that maps exactly the pages it needs. One whose pages cannot: the tables are left broken. One that wraps:
   no block, or a block past the end of the heap.
   */
  lemma AllocMeaning(g: PmmSpec.Geometry, root: nat, k: Kernel, n: nat)
    requires HeapOk(g, root, k) && n < TWO64
    ensures var (k', p) := HeapAlloc(g, root, k, n);
      if !RequestFits(k.h, n) then Overshoots(k.h, n, k'.h, p)
      else if Pays(g, root, k, n) then HeapOk(g, root, k') && AllocOutcome(k, n, k', p)
      else Broken(g, k'.w)
  {
    if !RequestFits(k.h, n) {
      match FindFree(k.h, n)
      case Some(addr) => WrapPlaces(k, n, addr);
      case None => GrowWraps(g, root, k, n);
    } else if Pays(g, root, k, n) {
      AllocWell(g, root, k, n);
    } else {
      GrowBreaks(g, root, k, n);
    }
  }

  /**
   `n` bytes at `p`, behind a header of 16 bytes at the first multiple of 16 above the last block, inside the mapped
   pages, the last of which was not mapped in vain.
   */
  ghost predicate WellPlaced(h: Heap, h': Heap, n: nat, p: nat)
    requires 0 < |h.blocks|
  {
    var end := h.blocks[|h.blocks| - 1].addr + 16 + h.blocks[|h.blocks| - 1].size;
    && 16 <= p && p % 16 == 0 && end < p - 16 <= end + 16
    && h'.blocks == h.blocks + [Block(p - 16, n)]
    && p + n <= 0xffff_fbbb_0000_0000 + 4096 * h'.npages
    && (h.npages < h'.npages ==> 0xffff_fbbb_0000_0000 + 4096 * (h'.npages - 1) < p + n)
  }

  lemma BlockPlaced(h: Heap, h': Heap, n: nat)
    requires Bump(h) && h' == Heap(h.blocks + [Block(Top(h), n)], Max(h.npages, Need(h, n)))
    ensures WellPlaced(h, h', n, Top(h) + HDR)
  {
    BlockPlaces(h, |h.blocks|);
  }

  lemma PagesFallShort(h: Heap, n: nat, npages: nat)
    requires Bump(h) && npages < Need(h, n)
    ensures 0xffff_fbbb_0000_0000 + 4096 * npages < Top(h) + 16 + n
  {
    BlockPlaces(h, |h.blocks|);
  }

  /** When `kheap_alloc` finds no place: no page is left to map, or no frame, and the pages there are do not suffice. */
  lemma OutcomeNull(k: Kernel, n: nat, k': Kernel)
    requires Bump(k.h) && AllocOutcome(k, n, k', None)
    ensures k'.h.npages == 0x4_0000 || PmmSpec.Avail(k'.w.pool) == 0
    ensures k'.h.blocks == k.h.blocks && 0xffff_fbbb_0000_0000 + 4096 * k'.h.npages < Top(k.h) + 16 + n
  {
    PagesFallShort(k.h, n, k'.h.npages);
  }

  /** The outcome of `kheap_alloc`, by address. */
  lemma OutcomePlace(k: Kernel, n: nat, k': Kernel, p: Option<nat>)
    requires Bump(k.h) && AllocOutcome(k, n, k', p) && p.Some?
    ensures WellPlaced(k.h, k'.h, n, p.value)
  {
    BlockPlaced(k.h, k'.h, n);
  }

  /** `kheap_alloc` leaves the heap and the tables sound exactly when each page it maps has frames for its tables. */
  lemma AllocKeepsIff(g: PmmSpec.Geometry, root: nat, k: Kernel, n: nat)
    requires HeapOk(g, root, k) && RequestFits(k.h, n)
    ensures HeapOk(g, root, HeapAlloc(g, root, k, n).0) <==> Pays(g, root, k, n)
  {
    AllocMeaning(g, root, k, n);
    if !Pays(g, root, k, n) {
      BrokenNotInv(g, HeapAlloc(g, root, k, n).0.w);
    }
  }

  // ----- what an allocation costs

  /** The tables of the first `i` pages, whose tables are listed page by page. */
  function TablesOf(ns: seq<set<Path>>, i: nat): set<Path>
    requires i <= |ns|
  {
    if i == 0 then {} else TablesOf(ns, i - 1) + ns[i - 1]
  }

  lemma JoinNodes(a: set<Path>, b: set<Path>, c: set<Path>)
    ensures (a + b) + c == a + (b + c) && {} + a == a == a + {}
  {
  }

  lemma {:induction false} TablesFront(ns: seq<set<Path>>, i: nat)
    requires i < |ns|
    ensures TablesOf(ns, i + 1) == ns[0] + TablesOf(ns[1..], i)
  {
    if i == 0 {
      JoinNodes(ns[0], {}, {});
    } else {
      TablesFront(ns, i - 1);
      JoinNodes(ns[0], TablesOf(ns[1..], i - 1), ns[i]);
    }
  }

  /** What the first `i` pages cost: a frame each, and one for each distinct table that is missing. */
  function Cost(have: set<Path>, ns: seq<set<Path>>, i: nat): nat
    requires i <= |ns|
  {
    i + |TablesOf(ns, i) - have|
  }

  /** A page and its missing tables. */
  function Price(have: set<Path>, nodes: set<Path>): nat {
    1 + |nodes - have|
  }

  /** The first page, and then the rest with its tables there. */
  lemma CostFront(have: set<Path>, ns: seq<set<Path>>, i: nat)
    requires i < |ns|
    ensures Cost(have, ns, i + 1) == Price(have, ns[0]) + Cost(have + ns[0], ns[1..], i)
  {
    TablesFront(ns, i);
    MissingSum(have, ns[0], TablesOf(ns[1..], i));
  }

  lemma CostZero(have: set<Path>, ns: seq<set<Path>>)
    ensures Cost(have, ns, 0) == 0
  {
    assert {} - have == {};
  }

  /**
   With the tables `have`, `avail` frames pay for all pages, or the last frame goes to a page and not to a table, so
   that the loop notices.
   */
  ghost predicate Affords(have: set<Path>, avail: nat, ns: seq<set<Path>>) {
    Cost(have, ns, |ns|) <= avail || exists i :: 0 <= i < |ns| && avail == Cost(have, ns, i)
  }

  lemma AffordsRest(have: set<Path>, avail: nat, ns: seq<set<Path>>)
    requires 0 < |ns| && 0 < avail && Affords(have, avail, ns)
    ensures Price(have, ns[0]) <= avail && Affords(have + ns[0], avail - Price(have, ns[0]), ns[1..])
  {
    CostZero(have, ns);
    if Cost(have, ns, |ns|) <= avail {
      CostFront(have, ns, |ns| - 1);
    } else {
      var i :| 0 <= i < |ns| && avail == Cost(have, ns, i);
      CostFront(have, ns, i - 1);
    }
  }

  lemma AffordsFirst(have: set<Path>, avail: nat, ns: seq<set<Path>>)
    requires 0 < |ns|
    requires avail == 0
      || (Price(have, ns[0]) <= avail && Affords(have + ns[0], avail - Price(have, ns[0]), ns[1..]))
    ensures Affords(have, avail, ns)
  {
    CostZero(have, ns);
    if avail == 0 {
      assert avail == Cost(have, ns, 0);
    } else if Cost(have + ns[0], ns[1..], |ns| - 1) <= avail - Price(have, ns[0]) {
      CostFront(have, ns, |ns| - 1);
    } else {
      var i :| 0 <= i < |ns| - 1 && avail - Price(have, ns[0]) == Cost(have + ns[0], ns[1..], i);
      CostFront(have, ns, i);
      assert avail == Cost(have, ns, i + 1);
    }
  }

  /** Paying for the first page and then for the others. */
  lemma AffordsFront(have: set<Path>, avail: nat, ns: seq<set<Path>>)
    requires 0 < |ns|
    ensures Affords(have, avail, ns)
      <==> (avail == 0 || (Price(have, ns[0]) <= avail && Affords(have + ns[0], avail - Price(have, ns[0]), ns[1..])))
  {
    if 0 < avail && Affords(have, avail, ns) {
      AffordsRest(have, avail, ns);
    } else if !Affords(have, avail, ns)
      && (avail == 0 || (Price(have, ns[0]) <= avail && Affords(have + ns[0], avail - Price(have, ns[0]), ns[1..])))
    {
      AffordsFirst(have, avail, ns);
    }
  }

  /** The pages the loop would map for a request, were there no lack of frames. */
  function Wanted(h: Heap, n: nat): nat
    requires 0 < |h.blocks|
  {
    if Need(h, n) <= h.npages || KH_MAX_NPAGES <= h.npages then 0
    else Min(Need(h, n), KH_MAX_NPAGES) - h.npages
  }

  function NodesFrom(root: nat, first: nat, count: nat): (ns: seq<set<Path>>)
    ensures |ns| == count
  {
    seq(count, j requires 0 <= j < count => NodesOf(root, PageVa(first + j)))
  }

  lemma NodesFromFront(root: nat, first: nat, count: nat)
    requires 0 < count
    ensures NodesFrom(root, first, count)[0] == NodesOf(root, PageVa(first))
    ensures NodesFrom(root, first, count)[1..] == NodesFrom(root, first + 1, count - 1)
  {
  }

  /** The tables of the pages wanted. */
  function WantedNodes(root: nat, h: Heap, n: nat): seq<set<Path>>
    requires 0 < |h.blocks|
  {
    NodesFrom(root, h.npages, Wanted(h, n))
  }

  lemma WantedFront(root: nat, h: Heap, h1: Heap, n: nat)
    requires 0 < |h.blocks| && h.npages < Need(h, n) && h.npages < KH_MAX_NPAGES
    requires h1 == h.(npages := h.npages + 1)
    ensures var ns := WantedNodes(root, h, n);
      ns != [] && ns[0] == NodesOf(root, PageVa(h.npages)) && ns[1..] == WantedNodes(root, h1, n)
  {
    NodesFromFront(root, h.npages, Wanted(h, n));
  }

  lemma SearchAfter(h: Heap, h1: Heap, n: nat)
    requires Bump(h) && RequestFits(h, n) && h.npages < KH_MAX_NPAGES && h1 == h.(npages := h.npages + 1)
    ensures FindFree(h1, n).None? <==> h1.npages < Need(h1, n)
  {
    MorePages(h, h1);
    FitsIff(h1, n);
    FindFromIsBump(h1, n, 0);
  }

  /** An empty pool is noticed. */
  lemma EmptyIsLegal(g: PmmSpec.Geometry, root: nat, k: Kernel, n: nat)
    requires PmmSpec.Avail(k.w.pool) == 0
    ensures LegalGrow(g, root, k, n)
  {
  }

  lemma ShortIsIllegal(g: PmmSpec.Geometry, root: nat, k: Kernel, n: nat)
    requires k.h.npages < KH_MAX_NPAGES && 0 < PmmSpec.Avail(k.w.pool) && !Legal(k.w, MapPage(root, k.h.npages))
    ensures !LegalGrow(g, root, k, n)
  {
  }

  lemma PaidIsLegal(g: PmmSpec.Geometry, root: nat, k: Kernel, n: nat)
    requires k.h.npages < KH_MAX_NPAGES && 0 < PmmSpec.Avail(k.w.pool) && Legal(k.w, MapPage(root, k.h.npages))
    ensures LegalGrow(g, root, k, n)
      <==> (FindFree(AddPage(g, root, k).h, n).None? ==> LegalGrow(g, root, AddPage(g, root, k), n))
  {
  }

  lemma PageCharge(g: PmmSpec.Geometry, root: nat, k: Kernel)
    requires HeapOk(g, root, k) && Legal(k.w, MapPage(root, k.h.npages))
    ensures var w1, nodes := AddPage(g, root, k).w, NodesOf(root, PageVa(k.h.npages));
      && w1.tabs.Keys == k.w.tabs.Keys + nodes
      && PmmSpec.Avail(w1.pool) == PmmSpec.Avail(k.w.pool) - Price(k.w.tabs.Keys, nodes)
  {
    AddPageParts(g, root, k);
    MapNewStep(g, k.w, k.am, root, PageVa(k.h.npages), WRITE_FLAGS);
  }

  lemma PageLegalIff(root: nat, k: Kernel)
    requires Root(root) in k.w.tabs
    ensures Legal(k.w, MapPage(root, k.h.npages))
      <==> Price(k.w.tabs.Keys, NodesOf(root, PageVa(k.h.npages))) <= PmmSpec.Avail(k.w.pool)
  {
    WriteFlagsOk();
  }

  /** Whether the frames and tables of a kernel pay for a list of pages. */
  ghost predicate KernelAffords(k: Kernel, ns: seq<set<Path>>) {
    Affords(k.w.tabs.Keys, PmmSpec.Avail(k.w.pool), ns)
  }

  lemma AffordsNone(k: Kernel)
    ensures KernelAffords(k, [])
  {
    CostZero(k.w.tabs.Keys, []);
  }

  lemma KernelPays(k: Kernel, k1: Kernel, ns: seq<set<Path>>)
    requires ns != [] && k1.w.tabs.Keys == k.w.tabs.Keys + ns[0]
    requires PmmSpec.Avail(k1.w.pool) == PmmSpec.Avail(k.w.pool) - Price(k.w.tabs.Keys, ns[0])
    ensures KernelAffords(k, ns) <==> KernelAffords(k1, ns[1..])
  {
    AffordsFront(k.w.tabs.Keys, PmmSpec.Avail(k.w.pool), ns);
  }

  lemma KernelShort(k: Kernel, ns: seq<set<Path>>)
    requires ns != [] && PmmSpec.Avail(k.w.pool) < Price(k.w.tabs.Keys, ns[0])
    ensures KernelAffords(k, ns) <==> PmmSpec.Avail(k.w.pool) == 0
  {
    AffordsFront(k.w.tabs.Keys, PmmSpec.Avail(k.w.pool), ns);
  }

  lemma {:induction false} GrowBudget(g: PmmSpec.Geometry, root: nat, k: Kernel, n: nat)
    requires HeapOk(g, root, k) && RequestFits(k.h, n) && k.h.npages < Need(k.h, n)
    ensures LegalGrow(g, root, k, n) <==> KernelAffords(k, WantedNodes(root, k.h, n))
    decreases KH_MAX_NPAGES - k.h.npages
  {
    if k.h.npages >= KH_MAX_NPAGES {
      AffordsNone(k);
    } else {
      var ns := WantedNodes(root, k.h, n);
      WantedFront(root, k.h, k.h.(npages := k.h.npages + 1), n);
      PageLegalIff(root, k);
      if PmmSpec.Avail(k.w.pool) == 0 {
        EmptyIsLegal(g, root, k, n);
        KernelShort(k, ns);
      } else if !Legal(k.w, MapPage(root, k.h.npages)) {
        ShortIsIllegal(g, root, k, n);
        KernelShort(k, ns);
      } else {
        var k1 := GrownOnce(g, root, k, n);
        PageCharge(g, root, k);
        KernelPays(k, k1, ns);
        PaidIsLegal(g, root, k, n);
        SearchAfter(k.h, k1.h, n);
        if k1.h.npages < Need(k1.h, n) {
          GrowBudget(g, root, k1, n);
        } else {
          AffordsNone(k1);
        }
      }
    }
  }

  /**
   The frame budget of an allocation that wraps no register: heap and tables stay sound exactly when the frames left
   pay for the pages wanted and their distinct new tables, or run out on a page and not on a table.
   */
  lemma AllocBudget(g: PmmSpec.Geometry, root: nat, k: Kernel, n: nat)
    requires HeapOk(g, root, k) && RequestFits(k.h, n)
    ensures HeapOk(g, root, HeapAlloc(g, root, k, n).0)
      <==> Affords(k.w.tabs.Keys, PmmSpec.Avail(k.w.pool), WantedNodes(root, k.h, n))
  {
    AllocKeepsIff(g, root, k, n);
    if Need(k.h, n) <= k.h.npages {
      PlaceKeeps(g, root, k, n);
      AffordsNone(k);
    } else {
      NoFit(k.h, n);
      GrowBudget(g, root, k, n);
    }
  }

  // ----- runs

  /** The heap's calls among everything else the kernel does with frames and pages. */
  datatype HeapEvent = KAlloc(n: nat) | Other(op: Op)

  function EventStep(g: PmmSpec.Geometry, root: nat, k: Kernel, e: HeapEvent): Kernel {
    match e
    case KAlloc(n) => HeapAlloc(g, root, k, n).0
    case Other(op) => k.(w := Step(g, k.w, op), am := AbsStep(g, k.w, k.am, op))
  }

  ghost predicate LeavesPages(root: nat, vas: seq<nat>, op: Op) {
    forall i :: 0 <= i < |vas| ==> !Touches(op, PagePath(root, vas[i]))
  }

  /** Others map writable pages outside the heap and release no frame behind it. */
  ghost predicate LegalEvent(g: PmmSpec.Geometry, root: nat, k: Kernel, e: HeapEvent) {
    match e
    case KAlloc(n) => LegalAlloc(g, root, k, n)
    case Other(op) =>
      && Legal(k.w, op) && MapsWritable(op) && LeavesPages(root, HeapRange(), op)
      && (op.FreeOp? ==> PageBase(op.addr) !in k.frames)
  }

  lemma StillBacks(w: World, am: PageMap, root: nat, vas: seq<nat>, frames: seq<nat>, w': World, am': PageMap)
    requires Backs(w, am, root, vas, frames)
    requires forall k :: 0 <= k < |frames| ==> frames[k] in w'.pool.live
    requires forall p :: p in w'.tabs ==>
      if p in w.tabs then w'.tabs[p] == w.tabs[p] else PAGE_SIZE * w'.tabs[p] !in w.pool.live
    requires forall k :: 0 <= k < |frames| ==>
      PagePath(root, vas[k]) in am' && am'[PagePath(root, vas[k])] == am[PagePath(root, vas[k])]
    ensures Backs(w', am', root, vas, frames)
  {
  }

  /** What an operation that leaves the pages of a list alone does to the frames behind them: nothing. */
  lemma OtherBacks(g: PmmSpec.Geometry, w: World, am: PageMap, root: nat, vas: seq<nat>, frames: seq<nat>, op: Op)
    requires Stage(g, w, am, root) && Backs(w, am, root, vas, frames)
    requires Legal(w, op) && MapsWritable(op) && LeavesPages(root, vas, op)
    requires op.FreeOp? ==> PageBase(op.addr) !in frames
    ensures Stage(g, Step(g, w, op), AbsStep(g, w, am, op), root)
    ensures Backs(Step(g, w, op), AbsStep(g, w, am, op), root, vas, frames)
  {
    StepKeeps(g, w, am, op);
    StepWritable(g, w, am, op);
    var w', am' := Step(g, w, op), AbsStep(g, w, am, op);
    forall k | 0 <= k < |frames|
      ensures PagePath(root, vas[k]) in am' && am'[PagePath(root, vas[k])] == am[PagePath(root, vas[k])]
    {
      StepLeaves(g, w, am, op, PagePath(root, vas[k]));
    }
    if op.FreeOp? {
      PmmSpec.FreeKeepsIff(g, w.pool, op.addr);
    } else {
      StepFresh(g, w, am, op);
    }
    StillBacks(w, am, root, vas, frames, w', am');
  }

  /** What every event keeps: the heap stays a bump heap, and neither blocks nor pages are ever given up. */
  lemma EventKeeps(g: PmmSpec.Geometry, root: nat, k: Kernel, e: HeapEvent)
    requires HeapOk(g, root, k) && LegalEvent(g, root, k, e)
    ensures var k' := EventStep(g, root, k, e);
      HeapOk(g, root, k') && k.h.blocks <= k'.h.blocks && k.frames <= k'.frames
  {
    match e
    case KAlloc(n) => AllocWell(g, root, k, n);
    case Other(op) => OtherBacks(g, k.w, k.am, root, HeapRange(), k.frames, op);
  }

  function HeapRun(g: PmmSpec.Geometry, root: nat, k: Kernel, es: seq<HeapEvent>): Kernel
    decreases |es|
  {
    if es == [] then k else HeapRun(g, root, EventStep(g, root, k, es[0]), es[1..])
  }

  ghost predicate LegalHeapRun(g: PmmSpec.Geometry, root: nat, k: Kernel, es: seq<HeapEvent>)
    decreases |es|
  {
    es != [] ==> LegalEvent(g, root, k, es[0]) && LegalHeapRun(g, root, EventStep(g, root, k, es[0]), es[1..])
  }

  /** Over every run: blocks stay where they were put, disjoint and mapped, on frames nobody else uses. */
  lemma {:induction false} HeapRunKeeps(g: PmmSpec.Geometry, root: nat, k: Kernel, es: seq<HeapEvent>)
    requires HeapOk(g, root, k) && LegalHeapRun(g, root, k, es)
    ensures var k' := HeapRun(g, root, k, es);
      HeapOk(g, root, k') && k.h.blocks <= k'.h.blocks && k.frames <= k'.frames
    decreases |es|
  {
    if es == [] {
    } else {
      EventKeeps(g, root, k, es[0]);
      HeapRunKeeps(g, root, EventStep(g, root, k, es[0]), es[1..]);
    }
  }

  /** An allocation's block lies after every block there was. */
  lemma NewBlockAbove(g: PmmSpec.Geometry, root: nat, k: Kernel, n: nat, i: nat)
    requires HeapOk(g, root, k) && LegalAlloc(g, root, k, n) && HeapAlloc(g, root, k, n).1.Some?
    requires i < |k.h.blocks|
    ensures End(k.h.blocks[i]) <= HeapAlloc(g, root, k, n).1.value - HDR
  {
    AllocWell(g, root, k, n);
    EndsBelowTop(k.h, i);
  }

  /**
   Two allocations of a run never overlap: the data of the earlier one ends before the header of the later one,
   whatever happened in between.
   */
  lemma AllocationsApart(g: PmmSpec.Geometry, root: nat, k: Kernel, m: nat, es: seq<HeapEvent>, n: nat)
    requires HeapOk(g, root, k) && LegalAlloc(g, root, k, m)
    requires var (k1, p) := HeapAlloc(g, root, k, m);
      && LegalHeapRun(g, root, k1, es)
      && LegalAlloc(g, root, HeapRun(g, root, k1, es), n)
      && p.Some? && HeapAlloc(g, root, HeapRun(g, root, k1, es), n).1.Some?
    ensures var (k1, p) := HeapAlloc(g, root, k, m);
      p.value + m <= HeapAlloc(g, root, HeapRun(g, root, k1, es), n).1.value - HDR
  {
    var (k1, p) := HeapAlloc(g, root, k, m);
    AllocWell(g, root, k, m);
    HeapRunKeeps(g, root, k1, es);
    assert k1.h.blocks[|k.h.blocks|] == Block(Top(k.h), m);
    NewBlockAbove(g, root, HeapRun(g, root, k1, es), n, |k.h.blocks|);
  }

  // ----- the address space while the heap grows

  /** The paging operations a growing allocation amounts to. */
  function GrowOps(g: PmmSpec.Geometry, root: nat, k: Kernel, n: nat): seq<Op>
    decreases KH_MAX_NPAGES - k.h.npages
  {
    if k.h.npages >= KH_MAX_NPAGES || PmmSpec.Alloc(g, k.w.pool).1 == PHYS_ADDR_NULL then []
    else
      var k1 := AddPage(g, root, k);
      [MapPage(root, k.h.npages)] + if FindFree(k1.h, n).Some? then [] else GrowOps(g, root, k1, n)
  }

  function EventOps(g: PmmSpec.Geometry, root: nat, k: Kernel, e: HeapEvent): seq<Op> {
    match e
    case KAlloc(n) => if FindFree(k.h, n).Some? then [] else GrowOps(g, root, k, n)
    case Other(op) => [op]
  }

  function RunOps(g: PmmSpec.Geometry, root: nat, k: Kernel, es: seq<HeapEvent>): seq<Op>
    decreases |es|
  {
    if es == [] then []
    else EventOps(g, root, k, es[0]) + RunOps(g, root, EventStep(g, root, k, es[0]), es[1..])
  }

  /** Operations that leave the identity map of the low half alone. */
  ghost predicate KeepsLowHalf(ops: seq<Op>) {
    forall op :: op in ops ==> MapsWritable(op) && OutsideLowHalf(op)
  }

  lemma KeepsLowConcat(a: seq<Op>, b: seq<Op>)
    ensures KeepsLowHalf(a + b) <==> KeepsLowHalf(a) && KeepsLowHalf(b)
  {
    assert forall op :: op in a + b <==> op in a || op in b;
  }

  lemma {:induction false} RunConcat(g: PmmSpec.Geometry, w: World, a: seq<Op>, b: seq<Op>)
    ensures Run(g, w, a + b) == Run(g, Run(g, w, a), b)
    ensures LegalRun(g, w, a + b) <==> LegalRun(g, w, a) && LegalRun(g, Run(g, w, a), b)
    decreases |a|
  {
    if a == [] {
      assert a + b == b;
    } else {
      assert (a + b)[0] == a[0] && (a + b)[1..] == a[1..] + b;
      RunConcat(g, Step(g, w, a[0]), a[1..], b);
    }
  }

  /** `ops` lead from `w` to `w'` and are harmless to the low half. */
  ghost predicate Through(g: PmmSpec.Geometry, w: World, ops: seq<Op>, w': World) {
    LegalRun(g, w, ops) && Run(g, w, ops) == w' && KeepsLowHalf(ops)
  }

  lemma ThroughConcat(g: PmmSpec.Geometry, w: World, a: seq<Op>, w1: World, b: seq<Op>, w2: World)
    requires Through(g, w, a, w1) && Through(g, w1, b, w2)
    ensures Through(g, w, a + b, w2)
  {
    RunConcat(g, w, a, b);
    KeepsLowConcat(a, b);
  }

  lemma ThroughOne(g: PmmSpec.Geometry, w: World, op: Op)
    requires Legal(w, op) && MapsWritable(op) && OutsideLowHalf(op)
    ensures Through(g, w, [op], Step(g, w, op))
  {
    assert [op][1..] == [];
    assert Run(g, Step(g, w, op), []) == Step(g, w, op);
  }

  lemma ThroughPage(g: PmmSpec.Geometry, root: nat, k: Kernel)
    requires k.h.npages < KH_MAX_NPAGES && Legal(k.w, MapPage(root, k.h.npages))
    ensures Through(g, k.w, [MapPage(root, k.h.npages)], AddPage(g, root, k).w)
  {
    HeapVa(k.h.npages);
    WriteFlagsOk();
    ThroughOne(g, k.w, MapPage(root, k.h.npages));
  }

  lemma ThroughNone(g: PmmSpec.Geometry, w: World)
    ensures Through(g, w, [], w)
  {
  }

  lemma ThroughRound(g: PmmSpec.Geometry, root: nat, k: Kernel, ops: seq<Op>, w': World)
    requires k.h.npages < KH_MAX_NPAGES && Legal(k.w, MapPage(root, k.h.npages))
    requires Through(g, AddPage(g, root, k).w, ops, w')
    ensures Through(g, k.w, [MapPage(root, k.h.npages)] + ops, w')
  {
    ThroughPage(g, root, k);
    ThroughConcat(g, k.w, [MapPage(root, k.h.npages)], AddPage(g, root, k).w, ops, w');
  }

  lemma {:induction false} GrowIsRun(g: PmmSpec.Geometry, root: nat, k: Kernel, n: nat)
    requires HeapOk(g, root, k) && LegalGrow(g, root, k, n)
    ensures Through(g, k.w, GrowOps(g, root, k, n), Grow(g, root, k, n).0.w)
    decreases KH_MAX_NPAGES - k.h.npages
  {
    AllocFails(g, k.w);
    if k.h.npages < KH_MAX_NPAGES && 0 < PmmSpec.Avail(k.w.pool) {
      var k1 := GrownOnce(g, root, k, n);
      if FindFree(k1.h, n).None? {
        GrowIsRun(g, root, k1, n);
        var ops, w' := GrowOps(g, root, k1, n), Grow(g, root, k1, n).0.w;
        ThroughRound(g, root, k, ops, w');
        assert GrowOps(g, root, k, n) == [MapPage(root, k.h.npages)] + ops && Grow(g, root, k, n).0.w == w';
      } else {
        ThroughPage(g, root, k);
        assert GrowOps(g, root, k, n) == [MapPage(root, k.h.npages)] && Grow(g, root, k, n).0.w == k1.w;
      }
    } else {
      ThroughNone(g, k.w);
      assert GrowOps(g, root, k, n) == [] && Grow(g, root, k, n).0.w == k.w;
    }
  }

  ghost predicate OthersOutsideLowHalf(es: seq<HeapEvent>) {
    forall e :: e in es && e.Other? ==> OutsideLowHalf(e.op)
  }

  lemma {:induction false} HeapRunIsRun(g: PmmSpec.Geometry, root: nat, k: Kernel, es: seq<HeapEvent>)
    requires HeapOk(g, root, k) && LegalHeapRun(g, root, k, es) && OthersOutsideLowHalf(es)
    ensures Through(g, k.w, RunOps(g, root, k, es), HeapRun(g, root, k, es).w)
    decreases |es|
  {
    if es == [] {
    } else {
      var k1 := EventStep(g, root, k, es[0]);
      assert es[0] in es && forall e :: e in es[1..] ==> e in es;
      match es[0] {
        case KAlloc(n) =>
          if FindFree(k.h, n).None? {
            GrowIsRun(g, root, k, n);
          }
        case Other(op) => ThroughOne(g, k.w, op);
      }
      EventKeeps(g, root, k, es[0]);
      HeapRunIsRun(g, root, k1, es[1..]);
      ThroughConcat(g, k.w, EventOps(g, root, k, es[0]), k1.w, RunOps(g, root, k1, es[1..]),
                    HeapRun(g, root, k1, es[1..]).w);
    }
  }

  /**
   From `vmm_init` through `kheap_init` and every later run of heap calls and other paging outside the low half,
   each frame the allocator can hand out stays mapped to itself and writable.
   */
  lemma IdentityMapStays(g: PmmSpec.Geometry, w: World, am: PageMap, c: Boot, es: seq<HeapEvent>, f: nat)
    requires Inv(g, w) && Agrees(w, am) && AllWritable(w) && ValidBoot(c) && LegalBoot(g, w, c)
    requires g == Pmm.Spans(c.ents) && f in PmmSpec.AllFrames(g)
    requires var root, w1 := CreateMap(g, w).1, VmmInit(g, w, c);
      && Legal(w1, MapPage(root, 0))
      && LegalHeapRun(g, root, Init(g, root, w1, PutBoot(g, w, am, c)), es)
      && OthersOutsideLowHalf(es)
    ensures var root := CreateMap(g, w).1;
      MapsTo(HeapRun(g, root, Init(g, root, VmmInit(g, w, c), PutBoot(g, w, am, c)), es).w, root, Page(f, f))
  {
    var root, w1 := CreateMap(g, w).1, VmmInit(g, w, c);
    var k0 := Init(g, root, w1, PutBoot(g, w, am, c));
    BootMaps(g, w, am, c);
    InitOk(g, root, w1, PutBoot(g, w, am, c));
    ThroughPage(g, root, Kernel(w1, PutBoot(g, w, am, c), Heap([Block(KH_START, 0)], 0), []));
    HeapRunIsRun(g, root, k0, es);
    var ops, w2 := [MapPage(root, 0)] + RunOps(g, root, k0, es), HeapRun(g, root, k0, es).w;
    ThroughConcat(g, w1, [MapPage(root, 0)], k0.w, RunOps(g, root, k0, es), w2);
    FramesStayMapped(g, w, am, c, ops, f);
  }

  /** The processor finds every heap page at its own frame, writable. */
  lemma HeapPageMapped(g: PmmSpec.Geometry, root: nat, k: Kernel, i: nat)
    requires HeapOk(g, root, k) && i < k.h.npages
    ensures MapsTo(k.w, root, Page(k.frames[i], PageVa(i)))
  {
    HeapVa(i);
    assert InMap(k.am, root, Page(k.frames[i], HeapRange()[i]));
    MapsToIs(g, k.w, k.am, root, Page(k.frames[i], HeapRange()[i]));
  }
}
