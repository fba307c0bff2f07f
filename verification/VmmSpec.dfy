/** vmm.c: the kernel address space `vmm_init` builds, as stages over the page-table model. */
module VmmSpec {
  import opened Common
  import PmmSpec
  import Pmm
  import opened PageTables
  import opened PageRuns

  const K_STK_PAGES: nat := 8
  const K_STK_BASE: nat := 0xffff_ffff_4000_0000
  const K_VIRT_MIN: nat := 0xffff_ffff_8000_0000
  const LOW_HALF: nat := 0x8000_0000_0000
  const HIGH_HALF: nat := 0xffff_8000_0000_0000

  /** Where the boot loader put the kernel, and the usable memory. */
  datatype Boot = Boot(kphys: nat, kvirt: nat, ksize: nat, ents: seq<Pmm.Entry>)

  /** The x86 flags `vmm_map` makes of its own. */
  function X86Flags(write: bool, noExec: bool, noCache: bool): nat {
    1 + (if write then PF_RW else 0) + (if noExec then 0x8000_0000_0000_0000 else 0) + (if noCache then 0x10 else 0)
  }

  lemma FlagsLowIff(write: bool, noExec: bool, noCache: bool)
    ensures X86Flags(write, noExec, noCache) < PAGE_SIZE <==> !noExec
    ensures X86Flags(write, noExec, noCache) / 2 % 2 == 1 <==> write
  {
  }

  /** VF_WRITE */
  const WRITE_FLAGS: nat := 3

  /** Rounds of `for (i = 0; i < size; i += PAGE_SIZE)`. */
  function PageCount(size: nat): nat {
    (size + PAGE_SIZE - 1) / PAGE_SIZE
  }

  function KernelPages(c: Boot): seq<Page> {
    Consecutive(c.kphys, c.kvirt, PageCount(c.ksize))
  }

  function RegionPages(e: Pmm.Entry): seq<Page> {
    Consecutive(e.base, e.base, PageCount(e.size))
  }

  function MapAll(g: PmmSpec.Geometry, w: World, root: nat, ps: seq<Page>): World {
    MapPages(g, w, root, ps, |ps|, WRITE_FLAGS)
  }

  function PutAll(am: PageMap, root: nat, ps: seq<Page>): PageMap {
    PutPages(am, root, ps, |ps|, WRITE_FLAGS)
  }

  /** The first `k` usable regions, identity-mapped. */
  function MapRegions(g: PmmSpec.Geometry, w: World, root: nat, ents: seq<Pmm.Entry>, k: nat): World
    requires k <= |ents|
  {
    if k == 0 then w else MapAll(g, MapRegions(g, w, root, ents, k - 1), root, RegionPages(ents[k - 1]))
  }

  function PutRegions(am: PageMap, root: nat, ents: seq<Pmm.Entry>, k: nat): PageMap
    requires k <= |ents|
  {
    if k == 0 then am else PutAll(PutRegions(am, root, ents, k - 1), root, RegionPages(ents[k - 1]))
  }

  /** The addresses of `n` consecutive pages. */
  function Range(base: nat, n: nat): (vas: seq<nat>)
    ensures |vas| == n
  {
    seq(n, k requires 0 <= k < n => base + PAGE_SIZE * k)
  }

  function StackRange(): (vas: seq<nat>)
    ensures |vas| == K_STK_PAGES
  {
    Range(K_STK_BASE, K_STK_PAGES)
  }

  /** The first `n` of a list of pages, each backed by a frame allocated for it. */
  function GrowPages(g: PmmSpec.Geometry, w: World, root: nat, vas: seq<nat>, n: nat): World
    requires n <= |vas|
  {
    if n == 0 then w else Step(g, GrowPages(g, w, root, vas, n - 1), MapNew(root, vas[n - 1], WRITE_FLAGS))
  }

  /** The stages of `vmm_init`: low megabyte, kernel image, usable regions, kernel stack. */
  function AfterKernel(g: PmmSpec.Geometry, w: World, c: Boot): World {
    MapAll(g, CreateMap(g, w).0, CreateMap(g, w).1, KernelPages(c))
  }

  function AfterRegions(g: PmmSpec.Geometry, w: World, c: Boot): World {
    MapRegions(g, AfterKernel(g, w, c), CreateMap(g, w).1, c.ents, |c.ents|)
  }

  function VmmInit(g: PmmSpec.Geometry, w: World, c: Boot): World {
    GrowPages(g, AfterRegions(g, w, c), CreateMap(g, w).1, StackRange(), |StackRange()|)
  }

  // ----- frames suffice

  ghost predicate LegalAll(g: PmmSpec.Geometry, w: World, root: nat, ps: seq<Page>) {
    LegalPages(g, w, root, ps, |ps|, WRITE_FLAGS)
  }

  ghost predicate LegalRegions(g: PmmSpec.Geometry, w: World, root: nat, ents: seq<Pmm.Entry>, k: nat)
    requires k <= |ents|
  {
    k > 0 ==>
      && LegalRegions(g, w, root, ents, k - 1)
      && LegalAll(g, MapRegions(g, w, root, ents, k - 1), root, RegionPages(ents[k - 1]))
  }

  ghost predicate LegalGrowth(g: PmmSpec.Geometry, w: World, root: nat, vas: seq<nat>, n: nat)
    requires n <= |vas|
  {
    n > 0 ==>
      && LegalGrowth(g, w, root, vas, n - 1)
      && Legal(GrowPages(g, w, root, vas, n - 1), MapNew(root, vas[n - 1], WRITE_FLAGS))
  }

  /** No stage of `vmm_init` runs out of frames. */
  ghost predicate LegalBoot(g: PmmSpec.Geometry, w: World, c: Boot) {
    var root := CreateMap(g, w).1;
    && Legal(w, Create)
    && LegalAll(g, CreateMap(g, w).0, root, KernelPages(c))
    && LegalRegions(g, AfterKernel(g, w, c), root, c.ents, |c.ents|)
    && LegalGrowth(g, AfterRegions(g, w, c), root, StackRange(), |StackRange()|)
  }

  // ----- memory suffices

  /** The tables walked for a page mapped to a new frame lie in memory. */
  ghost predicate NewInside(g: PmmSpec.Geometry, w: World, root: nat, va: nat) {
    WalkInside(g, w.(pool := PmmSpec.Alloc(g, w.pool).0), root, VaddrToPgInd(va), WRITE_FLAGS)
  }

  ghost predicate AllInside(g: PmmSpec.Geometry, w: World, root: nat, ps: seq<Page>) {
    PagesInside(g, w, root, ps, |ps|, WRITE_FLAGS)
  }

  ghost predicate RegionsInside(g: PmmSpec.Geometry, w: World, root: nat, ents: seq<Pmm.Entry>, k: nat)
    requires k <= |ents|
  {
    k > 0 ==>
      && RegionsInside(g, w, root, ents, k - 1)
      && AllInside(g, MapRegions(g, w, root, ents, k - 1), root, RegionPages(ents[k - 1]))
  }

  ghost predicate GrowthInside(g: PmmSpec.Geometry, w: World, root: nat, vas: seq<nat>, n: nat)
    requires n <= |vas|
  {
    n > 0 ==>
      && GrowthInside(g, w, root, vas, n - 1)
      && NewInside(g, GrowPages(g, w, root, vas, n - 1), root, vas[n - 1])
  }

  /** The tables walked by the loops of `vmm_init` after the first lie in memory. */
  ghost predicate BootInside(g: PmmSpec.Geometry, w: World, c: Boot) {
    var root := CreateMap(g, w).1;
    && AllInside(g, CreateMap(g, w).0, root, KernelPages(c))
    && RegionsInside(g, AfterKernel(g, w, c), root, c.ents, |c.ents|)
    && GrowthInside(g, AfterRegions(g, w, c), root, StackRange(), |StackRange()|)
  }

  // ----- what is mapped

  /** The kernel image lies in the top two gigabytes and usable memory below the high half. */
  ghost predicate ValidBoot(c: Boot) {
    && K_VIRT_MIN <= c.kvirt && c.kvirt + c.ksize <= TWO64
    && Pmm.ValidEntries(c.ents)
    && (forall i :: 0 <= i < |c.ents| ==> c.ents[i].base + c.ents[i].size <= LOW_HALF)
  }

  // ----- page numbers

  /** The 36 bits of an address the walk uses. */
  function PageNo(va: nat): nat {
    va / PAGE_SIZE % 0x10_0000_0000
  }

  lemma LowPageNo(va: nat)
    requires va < LOW_HALF
    ensures PageNo(va) == va / PAGE_SIZE < 0x8_0000_0000
  {
  }

  lemma HighPageNo(va: nat)
    requires HIGH_HALF <= va < TWO64
    ensures PageNo(va) == va / PAGE_SIZE - 0xf_fff0_0000_0000 >= 0x8_0000_0000
  {
  }

  /** Pages of the two halves never coincide; within a half, pages are as different as their numbers. */
  lemma PagesApart(root: nat, a: nat, b: nat)
    requires a < LOW_HALF || HIGH_HALF <= a < TWO64
    requires b < LOW_HALF || HIGH_HALF <= b < TWO64
    ensures PagePath(root, a) == PagePath(root, b) <==> a / PAGE_SIZE == b / PAGE_SIZE
  {
    SamePage(root, a, b);
    if a < LOW_HALF {
      LowPageNo(a);
    } else {
      HighPageNo(a);
    }
    if b < LOW_HALF {
      LowPageNo(b);
    } else {
      HighPageNo(b);
    }
  }

  // ----- pages backed by frames of their own

  ghost predicate DistinctPages(root: nat, vas: seq<nat>) {
    forall j, k :: 0 <= j < k < |vas| ==> PagePath(root, vas[j]) != PagePath(root, vas[k])
  }

  /** Consecutive pages of the high half are distinct. */
  lemma RangeDistinct(root: nat, base: nat, n: nat)
    requires HIGH_HALF <= base && base + PAGE_SIZE * n <= TWO64
    ensures DistinctPages(root, Range(base, n))
  {
    var vas := Range(base, n);
    forall j, k | 0 <= j < k < n ensures PagePath(root, vas[j]) != PagePath(root, vas[k]) {
      PagesApart(root, vas[j], vas[k]);
    }
  }

  ghost predicate PagesAre(am: PageMap, root: nat, vas: seq<nat>, frames: seq<nat>)
    requires |frames| <= |vas|
  {
    forall k :: 0 <= k < |frames| ==>
      PagePath(root, vas[k]) in am && am[PagePath(root, vas[k])] == MakeEntry(frames[k], WRITE_FLAGS)
  }

  /** Page `k` of the list is backed by `frames[k]`: distinct frames, owned by callers, that hold no table. */
  ghost predicate Backs(w: World, am: PageMap, root: nat, vas: seq<nat>, frames: seq<nat>) {
    && |frames| <= |vas| && NoDup(frames)
    && (forall k :: 0 <= k < |frames| ==> frames[k] in w.pool.live)
    && (forall k, p :: 0 <= k < |frames| && p in w.tabs ==> PAGE_SIZE * w.tabs[p] != frames[k])
    && PagesAre(am, root, vas, frames)
  }

  /** What every stage keeps. */
  ghost predicate Stage(g: PmmSpec.Geometry, w: World, am: PageMap, root: nat) {
    Inv(g, w) && Agrees(w, am) && AllWritable(w) && Root(root) in w.tabs
  }

  lemma WriteFlagsOk()
    ensures WRITE_FLAGS < PAGE_SIZE && WRITE_FLAGS / 2 % 2 == 1
  {
  }

  /** The tables are sound while the pool has frames left: what `vmm_map` of a new page needs. */
  ghost predicate Ready(g: PmmSpec.Geometry, w: World, root: nat) {
    0 < PmmSpec.Avail(w.pool) ==> Inv(g, w) && Root(root) in w.tabs
  }

  lemma AllocKeepsInv(g: PmmSpec.Geometry, w: World)
    requires Inv(g, w)
    ensures Inv(g, w.(pool := PmmSpec.Alloc(g, w.pool).0))
  {
    PmmSpec.AllocMeaning(g, w.pool);
    PoolStep(g, w, PmmSpec.Alloc(g, w.pool).0);
  }

  lemma AllocTakesOne(g: PmmSpec.Geometry, s: PmmSpec.State)
    requires PmmSpec.ValidGeometry(g) && PmmSpec.Owned(g, s) && 0 < PmmSpec.Avail(s)
    ensures PmmSpec.Avail(PmmSpec.Alloc(g, s).0) == PmmSpec.Avail(s) - 1
  {
    PmmSpec.AllocMeaning(g, s);
    PmmSpec.AvailZero(s);
  }

  lemma MapNewKeeps(g: PmmSpec.Geometry, w: World, root: nat, va: nat)
    requires Inv(g, w) && Legal(w, MapNew(root, va, WRITE_FLAGS))
    ensures Inv(g, Step(g, w, MapNew(root, va, WRITE_FLAGS)))
    ensures Root(root) in w.tabs && Root(root) in Step(g, w, MapNew(root, va, WRITE_FLAGS)).tabs
  {
    var (pool, pa) := PmmSpec.Alloc(g, w.pool);
    AllocKeepsInv(g, w);
    AllocTakesOne(g, w.pool);
    MapMeaning(g, w.(pool := pool), root, pa, va, WRITE_FLAGS);
  }

  lemma MapShort(g: PmmSpec.Geometry, w: World, root: nat, pa: nat, va: nat)
    requires Inv(g, w) && Root(root) in w.tabs && PmmSpec.Avail(w.pool) < Missing(w, NodesOf(root, va))
    ensures Broken(g, Map(g, w, root, pa, va, WRITE_FLAGS))
  {
    WriteFlagsOk();
    MapKeepsIff(g, w, root, pa, va, WRITE_FLAGS);
  }

  lemma NewShort(w: World, root: nat, va: nat)
    requires Root(root) in w.tabs && !Legal(w, MapNew(root, va, WRITE_FLAGS))
    ensures PmmSpec.Avail(w.pool) < 1 + Missing(w, NodesOf(root, va))
  {
    WriteFlagsOk();
  }

  lemma StepIsMap(g: PmmSpec.Geometry, w: World, root: nat, va: nat)
    ensures Step(g, w, MapNew(root, va, WRITE_FLAGS))
         == Map(g, w.(pool := PmmSpec.Alloc(g, w.pool).0), root, PmmSpec.Alloc(g, w.pool).1, va, WRITE_FLAGS)
  {
  }

  lemma AfterAlloc(g: PmmSpec.Geometry, w: World, root: nat, va: nat)
    requires Inv(g, w) && Root(root) in w.tabs && 0 < PmmSpec.Avail(w.pool)
    requires PmmSpec.Avail(w.pool) < 1 + Missing(w, NodesOf(root, va))
    ensures var w1 := w.(pool := PmmSpec.Alloc(g, w.pool).0);
      Inv(g, w1) && Root(root) in w1.tabs && PmmSpec.Avail(w1.pool) < Missing(w1, NodesOf(root, va))
  {
    AllocKeepsInv(g, w);
    AllocTakesOne(g, w.pool);
  }

  /** A new page whose tables the pool cannot pay for empties the pool and breaks the tables. */
  lemma MapNewBreaks(g: PmmSpec.Geometry, w: World, root: nat, va: nat)
    requires Inv(g, w) && Root(root) in w.tabs && 0 < PmmSpec.Avail(w.pool)
    requires PmmSpec.Avail(w.pool) < 1 + Missing(w, NodesOf(root, va))
    ensures Broken(g, Step(g, w, MapNew(root, va, WRITE_FLAGS)))
  {
    AfterAlloc(g, w, root, va);
    MapShort(g, w.(pool := PmmSpec.Alloc(g, w.pool).0), root, PmmSpec.Alloc(g, w.pool).1, va);
    StepIsMap(g, w, root, va);
  }

  /** So mapping new pages, checked for NULL, can always go on. */
  lemma StaysReady(g: PmmSpec.Geometry, w: World, root: nat, va: nat)
    requires Ready(g, w, root) && 0 < PmmSpec.Avail(w.pool)
    ensures Ready(g, Step(g, w, MapNew(root, va, WRITE_FLAGS)), root)
  {
    if Legal(w, MapNew(root, va, WRITE_FLAGS)) {
      MapNewKeeps(g, w, root, va);
    } else {
      NewShort(w, root, va);
      MapNewBreaks(g, w, root, va);
    }
  }

  lemma PagesMore(am: PageMap, root: nat, vas: seq<nat>, frames: seq<nat>, am': PageMap, pa: nat)
    requires |frames| < |vas| && DistinctPages(root, vas) && PagesAre(am, root, vas, frames)
    requires am' == am[PagePath(root, vas[|frames|]) := MakeEntry(pa, WRITE_FLAGS)]
    ensures PagesAre(am', root, vas, frames + [pa])
  {
  }

  lemma BacksMore(w: World, am: PageMap, root: nat, vas: seq<nat>, frames: seq<nat>, w': World, am': PageMap, pa: nat)
    requires Backs(w, am, root, vas, frames) && |frames| < |vas| && DistinctPages(root, vas)
    requires pa !in w.pool.live && pa in w'.pool.live && w.pool.live <= w'.pool.live
    requires forall q :: q in w.tabs ==> q in w'.tabs && w'.tabs[q] == w.tabs[q]
    requires forall p :: p in w'.tabs ==> PAGE_SIZE * w'.tabs[p] != pa
    requires forall p :: p in w'.tabs && p !in w.tabs ==> PAGE_SIZE * w'.tabs[p] !in w.pool.live
    requires am' == am[PagePath(root, vas[|frames|]) := MakeEntry(pa, WRITE_FLAGS)]
    ensures Backs(w', am', root, vas, frames + [pa])
  {
    PagesMore(am, root, vas, frames, am', pa);
  }

  lemma NewPageInside(g: PmmSpec.Geometry, w: World, root: nat, va: nat)
    requires Inv(g, w) && Root(root) in w.tabs
    ensures NewInside(g, w, root, va)
  {
    AllocKeepsInv(g, w);
    WriteFlagsOk();
    WalkStaysInside(g, w.(pool := PmmSpec.Alloc(g, w.pool).0), root, VaddrToPgInd(va), WRITE_FLAGS);
  }

  lemma {:induction false} LegalRegionsInside(g: PmmSpec.Geometry, w: World, root: nat, ents: seq<Pmm.Entry>, k: nat)
    requires k <= |ents| && Inv(g, w) && LegalRegions(g, w, root, ents, k)
    ensures RegionsInside(g, w, root, ents, k) && Inv(g, MapRegions(g, w, root, ents, k))
  {
    if k > 0 {
      LegalRegionsInside(g, w, root, ents, k - 1);
      var ps := RegionPages(ents[k - 1]);
      LegalPagesInside(g, MapRegions(g, w, root, ents, k - 1), root, ps, |ps|, WRITE_FLAGS);
    }
  }

  lemma LegalNewInside(g: PmmSpec.Geometry, w: World, root: nat, va: nat)
    requires Inv(g, w) && Legal(w, MapNew(root, va, WRITE_FLAGS))
    ensures NewInside(g, w, root, va) && Inv(g, Step(g, w, MapNew(root, va, WRITE_FLAGS)))
  {
    MapNewKeeps(g, w, root, va);
    NewPageInside(g, w, root, va);
  }

  lemma {:induction false} LegalGrowthInside(g: PmmSpec.Geometry, w: World, root: nat, vas: seq<nat>, n: nat)
    requires n <= |vas| && Inv(g, w) && LegalGrowth(g, w, root, vas, n)
    ensures GrowthInside(g, w, root, vas, n) && Inv(g, GrowPages(g, w, root, vas, n))
  {
    if n > 0 {
      LegalGrowthInside(g, w, root, vas, n - 1);
      LegalNewInside(g, GrowPages(g, w, root, vas, n - 1), root, vas[n - 1]);
    }
  }

  /** With the frames `vmm_init` needs, it stays inside memory and leaves the tables sound. */
  lemma LegalBootInside(g: PmmSpec.Geometry, w: World, am: PageMap, c: Boot)
    requires Inv(g, w) && Agrees(w, am) && LegalBoot(g, w, c)
    ensures BootInside(g, w, c) && Inv(g, VmmInit(g, w, c))
  {
    var root := CreateMap(g, w).1;
    CreateStep(g, w, am);
    LegalPagesInside(g, CreateMap(g, w).0, root, KernelPages(c), |KernelPages(c)|, WRITE_FLAGS);
    LegalRegionsInside(g, AfterKernel(g, w, c), root, c.ents, |c.ents|);
    LegalGrowthInside(g, AfterRegions(g, w, c), root, StackRange(), |StackRange()|);
  }

  /** Mapping the next page of the list to a new frame. */
  lemma MapNewBacks(g: PmmSpec.Geometry, w: World, am: PageMap, root: nat, vas: seq<nat>, frames: seq<nat>)
    requires Stage(g, w, am, root) && Backs(w, am, root, vas, frames) && |frames| < |vas| && DistinctPages(root, vas)
    requires Legal(w, MapNew(root, vas[|frames|], WRITE_FLAGS))
    ensures var op := MapNew(root, vas[|frames|], WRITE_FLAGS);
      var w', am', pa := Step(g, w, op), AbsStep(g, w, am, op), PmmSpec.Alloc(g, w.pool).1;
      Stage(g, w', am', root) && Backs(w', am', root, vas, frames + [pa])
  {
    var va, pa := vas[|frames|], PmmSpec.Alloc(g, w.pool).1;
    WriteFlagsOk();
    MapNewStep(g, w, am, root, va, WRITE_FLAGS);
    var w', am' := Step(g, w, MapNew(root, va, WRITE_FLAGS)), am[PagePath(root, va) := MakeEntry(pa, WRITE_FLAGS)];
    BacksMore(w, am, root, vas, frames, w', am', pa);
  }

  /** The frames `GrowPages` allocates for its pages. */
  function GrowFrames(g: PmmSpec.Geometry, w: World, root: nat, vas: seq<nat>, n: nat): (f: seq<nat>)
    requires n <= |vas|
    ensures |f| == n
  {
    if n == 0 then []
    else GrowFrames(g, w, root, vas, n - 1) + [PmmSpec.Alloc(g, GrowPages(g, w, root, vas, n - 1).pool).1]
  }

  function PutGrown(g: PmmSpec.Geometry, w: World, am: PageMap, root: nat, vas: seq<nat>, n: nat): PageMap
    requires n <= |vas|
  {
    if n == 0 then am
    else
      PutGrown(g, w, am, root, vas, n - 1)[
        PagePath(root, vas[n - 1]) :=
          MakeEntry(PmmSpec.Alloc(g, GrowPages(g, w, root, vas, n - 1).pool).1, WRITE_FLAGS)]
  }

  lemma {:induction false} GrowthBacks(g: PmmSpec.Geometry, w: World, am: PageMap, root: nat, vas: seq<nat>, n: nat)
    requires n <= |vas| && Stage(g, w, am, root) && LegalGrowth(g, w, root, vas, n) && DistinctPages(root, vas)
    ensures Stage(g, GrowPages(g, w, root, vas, n), PutGrown(g, w, am, root, vas, n), root)
    ensures Backs(GrowPages(g, w, root, vas, n), PutGrown(g, w, am, root, vas, n), root, vas,
                  GrowFrames(g, w, root, vas, n))
  {
    if n == 0 {
    } else {
      GrowthBacks(g, w, am, root, vas, n - 1);
      MapNewBacks(g, GrowPages(g, w, root, vas, n - 1), PutGrown(g, w, am, root, vas, n - 1), root, vas,
                  GrowFrames(g, w, root, vas, n - 1));
    }
  }

  lemma LastPut(g: PmmSpec.Geometry, w: World, am: PageMap, root: nat, vas: seq<nat>, n: nat) returns (e: nat)
    requires 0 < n <= |vas|
    ensures PutGrown(g, w, am, root, vas, n)
         == PutGrown(g, w, am, root, vas, n - 1)[PagePath(root, vas[n - 1]) := e]
  {
    e := MakeEntry(PmmSpec.Alloc(g, GrowPages(g, w, root, vas, n - 1).pool).1, WRITE_FLAGS);
  }

  /** Both maps say the same of page `q`. */
  predicate SameAt(am: PageMap, am': PageMap, q: Path) {
    (q in am' <==> q in am) && (q in am ==> am'[q] == am[q])
  }

  lemma PutElsewhere(am: PageMap, before: PageMap, after: PageMap, p: Path, e: nat, q: Path)
    requires SameAt(am, before, q) && after == before[p := e] && p != q
    ensures SameAt(am, after, q)
  {
  }

  /** Growth elsewhere leaves a page alone. */
  lemma {:induction false} GrowthElsewhere(g: PmmSpec.Geometry, w: World, am: PageMap, root: nat, vas: seq<nat>,
                                           n: nat, q: Path)
    requires n <= |vas| && forall k :: 0 <= k < n ==> PagePath(root, vas[k]) != q
    ensures SameAt(am, PutGrown(g, w, am, root, vas, n), q)
  {
    if n == 0 {
    } else {
      var m := n - 1;
      GrowthElsewhere(g, w, am, root, vas, m, q);
      var e := LastPut(g, w, am, root, vas, n);
      PutElsewhere(am, PutGrown(g, w, am, root, vas, m), PutGrown(g, w, am, root, vas, n),
                   PagePath(root, vas[m]), e, q);
    }
  }

  // ----- vmm_init

  lemma MapAllStage(g: PmmSpec.Geometry, w: World, am: PageMap, root: nat, ps: seq<Page>)
    requires Stage(g, w, am, root) && LegalAll(g, w, root, ps)
    ensures Stage(g, MapAll(g, w, root, ps), PutAll(am, root, ps), root)
  {
    WriteFlagsOk();
    PagesLoop(g, w, am, root, ps, |ps|, WRITE_FLAGS);
  }

  lemma {:induction false} RegionsStage(g: PmmSpec.Geometry, w: World, am: PageMap, root: nat, ents: seq<Pmm.Entry>,
                                        k: nat)
    requires k <= |ents| && Stage(g, w, am, root) && LegalRegions(g, w, root, ents, k)
    ensures Stage(g, MapRegions(g, w, root, ents, k), PutRegions(am, root, ents, k), root)
  {
    if k == 0 {
    } else {
      RegionsStage(g, w, am, root, ents, k - 1);
      MapAllStage(g, MapRegions(g, w, root, ents, k - 1), PutRegions(am, root, ents, k - 1), root,
                  RegionPages(ents[k - 1]));
    }
  }

  /** The finite map after each stage. */
  function PutKernel(g: PmmSpec.Geometry, w: World, am: PageMap, c: Boot): PageMap {
    var root := CreateMap(g, w).1;
    PutAll(PutPages(am, root, FirstMegabyte(), |FirstMegabyte()|, PF_RW), root, KernelPages(c))
  }

  function PutMemory(g: PmmSpec.Geometry, w: World, am: PageMap, c: Boot): PageMap {
    PutRegions(PutKernel(g, w, am, c), CreateMap(g, w).1, c.ents, |c.ents|)
  }

  function PutBoot(g: PmmSpec.Geometry, w: World, am: PageMap, c: Boot): PageMap {
    PutGrown(g, AfterRegions(g, w, c), PutMemory(g, w, am, c), CreateMap(g, w).1, StackRange(), |StackRange()|)
  }

  /** `vmm_init` keeps the invariant, and the stack pages get frames of their own. */
  lemma BootStages(g: PmmSpec.Geometry, w: World, am: PageMap, c: Boot)
    requires Inv(g, w) && Agrees(w, am) && AllWritable(w) && LegalBoot(g, w, c)
    ensures var root := CreateMap(g, w).1;
      && Stage(g, AfterKernel(g, w, c), PutKernel(g, w, am, c), root)
      && Stage(g, AfterRegions(g, w, c), PutMemory(g, w, am, c), root)
      && Stage(g, VmmInit(g, w, c), PutBoot(g, w, am, c), root)
      && Backs(VmmInit(g, w, c), PutBoot(g, w, am, c), root, StackRange(),
               GrowFrames(g, AfterRegions(g, w, c), root, StackRange(), |StackRange()|))
  {
    var root := CreateMap(g, w).1;
    CreateStep(g, w, am);
    MapAllStage(g, CreateMap(g, w).0, PutPages(am, root, FirstMegabyte(), |FirstMegabyte()|, PF_RW), root,
      KernelPages(c));
    RegionsStage(g, AfterKernel(g, w, c), PutKernel(g, w, am, c), root, c.ents, |c.ents|);
    RangeDistinct(root, K_STK_BASE, K_STK_PAGES);
    GrowthBacks(g, AfterRegions(g, w, c), PutMemory(g, w, am, c), root, StackRange(), |StackRange()|);
  }

  /** Bit 63 of an address is decided by its frame. */
  lemma TopBit(x: nat)
    ensures x / 0x8000_0000_0000_0000 == x / 4096 / 0x8_0000_0000_0000
  {
    var q := x / 4096 / 0x8_0000_0000_0000;
    DivMod(x, 4096);
    DivMod(x / 4096, 0x8_0000_0000_0000);
    DivUnique(x, 0x8000_0000_0000_0000, q);
  }

  /** Entries depend on the page of the physical address only. */
  lemma SameFrameEntry(x: nat, y: nat, flags: nat)
    requires x / PAGE_SIZE == y / PAGE_SIZE
    ensures MakeEntry(x, flags) == MakeEntry(y, flags)
  {
    TopBit(x);
    TopBit(y);
  }

  /** The rounds of a loop stay inside the bytes it covers. */
  lemma PageInside(size: nat, k: nat)
    requires k < PageCount(size)
    ensures PAGE_SIZE * k < size
  {
  }

  lemma {:induction false} RegionsElsewhere(am: PageMap, root: nat, ents: seq<Pmm.Entry>, n: nat, q: Path)
    requires n <= |ents|
    requires forall i, k :: 0 <= i < n && 0 <= k < |RegionPages(ents[i])| ==>
      PagePath(root, RegionPages(ents[i])[k].va) != q
    ensures q in PutRegions(am, root, ents, n) <==> q in am
    ensures q in am ==> PutRegions(am, root, ents, n)[q] == am[q]
  {
    if n == 0 {
    } else {
      RegionsElsewhere(am, root, ents, n - 1, q);
      var ps := RegionPages(ents[n - 1]);
      PutPagesElsewhere(PutRegions(am, root, ents, n - 1), root, ps, |ps|, WRITE_FLAGS, q);
    }
  }

  /** A page of region `i` ends with its own entry when every region that covers it agrees. */
  lemma {:induction false} RegionsSame(am: PageMap, root: nat, ents: seq<Pmm.Entry>, n: nat, q: Path, e: nat, i: nat,
                                       j: nat)
    requires i < n <= |ents| && j < |RegionPages(ents[i])| && q == PagePath(root, RegionPages(ents[i])[j].va)
    requires forall i', k ::
      0 <= i' < n && 0 <= k < |RegionPages(ents[i'])| && PagePath(root, RegionPages(ents[i'])[k].va) == q ==>
      MakeEntry(RegionPages(ents[i'])[k].pa, WRITE_FLAGS) == e
    ensures q in PutRegions(am, root, ents, n) && PutRegions(am, root, ents, n)[q] == e
  {
    var ps := RegionPages(ents[n - 1]);
    if i < n - 1 {
      RegionsSame(am, root, ents, n - 1, q, e, i, j);
    }
    PutPagesSame(PutRegions(am, root, ents, n - 1), root, ps, |ps|, WRITE_FLAGS, q, e);
  }

  lemma RegionPageIs(c: Boot, i: nat, k: nat)
    requires ValidBoot(c) && i < |c.ents| && k < PageCount(c.ents[i].size)
    ensures RegionPages(c.ents[i])[k] == Page(c.ents[i].base + PAGE_SIZE * k, c.ents[i].base + PAGE_SIZE * k)
    ensures c.ents[i].base + PAGE_SIZE * k < LOW_HALF
  {
    PageInside(c.ents[i].size, k);
  }

  lemma StackPageIs(k: nat)
    requires k < K_STK_PAGES
    ensures StackRange()[k] == K_STK_BASE + PAGE_SIZE * k && HIGH_HALF <= StackRange()[k] < K_VIRT_MIN
  {
  }

  lemma KernelPageIs(c: Boot, k: nat)
    requires ValidBoot(c) && k < PageCount(c.ksize)
    ensures KernelPages(c)[k] == Page(c.kphys + PAGE_SIZE * k, c.kvirt + PAGE_SIZE * k)
    ensures K_VIRT_MIN <= c.kvirt + PAGE_SIZE * k < TWO64
  {
    PageInside(c.ksize, k);
  }

  /** A page of the low half is not one of the stack's. */
  lemma LowNotStack(root: nat, pa: nat)
    requires pa < LOW_HALF
    ensures forall k :: 0 <= k < K_STK_PAGES ==> PagePath(root, StackRange()[k]) != PagePath(root, pa)
  {
    forall k | 0 <= k < K_STK_PAGES ensures PagePath(root, StackRange()[k]) != PagePath(root, pa) {
      StackPageIs(k);
      PagesApart(root, StackRange()[k], pa);
    }
  }

  ghost predicate InMap(am: PageMap, root: nat, p: Page) {
    PagePath(root, p.va) in am && am[PagePath(root, p.va)] == MakeEntry(p.pa, WRITE_FLAGS)
  }

  /** Pages of usable memory that share a path share an entry. */
  lemma SamePageSameEntry(c: Boot, root: nat, i: nat, j: nat, i': nat, k: nat)
    requires ValidBoot(c) && i < |c.ents| && j < |RegionPages(c.ents[i])|
    requires i' < |c.ents| && k < |RegionPages(c.ents[i'])|
    requires PagePath(root, RegionPages(c.ents[i'])[k].va) == PagePath(root, RegionPages(c.ents[i])[j].va)
    ensures MakeEntry(RegionPages(c.ents[i'])[k].pa, WRITE_FLAGS)
         == MakeEntry(RegionPages(c.ents[i])[j].pa, WRITE_FLAGS)
  {
    RegionPageIs(c, i, j);
    RegionPageIs(c, i', k);
    PagesApart(root, RegionPages(c.ents[i'])[k].va, RegionPages(c.ents[i])[j].va);
    SameFrameEntry(RegionPages(c.ents[i'])[k].pa, RegionPages(c.ents[i])[j].pa, WRITE_FLAGS);
  }

  /** In the finite map of `vmm_init`, every page of usable memory is mapped to itself. */
  lemma MemoryInMap(g: PmmSpec.Geometry, w: World, am: PageMap, c: Boot, i: nat, j: nat)
    requires ValidBoot(c) && i < |c.ents| && j < |RegionPages(c.ents[i])|
    ensures InMap(PutBoot(g, w, am, c), CreateMap(g, w).1, RegionPages(c.ents[i])[j])
  {
    var root, p := CreateMap(g, w).1, RegionPages(c.ents[i])[j];
    var q, e := PagePath(root, p.va), MakeEntry(p.pa, WRITE_FLAGS);
    RegionPageIs(c, i, j);
    forall i', k | 0 <= i' < |c.ents| && 0 <= k < |RegionPages(c.ents[i'])|
      && PagePath(root, RegionPages(c.ents[i'])[k].va) == q
      ensures MakeEntry(RegionPages(c.ents[i'])[k].pa, WRITE_FLAGS) == e
    {
      SamePageSameEntry(c, root, i, j, i', k);
    }
    RegionsSame(PutKernel(g, w, am, c), root, c.ents, |c.ents|, q, e, i, j);
    LowNotStack(root, p.va);
    GrowthElsewhere(g, AfterRegions(g, w, c), PutMemory(g, w, am, c), root, StackRange(), |StackRange()|, q);
  }

  /** The kernel loop maps each page of the image once. */
  lemma KernelStage(am: PageMap, root: nat, c: Boot, j: nat)
    requires ValidBoot(c) && j < |KernelPages(c)|
    ensures InMap(PutAll(am, root, KernelPages(c)), root, KernelPages(c)[j])
  {
    var ps := KernelPages(c);
    var q, e := PagePath(root, ps[j].va), MakeEntry(ps[j].pa, WRITE_FLAGS);
    KernelPageIs(c, j);
    forall k | 0 <= k < |ps| && PagePath(root, ps[k].va) == q ensures MakeEntry(ps[k].pa, WRITE_FLAGS) == e {
      KernelPageIs(c, k);
      PagesApart(root, ps[k].va, ps[j].va);
    }
    PutPagesSame(am, root, ps, |ps|, WRITE_FLAGS, q, e);
  }

  /** The pages of the kernel image are neither usable memory nor stack. */
  lemma KernelApart(root: nat, c: Boot, va: nat)
    requires ValidBoot(c) && K_VIRT_MIN <= va < TWO64
    ensures forall i, k :: 0 <= i < |c.ents| && 0 <= k < |RegionPages(c.ents[i])| ==>
      PagePath(root, RegionPages(c.ents[i])[k].va) != PagePath(root, va)
    ensures forall k :: 0 <= k < K_STK_PAGES ==> PagePath(root, StackRange()[k]) != PagePath(root, va)
  {
    forall i, k | 0 <= i < |c.ents| && 0 <= k < |RegionPages(c.ents[i])|
      ensures PagePath(root, RegionPages(c.ents[i])[k].va) != PagePath(root, va)
    {
      RegionPageIs(c, i, k);
      PagesApart(root, RegionPages(c.ents[i])[k].va, va);
    }
    forall k | 0 <= k < K_STK_PAGES ensures PagePath(root, StackRange()[k]) != PagePath(root, va) {
      StackPageIs(k);
      PagesApart(root, StackRange()[k], va);
    }
  }

  /** Every page of the kernel image is mapped to where the boot loader put it. */
  lemma KernelInMap(g: PmmSpec.Geometry, w: World, am: PageMap, c: Boot, j: nat)
    requires ValidBoot(c) && j < |KernelPages(c)|
    ensures InMap(PutBoot(g, w, am, c), CreateMap(g, w).1, KernelPages(c)[j])
  {
    var root, p := CreateMap(g, w).1, KernelPages(c)[j];
    KernelPageIs(c, j);
    KernelStage(PutPages(am, root, FirstMegabyte(), |FirstMegabyte()|, PF_RW), root, c, j);
    KernelApart(root, c, p.va);
    RegionsElsewhere(PutKernel(g, w, am, c), root, c.ents, |c.ents|, PagePath(root, p.va));
    GrowthElsewhere(g, AfterRegions(g, w, c), PutMemory(g, w, am, c), root, StackRange(), |StackRange()|,
                    PagePath(root, p.va));
  }

  /** The processor finds the page's frame at its address, and may write there. */
  ghost predicate MapsTo(w: World, root: nat, p: Page) {
    && Lookup(w.mem, PagePath(root, p.va)) == Some(MakeEntry(p.pa, WRITE_FLAGS))
    && WritableTo(w.mem, PagePath(root, p.va))
  }

  ghost predicate AllMapped(w: World, root: nat, ps: seq<Page>) {
    forall k :: 0 <= k < |ps| ==> MapsTo(w, root, ps[k])
  }

  lemma MapsToIs(g: PmmSpec.Geometry, w: World, am: PageMap, root: nat, p: Page)
    requires Stage(g, w, am, root) && InMap(am, root, p)
    ensures MapsTo(w, root, p)
  {
    var q := PagePath(root, p.va);
    assert PageIn(w, q);
    WriteFlagsOk();
    EntryFacts(p.pa, WRITE_FLAGS);
    PageWritableIff(w, q);
  }

  /** The frames `vmm_init` puts behind the stack, and the stack's pages. */
  function StackFrames(g: PmmSpec.Geometry, w: World, c: Boot): (f: seq<nat>)
    ensures |f| == K_STK_PAGES
  {
    GrowFrames(g, AfterRegions(g, w, c), CreateMap(g, w).1, StackRange(), |StackRange()|)
  }

  /** Page `k` at `vas[k]` on `frames[k]`. */
  function Zip(frames: seq<nat>, vas: seq<nat>): (ps: seq<Page>)
    requires |frames| == |vas|
    ensures |ps| == |vas| && forall k :: 0 <= k < |ps| ==> ps[k] == Page(frames[k], vas[k])
  {
    seq(|vas|, k requires 0 <= k < |vas| && |frames| == |vas| => Page(frames[k], vas[k]))
  }

  function StackPages(g: PmmSpec.Geometry, w: World, c: Boot): seq<Page> {
    Zip(StackFrames(g, w, c), StackRange())
  }

  /** What the address space of `vmm_init` looks like to the processor. */
  ghost predicate BootImage(g: PmmSpec.Geometry, w: World, w': World, root: nat, c: Boot) {
    && (forall i :: 0 <= i < |c.ents| ==> AllMapped(w', root, RegionPages(c.ents[i])))
    && AllMapped(w', root, KernelPages(c))
    && AllMapped(w', root, StackPages(g, w, c))
  }

  lemma MappedFromMap(g: PmmSpec.Geometry, w: World, am: PageMap, root: nat, ps: seq<Page>)
    requires Stage(g, w, am, root) && forall k :: 0 <= k < |ps| ==> InMap(am, root, ps[k])
    ensures AllMapped(w, root, ps)
  {
    forall k | 0 <= k < |ps| ensures MapsTo(w, root, ps[k]) {
      MapsToIs(g, w, am, root, ps[k]);
    }
  }

  lemma ZipMapped(g: PmmSpec.Geometry, w: World, am: PageMap, root: nat, frames: seq<nat>, vas: seq<nat>)
    requires Stage(g, w, am, root) && |frames| == |vas| && PagesAre(am, root, vas, frames)
    ensures AllMapped(w, root, Zip(frames, vas))
  {
    MappedFromMap(g, w, am, root, Zip(frames, vas));
  }

  lemma RegionMapped(g: PmmSpec.Geometry, w: World, am: PageMap, w': World, am': PageMap, root: nat, c: Boot, i: nat)
    requires ValidBoot(c) && Stage(g, w', am', root) && am' == PutBoot(g, w, am, c) && root == CreateMap(g, w).1
    requires i < |c.ents|
    ensures AllMapped(w', root, RegionPages(c.ents[i]))
  {
    forall j | 0 <= j < |RegionPages(c.ents[i])| ensures InMap(am', root, RegionPages(c.ents[i])[j]) {
      MemoryInMap(g, w, am, c, i, j);
    }
    MappedFromMap(g, w', am', root, RegionPages(c.ents[i]));
  }

  lemma ImageFromMap(g: PmmSpec.Geometry, w: World, am: PageMap, w': World, am': PageMap, root: nat, c: Boot)
    requires ValidBoot(c) && Stage(g, w', am', root) && am' == PutBoot(g, w, am, c) && root == CreateMap(g, w).1
    requires PagesAre(am', root, StackRange(), StackFrames(g, w, c))
    ensures BootImage(g, w, w', root, c)
  {
    forall i | 0 <= i < |c.ents| ensures AllMapped(w', root, RegionPages(c.ents[i])) {
      RegionMapped(g, w, am, w', am', root, c, i);
    }
    forall k | 0 <= k < |KernelPages(c)| ensures InMap(am', root, KernelPages(c)[k]) {
      KernelInMap(g, w, am, c, k);
    }
    MappedFromMap(g, w', am', root, KernelPages(c));
    ZipMapped(g, w', am', root, StackFrames(g, w, c), StackRange());
  }

  /**
   After `vmm_init` every page of usable memory is identity-mapped and writable, kernel pages lead to the kernel
   image, and the stack pages to eight distinct frames that hold no table.
   */
  lemma BootMaps(g: PmmSpec.Geometry, w: World, am: PageMap, c: Boot)
    requires Inv(g, w) && Agrees(w, am) && AllWritable(w) && ValidBoot(c) && LegalBoot(g, w, c)
    ensures Stage(g, VmmInit(g, w, c), PutBoot(g, w, am, c), CreateMap(g, w).1)
    ensures BootImage(g, w, VmmInit(g, w, c), CreateMap(g, w).1, c)
    ensures Backs(VmmInit(g, w, c), PutBoot(g, w, am, c), CreateMap(g, w).1, StackRange(), StackFrames(g, w, c))
  {
    BootStages(g, w, am, c);
    ImageFromMap(g, w, am, VmmInit(g, w, c), PutBoot(g, w, am, c), CreateMap(g, w).1, c);
  }

  lemma FrameOfEntry(ents: seq<Pmm.Entry>, f: nat) returns (i: nat, k: nat)
    requires Pmm.ValidEntries(ents) && f in PmmSpec.AllFrames(Pmm.Spans(ents))
    ensures i < |ents| && k < Pmm.ManagedSpan(ents[i]).npage && f == PmmSpec.Frame(Pmm.ManagedSpan(ents[i]), k)
  {
    var g := Pmm.Spans(ents);
    PmmSpec.AllFramesIndex(g, f);
    i, k :| 0 <= i < |g| && 0 <= k < g[i].npage && f == PmmSpec.Frame(g[i], k);
  }

  /** A managed frame as a page of its region. */
  lemma SpanPage(e: Pmm.Entry, k: nat) returns (j: nat)
    requires 16 <= e.size / PAGE_SIZE && k < Pmm.ManagedSpan(e).npage
    ensures j < PageCount(e.size) && e.base + PAGE_SIZE * j == PmmSpec.Frame(Pmm.ManagedSpan(e), k)
  {
    Pmm.BitmapFits(e);
    j := Pmm.Reserved(e.size / PAGE_SIZE) + k;
  }

  /** The allocator's frames are pages of usable memory. */
  lemma FrameInRegion(c: Boot, f: nat) returns (i: nat, j: nat)
    requires ValidBoot(c) && f in PmmSpec.AllFrames(Pmm.Spans(c.ents))
    ensures i < |c.ents| && j < |RegionPages(c.ents[i])| && RegionPages(c.ents[i])[j] == Page(f, f) && f < LOW_HALF
  {
    var k;
    i, k := FrameOfEntry(c.ents, f);
    j := SpanPage(c.ents[i], k);
    RegionPageIs(c, i, j);
  }

  /** The step writes no page of the low half. */
  predicate OutsideLowHalf(op: Op) {
    match op
    case MapOp(_, _, va, _) => HIGH_HALF <= va < TWO64
    case MapNew(_, va, _) => HIGH_HALF <= va < TWO64
    case UnmapOp(_, va) => HIGH_HALF <= va < TWO64
    case _ => true
  }

  lemma OtherHalf(r: nat, va: nat, root: nat, a: nat)
    requires HIGH_HALF <= va < TWO64 && a < LOW_HALF
    ensures PagePath(r, va) != PagePath(root, a)
  {
    if r == root {
      PagesApart(root, va, a);
    } else {
      assert RootOf(PagePath(r, va)) == Root(r) && RootOf(PagePath(root, a)) == Root(root);
    }
  }

  lemma LowUntouched(op: Op, root: nat, a: nat)
    requires OutsideLowHalf(op) && a < LOW_HALF
    ensures !Touches(op, PagePath(root, a))
  {
    match op
    case MapOp(r, _, va, _) => OtherHalf(r, va, root, a);
    case MapNew(r, va, _) => OtherHalf(r, va, root, a);
    case UnmapOp(r, va) => OtherHalf(r, va, root, a);
    case _ =>
  }

  /**
   Every frame the allocator can ever hand out is identity-mapped and writable after `vmm_init`, and stays so through
   every later run that maps pages writable and outside the low half.
   */
  lemma FramesStayMapped(g: PmmSpec.Geometry, w: World, am: PageMap, c: Boot, ops: seq<Op>, f: nat)
    requires Inv(g, w) && Agrees(w, am) && AllWritable(w) && ValidBoot(c) && LegalBoot(g, w, c)
    requires g == Pmm.Spans(c.ents) && f in PmmSpec.AllFrames(g)
    requires LegalRun(g, VmmInit(g, w, c), ops)
    requires forall op :: op in ops ==> MapsWritable(op) && OutsideLowHalf(op)
    ensures MapsTo(Run(g, VmmInit(g, w, c), ops), CreateMap(g, w).1, Page(f, f))
  {
    var root := CreateMap(g, w).1;
    var q := PagePath(root, f);
    BootMaps(g, w, am, c);
    var i, j := FrameInRegion(c, f);
    MemoryInMap(g, w, am, c, i, j);
    WriteFlagsOk();
    EntryFacts(f, WRITE_FLAGS);
    forall op | op in ops ensures !Touches(op, q) {
      LowUntouched(op, root, f);
    }
    PageStays(g, VmmInit(g, w, c), PutBoot(g, w, am, c), ops, q);
  }

  /** So every table is mapped to itself: the physical pointers later calls of `paging_map` dereference stay valid. */
  lemma TablesStayMapped(g: PmmSpec.Geometry, w: World, am: PageMap, c: Boot, ops: seq<Op>, p: Path)
    requires Inv(g, w) && Agrees(w, am) && AllWritable(w) && ValidBoot(c) && LegalBoot(g, w, c)
    requires g == Pmm.Spans(c.ents) && LegalRun(g, VmmInit(g, w, c), ops)
    requires forall op :: op in ops ==> MapsWritable(op) && OutsideLowHalf(op)
    requires p in Run(g, VmmInit(g, w, c), ops).tabs
    ensures var w' := Run(g, VmmInit(g, w, c), ops);
      MapsTo(w', CreateMap(g, w).1, Page(PAGE_SIZE * w'.tabs[p], PAGE_SIZE * w'.tabs[p]))
  {
    BootMaps(g, w, am, c);
    RunRefines(g, VmmInit(g, w, c), PutBoot(g, w, am, c), ops);
    FramesStayMapped(g, w, am, c, ops, PAGE_SIZE * Run(g, VmmInit(g, w, c), ops).tabs[p]);
  }

  // ----- how many frames `vmm_init` takes

  function RegionNodes(root: nat, ents: seq<Pmm.Entry>, k: nat): set<Path>
    requires k <= |ents|
  {
    if k == 0 then {}
    else RegionNodes(root, ents, k - 1) + PageNodes(root, RegionPages(ents[k - 1]), |RegionPages(ents[k - 1])|)
  }

  function VaNodes(root: nat, vas: seq<nat>, n: nat): set<Path>
    requires n <= |vas|
  {
    if n == 0 then {} else VaNodes(root, vas, n - 1) + NodesOf(root, vas[n - 1])
  }

  /** The budget of one more mapping loop, counted from where the charging started. */
  lemma LoopBudget(g: PmmSpec.Geometry, w: World, w1: World, am1: PageMap, root: nat, done: set<Path>, ps: seq<Page>)
    requires Charged(g, w, w1, done, WRITE_FLAGS) && Agrees(w1, am1) && Root(root) in w.tabs
    ensures LegalAll(g, w1, root, ps) <==> Missing(w, done + PageNodes(root, ps, |ps|)) <= PmmSpec.Avail(w.pool)
    ensures LegalAll(g, w1, root, ps) ==>
      && Charged(g, w, MapAll(g, w1, root, ps), done + PageNodes(root, ps, |ps|), WRITE_FLAGS)
      && Agrees(MapAll(g, w1, root, ps), PutAll(am1, root, ps))
  {
    WriteFlagsOk();
    BudgetSets(g, w, w1, done, PageNodes(root, ps, |ps|), WRITE_FLAGS);
    PagesLegalIff(g, w1, am1, root, ps, |ps|, WRITE_FLAGS);
    if LegalAll(g, w1, root, ps) {
      PagesLoop(g, w1, am1, root, ps, |ps|, WRITE_FLAGS);
      ChargedTwice(g, w, w1, MapAll(g, w1, root, ps), done, PageNodes(root, ps, |ps|), WRITE_FLAGS);
    }
  }

  /** A loop over regions never runs short exactly when there is a frame for each of its new tables. */
  lemma {:induction false} RegionsBudget(g: PmmSpec.Geometry, w: World, am: PageMap, root: nat, ents: seq<Pmm.Entry>,
                                         k: nat)
    requires k <= |ents| && Inv(g, w) && Agrees(w, am) && Root(root) in w.tabs
    ensures LegalRegions(g, w, root, ents, k) <==> Missing(w, RegionNodes(root, ents, k)) <= PmmSpec.Avail(w.pool)
    ensures LegalRegions(g, w, root, ents, k) ==>
      && Charged(g, w, MapRegions(g, w, root, ents, k), RegionNodes(root, ents, k), WRITE_FLAGS)
      && Agrees(MapRegions(g, w, root, ents, k), PutRegions(am, root, ents, k))
  {
    if k == 0 {
      MissingSum(w.tabs.Keys, {}, {});
    } else {
      RegionsBudget(g, w, am, root, ents, k - 1);
      if LegalRegions(g, w, root, ents, k - 1) {
        LoopBudget(g, w, MapRegions(g, w, root, ents, k - 1), PutRegions(am, root, ents, k - 1), root,
                   RegionNodes(root, ents, k - 1), RegionPages(ents[k - 1]));
      } else {
        var ps := RegionPages(ents[k - 1]);
        MissingSum(w.tabs.Keys, RegionNodes(root, ents, k - 1), PageNodes(root, ps, |ps|));
      }
    }
  }

  /** `n` pages on frames of their own, and the tables of `nodes`. */
  ghost predicate ChargedPages(g: PmmSpec.Geometry, w: World, w': World, nodes: set<Path>, n: nat) {
    && Inv(g, w') && w'.tabs.Keys == w.tabs.Keys + nodes
    && PmmSpec.Avail(w'.pool) == PmmSpec.Avail(w.pool) - n - Missing(w, nodes)
  }

  lemma PageLegalIff(w: World, w1: World, root: nat, done: set<Path>, n: nat, va: nat)
    requires Root(root) in w.tabs && w1.tabs.Keys == w.tabs.Keys + done
    requires PmmSpec.Avail(w1.pool) == PmmSpec.Avail(w.pool) - n - Missing(w, done)
    ensures Legal(w1, MapNew(root, va, WRITE_FLAGS))
      <==> n + 1 + Missing(w, done + NodesOf(root, va)) <= PmmSpec.Avail(w.pool)
  {
    WriteFlagsOk();
    MissingSum(w.tabs.Keys, done, NodesOf(root, va));
  }

  lemma PageCharge(g: PmmSpec.Geometry, w: World, w1: World, am1: PageMap, root: nat, done: set<Path>, n: nat, va: nat)
    requires ChargedPages(g, w, w1, done, n) && Agrees(w1, am1) && Legal(w1, MapNew(root, va, WRITE_FLAGS))
    ensures var op := MapNew(root, va, WRITE_FLAGS);
      && ChargedPages(g, w, Step(g, w1, op), done + NodesOf(root, va), n + 1)
      && Agrees(Step(g, w1, op), am1[PagePath(root, va) := MakeEntry(PmmSpec.Alloc(g, w1.pool).1, WRITE_FLAGS)])
  {
    MapNewStep(g, w1, am1, root, va, WRITE_FLAGS);
    MissingSum(w.tabs.Keys, done, NodesOf(root, va));
  }

  lemma PageBudget(g: PmmSpec.Geometry, w: World, w1: World, am1: PageMap, root: nat, done: set<Path>, n: nat, va: nat)
    requires ChargedPages(g, w, w1, done, n) && Agrees(w1, am1) && Root(root) in w.tabs
    ensures Legal(w1, MapNew(root, va, WRITE_FLAGS))
      <==> n + 1 + Missing(w, done + NodesOf(root, va)) <= PmmSpec.Avail(w.pool)
    ensures Legal(w1, MapNew(root, va, WRITE_FLAGS)) ==>
      var op := MapNew(root, va, WRITE_FLAGS);
      && ChargedPages(g, w, Step(g, w1, op), done + NodesOf(root, va), n + 1)
      && Agrees(Step(g, w1, op), am1[PagePath(root, va) := MakeEntry(PmmSpec.Alloc(g, w1.pool).1, WRITE_FLAGS)])
  {
    PageLegalIff(w, w1, root, done, n, va);
    if Legal(w1, MapNew(root, va, WRITE_FLAGS)) {
      PageCharge(g, w, w1, am1, root, done, n, va);
    }
  }

  /** Growing by pages never runs short exactly when there is a frame for each page and each new table. */
  lemma {:induction false} GrowthBudget(g: PmmSpec.Geometry, w: World, am: PageMap, root: nat, vas: seq<nat>, n: nat)
    requires n <= |vas| && Inv(g, w) && Agrees(w, am) && Root(root) in w.tabs
    ensures LegalGrowth(g, w, root, vas, n) <==> n + Missing(w, VaNodes(root, vas, n)) <= PmmSpec.Avail(w.pool)
    ensures LegalGrowth(g, w, root, vas, n) ==>
      && ChargedPages(g, w, GrowPages(g, w, root, vas, n), VaNodes(root, vas, n), n)
      && Agrees(GrowPages(g, w, root, vas, n), PutGrown(g, w, am, root, vas, n))
  {
    if n == 0 {
      MissingSum(w.tabs.Keys, {}, {});
    } else {
      var m, va := n - 1, vas[n - 1];
      GrowthBudget(g, w, am, root, vas, m);
      MissingSum(w.tabs.Keys, VaNodes(root, vas, m), NodesOf(root, va));
      if LegalGrowth(g, w, root, vas, m) {
        PageBudget(g, w, GrowPages(g, w, root, vas, m), PutGrown(g, w, am, root, vas, m), root, VaNodes(root, vas, m),
          m, va);
        assert LegalGrowth(g, w, root, vas, n) <==> Legal(GrowPages(g, w, root, vas, m), MapNew(root, va, WRITE_FLAGS));
      }
    }
  }

  /** The tables below the root that `vmm_init` needs, without those of the stack. */
  function MemoryNodes(root: nat, c: Boot): set<Path> {
    NodesOf(root, 0) + PageNodes(root, KernelPages(c), |KernelPages(c)|) + RegionNodes(root, c.ents, |c.ents|)
  }

  function BootNodes(root: nat, c: Boot): set<Path> {
    MemoryNodes(root, c) + VaNodes(root, StackRange(), |StackRange()|)
  }

  /** All of `nodes` lie below the root. */
  ghost predicate BelowRoot(root: nat, nodes: set<Path>) {
    forall n :: n in nodes ==> n.Sub? && RootOf(n) == Root(root)
  }

  lemma NodesBelowRoot(root: nat, va: nat)
    ensures BelowRoot(root, NodesOf(root, va))
  {
    var pi := VaddrToPgInd(va);
    var p1 := Sub(Root(root), pi.pdpt);
    var p2 := Sub(p1, pi.pdt);
    assert RootOf(p1) == RootOf(Root(root)) == Root(root);
    assert RootOf(p2) == RootOf(p1);
    assert RootOf(Sub(p2, pi.pt)) == RootOf(p2);
  }

  lemma {:induction false} PagesBelowRoot(root: nat, ps: seq<Page>, n: nat)
    requires n <= |ps|
    ensures BelowRoot(root, PageNodes(root, ps, n))
  {
    if n == 0 {
    } else {
      PagesBelowRoot(root, ps, n - 1);
      NodesBelowRoot(root, ps[n - 1].va);
    }
  }

  lemma {:induction false} RegionsBelowRoot(root: nat, ents: seq<Pmm.Entry>, k: nat)
    requires k <= |ents|
    ensures BelowRoot(root, RegionNodes(root, ents, k))
  {
    if k == 0 {
    } else {
      RegionsBelowRoot(root, ents, k - 1);
      PagesBelowRoot(root, RegionPages(ents[k - 1]), |RegionPages(ents[k - 1])|);
    }
  }

  lemma {:induction false} VasBelowRoot(root: nat, vas: seq<nat>, n: nat)
    requires n <= |vas|
    ensures BelowRoot(root, VaNodes(root, vas, n))
  {
    if n == 0 {
    } else {
      VasBelowRoot(root, vas, n - 1);
      NodesBelowRoot(root, vas[n - 1]);
    }
  }

  /** Below a new root every table is missing. */
  lemma AllMissing(w: World, w1: World, root: nat, nodes: set<Path>)
    requires Forest(w.tabs) && Root(root) !in w.tabs && w1.tabs.Keys == w.tabs.Keys + {Root(root)}
    requires BelowRoot(root, nodes)
    ensures Missing(w1, nodes) == |nodes|
  {
    assert nodes - w1.tabs.Keys == nodes;
  }

  lemma BootBelowRoot(root: nat, c: Boot)
    ensures BelowRoot(root, BootNodes(root, c))
  {
    NodesBelowRoot(root, 0);
    PagesBelowRoot(root, KernelPages(c), |KernelPages(c)|);
    RegionsBelowRoot(root, c.ents, |c.ents|);
    VasBelowRoot(root, StackRange(), |StackRange()|);
  }

  lemma LowCharge(g: PmmSpec.Geometry, w1: World, am: PageMap, root: nat)
    requires Inv(g, w1) && Agrees(w1, am) && Root(root) in w1.tabs
    requires Missing(w1, NodesOf(root, 0)) <= PmmSpec.Avail(w1.pool)
    ensures Charged(g, w1, MapPages(g, w1, root, FirstMegabyte(), |FirstMegabyte()|, PF_RW), NodesOf(root, 0),
      WRITE_FLAGS)
    ensures Agrees(MapPages(g, w1, root, FirstMegabyte(), |FirstMegabyte()|, PF_RW),
                   PutPages(am, root, FirstMegabyte(), |FirstMegabyte()|, PF_RW))
  {
    MapLowPages(g, w1, am, root);
    RwFlags();
    WriteFlagsOk();
  }

  /** The three loops over known memory, after `vmm_init` has an empty map: one frame for each table below the root. */
  ghost predicate LegalMemory(g: PmmSpec.Geometry, w: World, c: Boot) {
    var root := CreateMap(g, w).1;
    && Legal(w, Create)
    && LegalAll(g, CreateMap(g, w).0, root, KernelPages(c))
    && LegalRegions(g, AfterKernel(g, w, c), root, c.ents, |c.ents|)
  }

  /** The kernel image is mapped with enough frames. */
  ghost predicate LegalKernel(g: PmmSpec.Geometry, w: World, c: Boot) {
    Legal(w, Create) && LegalAll(g, CreateMap(g, w).0, CreateMap(g, w).1, KernelPages(c))
  }

  lemma CreateLegalIff(w: World, w1: World, nodes: set<Path>)
    requires Missing(w1, nodes) == 3 && PmmSpec.Avail(w1.pool) == PmmSpec.Avail(w.pool) - 1
    ensures Legal(w, Create) <==> Missing(w1, nodes) <= PmmSpec.Avail(w1.pool)
  {
  }

  lemma CreateBudget(g: PmmSpec.Geometry, w: World, w1: World, w2: World, am: PageMap, am2: PageMap, root: nat)
    requires Inv(g, w) && Agrees(w, am) && 0 < PmmSpec.Avail(w.pool) && (w1, root) == NewRoot(g, w)
    requires w2 == CreateMap(g, w).0 && am2 == PutPages(am, root, FirstMegabyte(), |FirstMegabyte()|, PF_RW)
    ensures Root(root) in w1.tabs && (Legal(w, Create) <==> Missing(w1, NodesOf(root, 0)) <= PmmSpec.Avail(w1.pool))
    ensures Legal(w, Create) ==> Charged(g, w1, w2, NodesOf(root, 0), WRITE_FLAGS) && Agrees(w2, am2)
  {
    assert w2 == MapPages(g, w1, root, FirstMegabyte(), |FirstMegabyte()|, PF_RW);
    NewRootStep(g, w, am);
    FreshNodes(w, w1, root);
    CreateLegalIff(w, w1, NodesOf(root, 0));
    if Legal(w, Create) {
      LowCharge(g, w1, am, root);
    }
  }

  lemma KernelBudget(g: PmmSpec.Geometry, w: World, w1: World, am: PageMap, root: nat, c: Boot)
    requires Inv(g, w) && Agrees(w, am) && 0 < PmmSpec.Avail(w.pool) && (w1, root) == NewRoot(g, w)
    ensures var nodes := NodesOf(root, 0) + PageNodes(root, KernelPages(c), |KernelPages(c)|);
      && Root(root) in w1.tabs
      && (LegalKernel(g, w, c) <==> Missing(w1, nodes) <= PmmSpec.Avail(w1.pool))
      && (LegalKernel(g, w, c) ==>
            && Charged(g, w1, AfterKernel(g, w, c), nodes, WRITE_FLAGS)
            && Agrees(AfterKernel(g, w, c), PutKernel(g, w, am, c)))
  {
    var w2, am2 := CreateMap(g, w).0, PutPages(am, root, FirstMegabyte(), |FirstMegabyte()|, PF_RW);
    CreateBudget(g, w, w1, w2, am, am2, root);
    MissingSum(w1.tabs.Keys, NodesOf(root, 0), PageNodes(root, KernelPages(c), |KernelPages(c)|));
    if Legal(w, Create) {
      LoopBudget(g, w1, w2, am2, root, NodesOf(root, 0), KernelPages(c));
    }
  }

  lemma RegionsFrom(g: PmmSpec.Geometry, w: World, w1: World, am1: PageMap, root: nat, done: set<Path>,
                    ents: seq<Pmm.Entry>)
    requires Charged(g, w, w1, done, WRITE_FLAGS) && Agrees(w1, am1) && Root(root) in w.tabs
    ensures var nodes := done + RegionNodes(root, ents, |ents|);
      && (LegalRegions(g, w1, root, ents, |ents|) <==> Missing(w, nodes) <= PmmSpec.Avail(w.pool))
      && (LegalRegions(g, w1, root, ents, |ents|) ==>
            && Charged(g, w, MapRegions(g, w1, root, ents, |ents|), nodes, WRITE_FLAGS)
            && Agrees(MapRegions(g, w1, root, ents, |ents|), PutRegions(am1, root, ents, |ents|)))
  {
    var nr := RegionNodes(root, ents, |ents|);
    RegionsBudget(g, w1, am1, root, ents, |ents|);
    BudgetSets(g, w, w1, done, nr, WRITE_FLAGS);
    if LegalRegions(g, w1, root, ents, |ents|) {
      ChargedTwice(g, w, w1, MapRegions(g, w1, root, ents, |ents|), done, nr, WRITE_FLAGS);
    }
  }

  lemma MemoryBudget(g: PmmSpec.Geometry, w: World, am: PageMap, c: Boot)
    requires Inv(g, w) && Agrees(w, am) && 0 < PmmSpec.Avail(w.pool)
    ensures var (w1, root) := NewRoot(g, w);
      && (LegalMemory(g, w, c) <==> Missing(w1, MemoryNodes(root, c)) <= PmmSpec.Avail(w1.pool))
      && (LegalMemory(g, w, c) ==>
            && Charged(g, w1, AfterRegions(g, w, c), MemoryNodes(root, c), WRITE_FLAGS)
            && Agrees(AfterRegions(g, w, c), PutMemory(g, w, am, c)))
  {
    NewRootStep(g, w, am);
    var (w1, root) := NewRoot(g, w);
    var n0, nk := NodesOf(root, 0), PageNodes(root, KernelPages(c), |KernelPages(c)|);
    MissingSum(w1.tabs.Keys, n0 + nk, RegionNodes(root, c.ents, |c.ents|));
    KernelBudget(g, w, w1, am, root, c);
    if LegalKernel(g, w, c) {
      RegionsFrom(g, w1, AfterKernel(g, w, c), PutKernel(g, w, am, c), root, n0 + nk, c.ents);
    }
  }

  lemma StackBudget(g: PmmSpec.Geometry, w: World, w1: World, am: PageMap, root: nat, c: Boot)
    requires Root(root) in w1.tabs && root == CreateMap(g, w).1
    requires LegalMemory(g, w, c) <==> Missing(w1, MemoryNodes(root, c)) <= PmmSpec.Avail(w1.pool)
    requires LegalMemory(g, w, c) ==>
      && Charged(g, w1, AfterRegions(g, w, c), MemoryNodes(root, c), WRITE_FLAGS)
      && Agrees(AfterRegions(g, w, c), PutMemory(g, w, am, c))
    ensures LegalBoot(g, w, c) <==> Missing(w1, BootNodes(root, c)) + K_STK_PAGES <= PmmSpec.Avail(w1.pool)
  {
    var memory, stack := MemoryNodes(root, c), VaNodes(root, StackRange(), |StackRange()|);
    MissingSum(w1.tabs.Keys, memory, stack);
    if LegalMemory(g, w, c) {
      GrowthBudget(g, AfterRegions(g, w, c), PutMemory(g, w, am, c), root, StackRange(), |StackRange()|);
    }
  }

  /**
   What `vmm_init` takes: it never runs short exactly when the allocator has a frame for the root, for each distinct
   table below it, and for each page of the stack.
   */
  lemma BootBudget(g: PmmSpec.Geometry, w: World, am: PageMap, c: Boot)
    requires Inv(g, w) && Agrees(w, am)
    ensures LegalBoot(g, w, c) <==> 1 + |BootNodes(CreateMap(g, w).1, c)| + K_STK_PAGES <= PmmSpec.Avail(w.pool)
  {
    if 0 < PmmSpec.Avail(w.pool) {
      NewRootStep(g, w, am);
      var (w1, root) := NewRoot(g, w);
      BootBelowRoot(root, c);
      AllMissing(w, w1, root, BootNodes(root, c));
      MemoryBudget(g, w, am, c);
      StackBudget(g, w, w1, am, root, c);
    }
  }
}
