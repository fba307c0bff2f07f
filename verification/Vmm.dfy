/** vmm.c: `vmm_init`, building the kernel address space through the pager. */
module Vmm {
  import opened Common
  import Pmm
  import PmmSpec
  import opened PageTables
  import opened PageRuns
  import opened VmmSpec
  import opened Paging

  lemma NullWhenEmpty(g: PmmSpec.Geometry, s: PmmSpec.State)
    requires PmmSpec.ValidGeometry(g) && PmmSpec.Owned(g, s)
    ensures PmmSpec.Alloc(g, s).1 == PHYS_ADDR_NULL <==> PmmSpec.Avail(s) == 0
    ensures PmmSpec.Avail(s) == 0 ==> PmmSpec.Alloc(g, s).0 == s
  {
    PmmSpec.AllocMeaning(g, s);
    PmmSpec.AvailZero(s);
  }

  /** `pmm_alloc`, seen from the pager, with what its null result means. */
  method TakeFrame(pager: Pager) returns (pa: nat)
    requires pager.Wf() && pager.FramesExist()
    modifies pager.Repr()
    ensures pager.Wf() && pager.FramesExist()
    ensures pager.Abs() == old(pager.Abs()).(pool := PmmSpec.Alloc(pager.pmm.geo, old(pager.Abs()).pool).0)
    ensures pa == PmmSpec.Alloc(pager.pmm.geo, old(pager.Abs()).pool).1
    ensures pa == PHYS_ADDR_NULL <==> PmmSpec.Avail(old(pager.Abs()).pool) == 0
    ensures pa == PHYS_ADDR_NULL ==> pager.Abs() == old(pager.Abs())
  {
    NullWhenEmpty(pager.pmm.geo, pager.Abs().pool);
    pa := pager.TakeFrame();
  }

  /** `vmm_map` with VF_WRITE of what `pmm_alloc` returned in `w`. */
  method MapFrame(pager: Pager, root: nat, pa: nat, va: nat, ghost w: World)
    requires pager.Wf() && pager.FramesExist() && NewInside(pager.pmm.geo, w, root, va)
    requires pager.Abs() == w.(pool := PmmSpec.Alloc(pager.pmm.geo, w.pool).0)
    requires pa == PmmSpec.Alloc(pager.pmm.geo, w.pool).1
    modifies pager.Repr()
    ensures pager.Wf() && pager.FramesExist() && pager.Abs() == Step(pager.pmm.geo, w, MapNew(root, va, WRITE_FLAGS))
  {
    StepIsMap(pager.pmm.geo, w, root, va);
    pager.Map(root, pa, va, WRITE_FLAGS);
  }

  /** `pmm_alloc` followed by `vmm_map` of what it returned at `va`, with VF_WRITE, whatever the pool holds. */
  method MapNewPage(pager: Pager, root: nat, va: nat) returns (pa: nat)
    requires pager.Wf() && pager.FramesExist() && NewInside(pager.pmm.geo, pager.Abs(), root, va)
    modifies pager.Repr()
    ensures pager.Wf() && pager.FramesExist()
    ensures pager.Abs() == Step(pager.pmm.geo, old(pager.Abs()), MapNew(root, va, WRITE_FLAGS))
    ensures pa == PmmSpec.Alloc(pager.pmm.geo, old(pager.Abs()).pool).1
  {
    ghost var w := pager.Abs();
    pa := TakeFrame(pager);
    MapFrame(pager, root, pa, va, w);
  }

  /**
   `pmm_alloc`, its check for NULL, and `vmm_map_cur` of the frame at `va` with VF_WRITE, as `kheap_init` and
   `kheap_alloc` do it.
   */
  method TryMapNewPage(pager: Pager, root: nat, va: nat) returns (pa: nat)
    requires pager.Wf() && pager.FramesExist() && Ready(pager.pmm.geo, pager.Abs(), root)
    modifies pager.Repr()
    ensures pager.Wf() && pager.FramesExist()
    ensures pa == PmmSpec.Alloc(pager.pmm.geo, old(pager.Abs()).pool).1
    ensures pa == PHYS_ADDR_NULL <==> PmmSpec.Avail(old(pager.Abs()).pool) == 0
    ensures pa == PHYS_ADDR_NULL ==> pager.Abs() == old(pager.Abs())
    ensures pa != PHYS_ADDR_NULL ==> pager.Abs() == Step(pager.pmm.geo, old(pager.Abs()), MapNew(root, va, WRITE_FLAGS))
  {
    ghost var w := pager.Abs();
    pa := TakeFrame(pager);
    if pa != PHYS_ADDR_NULL {
      NewPageInside(pager.pmm.geo, w, root, va);
      MapFrame(pager, root, pa, va, w);
    }
  }

  /** One usable region, identity-mapped, in a loop over regions that started in `w`. */
  method MapRegion(pager: Pager, root: nat, ghost w: World, ents: seq<Pmm.Entry>, i: nat)
    requires pager.Wf() && pager.FramesExist() && i < |ents|
    requires RegionsInside(pager.pmm.geo, w, root, ents, i + 1)
    requires pager.Abs() == MapRegions(pager.pmm.geo, w, root, ents, i)
    modifies pager.Repr()
    ensures pager.Wf() && pager.FramesExist()
    ensures pager.Abs() == MapRegions(pager.pmm.geo, w, root, ents, i + 1)
  {
    pager.MapConsecutive(root, ents[i].base, ents[i].base, PageCount(ents[i].size), WRITE_FLAGS);
  }

  lemma RegionsInsideInit(g: PmmSpec.Geometry, w: World, root: nat, ents: seq<Pmm.Entry>, n: nat)
    requires 0 < n <= |ents| && RegionsInside(g, w, root, ents, n)
    ensures RegionsInside(g, w, root, ents, n - 1)
  {
  }

  lemma {:induction false} RegionsInsidePrefix(g: PmmSpec.Geometry, w: World, root: nat, ents: seq<Pmm.Entry>, n: nat,
                                               i: nat)
    requires i <= n <= |ents| && RegionsInside(g, w, root, ents, n)
    ensures RegionsInside(g, w, root, ents, i)
  {
    if i < n {
      RegionsInsideInit(g, w, root, ents, n);
      RegionsInsidePrefix(g, w, root, ents, n - 1, i);
    } else {
      assert i == n;
    }
  }

  /** The loop over the usable regions. */
  method MapUsable(pager: Pager, root: nat, c: Boot)
    requires pager.Wf() && pager.FramesExist()
    requires RegionsInside(pager.pmm.geo, pager.Abs(), root, c.ents, |c.ents|)
    modifies pager.Repr()
    ensures pager.Wf() && pager.FramesExist()
    ensures pager.Abs() == MapRegions(pager.pmm.geo, old(pager.Abs()), root, c.ents, |c.ents|)
  {
    ghost var g, w := pager.pmm.geo, pager.Abs();
    var i := 0;
    while i < |c.ents|
      invariant 0 <= i <= |c.ents| && pager.Wf() && pager.FramesExist()
      invariant pager.Abs() == MapRegions(g, w, root, c.ents, i)
    {
      RegionsInsidePrefix(g, w, root, c.ents, |c.ents|, i + 1);
      MapRegion(pager, root, w, c.ents, i);
      i := i + 1;
    }
  }

  lemma GrowthInsideInit(g: PmmSpec.Geometry, w: World, root: nat, vas: seq<nat>, n: nat)
    requires 0 < n <= |vas| && GrowthInside(g, w, root, vas, n)
    ensures GrowthInside(g, w, root, vas, n - 1)
  {
  }

  lemma {:induction false} GrowthInsidePrefix(g: PmmSpec.Geometry, w: World, root: nat, vas: seq<nat>, n: nat, i: nat)
    requires i <= n <= |vas| && GrowthInside(g, w, root, vas, n)
    ensures GrowthInside(g, w, root, vas, i)
  {
    if i < n {
      GrowthInsideInit(g, w, root, vas, n);
      GrowthInsidePrefix(g, w, root, vas, n - 1, i);
    } else {
      assert i == n;
    }
  }

  /** One page of the stack, in a loop that started in `w`. */
  method StackRound(pager: Pager, root: nat, ghost w: World, vas: seq<nat>, i: nat)
    requires pager.Wf() && pager.FramesExist() && i < |vas|
    requires GrowthInside(pager.pmm.geo, w, root, vas, i + 1)
    requires pager.Abs() == GrowPages(pager.pmm.geo, w, root, vas, i)
    modifies pager.Repr()
    ensures pager.Wf() && pager.FramesExist()
    ensures pager.Abs() == GrowPages(pager.pmm.geo, w, root, vas, i + 1)
  {
    var _ := MapNewPage(pager, root, vas[i]);
  }

  /** The loop that gives the kernel a new stack. */
  method MapStack(pager: Pager, root: nat)
    requires pager.Wf() && pager.FramesExist()
    requires GrowthInside(pager.pmm.geo, pager.Abs(), root, StackRange(), |StackRange()|)
    modifies pager.Repr()
    ensures pager.Wf() && pager.FramesExist()
    ensures pager.Abs() == GrowPages(pager.pmm.geo, old(pager.Abs()), root, StackRange(), |StackRange()|)
  {
    ghost var g, w := pager.pmm.geo, pager.Abs();
    var vas := StackRange();
    var i := 0;
    while i < |vas|
      invariant 0 <= i <= |vas| && pager.Wf() && pager.FramesExist()
      invariant pager.Abs() == GrowPages(g, w, root, vas, i)
    {
      GrowthInsidePrefix(g, w, root, vas, |vas|, i + 1);
      StackRound(pager, root, w, vas, i);
      i := i + 1;
    }
  }

  lemma RootFrame(f: nat)
    ensures PAGE_SIZE * f / PAGE_SIZE == f
  {
  }

  /** `vmm_init`, up to the switch to the new map; `LegalBootInside` says when its tables are in memory. */
  method VmmInit(pager: Pager, c: Boot, ghost am: PageMap) returns (map_: nat)
    requires pager.Wf() && Inv(pager.pmm.geo, pager.Abs()) && Agrees(pager.Abs(), am)
    requires BootInside(pager.pmm.geo, pager.Abs(), c)
    modifies pager.Repr()
    ensures pager.Wf() && pager.FramesExist()
    ensures pager.Abs() == VmmSpec.VmmInit(pager.pmm.geo, old(pager.Abs()), c)
    ensures map_ == PAGE_SIZE * CreateMap(pager.pmm.geo, old(pager.Abs())).1
    ensures LegalBoot(pager.pmm.geo, old(pager.Abs()), c) ==> Inv(pager.pmm.geo, pager.Abs())
  {
    ghost var w := pager.Abs();
    map_ := pager.CreateMap(am);
    RootFrame(CreateMap(pager.pmm.geo, w).1);
    var root := map_ / PAGE_SIZE;
    pager.MapConsecutive(root, c.kphys, c.kvirt, PageCount(c.ksize), WRITE_FLAGS);
    MapUsable(pager, root, c);
    MapStack(pager, root);
    if LegalBoot(pager.pmm.geo, w, c) {
      LegalBootInside(pager.pmm.geo, w, am, c);
    }
  }
}
