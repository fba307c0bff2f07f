/** paging.c: the tables written in place in physical memory, an array of frames of 512 words. */
module Paging {
  import opened Common
  import LowMegabyte
  import PmmSpec
  import Pmm
  import opened PageTables
  import opened PageRuns

  /** The tables `paging_unmap` reads. */
  lemma FindInRange(mem: Memory, tabs: map<Path, nat>, root: nat, pi: PageIndex)
    requires Tree(mem, tabs) && Root(root) in tabs && 0 < |mem|
    requires pi.pdpt < ENTRIES && pi.pdt < ENTRIES && pi.pt < ENTRIES
    ensures var t1 := SomeNextDir(mem, root, pi.pdpt);
      var t2 := SomeNextDir(mem, t1, pi.pdt);
      root < |mem| && t1 < |mem| && t2 < |mem| && SomeNextDir(mem, t2, pi.pt) < |mem|
  {
    var p1 := Sub(Root(root), pi.pdpt);
    var p2 := Sub(p1, pi.pdt);
    assert Depth(p1) == 1 && Depth(p2) == 2 && tabs[Root(root)] == root;
    assert Linked(mem, tabs, Root(root), pi.pdpt);
    if p1 in tabs {
      assert Linked(mem, tabs, p1, pi.pdt);
      if p2 in tabs {
        assert Linked(mem, tabs, p2, pi.pt);
      }
    }
  }

  class Pager {
    const pmm: Pmm.Allocator
    /** `mem[f, i]` is word `i` of frame `f`. */
    const mem: array2<nat>
    ghost var tabs: map<Path, nat>

    ghost function Mem(): (m: Memory)
      reads mem
      ensures |m| == mem.Length0
      ensures forall f :: 0 <= f < mem.Length0 ==> |m[f]| == mem.Length1
      ensures forall f, i :: 0 <= f < mem.Length0 && 0 <= i < mem.Length1 ==> m[f][i] == mem[f, i]
    {
      seq(mem.Length0, f requires 0 <= f < mem.Length0 reads mem =>
        seq(mem.Length1, i requires 0 <= i < mem.Length1 reads mem => mem[f, i]))
    }

    ghost function Abs(): World
      reads this, mem, pmm, pmm.stk
      requires pmm.stkSize <= pmm.stk.Length
    {
      World(Mem(), pmm.Abs(), tabs)
    }

    ghost function Repr(): set<object> {
      {this, mem, pmm, pmm.stk} + (set bm | bm in pmm.bms) + pmm.Datas()
    }

    /** Shapes and separation only; what the tables mean is `Inv(pmm.geo, Abs())`. */
    ghost predicate Wf()
      reads Repr()
    {
      && pmm.Valid()
      && mem.Length1 == ENTRIES && 0 < mem.Length0
      && mem as object != pmm.stk && (forall i :: 0 <= i < |pmm.bms| ==> mem as object != pmm.bms[i].data)
      && this as object !in {pmm as object, pmm.stk as object, mem as object}
      && (forall i :: 0 <= i < |pmm.bms| ==> this as object != pmm.bms[i] && this as object != pmm.bms[i].data)
    }

    constructor (pmm: Pmm.Allocator, mem: array2<nat>)
      requires pmm.Valid() && mem.Length1 == ENTRIES && 0 < mem.Length0
      requires mem as object != pmm.stk && forall i :: 0 <= i < |pmm.bms| ==> mem as object != pmm.bms[i].data
      ensures Wf() && this.pmm == pmm && this.mem == mem && tabs == map[]
    {
      this.pmm, this.mem, tabs := pmm, mem, map[];
    }

    method WriteWord(t: nat, i: nat, e: nat)
      requires t < mem.Length0 && i < mem.Length1
      modifies mem
      ensures Mem() == Poke(old(Mem()), t, i, e)
    {
      ghost var m0 := Mem();
      mem[t, i] := e;
      assert Mem()[t] == Poke(m0, t, i, e)[t];
      assert forall f :: 0 <= f < mem.Length0 && f != t ==> Mem()[f] == m0[f];
    }

    /** `au_fms_64(frame, 0, PAGE_SIZE / 8)` */
    method ClearFrame(t: nat)
      requires t < mem.Length0 && mem.Length1 == ENTRIES
      modifies mem
      ensures Mem() == ZeroFrame(old(Mem()), t)
    {
      ghost var m0 := Mem();
      var i := 0;
      while i < ENTRIES
        invariant 0 <= i <= ENTRIES
        invariant forall f, k :: 0 <= f < mem.Length0 && 0 <= k < mem.Length1 ==>
          mem[f, k] == if f == t && k < i then 0 else old(mem[f, k])
      {
        mem[t, i] := 0;
        i := i + 1;
      }
      assert Mem()[t] == Zeros();
      assert forall f :: 0 <= f < mem.Length0 && f != t ==> Mem()[f] == m0[f];
    }

    /** Clears the new frame and points entry `i` of table `t` at it. */
    method HookTable(ghost p: Path, t: nat, i: nat, pa: nat, flags: nat)
      requires Wf() && t < mem.Length0 && i < ENTRIES && pa / PAGE_SIZE < mem.Length0
      modifies mem, this`tabs
      ensures Wf() && pmm.Abs() == old(pmm.Abs())
      ensures Mem() == Poke(ZeroFrame(old(Mem()), pa / PAGE_SIZE), t, i, MakeEntry(pa, flags))
      ensures tabs == old(tabs)[Sub(p, i) := pa / PAGE_SIZE]
    {
      ClearFrame(pa / PAGE_SIZE);
      WriteWord(t, i, MakeEntry(pa, flags));
      tabs := tabs[Sub(p, i) := pa / PAGE_SIZE];
    }

    lemma NewFrameExists(s: PmmSpec.State)
      requires PmmSpec.ValidGeometry(pmm.geo) && PmmSpec.Owned(pmm.geo, s)
      requires 0 < mem.Length0 && Backed(pmm.geo, Mem())
      ensures PmmSpec.Alloc(pmm.geo, s).1 / PAGE_SIZE < mem.Length0
        && PmmSpec.Owned(pmm.geo, PmmSpec.Alloc(pmm.geo, s).0)
    {
      PmmSpec.AllocMeaning(pmm.geo, s);
    }

    /** What the accesses of the pager rest on: managed frames exist, and the pool hands out no others. */
    ghost predicate FramesExist()
      reads Repr()
      requires Wf()
    {
      Backed(pmm.geo, Mem()) && PmmSpec.Owned(pmm.geo, pmm.Abs())
    }

    lemma InvFrames()
      requires Wf() && Inv(pmm.geo, Abs())
      ensures FramesExist()
    {
    }

    /** `pmm_alloc`, seen from the pager. */
    method TakeFrame() returns (pa: nat)
      requires Wf() && FramesExist()
      modifies Repr()
      ensures Wf() && FramesExist() && pa / PAGE_SIZE < mem.Length0
      ensures Abs() == old(Abs()).(pool := PmmSpec.Alloc(pmm.geo, old(pmm.Abs())).0)
      ensures pa == PmmSpec.Alloc(pmm.geo, old(pmm.Abs())).1
    {
      ghost var m := Mem();
      NewFrameExists(pmm.Abs());
      pa := pmm.Alloc();
      assert Mem() == m;
    }

    /** The branch of `next_pg_dir` that makes a table. */
    method AddTable(ghost p: Path, t: nat, i: nat, flags: nat)
      requires Wf() && FramesExist() && t < mem.Length0 && i < ENTRIES
      modifies Repr()
      ensures Wf() && FramesExist()
      ensures var (pool, pa) := PmmSpec.Alloc(pmm.geo, old(pmm.Abs()));
        && pmm.Abs() == pool
        && Mem() == Poke(ZeroFrame(old(Mem()), pa / PAGE_SIZE), t, i, MakeEntry(pa, flags))
        && tabs == old(tabs)[Sub(p, i) := pa / PAGE_SIZE]
    {
      ghost var m := Mem();
      var pa := TakeFrame();
      HookTable(p, t, i, pa, flags);
      HookBacked(pmm.geo, m, t, i, pa / PAGE_SIZE, MakeEntry(pa, flags));
    }

    /** Entry `i` of table `t`, which hangs at `p`. */
    method NextPgDir(ghost p: Path, t: nat, i: nat, flags: nat) returns (next: nat)
      requires Wf() && FramesExist() && t < mem.Length0 && i < ENTRIES
      modifies Repr()
      ensures Wf() && FramesExist() && (Abs(), next) == NextDir(pmm.geo, old(Abs()), p, t, i, flags)
    {
      if mem[t, i] % 2 == 0 {
        AddTable(p, t, i, flags);
      }
      next := mem[t, i] / PAGE_SIZE;
    }

    /** A null pointer is 0. */
    method SomeNextPgDir(t: nat, i: nat) returns (next: nat)
      requires Wf() && t < mem.Length0 && i < ENTRIES
      ensures next == SomeNextDir(Mem(), t, i)
      ensures Wf() && Abs() == old(Abs())
    {
      if t == 0 || mem[t, i] % 2 == 0 {
        return 0;
      }
      next := mem[t, i] / PAGE_SIZE;
    }

    /** The three directory steps. */
    method FindPageTable(root: nat, pi: PageIndex, flags: nat) returns (pt: nat)
      requires Wf() && FramesExist() && WalkInside(pmm.geo, Abs(), root, pi, flags)
      requires pi.pdpt < ENTRIES && pi.pdt < ENTRIES && pi.pt < ENTRIES
      modifies Repr()
      ensures Wf() && FramesExist() && pt < mem.Length0
      ensures (Abs(), pt) == Descend(pmm.geo, old(Abs()), root, pi, flags)
    {
      ghost var p0 := Root(root);
      ghost var p1 := Sub(p0, pi.pdpt);
      var pdpt := NextPgDir(p0, root, pi.pdpt, flags);
      var pdt := NextPgDir(p1, pdpt, pi.pdt, flags);
      pt := NextPgDir(Sub(p1, pi.pdt), pdt, pi.pt, flags);
    }

    /** A word written while everything else keeps its shape. */
    method WriteEntry(t: nat, i: nat, e: nat)
      requires Wf() && t < mem.Length0 && i < ENTRIES
      modifies mem
      ensures Wf() && Abs() == old(Abs()).(mem := Poke(old(Mem()), t, i, e))
    {
      WriteWord(t, i, e);
    }

    /** `paging_map`, whatever the pool holds; `WalkStaysInside` says when the tables it walks are in memory. */
    method Map(root: nat, pa: nat, va: nat, flags: nat)
      requires Wf() && FramesExist() && WalkInside(pmm.geo, Abs(), root, VaddrToPgInd(va), flags)
      modifies Repr()
      ensures Wf() && FramesExist() && Abs() == PageTables.Map(pmm.geo, old(Abs()), root, pa, va, flags)
    {
      var pi := VaddrToPgInd(va);
      var pt := FindPageTable(root, pi, flags);
      WriteEntry(pt, pi.pg, MakeEntry(pa, flags));
    }

    /** The chain of lookups of `paging_unmap`. */
    method LookUpTable(root: nat, pi: PageIndex) returns (pt: nat)
      requires Wf() && Tree(Mem(), tabs) && Root(root) in tabs
      requires pi.pdpt < ENTRIES && pi.pdt < ENTRIES && pi.pt < ENTRIES
      ensures pt == FindTable(Mem(), root, pi) && pt < mem.Length0
      ensures Wf() && Abs() == old(Abs())
    {
      FindInRange(Mem(), tabs, root, pi);
      var pdpt := SomeNextPgDir(root, pi.pdpt);
      var pdt := SomeNextPgDir(pdpt, pi.pdt);
      pt := SomeNextPgDir(pdt, pi.pt);
    }

    method Unmap(root: nat, va: nat)
      requires Wf() && Inv(pmm.geo, Abs()) && Root(root) in tabs
      modifies mem
      ensures Wf() && Inv(pmm.geo, Abs()) && Abs() == PageTables.Unmap(old(Abs()), root, va)
    {
      UnmapMeaning(pmm.geo, Abs(), root, va);
      var pi := VaddrToPgInd(va);
      var pt := LookUpTable(root, pi);
      if pt == 0 {
        return;
      }
      WriteEntry(pt, pi.pg, 0);
    }

    /** Clears the new frame and records it as a top-level table. */
    method HookRoot(f: nat)
      requires Wf() && f < mem.Length0
      modifies mem, this`tabs
      ensures Wf() && pmm.Abs() == old(pmm.Abs())
      ensures Mem() == ZeroFrame(old(Mem()), f) && tabs == old(tabs)[Root(f) := f]
    {
      ClearFrame(f);
      tabs := tabs[Root(f) := f];
    }

    /** An empty top-level table. */
    method NewTopLevel() returns (root: nat)
      requires Wf() && FramesExist()
      modifies Repr()
      ensures Wf() && FramesExist() && (Abs(), root) == NewRoot(pmm.geo, old(Abs()))
    {
      var pml4 := TakeFrame();
      root := pml4 / PAGE_SIZE;
      HookRoot(root);
    }

    /** Page `i` of a list, in a mapping loop that started in `w`. */
    method MapRound(ghost w: World, root: nat, ghost ps: seq<Page>, i: nat, pa: nat, va: nat, flags: nat)
      returns (next: nat)
      requires Wf() && FramesExist() && i < |ps| && ps[i] == Page(pa, va)
      requires ListInside(pmm.geo, w, root, ps, flags) && Abs() == MapPages(pmm.geo, w, root, ps, i, flags)
      modifies Repr()
      ensures Wf() && FramesExist() && next == i + 1 && Abs() == MapPages(pmm.geo, w, root, ps, next, flags)
    {
      next := i + 1;
      PagesInsidePrefix(pmm.geo, w, root, ps, |ps|, flags, next);
      Map(root, pa, va, flags);
    }

    /** The addresses of round `i`. */
    method RoundAt(pa: nat, va: nat, i: nat, ghost ps: seq<Page>) returns (p: nat, v: nat)
      requires Sequential(ps, pa, va) && i < |ps|
      ensures ps[i] == Page(p, v)
    {
      p, v := pa + PAGE_SIZE * i, va + PAGE_SIZE * i;
    }

    /** Round `i` of a loop over pages that follow each other. */
    method NextRound(ghost w: World, root: nat, ghost ps: seq<Page>, i: nat, pa: nat, va: nat, flags: nat)
      returns (next: nat)
      requires Wf() && FramesExist() && i < |ps| && Sequential(ps, pa, va)
      requires ListInside(pmm.geo, w, root, ps, flags) && Abs() == MapPages(pmm.geo, w, root, ps, i, flags)
      modifies Repr()
      ensures Wf() && FramesExist() && next == i + 1 && Abs() == MapPages(pmm.geo, w, root, ps, next, flags)
    {
      var p, v := RoundAt(pa, va, i, ps);
      next := MapRound(w, root, ps, i, p, v, flags);
    }

    /** A loop that maps the pages of a list, which follow each other from `pa` and `va` on. */
    method MapList(root: nat, pa: nat, va: nat, n: nat, flags: nat, ghost ps: seq<Page>)
      requires Wf() && FramesExist() && |ps| == n && ListInside(pmm.geo, Abs(), root, ps, flags)
      requires Sequential(ps, pa, va)
      modifies Repr()
      ensures Wf() && FramesExist() && Abs() == MapPages(pmm.geo, old(Abs()), root, ps, n, flags)
    {
      ghost var w := Abs();
      var i := 0;
      while i < n
        invariant 0 <= i <= n && Wf() && FramesExist()
        invariant Abs() == MapPages(pmm.geo, w, root, ps, i, flags)
      {
        i := NextRound(w, root, ps, i, pa, va, flags);
      }
    }

    /** The loop that `paging_create_map` and `vmm_init` run: `n` consecutive pages, one after the other. */
    method MapConsecutive(root: nat, pa: nat, va: nat, n: nat, flags: nat)
      requires Wf() && FramesExist() && PagesInside(pmm.geo, Abs(), root, Consecutive(pa, va, n), n, flags)
      modifies Repr()
      ensures Wf() && FramesExist()
      ensures Abs() == MapPages(pmm.geo, old(Abs()), root, Consecutive(pa, va, n), n, flags)
    {
      ConsecutiveFollows(pa, va, n);
      MapList(root, pa, va, n, flags, Consecutive(pa, va, n));
    }

    /** `paging_create_map`, however many frames are left. */
    method CreateMap(ghost am: PageMap) returns (pml4: nat)
      requires Wf() && Inv(pmm.geo, Abs()) && Agrees(Abs(), am)
      modifies Repr()
      ensures Wf() && FramesExist()
      ensures Abs() == PageRuns.CreateMap(pmm.geo, old(Abs())).0
      ensures pml4 == PAGE_SIZE * PageRuns.CreateMap(pmm.geo, old(Abs())).1
      ensures Legal(old(Abs()), Create) ==> Inv(pmm.geo, Abs())
    {
      if Legal(Abs(), Create) {
        CreateStep(pmm.geo, Abs(), am);
      }
      LowMegabyte.LowLoopInside(pmm.geo, Abs(), am);
      InvFrames();
      var root := NewTopLevel();
      MapConsecutive(root, 0, 0, LOW_PAGES, PF_RW);
      pml4 := PAGE_SIZE * root;
    }
  }
}
