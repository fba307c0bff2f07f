/** `paging_create_map` when the pool runs dry: where its loop over the first megabyte then reads and writes. */
module LowMegabyte {
  import opened Common
  import PmmSpec
  import opened PageTables
  import opened PageRuns

  /** A directory entry on the way to the first megabyte: entry 0 of table `t` is present and leads to `next`. */
  predicate Cell(mem: Memory, t: nat, next: nat) {
    t < |mem| && Present(Deref(mem, t, 0)) && Target(Deref(mem, t, 0)) == next
  }

  /** Whether callers own the frame of table `t`; frame 0 stands for a failed allocation. */
  predicate Held(w: World, t: nat) {
    0 < t && PAGE_SIZE * t in w.pool.live
  }

  /** The walk to the first megabyte, level by level. */
  predicate Way(mem: Memory, root: nat, t1: nat, t2: nat, t3: nat) {
    Cell(mem, root, t1) && Cell(mem, t1, t2) && Cell(mem, t2, t3) && t3 < |mem|
  }

  lemma LowIndex(k: nat)
    requires k < LOW_PAGES
    ensures VaddrToPgInd(PAGE_SIZE * k) == PageIndex(0, 0, 0, k)
  {
  }

  // ----- later rounds

  lemma OtherWord(mem: Memory, f: nat, k: nat, e: nat, t: nat, next: nat)
    requires Cell(mem, t, next) && 0 < k
    ensures Cell(Poke(mem, f, k, e), t, next) && |Poke(mem, f, k, e)| == |mem|
  {
  }

  /** Once the way is there, a round makes no table and writes its page's entry. */
  lemma RoundOnWay(g: PmmSpec.Geometry, w: World, root: nat, t1: nat, t2: nat, t3: nat, pa: nat, k: nat)
    requires Way(w.mem, root, t1, t2, t3) && 0 < k < LOW_PAGES
    ensures WalkInside(g, w, root, VaddrToPgInd(PAGE_SIZE * k), PF_RW)
    ensures Way(Map(g, w, root, pa, PAGE_SIZE * k, PF_RW).mem, root, t1, t2, t3)
  {
    LowIndex(k);
    var e := MakeEntry(pa, PF_RW);
    assert Descend(g, w, root, PageIndex(0, 0, 0, k), PF_RW) == (w, t3);
    OtherWord(w.mem, t3, k, e, root, t1);
    OtherWord(w.mem, t3, k, e, t1, t2);
    OtherWord(w.mem, t3, k, e, t2, t3);
  }

  lemma LowPageIs(k: nat)
    requires k < LOW_PAGES
    ensures FirstMegabyte()[k] == Page(PAGE_SIZE * k, PAGE_SIZE * k)
  {
  }

  lemma {:induction false} RestOnWay(g: PmmSpec.Geometry, w: World, root: nat, t1: nat, t2: nat, t3: nat, n: nat)
    requires 0 < n <= LOW_PAGES && Way(MapPages(g, w, root, FirstMegabyte(), 1, PF_RW).mem, root, t1, t2, t3)
    requires PagesInside(g, w, root, FirstMegabyte(), 1, PF_RW)
    ensures PagesInside(g, w, root, FirstMegabyte(), n, PF_RW)
    ensures Way(MapPages(g, w, root, FirstMegabyte(), n, PF_RW).mem, root, t1, t2, t3)
  {
    if n > 1 {
      var m := n - 1;
      RestOnWay(g, w, root, t1, t2, t3, m);
      LowPageIs(m);
      RoundOnWay(g, MapPages(g, w, root, FirstMegabyte(), m, PF_RW), root, t1, t2, t3, PAGE_SIZE * m, m);
    }
  }

  // ----- the first round

  lemma RwLow()
    ensures PF_RW < PAGE_SIZE
  {
  }

  lemma RowLength(g: PmmSpec.Geometry, w: World, p: Path, t: nat)
    requires Reached(g, w, p, t, PF_RW)
    ensures t < |w.mem| && |w.mem[t]| == ENTRIES && PmmSpec.ValidGeometry(g) && PmmSpec.Owned(g, w.pool)
  {
  }

  lemma NewCell(mem: Memory, t: nat, f: nat, e: nat)
    requires t < |mem| && |mem[t]| == ENTRIES && Present(e)
    ensures Cell(Poke(ZeroFrame(mem, f), t, 0, e), t, Target(e))
  {
  }

  /** A step of the descent leaves the entry it followed, and never leaves the reached tables. */
  lemma StepCell(g: PmmSpec.Geometry, w: World, p: Path, t: nat)
    requires Reached(g, w, p, t, PF_RW) && Depth(p) < 3
    ensures var (w', t') := NextDir(g, w, p, t, 0, PF_RW);
      Cell(w'.mem, t, t') && Reached(g, w', Sub(p, 0), t', PF_RW)
  {
    RwLow();
    RowLength(g, w, p, t);
    ReachStep(g, w, p, t, 0, PF_RW, {Sub(p, 0)});
    var pa := PmmSpec.Alloc(g, w.pool).1;
    EntryPresent(pa, PF_RW);
    NewCell(w.mem, t, pa / PAGE_SIZE, MakeEntry(pa, PF_RW));
  }

  lemma OldCell(mem: Memory, t: nat, f: nat, e: nat, c: nat, next: nat)
    requires Cell(mem, c, next) && c != f && c != t
    ensures Cell(Poke(ZeroFrame(mem, f), t, 0, e), c, next)
  {
  }

  /** Entries followed before stay: their tables are owned, or it is frame 0, which already points at itself. */
  lemma KeepCell(g: PmmSpec.Geometry, w: World, p: Path, t: nat, c: nat, next: nat)
    requires PmmSpec.ValidGeometry(g) && PmmSpec.Owned(g, w.pool) && Cell(w.mem, c, next)
    requires Held(w, c) || (c == 0 && t == 0)
    ensures var w' := NextDir(g, w, p, t, 0, PF_RW).0; Cell(w'.mem, c, next) && (Held(w, c) ==> Held(w', c))
  {
    if Held(w, c) {
      AllocatedElsewhere(g, w.pool, c);
    }
    if !Present(Deref(w.mem, t, 0)) {
      var pa := PmmSpec.Alloc(g, w.pool).1;
      OldCell(w.mem, t, pa / PAGE_SIZE, MakeEntry(pa, PF_RW), c, next);
    }
  }

  lemma ReachedIsHeld(g: PmmSpec.Geometry, w: World, p: Path, t: nat)
    requires Reached(g, w, p, t, PF_RW)
    ensures Held(w, t) || t == 0
    ensures 0 < t ==> Inv(g, w) && p in w.tabs && w.tabs[p] == t
  {
  }

  lemma ZeroStays(g: PmmSpec.Geometry, w: World, p: Path, t: nat)
    requires Reached(g, w, p, t, PF_RW) && t == 0
    ensures NextDir(g, w, p, t, 0, PF_RW).1 == 0
  {
    RwLow();
    StuckStep(g, w, p, 0, PF_RW);
  }

  lemma TabsKept(g: PmmSpec.Geometry, w: World, p: Path, t: nat, q: Path)
    requires q in w.tabs && q != Sub(p, 0)
    ensures q in NextDir(g, w, p, t, 0, PF_RW).0.tabs && NextDir(g, w, p, t, 0, PF_RW).0.tabs[q] == w.tabs[q]
  {
  }

  /** Where the descent of the first round comes through. */
  datatype Descent = Descent(w1: World, t1: nat, w2: World, t2: nat, w3: World, t3: nat)

  function DescentOf(g: PmmSpec.Geometry, w: World, root: nat): Descent {
    var p1 := Sub(Root(root), 0);
    var (w1, t1) := NextDir(g, w, Root(root), root, 0, PF_RW);
    var (w2, t2) := NextDir(g, w1, p1, t1, 0, PF_RW);
    var (w3, t3) := NextDir(g, w2, Sub(p1, 0), t2, 0, PF_RW);
    Descent(w1, t1, w2, t2, w3, t3)
  }

  lemma FirstCells(g: PmmSpec.Geometry, w: World, p0: Path, root: nat)
    requires Reached(g, w, p0, root, PF_RW) && Depth(p0) < 3
    ensures var (w1, t1) := NextDir(g, w, p0, root, 0, PF_RW);
      && Cell(w1.mem, root, t1) && Reached(g, w1, Sub(p0, 0), t1, PF_RW)
      && (Held(w1, root) || (root == 0 && t1 == 0))
  {
    StepCell(g, w, p0, root);
    RowLength(g, w, p0, root);
    ReachedIsHeld(g, w, p0, root);
    if root == 0 {
      ZeroStays(g, w, p0, root);
    } else {
      AllocatedElsewhere(g, w.pool, root);
    }
  }

  lemma SecondCells(g: PmmSpec.Geometry, w1: World, p1: Path, root: nat, t1: nat)
    requires Reached(g, w1, p1, t1, PF_RW) && Depth(p1) < 3 && Cell(w1.mem, root, t1)
    requires Held(w1, root) || (root == 0 && t1 == 0)
    ensures var (w2, t2) := NextDir(g, w1, p1, t1, 0, PF_RW);
      && Cell(w2.mem, root, t1) && Cell(w2.mem, t1, t2) && Reached(g, w2, Sub(p1, 0), t2, PF_RW)
      && (Held(w2, root) || (root == 0 && t2 == 0)) && (Held(w2, t1) || (t1 == 0 && t2 == 0))
  {
    StepCell(g, w1, p1, t1);
    RowLength(g, w1, p1, t1);
    KeepCell(g, w1, p1, t1, root, t1);
    ReachedIsHeld(g, w1, p1, t1);
    if t1 == 0 {
      ZeroStays(g, w1, p1, t1);
    } else {
      AllocatedElsewhere(g, w1.pool, t1);
    }
  }

  /** The way is there when the descent arrives. */
  lemma DescentWay(g: PmmSpec.Geometry, w: World, root: nat)
    requires Reached(g, w, Root(root), root, PF_RW)
    ensures var d := DescentOf(g, w, root);
      && Way(d.w3.mem, root, d.t1, d.t2, d.t3)
      && Reached(g, d.w3, Sub(Sub(Sub(Root(root), 0), 0), 0), d.t3, PF_RW)
  {
    var p0 := Root(root);
    var p1 := Sub(p0, 0);
    var p2 := Sub(p1, 0);
    var d := DescentOf(g, w, root);
    assert Depth(p0) == 0 && Depth(p1) == 1 && Depth(p2) == 2;
    FirstCells(g, w, p0, root);
    SecondCells(g, d.w1, p1, root, d.t1);
    StepCell(g, d.w2, p2, d.t2);
    ReachedIsHeld(g, d.w1, p1, d.t1);
    RowLength(g, d.w2, p2, d.t2);
    KeepCell(g, d.w2, p2, d.t2, root, d.t1);
    KeepCell(g, d.w2, p2, d.t2, d.t1, d.t2);
    RowLength(g, d.w3, Sub(p2, 0), d.t3);
  }

  lemma ZeroesOn(g: PmmSpec.Geometry, w: World, p: Path, t: nat)
    requires Reached(g, w, p, t, PF_RW)
    ensures t == 0 ==> NextDir(g, w, p, t, 0, PF_RW).1 == 0
  {
    if t == 0 {
      ZeroStays(g, w, p, t);
    }
  }

  /** A page table that is not frame 0 is none of the tables on the way to it. */
  lemma TableApart(g: PmmSpec.Geometry, w: World, root: nat)
    requires Reached(g, w, Root(root), root, PF_RW)
    ensures var d := DescentOf(g, w, root);
      d.t3 == 0 || (d.t3 != root && d.t3 != d.t1 && d.t3 != d.t2)
    ensures var d := DescentOf(g, w, root);
      (root == 0 ==> d.t1 == 0) && (d.t1 == 0 ==> d.t2 == 0) && (d.t2 == 0 ==> d.t3 == 0)
  {
    var p0 := Root(root);
    var p1 := Sub(p0, 0);
    var p2 := Sub(p1, 0);
    var p3 := Sub(p2, 0);
    var d := DescentOf(g, w, root);
    assert Depth(p0) == 0 && Depth(p1) == 1 && Depth(p2) == 2 && Depth(p3) == 3;
    StepCell(g, w, p0, root);
    StepCell(g, d.w1, p1, d.t1);
    StepCell(g, d.w2, p2, d.t2);
    ZeroesOn(g, w, p0, root);
    ZeroesOn(g, d.w1, p1, d.t1);
    ZeroesOn(g, d.w2, p2, d.t2);
    if d.t3 != 0 {
      ReachedIsHeld(g, w, p0, root);
      ReachedIsHeld(g, d.w1, p1, d.t1);
      ReachedIsHeld(g, d.w2, p2, d.t2);
      ReachedIsHeld(g, d.w3, p3, d.t3);
      TabsKept(g, w, p0, root, p0);
      TabsKept(g, d.w1, p1, d.t1, p0);
      TabsKept(g, d.w2, p2, d.t2, p0);
      TabsKept(g, d.w1, p1, d.t1, p1);
      TabsKept(g, d.w2, p2, d.t2, p1);
      TabsKept(g, d.w2, p2, d.t2, p2);
    }
  }

  /** The entry of page 0 written into the page table. */
  lemma EntryKeepsCell(mem: Memory, t3: nat, e: nat, c: nat, next: nat)
    requires Cell(mem, c, next) && Present(e) && Target(e) == 0 && (c == t3 ==> next == 0)
    ensures Cell(Poke(mem, t3, 0, e), c, next) && |Poke(mem, t3, 0, e)| == |mem|
  {
  }

  /** After the first round the way to the first megabyte is there, whatever the pool held. */
  lemma FirstRound(g: PmmSpec.Geometry, w: World, root: nat)
    requires Reached(g, w, Root(root), root, PF_RW)
    ensures WalkInside(g, w, root, VaddrToPgInd(0), PF_RW)
    ensures var d := DescentOf(g, w, root); Way(Map(g, w, root, 0, 0, PF_RW).mem, root, d.t1, d.t2, d.t3)
  {
    var d, e := DescentOf(g, w, root), MakeEntry(0, PF_RW);
    RwLow();
    LowIndex(0);
    ReachedStaysInside(g, w, root, VaddrToPgInd(0), PF_RW);
    DescentWay(g, w, root);
    TableApart(g, w, root);
    NullEntry(PF_RW);
    assert Map(g, w, root, 0, 0, PF_RW).mem == Poke(d.w3.mem, d.t3, 0, e);
    EntryKeepsCell(d.w3.mem, d.t3, e, root, d.t1);
    EntryKeepsCell(d.w3.mem, d.t3, e, d.t1, d.t2);
    EntryKeepsCell(d.w3.mem, d.t3, e, d.t2, d.t3);
  }

  /** The new top-level table, or frame 0 when there is no frame for it. */
  lemma RootReached(g: PmmSpec.Geometry, w: World, am: PageMap)
    requires Inv(g, w) && Agrees(w, am)
    ensures var (w1, root) := NewRoot(g, w); Reached(g, w1, Root(root), root, PF_RW)
  {
    RwLow();
    if 0 < PmmSpec.Avail(w.pool) {
      NewRootStep(g, w, am);
    } else {
      EmptyAlloc(g, w.pool);
      StuckIfZero(g, NewRoot(g, w).0);
    }
  }

  lemma FirstInside(g: PmmSpec.Geometry, w: World, root: nat)
    requires WalkInside(g, w, root, VaddrToPgInd(0), PF_RW)
    ensures PagesInside(g, w, root, FirstMegabyte(), 1, PF_RW)
    ensures MapPages(g, w, root, FirstMegabyte(), 1, PF_RW) == Map(g, w, root, 0, 0, PF_RW)
  {
    LowPageIs(0);
    assert MapPages(g, w, root, FirstMegabyte(), 0, PF_RW) == w;
    assert PagesInside(g, w, root, FirstMegabyte(), 0, PF_RW);
  }

  /** The loop of `paging_create_map` reads and writes only memory, however many frames are left. */
  lemma LowLoopInside(g: PmmSpec.Geometry, w: World, am: PageMap)
    requires Inv(g, w) && Agrees(w, am)
    ensures var (w1, root) := NewRoot(g, w); PagesInside(g, w1, root, FirstMegabyte(), |FirstMegabyte()|, PF_RW)
  {
    var (w1, root) := NewRoot(g, w);
    RootReached(g, w, am);
    FirstRound(g, w1, root);
    LowPageIs(0);
    FirstInside(g, w1, root);
    var d := DescentOf(g, w1, root);
    RestOnWay(g, w1, root, d.t1, d.t2, d.t3, |FirstMegabyte()|);
  }
}
