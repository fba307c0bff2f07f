/**
 The words of the frames that callers own: the paging code writes to none of them, so what an owner stores through the
 page tables is what it reads back.
 */
module PageData {
  import opened Common
  import PmmSpec
  import opened PageTables
  import opened PageRuns

  /** A load of one word through the map. */
  function Load(mem: Memory, root: nat, va: nat): Option<nat> {
    match Lookup(mem, PagePath(root, va))
    case None => None
    case Some(e) => Some(Deref(mem, PhysFrame(e), WordOf(va)))
  }

  /** Frame `f` keeps its words, and stays owned data. */
  ghost predicate FrameKept(w: World, w': World, f: nat) {
    Words(w'.mem, f) == Words(w.mem, f) && DataFrame(w', f)
  }

  // ----- the paging code leaves data alone

  lemma HookLeaves(mem: Memory, t: nat, i: nat, new_: nat, e: nat, f: nat)
    requires f != t && f != new_
    ensures Words(Poke(ZeroFrame(mem, new_), t, i, e), f) == Words(mem, f)
  {
  }

  lemma PokeLeaves(mem: Memory, t: nat, i: nat, e: nat, f: nat)
    requires f != t
    ensures Words(Poke(mem, t, i, e), f) == Words(mem, f)
  {
  }

  lemma OwnedFrame(g: PmmSpec.Geometry, w: World, f: nat)
    requires Inv(g, w) && PAGE_SIZE * f in w.pool.live
    ensures 0 < f < |w.mem| && |w.mem[f]| == ENTRIES
  {
    PmmSpec.FrameFacts(g, PAGE_SIZE * f);
    assert PAGE_SIZE * f / PAGE_SIZE == f;
  }

  lemma GrownData(w: World, w': World, more: set<Path>, f: nat)
    requires Grown(w, w', more) && DataFrame(w, f)
    ensures DataFrame(w', f)
  {
  }

  lemma NextDirLeaves(g: PmmSpec.Geometry, w: World, p: Path, i: nat, flags: nat, f: nat)
    requires Inv(g, w) && p in w.tabs && Depth(p) < 3 && i < ENTRIES && Enough(w, Sub(p, i))
    requires (flags < PAGE_SIZE || Sub(p, i) in w.tabs) && DataFrame(w, f)
    ensures FrameKept(w, NextDir(g, w, p, w.tabs[p], i, flags).0, f)
  {
    NextDirKeeps(g, w, p, i, flags);
    GrownData(w, NextDir(g, w, p, w.tabs[p], i, flags).0, {Sub(p, i)}, f);
    OwnedFrame(g, w, f);
    AllocatedElsewhere(g, w.pool, f);
    var pa := PmmSpec.Alloc(g, w.pool).1;
    HookLeaves(w.mem, w.tabs[p], i, pa / PAGE_SIZE, MakeEntry(pa, flags), f);
  }

  lemma StepLeavesFrame(g: PmmSpec.Geometry, w: World, p: Path, i: nat, flags: nat, nodes: set<Path>, f: nat)
    requires Inv(g, w) && p in w.tabs && Depth(p) < 3 && i < ENTRIES && (flags < PAGE_SIZE || Sub(p, i) in w.tabs)
    requires Sub(p, i) in nodes && Missing(w, nodes) <= PmmSpec.Avail(w.pool) && DataFrame(w, f)
    ensures var (w', t) := NextDir(g, w, p, w.tabs[p], i, flags);
      && Stepped(g, w, Sub(p, i), flags, w', t) && Missing(w', nodes) <= PmmSpec.Avail(w'.pool)
      && FrameKept(w, w', f)
  {
    StepDown(g, w, p, i, flags, nodes);
    MissingOne(nodes, w.tabs.Keys, Sub(p, i));
    NextDirLeaves(g, w, p, i, flags, f);
  }

  lemma DescendLeaves(g: PmmSpec.Geometry, w: World, root: nat, pi: PageIndex, flags: nat, f: nat)
    requires Inv(g, w) && Root(root) in w.tabs && Fits(w, NodesAt(root, pi), flags) && DataFrame(w, f)
    requires pi.pdpt < ENTRIES && pi.pdt < ENTRIES && pi.pt < ENTRIES
    requires Missing(w, NodesAt(root, pi)) <= PmmSpec.Avail(w.pool)
    ensures FrameKept(w, Descend(g, w, root, pi, flags).0, f)
  {
    var nodes, p0 := NodesAt(root, pi), Root(root);
    var p1 := Sub(p0, pi.pdpt);
    var p2 := Sub(p1, pi.pdt);
    assert Depth(p0) == 0 && Depth(p1) == 1 && Depth(p2) == 2 && w.tabs[p0] == root;
    StepLeavesFrame(g, w, p0, pi.pdpt, flags, nodes, f);
    var (w1, t1) := NextDir(g, w, p0, root, pi.pdpt, flags);
    StepLeavesFrame(g, w1, p1, pi.pdt, flags, nodes, f);
    var (w2, t2) := NextDir(g, w1, p1, t1, pi.pdt, flags);
    StepLeavesFrame(g, w2, p2, pi.pt, flags, nodes, f);
  }

  lemma MapLeaves(g: PmmSpec.Geometry, w: World, root: nat, pa: nat, va: nat, flags: nat, f: nat)
    requires Inv(g, w) && Legal(w, MapOp(root, pa, va, flags)) && DataFrame(w, f)
    ensures FrameKept(w, Map(g, w, root, pa, va, flags), f)
  {
    var pi := VaddrToPgInd(va);
    DescendLeaves(g, w, root, pi, flags, f);
    DescendKeeps(g, w, root, pi, flags);
    var (w3, t) := Descend(g, w, root, pi, flags);
    PokeLeaves(w3.mem, t, pi.pg, MakeEntry(pa, flags), f);
  }

  lemma UnmapLeaves(g: PmmSpec.Geometry, w: World, root: nat, va: nat, f: nat)
    requires Inv(g, w) && Root(root) in w.tabs && DataFrame(w, f)
    ensures FrameKept(w, Unmap(w, root, va), f)
  {
    var pi := VaddrToPgInd(va);
    UnmapFinds(w, root, pi);
    if FindTable(w.mem, root, pi) != 0 {
      PokeLeaves(w.mem, FindTable(w.mem, root, pi), pi.pg, 0, f);
    }
  }

  lemma {:induction false} PagesLeave(g: PmmSpec.Geometry, w: World, am: PageMap, root: nat, ps: seq<Page>, n: nat,
                                      flags: nat, f: nat)
    requires n <= |ps| && Inv(g, w) && Agrees(w, am) && LegalPages(g, w, root, ps, n, flags) && DataFrame(w, f)
    ensures FrameKept(w, MapPages(g, w, root, ps, n, flags), f)
  {
    if n > 0 {
      PagesLeave(g, w, am, root, ps, n - 1, flags, f);
      PagesLoop(g, w, am, root, ps, n - 1, flags);
      MapLeaves(g, MapPages(g, w, root, ps, n - 1, flags), root, ps[n - 1].pa, ps[n - 1].va, flags, f);
    }
  }

  lemma NewRootLeaves(g: PmmSpec.Geometry, w: World, f: nat)
    requires Inv(g, w) && 0 < PmmSpec.Avail(w.pool) && DataFrame(w, f)
    ensures FrameKept(w, NewRoot(g, w).0, f)
  {
    OwnedFrame(g, w, f);
    AllocatedElsewhere(g, w.pool, f);
  }

  lemma CreateLeavesFrame(g: PmmSpec.Geometry, w: World, am: PageMap, f: nat)
    requires Inv(g, w) && Agrees(w, am) && Legal(w, Create) && DataFrame(w, f)
    ensures FrameKept(w, CreateMap(g, w).0, f)
  {
    NewRootStep(g, w, am);
    NewRootLeaves(g, w, f);
    LowLoopLegal(g, w, am);
    var (w1, root) := NewRoot(g, w);
    PagesLeave(g, w1, am, root, FirstMegabyte(), |FirstMegabyte()|, PF_RW, f);
  }

  lemma AllocLeaves(g: PmmSpec.Geometry, w: World, f: nat)
    requires Inv(g, w) && DataFrame(w, f)
    ensures FrameKept(w, w.(pool := PmmSpec.Alloc(g, w.pool).0), f)
  {
    PmmSpec.AllocMeaning(g, w.pool);
  }

  lemma MapNewLeaves(g: PmmSpec.Geometry, w: World, am: PageMap, root: nat, va: nat, flags: nat, f: nat)
    requires Inv(g, w) && Agrees(w, am) && Legal(w, MapNew(root, va, flags)) && DataFrame(w, f)
    ensures FrameKept(w, Step(g, w, MapNew(root, va, flags)), f)
  {
    var (pool, pa) := PmmSpec.Alloc(g, w.pool);
    AllocLeaves(g, w, f);
    AllocStep(g, w, am);
    PmmSpec.AvailZero(w.pool);
    MapLeaves(g, w.(pool := pool), root, pa, va, flags, f);
  }

  lemma FreeLeaves(g: PmmSpec.Geometry, w: World, addr: nat, f: nat)
    requires Inv(g, w) && DataFrame(w, f) && PageBase(addr) != PAGE_SIZE * f
    ensures FrameKept(w, w.(pool := PmmSpec.Free(g, w.pool, addr)), f)
  {
    PmmSpec.FreeKeepsIff(g, w.pool, addr);
  }

  // ----- steps and runs

  /** The step stores to word `i` of frame `f`. */
  predicate HitsWord(w: World, op: Op, f: nat, i: nat) {
    op.StoreOp?
    && var q := PagePath(op.root, op.va);
       Lookup(w.mem, q).Some? && PhysFrame(Lookup(w.mem, q).value) == f && WordOf(op.va) == i
  }

  /** The step neither stores to the word nor releases its frame. */
  predicate LeavesWord(w: World, op: Op, f: nat, i: nat) {
    !HitsWord(w, op, f, i) && (op.FreeOp? ==> PageBase(op.addr) != PAGE_SIZE * f)
  }

  predicate LeavesWordRun(g: PmmSpec.Geometry, w: World, ops: seq<Op>, f: nat, i: nat)
    decreases |ops|
  {
    ops != [] ==> LeavesWord(w, ops[0], f, i) && LeavesWordRun(g, Step(g, w, ops[0]), ops[1..], f, i)
  }

  /** A step that is no store keeps every word of a data frame. */
  lemma QuietStep(g: PmmSpec.Geometry, w: World, am: PageMap, op: Op, f: nat)
    requires Inv(g, w) && Agrees(w, am) && Legal(w, op) && DataFrame(w, f) && !op.StoreOp?
    requires op.FreeOp? ==> PageBase(op.addr) != PAGE_SIZE * f
    ensures FrameKept(w, Step(g, w, op), f)
  {
    match op
    case Create => CreateLeavesFrame(g, w, am, f);
    case MapOp(root, pa, va, flags) => MapLeaves(g, w, root, pa, va, flags, f);
    case MapNew(root, va, flags) => MapNewLeaves(g, w, am, root, va, flags, f);
    case UnmapOp(root, va) => UnmapLeaves(g, w, root, va, f);
    case AllocOp => AllocLeaves(g, w, f);
    case FreeOp(addr) => FreeLeaves(g, w, addr, f);
  }

  lemma WordPoked(mem: Memory, f: nat, i: nat, e: nat, f': nat, i': nat)
    ensures f < |mem| && i < |mem[f]| ==> Deref(Poke(mem, f, i, e), f, i) == e
    ensures f != f' || i != i' ==> Deref(Poke(mem, f, i, e), f', i') == Deref(mem, f', i')
  {
  }

  lemma SameWords(mem: Memory, mem': Memory, f: nat, i: nat)
    requires Words(mem', f) == Words(mem, f)
    ensures Deref(mem', f, i) == Deref(mem, f, i)
  {
  }

  /** No step changes a word of owned data, short of a store to that word. */
  lemma WordStays(g: PmmSpec.Geometry, w: World, am: PageMap, op: Op, f: nat, i: nat)
    requires Inv(g, w) && Agrees(w, am) && Legal(w, op) && DataFrame(w, f) && LeavesWord(w, op, f, i)
    ensures DataFrame(Step(g, w, op), f) && Deref(Step(g, w, op).mem, f, i) == Deref(w.mem, f, i)
  {
    if op.StoreOp? {
      var e := Lookup(w.mem, PagePath(op.root, op.va)).value;
      WordPoked(w.mem, PhysFrame(e), WordOf(op.va), op.word, f, i);
    } else {
      QuietStep(g, w, am, op, f);
      SameWords(w.mem, Step(g, w, op).mem, f, i);
    }
  }

  /**
   Whatever a run creates, maps, unmaps, allocates, releases and stores elsewhere: a word of a frame somebody owns
   changes only by a store to that word.
   */
  lemma {:induction false} DataStays(g: PmmSpec.Geometry, w: World, am: PageMap, ops: seq<Op>, f: nat, i: nat)
    requires Inv(g, w) && Agrees(w, am) && LegalRun(g, w, ops) && DataFrame(w, f) && LeavesWordRun(g, w, ops, f, i)
    ensures DataFrame(Run(g, w, ops), f) && Deref(Run(g, w, ops).mem, f, i) == Deref(w.mem, f, i)
    decreases |ops|
  {
    if ops == [] {
    } else {
      WordStays(g, w, am, ops[0], f, i);
      StepKeeps(g, w, am, ops[0]);
      DataStays(g, Step(g, w, ops[0]), AbsStep(g, w, am, ops[0]), ops[1..], f, i);
    }
  }

  // ----- loads and stores through the map

  /** A load finds the word just stored, and other words as they were. */
  lemma LoadAfterStore(g: PmmSpec.Geometry, w: World, am: PageMap, root: nat, va: nat, word: nat, root': nat, va': nat)
    requires Inv(g, w) && Agrees(w, am) && Legal(w, StoreOp(root, va, word)) && Root(root') in w.tabs
    ensures Load(Store(w, root, va, word).mem, root, va) == Some(word)
    ensures var q, q' := PagePath(root, va), PagePath(root', va');
      q' in am && (PhysFrame(am[q]) != PhysFrame(am[q']) || WordOf(va) != WordOf(va')) ==>
        Load(Store(w, root, va, word).mem, root', va') == Load(w.mem, root', va')
  {
    var q, q', w' := PagePath(root, va), PagePath(root', va'), Store(w, root, va, word);
    assert PageIn(w, q) && PageIn(w, q');
    StoreStep(g, w, am, root, va, word);
    assert PageIn(w', q) && PageIn(w', q');
    OwnedFrame(g, w, PhysFrame(am[q]));
    WordPoked(w.mem, PhysFrame(am[q]), WordOf(va), word, PhysFrame(am[q]), WordOf(va));
    if q' in am {
      WordPoked(w.mem, PhysFrame(am[q]), WordOf(va), word, PhysFrame(am[q']), WordOf(va'));
    }
  }

  /** One step that leaves page and word alone. */
  lemma LoadStep(g: PmmSpec.Geometry, w: World, am: PageMap, op: Op, root: nat, va: nat)
    requires Inv(g, w) && Agrees(w, am) && Legal(w, op)
    requires PagePath(root, va) in am && !Touches(op, PagePath(root, va))
    requires DataFrame(w, PhysFrame(am[PagePath(root, va)]))
    requires LeavesWord(w, op, PhysFrame(am[PagePath(root, va)]), WordOf(va))
    ensures Load(Step(g, w, op).mem, root, va) == Load(w.mem, root, va)
  {
    var q := PagePath(root, va);
    StepKeeps(g, w, am, op);
    StepLeaves(g, w, am, op, q);
    WordStays(g, w, am, op, PhysFrame(am[q]), WordOf(va));
    assert PageIn(w, q) && PageIn(Step(g, w, op), q);
  }

  /** What is loaded from a page of owned data stays the same through every run that leaves page and word alone. */
  lemma LoadStays(g: PmmSpec.Geometry, w: World, am: PageMap, ops: seq<Op>, root: nat, va: nat)
    requires Inv(g, w) && Agrees(w, am) && LegalRun(g, w, ops) && AllWritable(w)
    requires PagePath(root, va) in am && Writable(am[PagePath(root, va)])
    requires forall op :: op in ops ==> !Touches(op, PagePath(root, va)) && MapsWritable(op)
    requires DataFrame(w, PhysFrame(am[PagePath(root, va)]))
    requires LeavesWordRun(g, w, ops, PhysFrame(am[PagePath(root, va)]), WordOf(va))
    ensures Load(Run(g, w, ops).mem, root, va) == Load(w.mem, root, va)
         == Some(Deref(w.mem, PhysFrame(am[PagePath(root, va)]), WordOf(va)))
  {
    PageStays(g, w, am, ops, PagePath(root, va));
    DataStays(g, w, am, ops, PhysFrame(am[PagePath(root, va)]), WordOf(va));
  }
}
