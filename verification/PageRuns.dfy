/**
 Whole runs of the paging code interleaved with other users of the frame pool: address spaces are created, pages
 mapped and unmapped, frames allocated and released, in any order.
 */
module PageRuns {
  import opened Common
  import PmmSpec
  import opened PageTables

  const LOW_PAGES: nat := 256

  datatype Op =
    | Create
    | MapOp(root: nat, pa: nat, va: nat, flags: nat)
    | MapNew(root: nat, va: nat, flags: nat)
    | UnmapOp(root: nat, va: nat)
    | AllocOp
    | FreeOp(addr: nat)
    | StoreOp(root: nat, va: nat, word: nat)

  /** The finite map the tables stand for: page to entry. */
  type PageMap = map<Path, nat>

  // ----- paging_create_map

  /** `pmm_alloc` and `au_fms_64`: an empty top-level table. */
  function NewRoot(g: PmmSpec.Geometry, w: World): (World, nat) {
    var (pool, pml4) := PmmSpec.Alloc(g, w.pool);
    var f := pml4 / PAGE_SIZE;
    (World(ZeroFrame(w.mem, f), pool, w.tabs[Root(f) := f]), f)
  }

  /** One round of a mapping loop. */
  datatype Page = Page(pa: nat, va: nat)

  /** The rounds of a loop that maps `n` consecutive pages. */
  function Consecutive(pa: nat, va: nat, n: nat): (ps: seq<Page>)
    ensures |ps| == n
  {
    seq(n, k requires 0 <= k < n => Page(pa + PAGE_SIZE * k, va + PAGE_SIZE * k))
  }

  /** The pages of the list follow each other from `pa` and `va` on. */
  ghost predicate Sequential(ps: seq<Page>, pa: nat, va: nat) {
    forall k :: 0 <= k < |ps| ==> ps[k] == Page(pa + PAGE_SIZE * k, va + PAGE_SIZE * k)
  }

  lemma ConsecutiveFollows(pa: nat, va: nat, n: nat)
    ensures Sequential(Consecutive(pa, va, n), pa, va)
  {
  }

  /** The first `n` rounds of a mapping loop. */
  function MapPages(g: PmmSpec.Geometry, w: World, root: nat, ps: seq<Page>, n: nat, flags: nat): World
    requires n <= |ps|
  {
    if n == 0 then w
    else Map(g, MapPages(g, w, root, ps, n - 1, flags), root, ps[n - 1].pa, ps[n - 1].va, flags)
  }

  /** What such a loop does to the finite map: later pages win. */
  function PutPages(am: PageMap, root: nat, ps: seq<Page>, n: nat, flags: nat): PageMap
    requires n <= |ps|
  {
    if n == 0 then am
    else PutPages(am, root, ps, n - 1, flags)[PagePath(root, ps[n - 1].va) := MakeEntry(ps[n - 1].pa, flags)]
  }

  /** The tables the pages of a loop hang in. */
  function PageNodes(root: nat, ps: seq<Page>, n: nat): set<Path>
    requires n <= |ps|
  {
    if n == 0 then {} else PageNodes(root, ps, n - 1) + NodesOf(root, ps[n - 1].va)
  }

  function FirstMegabyte(): (ps: seq<Page>)
    ensures |ps| == LOW_PAGES
  {
    Consecutive(0, 0, LOW_PAGES)
  }

  function CreateMap(g: PmmSpec.Geometry, w: World): (World, nat) {
    var (w1, root) := NewRoot(g, w);
    (MapPages(g, w1, root, FirstMegabyte(), |FirstMegabyte()|, PF_RW), root)
  }

  // ----- stores by the owners of frames

  /** Physical addresses have at most 52 bits. */
  ghost predicate PhysSmall(g: PmmSpec.Geometry) {
    forall x :: x in PmmSpec.AllFrames(g) ==> x < 0x10_0000_0000_0000
  }

  /** The frame an entry leads the processor to: bits 12 to 51. */
  function PhysFrame(e: nat): nat {
    e / PAGE_SIZE % 0x100_0000_0000
  }

  /** The word of its page an address lies in. */
  function WordOf(va: nat): (i: nat)
    ensures i < ENTRIES
  {
    va % PAGE_SIZE / 8
  }

  /** A store of one word through the map: none where no page is mapped. */
  function Store(w: World, root: nat, va: nat, word: nat): World {
    match Lookup(w.mem, PagePath(root, va))
    case None => w
    case Some(e) => w.(mem := Poke(w.mem, PhysFrame(e), WordOf(va), word))
  }

  /** A frame somebody owns that holds no table. */
  ghost predicate DataFrame(w: World, f: nat) {
    PAGE_SIZE * f in w.pool.live && forall p :: p in w.tabs ==> w.tabs[p] != f
  }

  // ----- steps

  function Step(g: PmmSpec.Geometry, w: World, op: Op): World {
    match op
    case Create => CreateMap(g, w).0
    case MapOp(root, pa, va, flags) => Map(g, w, root, pa, va, flags)
    case MapNew(root, va, flags) =>
      var (pool, pa) := PmmSpec.Alloc(g, w.pool);
      Map(g, w.(pool := pool), root, pa, va, flags)
    case UnmapOp(root, va) => Unmap(w, root, va)
    case AllocOp => w.(pool := PmmSpec.Alloc(g, w.pool).0)
    case FreeOp(addr) => w.(pool := PmmSpec.Free(g, w.pool, addr))
    case StoreOp(root, va, word) => Store(w, root, va, word)
  }

  /** What the step does to the finite map. */
  function AbsStep(g: PmmSpec.Geometry, w: World, am: PageMap, op: Op): PageMap {
    match op
    case Create => PutPages(am, NewRoot(g, w).1, FirstMegabyte(), |FirstMegabyte()|, PF_RW)
    case MapOp(root, pa, va, flags) => am[PagePath(root, va) := MakeEntry(pa, flags)]
    case MapNew(root, va, flags) => am[PagePath(root, va) := MakeEntry(PmmSpec.Alloc(g, w.pool).1, flags)]
    case UnmapOp(root, va) => am - {PagePath(root, va)}
    case AllocOp => am
    case FreeOp(_) => am
    case StoreOp(_, _, _) => am
  }

  /** The tables a step needs to exist. */
  function OpNodes(g: PmmSpec.Geometry, w: World, op: Op): set<Path> {
    match op
    case Create => {Root(NewRoot(g, w).1)} + NodesOf(NewRoot(g, w).1, 0)
    case MapOp(root, _, va, _) => NodesOf(root, va)
    case MapNew(root, va, _) => NodesOf(root, va)
    case UnmapOp(_, _) => {}
    case AllocOp => {}
    case FreeOp(_) => {}
    case StoreOp(_, _, _) => {}
  }

  /**
   Maps are ones that were created, flags fit, table frames suffice, only owned data is released, and stores go to
   pages mapped writable to owned data.
   */
  ghost predicate Legal(w: World, op: Op) {
    match op
    case Create => 4 <= PmmSpec.Avail(w.pool)
    case MapOp(root, _, va, flags) =>
      Root(root) in w.tabs && FlagsFit(w, root, va, flags) && Missing(w, NodesOf(root, va)) <= PmmSpec.Avail(w.pool)
    case MapNew(root, va, flags) =>
      Root(root) in w.tabs && FlagsFit(w, root, va, flags) && 1 + Missing(w, NodesOf(root, va)) <= PmmSpec.Avail(w.pool)
    case UnmapOp(root, _) => Root(root) in w.tabs
    case AllocOp => true
    case FreeOp(addr) =>
      PageBase(addr) in w.pool.live && forall p :: p in w.tabs ==> PAGE_SIZE * w.tabs[p] != PageBase(addr)
    case StoreOp(root, va, _) =>
      var q := PagePath(root, va);
      && Root(root) in w.tabs && WritableTo(w.mem, q) && Lookup(w.mem, q).Some?
      && DataFrame(w, PhysFrame(Lookup(w.mem, q).value))
  }

  function Run(g: PmmSpec.Geometry, w: World, ops: seq<Op>): World
    decreases |ops|
  {
    if ops == [] then w else Run(g, Step(g, w, ops[0]), ops[1..])
  }

  ghost predicate LegalRun(g: PmmSpec.Geometry, w: World, ops: seq<Op>)
    decreases |ops|
  {
    ops != [] ==> Legal(w, ops[0]) && LegalRun(g, Step(g, w, ops[0]), ops[1..])
  }

  function AbsRun(g: PmmSpec.Geometry, w: World, am: PageMap, ops: seq<Op>): PageMap
    decreases |ops|
  {
    if ops == [] then am else AbsRun(g, Step(g, w, ops[0]), AbsStep(g, w, am, ops[0]), ops[1..])
  }

  function RunNodes(g: PmmSpec.Geometry, w: World, ops: seq<Op>): set<Path>
    decreases |ops|
  {
    if ops == [] then {} else OpNodes(g, w, ops[0]) + RunNodes(g, Step(g, w, ops[0]), ops[1..])
  }

  /** The processor sees exactly the finite map. */
  ghost predicate Agrees(w: World, am: PageMap) {
    && (forall q :: q in am ==> PageIn(w, q))
    && (forall q :: PageIn(w, q) ==> Lookup(w.mem, q) == if q in am then Some(am[q]) else None)
  }

  // ----- each step keeps the invariant and refines the finite map

  /** The facts every legal step guarantees. */
  ghost predicate StepOk(g: PmmSpec.Geometry, w: World, am: PageMap, w': World, am': PageMap, nodes: set<Path>) {
    && Inv(g, w') && Agrees(w', am')
    && w'.tabs.Keys == w.tabs.Keys + nodes
    && (forall q :: q in w.tabs ==> w'.tabs[q] == w.tabs[q])
  }

  /** Frames stay with their owners, and new tables take only frames nobody owned. */
  ghost predicate FreshTables(w: World, w': World) {
    && w.pool.live <= w'.pool.live
    && (forall q :: q in w'.tabs && q !in w.tabs ==> PAGE_SIZE * w'.tabs[q] !in w.pool.live)
  }

  lemma NodesBelow(root: nat, va: nat)
    ensures forall n :: n in NodesOf(root, va) ==> n.Sub?
  {
  }

  lemma AgreesUpdated(w: World, w': World, am: PageMap, q0: Path, e: nat)
    requires Agrees(w, am) && PageIn(w, q0) && forall q :: PageIn(w', q) <==> PageIn(w, q)
    requires forall q :: PageIn(w, q) ==> Lookup(w'.mem, q) == if q == q0 then Some(e) else Lookup(w.mem, q)
    ensures Agrees(w', am[q0 := e])
  {
  }

  lemma {:induction false} RootOfIsRoot(q: Path)
    ensures RootOf(q).Root?
  {
    if q.Sub? {
      RootOfIsRoot(q.parent);
    }
  }

  lemma NoNewRoots(w: World, w': World, nodes: set<Path>)
    requires w'.tabs.Keys == w.tabs.Keys + nodes && forall n :: n in nodes ==> n.Sub?
    ensures forall q :: PageIn(w', q) <==> PageIn(w, q)
  {
    forall q ensures PageIn(w', q) <==> PageIn(w, q) {
      RootOfIsRoot(q);
    }
  }

  lemma MapStep(g: PmmSpec.Geometry, w: World, am: PageMap, root: nat, pa: nat, va: nat, flags: nat)
    requires Inv(g, w) && Agrees(w, am) && Legal(w, MapOp(root, pa, va, flags))
    ensures StepOk(g, w, am, Map(g, w, root, pa, va, flags), am[PagePath(root, va) := MakeEntry(pa, flags)],
                   NodesOf(root, va))
  {
    MapMeaning(g, w, root, pa, va, flags);
    NodesBelow(root, va);
    NoNewRoots(w, Map(g, w, root, pa, va, flags), NodesOf(root, va));
    AgreesUpdated(w, Map(g, w, root, pa, va, flags), am, PagePath(root, va), MakeEntry(pa, flags));
  }

  /** Before any map exists the processor sees nothing and the finite map is empty. */
  lemma StartOk(g: PmmSpec.Geometry, mem: Memory, pool: PmmSpec.State)
    requires PmmSpec.ValidGeometry(g) && PmmSpec.Owned(g, pool) && Backed(g, mem)
    ensures Inv(g, World(mem, pool, map[])) && Agrees(World(mem, pool, map[]), map[])
  {
  }

  /** Other users of the pool do not touch the tables. */
  lemma PoolStep(g: PmmSpec.Geometry, w: World, pool: PmmSpec.State)
    requires Inv(g, w) && PmmSpec.Owned(g, pool)
    requires forall p :: p in w.tabs ==> PAGE_SIZE * w.tabs[p] in pool.live
    ensures Inv(g, w.(pool := pool)) && forall q :: PageIn(w.(pool := pool), q) <==> PageIn(w, q)
  {
  }

  lemma UnmapStep(g: PmmSpec.Geometry, w: World, am: PageMap, root: nat, va: nat)
    requires Inv(g, w) && Agrees(w, am) && Root(root) in w.tabs
    ensures StepOk(g, w, am, Unmap(w, root, va), am - {PagePath(root, va)}, {})
  {
    UnmapMeaning(g, w, root, va);
    assert w.tabs.Keys + {} == w.tabs.Keys;
  }

  lemma NewRootBacked(g: PmmSpec.Geometry, mem: Memory, f: nat)
    requires Backed(g, mem)
    ensures Backed(g, ZeroFrame(mem, f))
  {
  }

  lemma NewRootWritable(w: World, w': World, f: nat)
    requires Forest(w.tabs) && Root(f) !in w.tabs && w'.tabs == w.tabs[Root(f) := f]
    requires w'.mem == ZeroFrame(w.mem, f) && forall q :: q in w.tabs ==> w.tabs[q] != f
    requires AllWritable(w)
    ensures AllWritable(w')
  {
    forall n | n in w'.tabs && n.Sub? && n.parent in w'.tabs ensures Writable(EntryOf(w', n)) {
      assert n in w.tabs && n.parent in w.tabs;
      assert EntryOf(w', n) == EntryOf(w, n);
    }
  }

  lemma ZeroFrameKeeps(mem: Memory, f: nat)
    ensures |ZeroFrame(mem, f)| == |mem|
    ensures forall h :: 0 <= h < |mem| ==>
      |mem[h]| == ENTRIES ==> |ZeroFrame(mem, f)[h]| == ENTRIES
    ensures forall h :: 0 <= h < |mem| && h != f ==> ZeroFrame(mem, f)[h] == mem[h]
  {
  }

  lemma NewRootLinked(mem: Memory, tabs: map<Path, nat>, f: nat, q: Path, j: nat)
    requires Tree(mem, tabs) && 0 < f < |mem| && (forall q :: q in tabs ==> tabs[q] != f)
    requires (q in tabs || q == Root(f)) && Depth(q) < 3 && j < ENTRIES
    ensures Linked(ZeroFrame(mem, f), tabs[Root(f) := f], q, j)
  {
    ZeroFrameKeeps(mem, f);
    if q == Root(f) {
      assert Sub(q, j) !in tabs && Deref(ZeroFrame(mem, f), f, j) == 0;
    } else {
      assert Linked(mem, tabs, q, j);
    }
  }

  lemma NewRootTree(mem: Memory, tabs: map<Path, nat>, f: nat)
    requires Tree(mem, tabs) && 0 < f < |mem| && (forall q :: q in tabs ==> tabs[q] != f)
    ensures Root(f) !in tabs && Tree(ZeroFrame(mem, f), tabs[Root(f) := f])
  {
    var mem', tabs' := ZeroFrame(mem, f), tabs[Root(f) := f];
    ZeroFrameKeeps(mem, f);
    forall q, j | q in tabs' && Depth(q) < 3 && 0 <= j < ENTRIES ensures Linked(mem', tabs', q, j) {
      NewRootLinked(mem, tabs, f, q, j);
    }
  }

  lemma NewRootAgrees(w: World, am: PageMap, w': World, f: nat)
    requires Tree(w.mem, w.tabs) && Tree(w'.mem, w'.tabs) && Agrees(w, am)
    requires Root(f) !in w.tabs && w'.tabs == w.tabs[Root(f) := f]
    requires w'.mem == ZeroFrame(w.mem, f) && forall q :: q in w.tabs ==> w.tabs[q] != f
    ensures Agrees(w', am)
  {
    forall q | PageIn(w', q) ensures Lookup(w'.mem, q) == if q in am then Some(am[q]) else None {
      LookupIs(w', q);
      if PageIn(w, q) {
        LookupIs(w, q);
      } else {
        assert RootOf(q.parent) == RootOf(q) == Root(f) && q.parent !in w.tabs && Depth(q.parent) == 3;
      }
    }
  }

  lemma NewRootKeeps(g: PmmSpec.Geometry, w: World, am: PageMap, pool: PmmSpec.State, f: nat)
    requires Inv(g, w) && Agrees(w, am) && PmmSpec.Owned(g, pool) && pool.live == w.pool.live + {PAGE_SIZE * f}
    requires 0 < f < |w.mem| && (forall q :: q in w.tabs ==> w.tabs[q] != f)
    ensures var w' := World(ZeroFrame(w.mem, f), pool, w.tabs[Root(f) := f]);
      Root(f) !in w.tabs && StepOk(g, w, am, w', am, {Root(f)}) && (AllWritable(w) ==> AllWritable(w'))
  {
    var w' := World(ZeroFrame(w.mem, f), pool, w.tabs[Root(f) := f]);
    NewRootTree(w.mem, w.tabs, f);
    NewRootAgrees(w, am, w', f);
    NewRootBacked(g, w.mem, f);
    if AllWritable(w) {
      NewRootWritable(w, w', f);
    }
  }

  /** A fresh top-level table: an empty map with no page, sharing no frame with any other. */
  lemma NewRootStep(g: PmmSpec.Geometry, w: World, am: PageMap)
    requires Inv(g, w) && Agrees(w, am) && 0 < PmmSpec.Avail(w.pool)
    ensures var (w', root) := NewRoot(g, w);
      && Root(root) !in w.tabs && StepOk(g, w, am, w', am, {Root(root)})
      && (AllWritable(w) ==> AllWritable(w')) && FreshTables(w, w')
      && PmmSpec.Avail(w'.pool) == PmmSpec.Avail(w.pool) - 1
  {
    FreshTable(g, w);
    var (pool, pa) := PmmSpec.Alloc(g, w.pool);
    NewRootKeeps(g, w, am, pool, pa / PAGE_SIZE);
  }

  /** Mapping writable pages keeps every directory writable. */
  lemma MapKeepsWritable(g: PmmSpec.Geometry, w: World, root: nat, pa: nat, va: nat, flags: nat)
    requires Inv(g, w) && Legal(w, MapOp(root, pa, va, flags)) && AllWritable(w) && flags / 2 % 2 == 1
    ensures AllWritable(Map(g, w, root, pa, va, flags))
  {
    MapMeaning(g, w, root, pa, va, flags);
    KeptWritable(w, Map(g, w, root, pa, va, flags), flags);
  }

  /** From `w` to `w'` exactly the missing tables among `nodes` have been allocated. */
  ghost predicate Charged(g: PmmSpec.Geometry, w: World, w': World, nodes: set<Path>, flags: nat) {
    && Inv(g, w') && w'.tabs.Keys == w.tabs.Keys + nodes
    && (forall q :: q in w.tabs ==> w'.tabs[q] == w.tabs[q])
    && (AllWritable(w) && flags / 2 % 2 == 1 ==> AllWritable(w'))
    && PmmSpec.Avail(w'.pool) == PmmSpec.Avail(w.pool) - Missing(w, nodes)
    && FreshTables(w, w')
  }

  /** The tables still missing for two sets of paths, one after the other. */
  lemma MissingSum(have: set<Path>, a: set<Path>, b: set<Path>)
    ensures |(a + b) - have| == |a - have| + |b - (have + a)|
    ensures (have + a) + b == have + (a + b)
    ensures have + {} == have && |{} - have| == 0
  {
    assert (a + b) - have == (a - have) + (b - (have + a));
    assert {} - have == {};
  }

  lemma ChargedTwice(g: PmmSpec.Geometry, w: World, w1: World, w2: World, a: set<Path>, b: set<Path>, flags: nat)
    requires Charged(g, w, w1, a, flags) && Charged(g, w1, w2, b, flags)
    ensures Charged(g, w, w2, a + b, flags)
  {
    MissingSum(w.tabs.Keys, a, b);
    forall q | q in w.tabs ensures w2.tabs[q] == w.tabs[q] {
      assert q in w1.tabs;
    }
  }

  lemma ChargedMap(g: PmmSpec.Geometry, w: World, root: nat, pa: nat, va: nat, flags: nat)
    requires Inv(g, w) && Legal(w, MapOp(root, pa, va, flags))
    ensures Charged(g, w, Map(g, w, root, pa, va, flags), NodesOf(root, va), flags)
  {
    MapMeaning(g, w, root, pa, va, flags);
    if AllWritable(w) && flags / 2 % 2 == 1 {
      MapKeepsWritable(g, w, root, pa, va, flags);
    }
  }

  /** Each of the first `n` rounds of a mapping loop has the frames it needs. */
  ghost predicate LegalPages(g: PmmSpec.Geometry, w: World, root: nat, ps: seq<Page>, n: nat, flags: nat)
    requires n <= |ps|
  {
    n > 0 ==>
      && LegalPages(g, w, root, ps, n - 1, flags)
      && Legal(MapPages(g, w, root, ps, n - 1, flags), MapOp(root, ps[n - 1].pa, ps[n - 1].va, flags))
  }

  /** In every round of a mapping loop the tables walked lie in memory. */
  ghost predicate PagesInside(g: PmmSpec.Geometry, w: World, root: nat, ps: seq<Page>, n: nat, flags: nat)
    requires n <= |ps|
  {
    n > 0 ==>
      && PagesInside(g, w, root, ps, n - 1, flags)
      && WalkInside(g, MapPages(g, w, root, ps, n - 1, flags), root, VaddrToPgInd(ps[n - 1].va), flags)
  }

  /** In every round, for a whole list. */
  ghost predicate ListInside(g: PmmSpec.Geometry, w: World, root: nat, ps: seq<Page>, flags: nat) {
    PagesInside(g, w, root, ps, |ps|, flags)
  }

  lemma PagesInsideInit(g: PmmSpec.Geometry, w: World, root: nat, ps: seq<Page>, n: nat, flags: nat)
    requires 0 < n <= |ps| && PagesInside(g, w, root, ps, n, flags)
    ensures PagesInside(g, w, root, ps, n - 1, flags)
  {
  }

  lemma {:induction false} PagesInsidePrefix(g: PmmSpec.Geometry, w: World, root: nat, ps: seq<Page>, n: nat,
                                             flags: nat, i: nat)
    requires i <= n <= |ps| && PagesInside(g, w, root, ps, n, flags)
    ensures PagesInside(g, w, root, ps, i, flags)
  {
    if i < n {
      PagesInsideInit(g, w, root, ps, n, flags);
      PagesInsidePrefix(g, w, root, ps, n - 1, flags, i);
    } else {
      assert i == n;
    }
  }

  lemma LegalMapKeeps(g: PmmSpec.Geometry, w: World, root: nat, p: Page, flags: nat)
    requires Inv(g, w) && Legal(w, MapOp(root, p.pa, p.va, flags))
    ensures Inv(g, Map(g, w, root, p.pa, p.va, flags)) && WalkInside(g, w, root, VaddrToPgInd(p.va), flags)
  {
    MapMeaning(g, w, root, p.pa, p.va, flags);
    WalkStaysInside(g, w, root, VaddrToPgInd(p.va), flags);
  }

  /** A loop with the frames it needs stays inside memory and leaves the tables sound. */
  lemma {:induction false} LegalPagesInside(g: PmmSpec.Geometry, w: World, root: nat, ps: seq<Page>, n: nat, flags: nat)
    requires n <= |ps| && Inv(g, w) && LegalPages(g, w, root, ps, n, flags)
    ensures PagesInside(g, w, root, ps, n, flags) && Inv(g, MapPages(g, w, root, ps, n, flags))
  {
    if n > 0 {
      LegalPagesInside(g, w, root, ps, n - 1, flags);
      LegalMapKeeps(g, MapPages(g, w, root, ps, n - 1, flags), root, ps[n - 1], flags);
    }
  }

  lemma PagesRound(g: PmmSpec.Geometry, w: World, w1: World, am1: PageMap, root: nat, p: Page, done: set<Path>,
                   flags: nat)
    requires Charged(g, w, w1, done, flags) && Agrees(w1, am1) && Legal(w1, MapOp(root, p.pa, p.va, flags))
    ensures var w2 := Map(g, w1, root, p.pa, p.va, flags);
      && Charged(g, w, w2, done + NodesOf(root, p.va), flags)
      && Agrees(w2, am1[PagePath(root, p.va) := MakeEntry(p.pa, flags)])
  {
    ChargedMap(g, w1, root, p.pa, p.va, flags);
    ChargedTwice(g, w, w1, Map(g, w1, root, p.pa, p.va, flags), done, NodesOf(root, p.va), flags);
    MapStep(g, w1, am1, root, p.pa, p.va, flags);
  }

  /** A loop with the frames it needs refines the loop over the finite map and is charged one frame per new table. */
  lemma {:induction false} PagesLoop(g: PmmSpec.Geometry, w: World, am: PageMap, root: nat, ps: seq<Page>, n: nat,
                                     flags: nat)
    requires n <= |ps| && Inv(g, w) && Agrees(w, am) && LegalPages(g, w, root, ps, n, flags)
    ensures Charged(g, w, MapPages(g, w, root, ps, n, flags), PageNodes(root, ps, n), flags)
    ensures Agrees(MapPages(g, w, root, ps, n, flags), PutPages(am, root, ps, n, flags))
  {
    if n == 0 {
      MissingSum(w.tabs.Keys, {}, {});
    } else {
      PagesLoop(g, w, am, root, ps, n - 1, flags);
      PagesRound(g, w, MapPages(g, w, root, ps, n - 1, flags), PutPages(am, root, ps, n - 1, flags), root, ps[n - 1],
                 PageNodes(root, ps, n - 1), flags);
    }
  }

  lemma BudgetSets(g: PmmSpec.Geometry, w: World, w1: World, a: set<Path>, b: set<Path>, flags: nat)
    requires Charged(g, w, w1, a, flags)
    ensures Missing(w1, b) <= PmmSpec.Avail(w1.pool) <==> Missing(w, a + b) <= PmmSpec.Avail(w.pool)
    ensures w.tabs.Keys <= w1.tabs.Keys
  {
    MissingSum(w.tabs.Keys, a, b);
  }

  lemma BudgetRound(g: PmmSpec.Geometry, w: World, w1: World, a: set<Path>, root: nat, p: Page, flags: nat)
    requires Charged(g, w, w1, a, flags) && Root(root) in w.tabs && flags < PAGE_SIZE
    ensures Legal(w1, MapOp(root, p.pa, p.va, flags)) <==> Missing(w, a + NodesOf(root, p.va)) <= PmmSpec.Avail(w.pool)
  {
    BudgetSets(g, w, w1, a, NodesOf(root, p.va), flags);
  }

  /** The frame budget of a mapping loop: it never runs short exactly when there is a frame for each new table. */
  lemma {:induction false} PagesLegalIff(g: PmmSpec.Geometry, w: World, am: PageMap, root: nat, ps: seq<Page>, n: nat,
                                         flags: nat)
    requires n <= |ps| && Inv(g, w) && Agrees(w, am) && Root(root) in w.tabs && flags < PAGE_SIZE
    ensures LegalPages(g, w, root, ps, n, flags) <==> Missing(w, PageNodes(root, ps, n)) <= PmmSpec.Avail(w.pool)
  {
    if n == 0 {
      MissingSum(w.tabs.Keys, {}, {});
    } else {
      PagesLegalIff(g, w, am, root, ps, n - 1, flags);
      if LegalPages(g, w, root, ps, n - 1, flags) {
        PagesLoop(g, w, am, root, ps, n - 1, flags);
        BudgetRound(g, w, MapPages(g, w, root, ps, n - 1, flags), PageNodes(root, ps, n - 1), root, ps[n - 1], flags);
      } else {
        MissingSum(w.tabs.Keys, PageNodes(root, ps, n - 1), NodesOf(root, ps[n - 1].va));
      }
    }
  }

  lemma LowPage(root: nat, k: nat)
    requires k < LOW_PAGES
    ensures NodesOf(root, PAGE_SIZE * k) == NodesOf(root, 0)
  {
    assert VaddrToPgInd(PAGE_SIZE * k).pt == 0;
  }

  /** The first megabyte hangs below one page table. */
  lemma {:induction false} LowNodes(root: nat, n: nat)
    requires n <= LOW_PAGES
    ensures PageNodes(root, FirstMegabyte(), n) == if n == 0 then {} else NodesOf(root, 0)
  {
    if n == 0 {
    } else {
      LowNodes(root, n - 1);
      assert FirstMegabyte()[n - 1].va == PAGE_SIZE * (n - 1);
      LowPage(root, n - 1);
    }
  }

  lemma RwFlags()
    ensures PF_RW < PAGE_SIZE && PF_RW / 2 % 2 == 1
  {
  }

  lemma MapLowPages(g: PmmSpec.Geometry, w: World, am: PageMap, root: nat)
    requires Inv(g, w) && Agrees(w, am) && Root(root) in w.tabs
    requires Missing(w, NodesOf(root, 0)) <= PmmSpec.Avail(w.pool)
    ensures Charged(g, w, MapPages(g, w, root, FirstMegabyte(), |FirstMegabyte()|, PF_RW), NodesOf(root, 0), PF_RW)
    ensures Agrees(MapPages(g, w, root, FirstMegabyte(), |FirstMegabyte()|, PF_RW),
      PutPages(am, root, FirstMegabyte(), |FirstMegabyte()|, PF_RW))
    ensures LegalPages(g, w, root, FirstMegabyte(), |FirstMegabyte()|, PF_RW)
  {
    LowNodes(root, LOW_PAGES);
    RwFlags();
    PagesLegalIff(g, w, am, root, FirstMegabyte(), |FirstMegabyte()|, PF_RW);
    PagesLoop(g, w, am, root, FirstMegabyte(), |FirstMegabyte()|, PF_RW);
  }

  lemma CreateDone(g: PmmSpec.Geometry, w: World, w1: World, w2: World, am: PageMap, am': PageMap, root: nat)
    requires StepOk(g, w, am, w1, am, {Root(root)}) && Charged(g, w1, w2, NodesOf(root, 0), PF_RW) && Agrees(w2, am')
    requires Missing(w1, NodesOf(root, 0)) == 3 && FreshTables(w, w1)
    ensures StepOk(g, w, am, w2, am', {Root(root)} + NodesOf(root, 0)) && FreshTables(w, w2)
    ensures PmmSpec.Avail(w2.pool) == PmmSpec.Avail(w1.pool) - 3
    ensures AllWritable(w1) ==> AllWritable(w2)
  {
    RwFlags();
    MissingSum(w.tabs.Keys, {Root(root)}, NodesOf(root, 0));
  }

  lemma ThreeFresh(a: Path, b: Path, c: Path, have: set<Path>)
    requires a != b && a != c && b != c && a !in have && b !in have && c !in have
    ensures |{a, b, c} - have| == 3
  {
    assert {a, b, c} - have == {a, b, c};
  }

  lemma FreshNodes(w: World, w1: World, root: nat)
    requires Forest(w.tabs) && Root(root) !in w.tabs && w1.tabs.Keys == w.tabs.Keys + {Root(root)}
    ensures Missing(w1, NodesOf(root, 0)) == 3
  {
    var p := TablePath(root, 0);
    assert RootOf(p) == RootOf(p.parent) == RootOf(p.parent.parent) == Root(root);
    assert Depth(p) == 3 && Depth(p.parent) == 2 && Depth(p.parent.parent) == 1;
    assert p !in w1.tabs && p.parent !in w1.tabs && p.parent.parent !in w1.tabs;
    ThreeFresh(p.parent.parent, p.parent, p, w1.tabs.Keys);
  }

  /** `paging_create_map` makes a new map whose pages are the first megabyte, from exactly four frames. */
  lemma CreateStep(g: PmmSpec.Geometry, w: World, am: PageMap)
    requires Inv(g, w) && Agrees(w, am) && Legal(w, Create)
    ensures var (w', root) := CreateMap(g, w);
      && Root(root) !in w.tabs
      && StepOk(g, w, am, w', PutPages(am, root, FirstMegabyte(), |FirstMegabyte()|, PF_RW), OpNodes(g, w, Create))
      && (AllWritable(w) ==> AllWritable(w')) && FreshTables(w, w')
      && PmmSpec.Avail(w'.pool) == PmmSpec.Avail(w.pool) - 4
  {
    NewRootStep(g, w, am);
    var (w1, root) := NewRoot(g, w);
    FreshNodes(w, w1, root);
    MapLowPages(g, w1, am, root);
    CreateDone(g, w, w1, MapPages(g, w1, root, FirstMegabyte(), |FirstMegabyte()|, PF_RW), am,
               PutPages(am, root, FirstMegabyte(), |FirstMegabyte()|, PF_RW), root);
  }

  /** Four frames are enough for the loop of `paging_create_map`. */
  lemma LowLoopLegal(g: PmmSpec.Geometry, w: World, am: PageMap)
    requires Inv(g, w) && Agrees(w, am) && Legal(w, Create)
    ensures var (w1, root) := NewRoot(g, w); LegalPages(g, w1, root, FirstMegabyte(), |FirstMegabyte()|, PF_RW)
  {
    NewRootStep(g, w, am);
    var (w1, root) := NewRoot(g, w);
    FreshNodes(w, w1, root);
    MapLowPages(g, w1, am, root);
  }

  lemma RoundBreaks(g: PmmSpec.Geometry, w: World, root: nat, p: Page, flags: nat)
    requires Inv(g, w) && Root(root) in w.tabs && flags < PAGE_SIZE && !Legal(w, MapOp(root, p.pa, p.va, flags))
    ensures Broken(g, Map(g, w, root, p.pa, p.va, flags))
  {
    MapKeepsIff(g, w, root, p.pa, p.va, flags);
  }

  /** The first round without its frames breaks the tables. */
  lemma RoundShort(g: PmmSpec.Geometry, w: World, am: PageMap, root: nat, ps: seq<Page>, n: nat, flags: nat)
    requires 0 < n <= |ps| && Inv(g, w) && Agrees(w, am) && Root(root) in w.tabs && flags < PAGE_SIZE
    requires LegalPages(g, w, root, ps, n - 1, flags)
    requires !Legal(MapPages(g, w, root, ps, n - 1, flags), MapOp(root, ps[n - 1].pa, ps[n - 1].va, flags))
    ensures Broken(g, MapPages(g, w, root, ps, n, flags))
  {
    PagesLoop(g, w, am, root, ps, n - 1, flags);
    RoundBreaks(g, MapPages(g, w, root, ps, n - 1, flags), root, ps[n - 1], flags);
  }

  /** A mapping loop that runs short leaves the tables broken for good. */
  lemma {:induction false} PagesBreak(g: PmmSpec.Geometry, w: World, am: PageMap, root: nat, ps: seq<Page>, n: nat,
                                      flags: nat)
    requires n <= |ps| && Inv(g, w) && Agrees(w, am) && Root(root) in w.tabs && flags < PAGE_SIZE
    requires !LegalPages(g, w, root, ps, n, flags)
    ensures Broken(g, MapPages(g, w, root, ps, n, flags))
  {
    if LegalPages(g, w, root, ps, n - 1, flags) {
      RoundShort(g, w, am, root, ps, n, flags);
    } else {
      PagesBreak(g, w, am, root, ps, n - 1, flags);
      MapBroken(g, MapPages(g, w, root, ps, n - 1, flags), root, ps[n - 1].pa, ps[n - 1].va, flags);
    }
  }

  lemma {:induction false} PagesStayBroken(g: PmmSpec.Geometry, w: World, root: nat, ps: seq<Page>, n: nat, flags: nat)
    requires n <= |ps| && Broken(g, w)
    ensures Broken(g, MapPages(g, w, root, ps, n, flags))
  {
    if n > 0 {
      PagesStayBroken(g, w, root, ps, n - 1, flags);
      MapBroken(g, MapPages(g, w, root, ps, n - 1, flags), root, ps[n - 1].pa, ps[n - 1].va, flags);
    }
  }

  /** A mapping loop keeps the tables a forest exactly when there is a frame for each distinct new table. */
  lemma PagesKeepIff(g: PmmSpec.Geometry, w: World, am: PageMap, root: nat, ps: seq<Page>, n: nat, flags: nat)
    requires n <= |ps| && Inv(g, w) && Agrees(w, am) && Root(root) in w.tabs && flags < PAGE_SIZE
    ensures Inv(g, MapPages(g, w, root, ps, n, flags)) <==> Missing(w, PageNodes(root, ps, n)) <= PmmSpec.Avail(w.pool)
  {
    PagesLegalIff(g, w, am, root, ps, n, flags);
    if LegalPages(g, w, root, ps, n, flags) {
      PagesLoop(g, w, am, root, ps, n, flags);
    } else {
      PagesBreak(g, w, am, root, ps, n, flags);
      BrokenNotInv(g, MapPages(g, w, root, ps, n, flags));
    }
  }

  /** An unchecked allocation on an empty pool makes frame 0 the top-level table. */
  lemma NewRootFails(g: PmmSpec.Geometry, w: World)
    requires Inv(g, w) && PmmSpec.Avail(w.pool) == 0
    ensures Broken(g, NewRoot(g, w).0)
  {
    PmmSpec.AllocMeaning(g, w.pool);
    PmmSpec.AvailZero(w.pool);
    assert NewRoot(g, w).0.tabs[Root(0)] == 0;
  }

  lemma LowKeepsIff(g: PmmSpec.Geometry, w: World, am: PageMap, root: nat)
    requires Inv(g, w) && Agrees(w, am) && Root(root) in w.tabs
    ensures Inv(g, MapPages(g, w, root, FirstMegabyte(), |FirstMegabyte()|, PF_RW))
      <==> Missing(w, NodesOf(root, 0)) <= PmmSpec.Avail(w.pool)
  {
    LowNodes(root, LOW_PAGES);
    RwFlags();
    PagesKeepIff(g, w, am, root, FirstMegabyte(), |FirstMegabyte()|, PF_RW);
  }

  /** `paging_create_map` keeps the tables a forest exactly when the pool has the four frames it uses. */
  lemma CreateKeepsIff(g: PmmSpec.Geometry, w: World, am: PageMap)
    requires Inv(g, w) && Agrees(w, am)
    ensures Inv(g, CreateMap(g, w).0) <==> 4 <= PmmSpec.Avail(w.pool)
  {
    var (w1, root) := NewRoot(g, w);
    if PmmSpec.Avail(w.pool) == 0 {
      NewRootFails(g, w);
      PagesStayBroken(g, w1, root, FirstMegabyte(), |FirstMegabyte()|, PF_RW);
      BrokenNotInv(g, CreateMap(g, w).0);
    } else {
      NewRootStep(g, w, am);
      FreshNodes(w, w1, root);
      LowKeepsIff(g, w1, am, root);
    }
  }

  /** One frame in all: it goes to the root of a map, and the first page mapped there breaks the tables. */
  lemma MapOnLastFrame()
    ensures var g, pool := [PmmSpec.Span(4096, 1)], PmmSpec.State({}, [4096], {});
      var (w, root) := NewRoot(g, World([Zeros(), Zeros()], pool, map[]));
      Inv(g, w) && Root(root) in w.tabs && !Inv(g, Map(g, w, root, 0, 0, PF_RW))
  {
    var g, pool := [PmmSpec.Span(4096, 1)], PmmSpec.State({}, [4096], {});
    var w0 := World([Zeros(), Zeros()], pool, map[]);
    PmmSpec.OneFrame();
    StartOk(g, w0.mem, pool);
    NewRootStep(g, w0, map[]);
    var (w, root) := NewRoot(g, w0);
    FreshNodes(w0, w, root);
    RwFlags();
    MapKeepsIff(g, w, root, 0, 0, PF_RW);
  }

  /** An allocation by another user, and what it leaves for tables. */
  lemma AllocStep(g: PmmSpec.Geometry, w: World, am: PageMap)
    requires Inv(g, w) && Agrees(w, am)
    ensures var w' := w.(pool := PmmSpec.Alloc(g, w.pool).0);
      && StepOk(g, w, am, w', am, {})
      && PmmSpec.Avail(w'.pool) == PmmSpec.Avail(w.pool) - Min(1, PmmSpec.Avail(w.pool))
      && w.pool.live <= w'.pool.live
  {
    PmmSpec.AllocMeaning(g, w.pool);
    PmmSpec.AvailZero(w.pool);
    PoolStep(g, w, PmmSpec.Alloc(g, w.pool).0);
    MissingSum(w.tabs.Keys, {}, {});
  }

  lemma NotStacked(g: PmmSpec.Geometry, s: PmmSpec.State, f: nat)
    requires PmmSpec.Owned(g, s) && f in s.live
    ensures f !in s.stk
  {
    assert f !in Elems(s.stk);
  }

  /** A release of owned data. */
  lemma FreeStep(g: PmmSpec.Geometry, w: World, am: PageMap, addr: nat)
    requires Inv(g, w) && Agrees(w, am) && Legal(w, FreeOp(addr))
    ensures StepOk(g, w, am, w.(pool := PmmSpec.Free(g, w.pool, addr)), am, {})
  {
    PmmSpec.FreeKeepsIff(g, w.pool, addr);
    NotStacked(g, w.pool, PageBase(addr));
    PoolStep(g, w, PmmSpec.Free(g, w.pool, addr));
    MissingSum(w.tabs.Keys, {}, {});
  }

  lemma PokeElsewhere(mem: Memory, f: nat, i: nat, e: nat)
    ensures |Poke(mem, f, i, e)| == |mem|
    ensures forall h :: 0 <= h < |mem| ==> |Poke(mem, f, i, e)[h]| == |mem[h]|
    ensures forall h :: 0 <= h < |mem| && h != f ==> Poke(mem, f, i, e)[h] == mem[h]
  {
  }

  lemma DataTree(mem: Memory, tabs: map<Path, nat>, f: nat, i: nat, e: nat)
    requires Tree(mem, tabs) && forall p :: p in tabs ==> tabs[p] != f
    ensures Tree(Poke(mem, f, i, e), tabs)
  {
    PokeElsewhere(mem, f, i, e);
    forall q, j | q in tabs && Depth(q) < 3 && 0 <= j < ENTRIES ensures Linked(Poke(mem, f, i, e), tabs, q, j) {
      assert Linked(mem, tabs, q, j);
    }
  }

  lemma DataAgrees(w: World, am: PageMap, f: nat, i: nat, e: nat)
    requires Tree(w.mem, w.tabs) && Agrees(w, am) && DataFrame(w, f)
    ensures Agrees(w.(mem := Poke(w.mem, f, i, e)), am)
  {
    var w' := w.(mem := Poke(w.mem, f, i, e));
    DataTree(w.mem, w.tabs, f, i, e);
    PokeElsewhere(w.mem, f, i, e);
    forall q | PageIn(w', q) ensures Lookup(w'.mem, q) == if q in am then Some(am[q]) else None {
      LookupIs(w', q);
      assert PageIn(w, q);
      LookupIs(w, q);
    }
  }

  lemma DataWritable(w: World, f: nat, i: nat, e: nat)
    requires Tree(w.mem, w.tabs) && AllWritable(w) && DataFrame(w, f)
    ensures AllWritable(w.(mem := Poke(w.mem, f, i, e)))
  {
    PokeElsewhere(w.mem, f, i, e);
  }

  lemma DataInv(g: PmmSpec.Geometry, w: World, f: nat, i: nat, e: nat)
    requires Inv(g, w) && DataFrame(w, f)
    ensures Inv(g, w.(mem := Poke(w.mem, f, i, e)))
  {
    DataTree(w.mem, w.tabs, f, i, e);
    PokeElsewhere(w.mem, f, i, e);
  }

  /** A store into owned data changes no table and no translation. */
  lemma StoreStep(g: PmmSpec.Geometry, w: World, am: PageMap, root: nat, va: nat, word: nat)
    requires Inv(g, w) && Agrees(w, am) && Legal(w, StoreOp(root, va, word))
    ensures StepOk(g, w, am, Store(w, root, va, word), am, {}) && FreshTables(w, Store(w, root, va, word))
    ensures AllWritable(w) ==> AllWritable(Store(w, root, va, word))
  {
    var f := PhysFrame(Lookup(w.mem, PagePath(root, va)).value);
    DataInv(g, w, f, WordOf(va), word);
    DataAgrees(w, am, f, WordOf(va), word);
    if AllWritable(w) {
      DataWritable(w, f, WordOf(va), word);
    }
    MissingSum(w.tabs.Keys, {}, {});
  }

  /** A page backed by a frame allocated for it; the tables never take that frame. */
  lemma MapNewStep(g: PmmSpec.Geometry, w: World, am: PageMap, root: nat, va: nat, flags: nat)
    requires Inv(g, w) && Agrees(w, am) && Legal(w, MapNew(root, va, flags))
    ensures var w', pa := Step(g, w, MapNew(root, va, flags)), PmmSpec.Alloc(g, w.pool).1;
      && StepOk(g, w, am, w', am[PagePath(root, va) := MakeEntry(pa, flags)], NodesOf(root, va))
      && pa != PHYS_ADDR_NULL && pa !in w.pool.live && pa in w'.pool.live && FreshTables(w, w')
      && (forall p :: p in w'.tabs ==> PAGE_SIZE * w'.tabs[p] != pa)
      && (AllWritable(w) && flags / 2 % 2 == 1 ==> AllWritable(w'))
      && PmmSpec.Avail(w'.pool) == PmmSpec.Avail(w.pool) - 1 - Missing(w, NodesOf(root, va))
  {
    var (pool, pa) := PmmSpec.Alloc(g, w.pool);
    AllocStep(g, w, am);
    PmmSpec.AllocMeaning(g, w.pool);
    PmmSpec.AvailZero(w.pool);
    var w1 := w.(pool := pool);
    MapStep(g, w1, am, root, pa, va, flags);
    ChargedMap(g, w1, root, pa, va, flags);
  }

  // ----- runs

  lemma StepKeeps(g: PmmSpec.Geometry, w: World, am: PageMap, op: Op)
    requires Inv(g, w) && Agrees(w, am) && Legal(w, op)
    ensures StepOk(g, w, am, Step(g, w, op), AbsStep(g, w, am, op), OpNodes(g, w, op))
  {
    match op
    case Create => CreateStep(g, w, am);
    case MapOp(root, pa, va, flags) => MapStep(g, w, am, root, pa, va, flags);
    case MapNew(root, va, flags) => MapNewStep(g, w, am, root, va, flags);
    case UnmapOp(root, va) => UnmapStep(g, w, am, root, va);
    case AllocOp => AllocStep(g, w, am);
    case FreeOp(addr) => FreeStep(g, w, am, addr);
    case StoreOp(root, va, word) => StoreStep(g, w, am, root, va, word);
  }

  lemma MapFresh(g: PmmSpec.Geometry, w: World, root: nat, pa: nat, va: nat, flags: nat)
    requires Inv(g, w) && Legal(w, MapOp(root, pa, va, flags))
    ensures FreshTables(w, Map(g, w, root, pa, va, flags))
  {
    MapMeaning(g, w, root, pa, va, flags);
  }

  lemma UnmapFresh(g: PmmSpec.Geometry, w: World, root: nat, va: nat)
    requires Inv(g, w) && Root(root) in w.tabs
    ensures FreshTables(w, Unmap(w, root, va))
  {
    UnmapMeaning(g, w, root, va);
  }

  lemma AllocFresh(g: PmmSpec.Geometry, w: World)
    requires Inv(g, w)
    ensures FreshTables(w, w.(pool := PmmSpec.Alloc(g, w.pool).0))
  {
    PmmSpec.AllocMeaning(g, w.pool);
  }

  /** Only a release gives up ownership, and no step makes a table of a frame somebody owned. */
  lemma StepFresh(g: PmmSpec.Geometry, w: World, am: PageMap, op: Op)
    requires Inv(g, w) && Agrees(w, am) && Legal(w, op) && !op.FreeOp?
    ensures FreshTables(w, Step(g, w, op))
  {
    match op
    case Create => CreateStep(g, w, am);
    case MapOp(root, pa, va, flags) => MapFresh(g, w, root, pa, va, flags);
    case MapNew(root, va, flags) => MapNewStep(g, w, am, root, va, flags);
    case UnmapOp(root, va) => UnmapFresh(g, w, root, va);
    case AllocOp => AllocFresh(g, w);
    case StoreOp(root, va, word) => StoreStep(g, w, am, root, va, word);
  }

  lemma StepOkTwice(g: PmmSpec.Geometry, w: World, am: PageMap, w1: World, am1: PageMap, w2: World, am2: PageMap,
                    a: set<Path>, b: set<Path>)
    requires StepOk(g, w, am, w1, am1, a) && StepOk(g, w1, am1, w2, am2, b)
    ensures StepOk(g, w, am, w2, am2, a + b)
  {
    MissingSum(w.tabs.Keys, a, b);
    forall q | q in w.tabs ensures w2.tabs[q] == w.tabs[q] {
      assert q in w1.tabs;
    }
  }

  /**
   Over every legal run: the tables stay a forest of distinct frames owned by the pool's callers, and what the
   processor finds for every page of every map is what the same operations leave in a finite map.
   */
  lemma {:induction false} RunRefines(g: PmmSpec.Geometry, w: World, am: PageMap, ops: seq<Op>)
    requires Inv(g, w) && Agrees(w, am) && LegalRun(g, w, ops)
    ensures StepOk(g, w, am, Run(g, w, ops), AbsRun(g, w, am, ops), RunNodes(g, w, ops))
    decreases |ops|
  {
    if ops == [] {
      MissingSum(w.tabs.Keys, {}, {});
    } else {
      var w1, am1 := Step(g, w, ops[0]), AbsStep(g, w, am, ops[0]);
      StepKeeps(g, w, am, ops[0]);
      RunRefines(g, w1, am1, ops[1..]);
      StepOkTwice(g, w, am, w1, am1, Run(g, w1, ops[1..]), AbsRun(g, w1, am1, ops[1..]),
                  OpNodes(g, w, ops[0]), RunNodes(g, w1, ops[1..]));
    }
  }

  /** The frames that hold tables. */
  function TableFrames(tabs: map<Path, nat>): set<nat> {
    set p | p in tabs :: tabs[p]
  }

  function FramesAt(tabs: map<Path, nat>, keys: set<Path>): set<nat> {
    set p | p in keys && p in tabs :: tabs[p]
  }

  lemma {:induction false} DistinctFrames(tabs: map<Path, nat>, keys: set<Path>)
    requires keys <= tabs.Keys && forall p, q :: p in tabs && q in tabs && tabs[p] == tabs[q] ==> p == q
    ensures |FramesAt(tabs, keys)| == |keys|
    decreases |keys|
  {
    if keys == {} {
      assert FramesAt(tabs, keys) == {};
    } else {
      var k :| k in keys;
      DistinctFrames(tabs, keys - {k});
      assert FramesAt(tabs, keys) == FramesAt(tabs, keys - {k}) + {tabs[k]};
    }
  }

  lemma FrameCount(tabs: map<Path, nat>)
    requires Forest(tabs)
    ensures |TableFrames(tabs)| == |tabs.Keys|
  {
    DistinctFrames(tabs, tabs.Keys);
    assert FramesAt(tabs, tabs.Keys) == TableFrames(tabs);
  }

  lemma FramesGrow(tabs: map<Path, nat>, tabs': map<Path, nat>)
    requires tabs.Keys <= tabs'.Keys && forall q :: q in tabs ==> tabs'[q] == tabs[q]
    ensures TableFrames(tabs) <= TableFrames(tabs')
  {
    forall f | f in TableFrames(tabs) ensures f in TableFrames(tabs') {
      var p :| p in tabs && tabs[p] == f;
      assert tabs'[p] == f;
    }
  }

  /**
   The table count of a run: one frame for each path that was there and each distinct prefix mapped since;
   unmapping never lowers it.
   */
  lemma TableCount(g: PmmSpec.Geometry, w: World, am: PageMap, ops: seq<Op>)
    requires Inv(g, w) && Agrees(w, am) && LegalRun(g, w, ops)
    ensures |TableFrames(Run(g, w, ops).tabs)| == |w.tabs.Keys + RunNodes(g, w, ops)|
    ensures TableFrames(w.tabs) <= TableFrames(Run(g, w, ops).tabs)
  {
    RunRefines(g, w, am, ops);
    FrameCount(Run(g, w, ops).tabs);
    FramesGrow(w.tabs, Run(g, w, ops).tabs);
  }

  // ----- pages that later operations leave alone

  /** The page the step writes, if any. */
  predicate Touches(op: Op, q: Path) {
    match op
    case MapOp(root, _, va, _) => q == PagePath(root, va)
    case MapNew(root, va, _) => q == PagePath(root, va)
    case UnmapOp(root, va) => q == PagePath(root, va)
    case _ => false
  }

  /** Pages are mapped writable. */
  predicate MapsWritable(op: Op) {
    match op
    case MapOp(_, _, _, flags) => flags / 2 % 2 == 1
    case MapNew(_, _, flags) => flags / 2 % 2 == 1
    case _ => true
  }

  lemma {:induction false} PutPagesElsewhere(am: PageMap, root: nat, ps: seq<Page>, n: nat, flags: nat, q: Path)
    requires n <= |ps| && forall k :: 0 <= k < n ==> PagePath(root, ps[k].va) != q
    ensures q in PutPages(am, root, ps, n, flags) <==> q in am
    ensures q in am ==> PutPages(am, root, ps, n, flags)[q] == am[q]
  {
    if n == 0 {
    } else {
      PutPagesElsewhere(am, root, ps, n - 1, flags, q);
    }
  }

  /** A page that every round writing it gives the same entry ends with that entry. */
  lemma {:induction false} PutPagesSame(am: PageMap, root: nat, ps: seq<Page>, n: nat, flags: nat, q: Path, e: nat)
    requires n <= |ps| && forall k :: 0 <= k < n && PagePath(root, ps[k].va) == q ==> MakeEntry(ps[k].pa, flags) == e
    ensures (q in am && am[q] == e) || (exists k :: 0 <= k < n && PagePath(root, ps[k].va) == q) ==>
      q in PutPages(am, root, ps, n, flags) && PutPages(am, root, ps, n, flags)[q] == e
  {
    if n == 0 {
    } else {
      PutPagesSame(am, root, ps, n - 1, flags, q, e);
    }
  }

  lemma CreateLeaves(g: PmmSpec.Geometry, w: World, am: PageMap, q: Path)
    requires Inv(g, w) && Agrees(w, am) && Legal(w, Create) && q in am
    ensures var am' := PutPages(am, NewRoot(g, w).1, FirstMegabyte(), |FirstMegabyte()|, PF_RW);
      q in am' && am'[q] == am[q]
  {
    NewRootStep(g, w, am);
    assert PageIn(w, q);
    PutPagesElsewhere(am, NewRoot(g, w).1, FirstMegabyte(), |FirstMegabyte()|, PF_RW, q);
  }

  lemma OtherStepLeaves(g: PmmSpec.Geometry, w: World, am: PageMap, op: Op, q: Path)
    requires !op.Create? && q in am && !Touches(op, q)
    ensures q in AbsStep(g, w, am, op) && AbsStep(g, w, am, op)[q] == am[q]
  {
  }

  lemma StepLeaves(g: PmmSpec.Geometry, w: World, am: PageMap, op: Op, q: Path)
    requires Inv(g, w) && Agrees(w, am) && Legal(w, op) && q in am && !Touches(op, q)
    ensures q in AbsStep(g, w, am, op) && AbsStep(g, w, am, op)[q] == am[q]
  {
    if op.Create? {
      CreateLeaves(g, w, am, q);
    } else {
      OtherStepLeaves(g, w, am, op, q);
    }
  }

  lemma UnmapWritable(w: World, root: nat, va: nat)
    requires Tree(w.mem, w.tabs) && AllWritable(w) && Root(root) in w.tabs
    ensures AllWritable(Unmap(w, root, va))
  {
    var pi, p := VaddrToPgInd(va), TablePath(root, va);
    UnmapFinds(w, root, pi);
    if p in w.tabs {
      PageWriteEntries(w, p, pi.pg, 0);
    }
  }

  lemma StepWritable(g: PmmSpec.Geometry, w: World, am: PageMap, op: Op)
    requires Inv(g, w) && Agrees(w, am) && Legal(w, op) && MapsWritable(op) && AllWritable(w)
    ensures AllWritable(Step(g, w, op))
  {
    match op
    case Create => CreateStep(g, w, am);
    case MapOp(root, pa, va, flags) => MapKeepsWritable(g, w, root, pa, va, flags);
    case MapNew(root, va, flags) => MapNewStep(g, w, am, root, va, flags);
    case UnmapOp(root, va) => UnmapWritable(w, root, va);
    case AllocOp =>
    case FreeOp(_) =>
    case StoreOp(root, va, word) => StoreStep(g, w, am, root, va, word);
  }

  /** A page mapped writable stays mapped to the same frame, and writable, through every run that leaves it alone. */
  lemma {:induction false} PageStays(g: PmmSpec.Geometry, w: World, am: PageMap, ops: seq<Op>, q: Path)
    requires Inv(g, w) && Agrees(w, am) && LegalRun(g, w, ops) && AllWritable(w)
    requires q in am && Writable(am[q])
    requires forall op :: op in ops ==> !Touches(op, q) && MapsWritable(op)
    ensures Lookup(Run(g, w, ops).mem, q) == Lookup(w.mem, q) == Some(am[q]) && WritableTo(Run(g, w, ops).mem, q)
    decreases |ops|
  {
    if ops == [] {
      PageWritableIff(w, q);
    } else {
      var w1, am1 := Step(g, w, ops[0]), AbsStep(g, w, am, ops[0]);
      assert ops[0] in ops && forall op :: op in ops[1..] ==> op in ops;
      StepKeeps(g, w, am, ops[0]);
      StepLeaves(g, w, am, ops[0], q);
      StepWritable(g, w, am, ops[0]);
      PageStays(g, w1, am1, ops[1..], q);
    }
  }
}
