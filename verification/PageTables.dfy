/**
 x86-64 four-level page tables (Intel SDM Vol. 3A, section 4.5) as paging.c builds them, on values: physical
 memory is a sequence of frames of 512 words, tables are named by their frame number, and table frames come
 from the pool of `PmmSpec`.
 */
module PageTables {
  import opened Common
  import PmmSpec

  const ENTRIES: nat := 512
  const PF_RW: nat := 2
  /** Bit 63: the page must not be executed. */
  const PF_XD: nat := 0x8000_0000_0000_0000

  type Memory = seq<seq<nat>>

  /** Where a table hangs: a top-level table, or entry `ix` of the table above. Pages hang at depth 4. */
  datatype Path = Root(frame: nat) | Sub(parent: Path, ix: nat)

  /** `tabs` records which frame holds the table at each path; the code itself has no such record. */
  datatype World = World(mem: Memory, pool: PmmSpec.State, tabs: map<Path, nat>)

  function Depth(p: Path): nat {
    match p
    case Root(_) => 0
    case Sub(q, _) => 1 + Depth(q)
  }

  function RootOf(p: Path): Path {
    match p
    case Root(_) => p
    case Sub(q, _) => RootOf(q)
  }

  predicate IndicesOk(p: Path) {
    p.Sub? ==> p.ix < ENTRIES && IndicesOk(p.parent)
  }

  // ----- words

  predicate Present(e: nat) {
    e % 2 == 1
  }

  predicate Writable(e: nat) {
    e / 2 % 2 == 1
  }

  /** The frame number in `e & ~0xfff`. */
  function Target(e: nat): nat {
    e / PAGE_SIZE
  }

  /** Flags with PF_XD and any low bits. */
  predicate NoExec(flags: nat) {
    PF_XD <= flags < PF_XD + PAGE_SIZE
  }

  /** `flags | PF_P` */
  function WithPresent(flags: nat): nat {
    if flags % 2 == 1 then flags else flags + 1
  }

  /** Bit 63 of both the address and the flags, which a sum would count twice. */
  function SharedBit(pa: nat, flags: nat): nat {
    if PF_XD <= flags && pa / PF_XD % 2 == 1 then PF_XD else 0
  }

  /** `(pa & ~0xfff) | PF_P | flags`, for flags in the low twelve bits and bit 63. */
  function MakeEntry(pa: nat, flags: nat): nat {
    PageBase(pa) + WithPresent(flags) - SharedBit(pa, flags)
  }

  lemma PresentPart(half: nat, low: nat)
    ensures (2 * half + low) % 2 == low % 2
  {
  }

  /** A word with frame number `k` above twelve bits `low`. */
  lemma WordParts(k: nat, low: nat)
    requires low < 4096
    ensures (4096 * k + low) / 4096 == k && (4096 * k + low) % 2 == low % 2
  {
    DivUnique(4096 * k + low, 4096, k);
    PresentPart(2048 * k, low);
  }

  lemma WriteBit(k: nat, low: nat)
    ensures (4096 * k + low) / 2 % 2 == low / 2 % 2
  {
    assert (4096 * k + low) / 2 == 2 * (1024 * k) + low / 2;
  }

  lemma PresentBit(flags: nat)
    ensures var fl := WithPresent(flags); fl % 2 == 1 && fl / 2 == flags / 2 && (flags < 4096 ==> fl < 4096)
  {
  }

  lemma EntryFacts(pa: nat, flags: nat)
    requires flags < PAGE_SIZE
    ensures Present(MakeEntry(pa, flags)) && Target(MakeEntry(pa, flags)) == pa / PAGE_SIZE
    ensures Writable(MakeEntry(pa, flags)) <==> flags / 2 % 2 == 1
    ensures pa < TWO64 ==> MakeEntry(pa, flags) < TWO64
  {
    PresentBit(flags);
    WordParts(pa / 4096, WithPresent(flags));
    WriteBit(pa / 4096, WithPresent(flags));
  }

  lemma EntryPresent(pa: nat, flags: nat)
    ensures Present(MakeEntry(pa, flags))
  {
    PresentBit(flags);
    if SharedBit(pa, flags) == 0 {
      PresentPart(2048 * (pa / 4096), WithPresent(flags));
    } else {
      PresentPart(2048 * (pa / 4096), WithPresent(flags) - PF_XD);
    }
  }

  lemma DisjointSum(a: bv64, b: bv64)
    requires a & b == 0
    ensures a | b == a + b
  {
  }

  /** The disjunction as a sum: a bit that both words have is taken off once. */
  lemma SharedSum(a: bv64, b: bv64)
    requires a & b == 0x8000_0000_0000_0000
    ensures a | b == a + b - 0x8000_0000_0000_0000
  {
  }

  lemma PresentOr(flags: bv64)
    ensures 1 | flags == if flags & 1 == 1 then flags else flags + 1
  {
  }

  lemma Overlap(base: bv64, fl: bv64)
    requires base & 0xfff == 0 && fl & 0x7fff_ffff_ffff_f000 == 0
    ensures base & fl == 0 || base & fl == 0x8000_0000_0000_0000
  {
  }

  /**
   On 64-bit words, for a page-aligned address and flags in the low twelve bits and bit 63: the disjunction is the
   sum `MakeEntry` computes, less bit 63 where both have it.
   */
  lemma EntryBits(base: bv64, fl: bv64)
    requires base & 0xfff == 0 && fl & 0x7fff_ffff_ffff_f000 == 0
    ensures base | fl == if base & fl == 0 then base + fl else base + fl - 0x8000_0000_0000_0000
  {
    Overlap(base, fl);
    if base & fl == 0 {
      DisjointSum(base, fl);
    } else {
      SharedSum(base, fl);
    }
  }

  /** `next_pg_dir` gets back the table it stored exactly when the flags add no address bit. */
  lemma DirectoryPointerIff(table: bv64, flags: bv64)
    requires table & 0xfff == 0
    ensures (table | (1 | flags)) & 0xffff_ffff_ffff_f000 == table <==> (flags & 0xffff_ffff_ffff_f000) & !table == 0
  {
  }

  /** PF_XD is bit 63, which `~0xfff` keeps: with it the pointer read back is never the table that was stored. */
  lemma NoExecMissesTable(table: bv64, flags: bv64)
    requires table & 0x8000_0000_0000_0fff == 0 && flags & 0x8000_0000_0000_0000 != 0
    ensures (table | (1 | flags)) & 0xffff_ffff_ffff_f000 != table
  {
    DirectoryPointerIff(table, flags);
  }

  function Zeros(): (z: seq<nat>)
    ensures |z| == ENTRIES && forall i :: 0 <= i < ENTRIES ==> z[i] == 0
  {
    seq(ENTRIES, _ => 0)
  }

  function Deref(mem: Memory, t: nat, i: nat): nat {
    if t < |mem| && i < |mem[t]| then mem[t][i] else 0
  }

  function Poke(mem: Memory, t: nat, i: nat, e: nat): Memory {
    if t < |mem| && i < |mem[t]| then
      var frame: seq<nat> := mem[t][i := e];
      mem[t := frame]
    else mem
  }

  function ZeroFrame(mem: Memory, t: nat): Memory {
    if t < |mem| then mem[t := Zeros()] else mem
  }

  // ----- virtual addresses

  datatype PageIndex = PageIndex(pdpt: nat, pdt: nat, pt: nat, pg: nat)

  /** `vaddr_to_pg_ind`: `va >> 39 & 0x1ff` and so on. */
  function VaddrToPgInd(va: nat): (pi: PageIndex)
    ensures pi.pdpt < ENTRIES && pi.pdt < ENTRIES && pi.pt < ENTRIES && pi.pg < ENTRIES
  {
    PageIndex(va / 0x80_0000_0000 % 512, va / 0x4000_0000 % 512, va / 0x20_0000 % 512, va / PAGE_SIZE % 512)
  }

  lemma PathBelow(p: Path, i: nat)
    ensures Depth(Sub(p, i)) == 1 + Depth(p) && RootOf(Sub(p, i)) == RootOf(p)
    ensures IndicesOk(Sub(p, i)) <==> i < ENTRIES && IndicesOk(p)
    ensures p.Root? ==> Depth(p) == 0 && RootOf(p) == p && IndicesOk(p)
  {
  }

  /** The path of the page table the three directory indices lead to. */
  function TableAt(root: nat, pi: PageIndex): (p: Path)
    ensures Depth(p) == 3 && RootOf(p) == Root(root)
    ensures pi.pdpt < ENTRIES && pi.pdt < ENTRIES && pi.pt < ENTRIES ==> IndicesOk(p)
  {
    var p1 := Sub(Root(root), pi.pdpt);
    var p2 := Sub(p1, pi.pdt);
    PathBelow(Root(root), pi.pdpt);
    PathBelow(p1, pi.pdt);
    PathBelow(p2, pi.pt);
    Sub(p2, pi.pt)
  }

  /** The path of the page table that maps `va`. */
  function TablePath(root: nat, va: nat): (p: Path)
    ensures Depth(p) == 3 && RootOf(p) == Root(root) && IndicesOk(p)
  {
    TableAt(root, VaddrToPgInd(va))
  }

  function PagePath(root: nat, va: nat): (p: Path)
    ensures Depth(p) == 4 && RootOf(p) == Root(root) && IndicesOk(p)
  {
    Sub(TablePath(root, va), VaddrToPgInd(va).pg)
  }

  lemma DigitsEqual(a: nat, b: nat, c: nat, d: nat, a': nat, b': nat, c': nat, d': nat)
    requires a < 512 && b < 512 && c < 512 && d < 512 && a' < 512 && b' < 512 && c' < 512 && d' < 512
    ensures ((a * 512 + b) * 512 + c) * 512 + d == ((a' * 512 + b') * 512 + c') * 512 + d'
      <==> a == a' && b == b' && c == c' && d == d'
  {
  }

  lemma Shifts(va: nat)
    ensures va / 0x20_0000 == va / 4096 / 512
    ensures va / 0x4000_0000 == va / 4096 / 512 / 512
    ensures va / 0x80_0000_0000 == va / 4096 / 512 / 512 / 512
  {
  }

  lemma LastDigit36(x: nat)
    ensures x % 0x10_0000_0000 == x / 512 % 0x800_0000 * 512 + x % 512
  {
  }

  lemma LastDigit27(x: nat)
    ensures x % 0x800_0000 == x / 512 % 0x4_0000 * 512 + x % 512
  {
  }

  lemma LastDigit18(x: nat)
    ensures x % 0x4_0000 == x / 512 % 512 * 512 + x % 512
  {
  }

  /** The low 36 bits of a number as four digits of nine bits. */
  lemma Digits(x: nat)
    ensures x % 0x10_0000_0000
         == ((x / 512 / 512 / 512 % 512 * 512 + x / 512 / 512 % 512) * 512 + x / 512 % 512) * 512 + x % 512
  {
    LastDigit36(x);
    LastDigit27(x / 512);
    LastDigit18(x / 512 / 512);
  }

  lemma PageNumber(va: nat)
    ensures var pi := VaddrToPgInd(va);
      va / PAGE_SIZE % 0x10_0000_0000 == ((pi.pdpt * 512 + pi.pdt) * 512 + pi.pt) * 512 + pi.pg
  {
    var x := va / 4096;
    Shifts(va);
    Digits(x);
  }

  /** Two addresses name the same page of a map exactly when bits 12 to 47 agree. */
  lemma SamePage(root: nat, va: nat, vb: nat)
    ensures PagePath(root, va) == PagePath(root, vb)
      <==> va / PAGE_SIZE % 0x10_0000_0000 == vb / PAGE_SIZE % 0x10_0000_0000
  {
    PageNumber(va);
    PageNumber(vb);
    var a, b := VaddrToPgInd(va), VaddrToPgInd(vb);
    DigitsEqual(a.pdpt, a.pdt, a.pt, a.pg, b.pdpt, b.pdt, b.pt, b.pg);
    assert PagePath(root, va) == PagePath(root, vb) <==> a == b;
  }

  // ----- the operations of paging.c

  /**
   `next_pg_dir` on entry `i` of table `t`, which hangs at `p`. A failed `pmm_alloc` is not checked: its null
   address makes frame 0 the new table.
   */
  function NextDir(g: PmmSpec.Geometry, w: World, p: Path, t: nat, i: nat, flags: nat): (World, nat) {
    var w1 :=
      if Present(Deref(w.mem, t, i)) then w
      else
        var (pool, new_) := PmmSpec.Alloc(g, w.pool);
        var f := new_ / PAGE_SIZE;
        World(Poke(ZeroFrame(w.mem, f), t, i, MakeEntry(new_, flags)), pool, w.tabs[Sub(p, i) := f]);
    (w1, Target(Deref(w1.mem, t, i)))
  }

  /** `some_next_pg_dir`, with 0 for a null pointer. */
  function SomeNextDir(mem: Memory, t: nat, i: nat): nat {
    if t == 0 || !Present(Deref(mem, t, i)) then 0 else Target(Deref(mem, t, i))
  }

  /** The three directory steps of `paging_map`, down to a page table. */
  function Descend(g: PmmSpec.Geometry, w: World, root: nat, pi: PageIndex, flags: nat): (World, nat) {
    var p1 := Sub(Root(root), pi.pdpt);
    var (w1, t1) := NextDir(g, w, Root(root), root, pi.pdpt, flags);
    var (w2, t2) := NextDir(g, w1, p1, t1, pi.pdt, flags);
    NextDir(g, w2, Sub(p1, pi.pdt), t2, pi.pt, flags)
  }

  function Map(g: PmmSpec.Geometry, w: World, root: nat, pa: nat, va: nat, flags: nat): World {
    var (w3, t) := Descend(g, w, root, VaddrToPgInd(va), flags);
    w3.(mem := Poke(w3.mem, t, VaddrToPgInd(va).pg, MakeEntry(pa, flags)))
  }

  /** The chain of `some_next_pg_dir` calls, null when a level is missing. */
  function FindTable(mem: Memory, root: nat, pi: PageIndex): nat {
    SomeNextDir(mem, SomeNextDir(mem, SomeNextDir(mem, root, pi.pdpt), pi.pdt), pi.pt)
  }

  function Unmap(w: World, root: nat, va: nat): World {
    var pi := VaddrToPgInd(va);
    var t := FindTable(w.mem, root, pi);
    if t == 0 then w else w.(mem := Poke(w.mem, t, pi.pg, 0))
  }

  // ----- the hardware walk

  /** The frame the processor reaches at `p`. */
  function Walk(mem: Memory, p: Path): Option<nat> {
    match p
    case Root(f) => Some(f)
    case Sub(q, i) =>
      match Walk(mem, q)
      case None => None
      case Some(t) => if Present(Deref(mem, t, i)) then Some(Target(Deref(mem, t, i))) else None
  }

  /** The present entry the processor finds for `p`, reading one table per level. */
  function Lookup(mem: Memory, p: Path): Option<nat>
    requires p.Sub?
  {
    match Walk(mem, p.parent)
    case None => None
    case Some(t) => if Present(Deref(mem, t, p.ix)) then Some(Deref(mem, t, p.ix)) else None
  }

  /** Whether every entry above the page and the page's own entry allow writing. */
  predicate WritableTo(mem: Memory, p: Path) {
    p.Sub? ==> WritableTo(mem, p.parent) && Lookup(mem, p).Some? && Writable(Lookup(mem, p).value)
  }

  // ----- the invariant

  /** A set of table paths closed under parents, one frame for each. */
  ghost predicate Forest(tabs: map<Path, nat>) {
    && (forall p :: p in tabs ==> Depth(p) <= 3 && IndicesOk(p) && RootOf(p) in tabs)
    && (forall p :: p in tabs && p.Root? ==> tabs[p] == p.frame)
    && (forall p :: p in tabs && p.Sub? ==> p.parent in tabs)
    && (forall p, q :: p in tabs && q in tabs && tabs[p] == tabs[q] ==> p == q)
  }

  /** Entry `i` of the table at `p` points to the table at `Sub(p, i)`, and is absent when there is none. */
  ghost predicate Linked(mem: Memory, tabs: map<Path, nat>, p: Path, i: nat)
    requires p in tabs
  {
    var e := Deref(mem, tabs[p], i);
    if Sub(p, i) in tabs then Present(e) && Target(e) == tabs[Sub(p, i)] else !Present(e)
  }

  /** `tabs` names the tables in memory: every directory entry agrees with it. */
  ghost predicate Tree(mem: Memory, tabs: map<Path, nat>) {
    && Forest(tabs)
    && (forall p :: p in tabs ==> 0 < tabs[p] < |mem| && |mem[tabs[p]]| == ENTRIES)
    && (forall p, i :: p in tabs && Depth(p) < 3 && 0 <= i < ENTRIES ==> Linked(mem, tabs, p, i))
  }

  /** Managed frames exist in memory, which has a frame 0. */
  ghost predicate Backed(g: PmmSpec.Geometry, mem: Memory) {
    && 0 < |mem|
    && (forall f :: 0 <= f < |mem| ==> |mem[f]| == ENTRIES)
    && (forall x :: x in PmmSpec.AllFrames(g) ==> x / PAGE_SIZE < |mem|)
  }

  /** All that holds between operations: the pool is sound, the tables form a forest, and callers own them. */
  ghost predicate Inv(g: PmmSpec.Geometry, w: World) {
    && PmmSpec.ValidGeometry(g) && PmmSpec.Owned(g, w.pool)
    && Backed(g, w.mem) && Tree(w.mem, w.tabs)
    && (forall p :: p in w.tabs ==> PAGE_SIZE * w.tabs[p] in w.pool.live)
  }

  /** The walk finds exactly the recorded tables. */
  lemma {:induction false} WalkFindsTables(mem: Memory, tabs: map<Path, nat>, p: Path)
    requires Tree(mem, tabs) && Depth(p) <= 3 && IndicesOk(p) && RootOf(p) in tabs
    ensures Walk(mem, p) == if p in tabs then Some(tabs[p]) else None
  {
    match p
    case Root(f) =>
    case Sub(q, i) =>
      WalkFindsTables(mem, tabs, q);
      if q in tabs {
        assert Linked(mem, tabs, q, i);
      }
  }

  /** Every table below a root is pointed to by one entry of one table, and no two tables share a frame. */
  lemma OneParent(mem: Memory, tabs: map<Path, nat>, p: Path, i: nat, q: Path, j: nat)
    requires Tree(mem, tabs) && p in tabs && q in tabs && Depth(p) < 3 && Depth(q) < 3 && i < ENTRIES && j < ENTRIES
    requires Present(Deref(mem, tabs[p], i)) && Present(Deref(mem, tabs[q], j))
    requires Target(Deref(mem, tabs[p], i)) == Target(Deref(mem, tabs[q], j))
    ensures p == q && i == j && Depth(p) == Depth(q)
    ensures !(exists r :: Root(r) in tabs && Target(Deref(mem, tabs[p], i)) == r)
  {
    assert Linked(mem, tabs, p, i) && Linked(mem, tabs, q, j);
    assert tabs[Sub(p, i)] == tabs[Sub(q, j)];
    forall r | Root(r) in tabs ensures Target(Deref(mem, tabs[p], i)) != r {
      assert tabs[Root(r)] == r;
    }
  }

  // ----- one directory step

  /** The words of a frame. */
  function Words(mem: Memory, f: nat): seq<nat> {
    if f < |mem| then mem[f] else []
  }

  lemma ForestGrows(tabs: map<Path, nat>, p: Path, i: nat, f: nat)
    requires Forest(tabs) && p in tabs && Depth(p) < 3 && i < ENTRIES && Sub(p, i) !in tabs
    requires forall q :: q in tabs ==> tabs[q] != f
    ensures Forest(tabs[Sub(p, i) := f])
  {
    assert RootOf(Sub(p, i)) == RootOf(p) && Depth(Sub(p, i)) == 1 + Depth(p) && IndicesOk(Sub(p, i));
  }

  /** Zeroing a frame that holds no table, and hooking it below `p`, leaves every other table as it was. */
  lemma GrownTables(mem: Memory, tabs: map<Path, nat>, p: Path, i: nat, f: nat, e: nat)
    requires Tree(mem, tabs) && p in tabs && i < ENTRIES
    requires 0 < f < |mem| && (forall q :: q in tabs ==> tabs[q] != f)
    ensures var mem' := Poke(ZeroFrame(mem, f), tabs[p], i, e);
      && |mem'| == |mem|
      && Words(mem', f) == Zeros()
      && |Words(mem', tabs[p])| == ENTRIES
      && Deref(mem', tabs[p], i) == e
      && (forall j :: j != i ==> Deref(mem', tabs[p], j) == Deref(mem, tabs[p], j))
      && (forall q :: q in tabs && q != p ==> Words(mem', tabs[q]) == Words(mem, tabs[q]))
      && (forall h :: 0 <= h < |mem| && |mem[h]| == ENTRIES ==> |mem'[h]| == ENTRIES)
  {
  }

  lemma LinksGrow(mem: Memory, tabs: map<Path, nat>, p: Path, i: nat, f: nat, e: nat, q: Path, j: nat)
    requires Tree(mem, tabs) && p in tabs && Depth(p) < 3 && i < ENTRIES && Sub(p, i) !in tabs
    requires 0 < f < |mem| && (forall q :: q in tabs ==> tabs[q] != f)
    requires Present(e) && Target(e) == f
    requires (q in tabs || q == Sub(p, i)) && Depth(q) < 3 && j < ENTRIES
    ensures Linked(Poke(ZeroFrame(mem, f), tabs[p], i, e), tabs[Sub(p, i) := f], q, j)
  {
    var mem' := Poke(ZeroFrame(mem, f), tabs[p], i, e);
    GrownTables(mem, tabs, p, i, f, e);
    if q == Sub(p, i) {
      assert Deref(mem', f, j) == 0 && Sub(q, j) !in tabs && Sub(q, j) != q;
    } else {
      assert Linked(mem, tabs, q, j);
      assert Deref(mem', tabs[q], j) == if q == p && j == i then e else Deref(mem, tabs[q], j);
    }
  }

  lemma SizesGrow(mem: Memory, tabs: map<Path, nat>, p: Path, i: nat, f: nat, e: nat)
    requires Tree(mem, tabs) && p in tabs && i < ENTRIES
    requires 0 < f < |mem| && |mem[f]| == ENTRIES && (forall q :: q in tabs ==> tabs[q] != f)
    ensures var mem', tabs' := Poke(ZeroFrame(mem, f), tabs[p], i, e), tabs[Sub(p, i) := f];
      forall q :: q in tabs' ==> 0 < tabs'[q] < |mem'| && |mem'[tabs'[q]]| == ENTRIES
  {
    GrownTables(mem, tabs, p, i, f, e);
  }

  /** That grows the forest by one path. */
  lemma TreeGrows(mem: Memory, tabs: map<Path, nat>, p: Path, i: nat, f: nat, e: nat)
    requires Tree(mem, tabs) && p in tabs && Depth(p) < 3 && i < ENTRIES && Sub(p, i) !in tabs
    requires 0 < f < |mem| && |mem[f]| == ENTRIES && (forall q :: q in tabs ==> tabs[q] != f)
    requires Present(e) && Target(e) == f
    ensures Tree(Poke(ZeroFrame(mem, f), tabs[p], i, e), tabs[Sub(p, i) := f])
  {
    var mem', tabs' := Poke(ZeroFrame(mem, f), tabs[p], i, e), tabs[Sub(p, i) := f];
    SizesGrow(mem, tabs, p, i, f, e);
    ForestGrows(tabs, p, i, f);
    forall q, j | q in tabs' && Depth(q) < 3 && 0 <= j < ENTRIES ensures Linked(mem', tabs', q, j) {
      LinksGrow(mem, tabs, p, i, f, e, q, j);
    }
  }

  /** What one step of `next_pg_dir` needs of the pool: a frame, unless the table is already there. */
  ghost predicate Enough(w: World, p: Path) {
    p in w.tabs || 0 < PmmSpec.Avail(w.pool)
  }

  /** The frame `pmm_alloc` hands to `next_pg_dir` holds no table. */
  lemma FreshTable(g: PmmSpec.Geometry, w: World)
    requires Inv(g, w) && 0 < PmmSpec.Avail(w.pool)
    ensures var (pool, pa) := PmmSpec.Alloc(g, w.pool);
      && PmmSpec.Owned(g, pool) && PmmSpec.Avail(pool) == PmmSpec.Avail(w.pool) - 1
      && pool.live == w.pool.live + {pa} && pa !in w.pool.live
      && pa == PAGE_SIZE * (pa / PAGE_SIZE) && 0 < pa / PAGE_SIZE < |w.mem|
      && (forall q :: q in w.tabs ==> w.tabs[q] != pa / PAGE_SIZE)
  {
    PmmSpec.AllocMeaning(g, w.pool);
    PmmSpec.AvailZero(w.pool);
    var pa := PmmSpec.Alloc(g, w.pool).1;
    PmmSpec.FrameFacts(g, pa);
  }

  /** The world after a fresh frame `f` has been zeroed and hooked below `p`. */
  function Hook(w: World, p: Path, i: nat, pool: PmmSpec.State, f: nat, e: nat): World
    requires p in w.tabs
  {
    World(Poke(ZeroFrame(w.mem, f), w.tabs[p], i, e), pool, w.tabs[Sub(p, i) := f])
  }

  /** `w'` has the paths of `w` and those of `more`; old tables stay in place and page tables keep their words. */
  ghost predicate Grown(w: World, w': World, more: set<Path>) {
    && w'.tabs.Keys == w.tabs.Keys + more
    && (forall q :: q in w.tabs ==> w'.tabs[q] == w.tabs[q])
    && (forall q :: q in w'.tabs && Depth(q) == 3 ==>
          Words(w'.mem, w'.tabs[q]) == if q in w.tabs then Words(w.mem, w.tabs[q]) else Zeros())
    && w.pool.live <= w'.pool.live
    && (forall q :: q in w'.tabs && q !in w.tabs ==> PAGE_SIZE * w'.tabs[q] !in w.pool.live)
  }

  lemma HookGrows(w: World, p: Path, i: nat, pool: PmmSpec.State, f: nat, e: nat)
    requires Tree(w.mem, w.tabs) && p in w.tabs && Depth(p) < 3 && i < ENTRIES && Sub(p, i) !in w.tabs
    requires pool.live == w.pool.live + {PAGE_SIZE * f} && PAGE_SIZE * f !in w.pool.live
    requires 0 < f < |w.mem| && (forall q :: q in w.tabs ==> w.tabs[q] != f)
    ensures Grown(w, Hook(w, p, i, pool, f, e), {Sub(p, i)})
    ensures Deref(Hook(w, p, i, pool, f, e).mem, w.tabs[p], i) == e
  {
    GrownTables(w.mem, w.tabs, p, i, f, e);
  }

  lemma HookBacked(g: PmmSpec.Geometry, mem: Memory, t: nat, i: nat, f: nat, e: nat)
    requires Backed(g, mem)
    ensures Backed(g, Poke(ZeroFrame(mem, f), t, i, e))
  {
  }

  lemma HookKeeps(g: PmmSpec.Geometry, w: World, p: Path, i: nat, pool: PmmSpec.State, f: nat, e: nat)
    requires Inv(g, w) && p in w.tabs && Depth(p) < 3 && i < ENTRIES && Sub(p, i) !in w.tabs
    requires PmmSpec.Owned(g, pool) && pool.live == w.pool.live + {PAGE_SIZE * f} && PAGE_SIZE * f !in w.pool.live
    requires 0 < f < |w.mem| && (forall q :: q in w.tabs ==> w.tabs[q] != f)
    requires Present(e) && Target(e) == f
    ensures Inv(g, Hook(w, p, i, pool, f, e)) && Grown(w, Hook(w, p, i, pool, f, e), {Sub(p, i)})
    ensures Deref(Hook(w, p, i, pool, f, e).mem, w.tabs[p], i) == e
  {
    TreeGrows(w.mem, w.tabs, p, i, f, e);
    HookGrows(w, p, i, pool, f, e);
    HookBacked(g, w.mem, w.tabs[p], i, f, e);
  }

  /** The directory entry that points to the table at `q`. */
  function EntryOf(w: World, q: Path): nat
    requires q.Sub? && q.parent in w.tabs
  {
    Deref(w.mem, w.tabs[q.parent], q.ix)
  }

  /** Old directory entries stay as they are; new ones hold their table's address and the low flags of the call. */
  ghost predicate EntriesKept(w: World, w': World, flags: nat) {
    forall q :: q in w'.tabs && q.Sub? && q.parent in w'.tabs ==>
      if q in w.tabs && q.parent in w.tabs then EntryOf(w', q) == EntryOf(w, q)
      else flags < PAGE_SIZE && EntryOf(w', q) == MakeEntry(PAGE_SIZE * w'.tabs[q], flags)
  }

  lemma HookEntries(w: World, p: Path, i: nat, pool: PmmSpec.State, f: nat, e: nat, flags: nat)
    requires Tree(w.mem, w.tabs) && p in w.tabs && Depth(p) < 3 && i < ENTRIES && Sub(p, i) !in w.tabs
    requires 0 < f < |w.mem| && (forall q :: q in w.tabs ==> w.tabs[q] != f)
    requires flags < PAGE_SIZE && e == MakeEntry(PAGE_SIZE * f, flags)
    ensures EntriesKept(w, Hook(w, p, i, pool, f, e), flags)
  {
    var w' := Hook(w, p, i, pool, f, e);
    GrownTables(w.mem, w.tabs, p, i, f, e);
    forall q | q in w'.tabs && q.Sub? && q.parent in w'.tabs
      ensures if q in w.tabs && q.parent in w.tabs then EntryOf(w', q) == EntryOf(w, q) else EntryOf(w', q) == e
    {
      if q in w.tabs && q.parent != p {
        assert Words(w'.mem, w.tabs[q.parent]) == Words(w.mem, w.tabs[q.parent]);
      }
    }
  }

  lemma NewTableKeeps(g: PmmSpec.Geometry, w: World, p: Path, i: nat, flags: nat)
    requires Inv(g, w) && p in w.tabs && Depth(p) < 3 && i < ENTRIES && flags < PAGE_SIZE
    requires Sub(p, i) !in w.tabs && 0 < PmmSpec.Avail(w.pool)
    ensures var (w', t) := NextDir(g, w, p, w.tabs[p], i, flags);
      && Inv(g, w') && Sub(p, i) in w'.tabs && t == w'.tabs[Sub(p, i)]
      && Grown(w, w', {Sub(p, i)})
      && EntriesKept(w, w', flags)
      && PmmSpec.Avail(w'.pool) == PmmSpec.Avail(w.pool) - 1
  {
    assert Linked(w.mem, w.tabs, p, i);
    FreshTable(g, w);
    var (pool, pa) := PmmSpec.Alloc(g, w.pool);
    EntryFacts(pa, flags);
    HookKeeps(g, w, p, i, pool, pa / PAGE_SIZE, MakeEntry(pa, flags));
    HookEntries(w, p, i, pool, pa / PAGE_SIZE, MakeEntry(pa, flags), flags);
  }

  /** One directory step keeps the invariant, finds the table at `Sub(p, i)`, and leaves all page tables alone. */
  lemma NextDirKeeps(g: PmmSpec.Geometry, w: World, p: Path, i: nat, flags: nat)
    requires Inv(g, w) && p in w.tabs && Depth(p) < 3 && i < ENTRIES && Enough(w, Sub(p, i))
    requires flags < PAGE_SIZE || Sub(p, i) in w.tabs
    ensures var (w', t) := NextDir(g, w, p, w.tabs[p], i, flags);
      && Inv(g, w') && Sub(p, i) in w'.tabs && t == w'.tabs[Sub(p, i)]
      && Grown(w, w', {Sub(p, i)})
      && EntriesKept(w, w', flags)
      && PmmSpec.Avail(w'.pool) == PmmSpec.Avail(w.pool) - (if Sub(p, i) in w.tabs then 0 else 1)
  {
    assert Linked(w.mem, w.tabs, p, i);
    if Sub(p, i) in w.tabs {
      assert w.tabs.Keys == w.tabs.Keys + {Sub(p, i)};
    } else {
      NewTableKeeps(g, w, p, i, flags);
    }
  }

  lemma GrownTwice(w: World, w1: World, w2: World, a: set<Path>, b: set<Path>)
    requires Grown(w, w1, a) && Grown(w1, w2, b)
    ensures Grown(w, w2, a + b)
  {
    assert w.tabs.Keys <= w1.tabs.Keys <= w2.tabs.Keys;
  }

  lemma EntriesKeptTwice(w: World, w1: World, w2: World, flags: nat)
    requires EntriesKept(w, w1, flags) && EntriesKept(w1, w2, flags)
    requires w.tabs.Keys <= w1.tabs.Keys <= w2.tabs.Keys && Forest(w1.tabs)
    requires forall q :: q in w1.tabs ==> w2.tabs[q] == w1.tabs[q]
    ensures EntriesKept(w, w2, flags)
  {
  }

  // ----- mapping and unmapping a page

  /** The tables below the root on the way to a page table. */
  function NodesAt(root: nat, pi: PageIndex): set<Path> {
    var p1 := Sub(Root(root), pi.pdpt);
    {p1, Sub(p1, pi.pdt), TableAt(root, pi)}
  }

  /** The tables below the root on the way to `va`. */
  function NodesOf(root: nat, va: nat): set<Path> {
    NodesAt(root, VaddrToPgInd(va))
  }

  /** Flags beyond the low bits do no harm where no directory entry is made of them. */
  predicate Fits(w: World, nodes: set<Path>, flags: nat) {
    flags < PAGE_SIZE || (NoExec(flags) && nodes <= w.tabs.Keys)
  }

  predicate FlagsFit(w: World, root: nat, va: nat, flags: nat) {
    Fits(w, NodesOf(root, va), flags)
  }

  /** How many of `nodes` do not exist yet. */
  function Missing(w: World, nodes: set<Path>): nat {
    |nodes - w.tabs.Keys|
  }

  lemma MissingOne(nodes: set<Path>, have: set<Path>, p: Path)
    requires p in nodes
    ensures |nodes - (have + {p})| == |nodes - have| - (if p in have then 0 else 1)
    ensures p !in have ==> 0 < |nodes - have|
  {
    if p in have {
      assert have + {p} == have;
    } else {
      assert nodes - have == (nodes - (have + {p})) + {p};
    }
  }

  lemma ThreeOrFewer(a: Path, b: Path, c: Path, have: set<Path>)
    ensures |{a, b, c} - have| <= 3
  {
    var s := {a, b, c};
    assert s == (s - have) + (s * have);
    assert |s| == |s - have| + |s * have|;
    assert s == {a} + {b} + {c};
    assert |{a} + {b}| <= 2;
  }

  /** A page needs at most three tables below the root. */
  lemma AtMostThree(w: World, root: nat, va: nat)
    ensures Missing(w, NodesOf(root, va)) <= 3
  {
    var pi := VaddrToPgInd(va);
    var p1 := Sub(Root(root), pi.pdpt);
    ThreeOrFewer(p1, Sub(p1, pi.pdt), TableAt(root, pi), w.tabs.Keys);
  }

  /** What a step of `next_pg_dir` with enough frames does. */
  ghost predicate Stepped(g: PmmSpec.Geometry, w: World, p: Path, flags: nat, w': World, t: nat) {
    && Inv(g, w') && p in w'.tabs && t == w'.tabs[p]
    && Grown(w, w', {p}) && EntriesKept(w, w', flags)
  }

  /** A step that finds a frame or needs none leaves the shortage as it was. */
  lemma ShortStep(g: PmmSpec.Geometry, w: World, p: Path, i: nat, flags: nat, nodes: set<Path>)
    requires Inv(g, w) && p in w.tabs && Depth(p) < 3 && i < ENTRIES && (flags < PAGE_SIZE || Sub(p, i) in w.tabs)
    requires Sub(p, i) in nodes && Enough(w, Sub(p, i))
    ensures var (w', t) := NextDir(g, w, p, w.tabs[p], i, flags);
      && Stepped(g, w, Sub(p, i), flags, w', t)
      && PmmSpec.Avail(w'.pool) - Missing(w', nodes) == PmmSpec.Avail(w.pool) - Missing(w, nodes)
  {
    MissingOne(nodes, w.tabs.Keys, Sub(p, i));
    NextDirKeeps(g, w, p, i, flags);
  }

  /** A step towards a page, charged to the tables still missing. */
  lemma StepDown(g: PmmSpec.Geometry, w: World, p: Path, i: nat, flags: nat, nodes: set<Path>)
    requires Inv(g, w) && p in w.tabs && Depth(p) < 3 && i < ENTRIES && (flags < PAGE_SIZE || Sub(p, i) in w.tabs)
    requires Sub(p, i) in nodes && Missing(w, nodes) <= PmmSpec.Avail(w.pool)
    ensures var (w', t) := NextDir(g, w, p, w.tabs[p], i, flags);
      && Stepped(g, w, Sub(p, i), flags, w', t)
      && PmmSpec.Avail(w'.pool) - Missing(w', nodes) == PmmSpec.Avail(w.pool) - Missing(w, nodes)
  {
    MissingOne(nodes, w.tabs.Keys, Sub(p, i));
    ShortStep(g, w, p, i, flags, nodes);
  }

  lemma ThreeNodes(root: nat, pi: PageIndex)
    ensures var p1 := Sub(Root(root), pi.pdpt);
      NodesAt(root, pi) == {p1} + {Sub(p1, pi.pdt)} + {Sub(Sub(p1, pi.pdt), pi.pt)}
  {
  }

  lemma NoneMissing(w: World, nodes: set<Path>)
    requires nodes <= w.tabs.Keys
    ensures Missing(w, nodes) == 0
  {
    assert nodes - w.tabs.Keys == {};
  }

  lemma ThreeSteps(g: PmmSpec.Geometry, w: World, w1: World, w2: World, w3: World, p1: Path, p2: Path, p3: Path,
                   t1: nat, t2: nat, t3: nat, flags: nat)
    requires Stepped(g, w, p1, flags, w1, t1) && Stepped(g, w1, p2, flags, w2, t2) && Stepped(g, w2, p3, flags, w3, t3)
    ensures Grown(w, w3, {p1} + {p2} + {p3}) && EntriesKept(w, w3, flags) && {p1} + {p2} + {p3} <= w3.tabs.Keys
  {
    GrownTwice(w, w1, w2, {p1}, {p2});
    EntriesKeptTwice(w, w1, w2, flags);
    GrownTwice(w, w2, w3, {p1} + {p2}, {p3});
    EntriesKeptTwice(w, w2, w3, flags);
  }

  /** The descent of `paging_map` uses one frame for each missing table, and arrives at the table it looks for. */
  lemma DescendKeeps(g: PmmSpec.Geometry, w: World, root: nat, pi: PageIndex, flags: nat)
    requires Inv(g, w) && Root(root) in w.tabs && (flags < PAGE_SIZE || NodesAt(root, pi) <= w.tabs.Keys)
    requires pi.pdpt < ENTRIES && pi.pdt < ENTRIES && pi.pt < ENTRIES
    requires Missing(w, NodesAt(root, pi)) <= PmmSpec.Avail(w.pool)
    ensures var (w', t) := Descend(g, w, root, pi, flags);
      && Inv(g, w') && Grown(w, w', NodesAt(root, pi)) && EntriesKept(w, w', flags)
      && TableAt(root, pi) in w'.tabs && t == w'.tabs[TableAt(root, pi)]
      && PmmSpec.Avail(w'.pool) == PmmSpec.Avail(w.pool) - Missing(w, NodesAt(root, pi))
  {
    var nodes := NodesAt(root, pi);
    var p0 := Root(root);
    var p1 := Sub(p0, pi.pdpt);
    var p2 := Sub(p1, pi.pdt);
    assert Depth(p0) == 0 && Depth(p1) == 1 && Depth(p2) == 2 && w.tabs[p0] == root;
    StepDown(g, w, p0, pi.pdpt, flags, nodes);
    var (w1, t1) := NextDir(g, w, p0, root, pi.pdpt, flags);
    StepDown(g, w1, p1, pi.pdt, flags, nodes);
    var (w2, t2) := NextDir(g, w1, p1, t1, pi.pdt, flags);
    StepDown(g, w2, p2, pi.pt, flags, nodes);
    var (w3, t3) := NextDir(g, w2, p2, t2, pi.pt, flags);
    ThreeSteps(g, w, w1, w2, w3, p1, p2, Sub(p2, pi.pt), t1, t2, t3, flags);
    ThreeNodes(root, pi);
    NoneMissing(w3, nodes);
  }

  lemma PokeFrame(mem: Memory, t: nat, i: nat, e: nat)
    ensures var mem' := Poke(mem, t, i, e);
      && |mem'| == |mem|
      && (forall h :: 0 <= h < |mem| ==> |mem'[h]| == |mem[h]| && (h != t ==> mem'[h] == mem[h]))
      && (t < |mem| && i < |mem[t]| ==> mem'[t] == mem[t][i := e])
  {
  }

  /** Writing a word of a page table changes no directory. */
  lemma PageWriteKeeps(g: PmmSpec.Geometry, w: World, p: Path, i: nat, e: nat)
    requires Inv(g, w) && p in w.tabs && Depth(p) == 3
    ensures Inv(g, w.(mem := Poke(w.mem, w.tabs[p], i, e)))
  {
    var t, mem' := w.tabs[p], Poke(w.mem, w.tabs[p], i, e);
    PokeFrame(w.mem, t, i, e);
    forall q, j | q in w.tabs && Depth(q) < 3 && 0 <= j < ENTRIES ensures Linked(mem', w.tabs, q, j) {
      assert Linked(w.mem, w.tabs, q, j);
      assert w.tabs[q] != t;
    }
  }

  /** A page's entry as the processor finds it, read through the record of tables. */
  function PageEntry(w: World, q: Path): Option<nat>
    requires q.Sub?
  {
    if q.parent in w.tabs && Present(EntryOf(w, q)) then Some(EntryOf(w, q)) else None
  }

  /** `q` names a page of one of the maps. */
  ghost predicate PageIn(w: World, q: Path) {
    Depth(q) == 4 && q.Sub? && IndicesOk(q) && RootOf(q) in w.tabs
  }

  lemma LookupIs(w: World, q: Path)
    requires Tree(w.mem, w.tabs) && PageIn(w, q)
    ensures Lookup(w.mem, q) == PageEntry(w, q)
  {
    assert Depth(q.parent) == 3 && RootOf(q.parent) == RootOf(q);
    WalkFindsTables(w.mem, w.tabs, q.parent);
  }

  lemma PageWriteEntries(w: World, p: Path, i: nat, e: nat)
    requires Tree(w.mem, w.tabs) && p in w.tabs && Depth(p) == 3
    ensures forall q :: q in w.tabs && q.Sub? && q.parent in w.tabs ==>
      EntryOf(w.(mem := Poke(w.mem, w.tabs[p], i, e)), q) == EntryOf(w, q)
  {
    PokeFrame(w.mem, w.tabs[p], i, e);
    forall q | q in w.tabs && q.Sub? && q.parent in w.tabs ensures w.tabs[q.parent] != w.tabs[p] {
      assert Depth(q) == 1 + Depth(q.parent) <= 3;
    }
  }

  /** Growing the forest changes no page: pages of new tables were absent before and are absent now. */
  lemma GrownEntry(w: World, w': World, q: Path, nodes: set<Path>)
    requires Grown(w, w', nodes) && PageIn(w, q) && Forest(w.tabs)
    ensures PageEntry(w', q) == PageEntry(w, q)
  {
    var r := q.parent;
    assert Depth(r) == 3 && q.ix < ENTRIES;
    if r in w'.tabs {
      assert Words(w'.mem, w'.tabs[r]) == if r in w.tabs then Words(w.mem, w.tabs[r]) else Zeros();
    }
  }

  lemma PageWriteEntry(w: World, p: Path, i: nat, e: nat, q: Path)
    requires Tree(w.mem, w.tabs) && p in w.tabs && i < ENTRIES && q.Sub?
    ensures PageEntry(w.(mem := Poke(w.mem, w.tabs[p], i, e)), q)
         == if q == Sub(p, i) then (if Present(e) then Some(e) else None) else PageEntry(w, q)
  {
    PokeFrame(w.mem, w.tabs[p], i, e);
  }

  /**
   `paging_map` refines an update of a finite map: with enough frames for the missing tables, the processor then
   finds the new entry for every address with the same four indices and what it found before for any other page
   of any map, and exactly the missing tables have been allocated. Flags such as PF_XD are fine where no table is
   missing.
   */
  lemma MapMeaning(g: PmmSpec.Geometry, w: World, root: nat, pa: nat, va: nat, flags: nat)
    requires Inv(g, w) && Root(root) in w.tabs && FlagsFit(w, root, va, flags)
    requires Missing(w, NodesOf(root, va)) <= PmmSpec.Avail(w.pool)
    ensures var w' := Map(g, w, root, pa, va, flags);
      && Inv(g, w') && w'.tabs.Keys == w.tabs.Keys + NodesOf(root, va)
      && (forall q :: q in w.tabs ==> w'.tabs[q] == w.tabs[q])
      && PmmSpec.Avail(w'.pool) == PmmSpec.Avail(w.pool) - Missing(w, NodesOf(root, va))
      && w.pool.live <= w'.pool.live && EntriesKept(w, w', flags)
      && (forall q :: q in w'.tabs && q !in w.tabs ==> PAGE_SIZE * w'.tabs[q] !in w.pool.live)
      && (forall q :: PageIn(w, q) ==>
            Lookup(w'.mem, q) == if q == PagePath(root, va) then Some(MakeEntry(pa, flags)) else Lookup(w.mem, q))
  {
    var pi := VaddrToPgInd(va);
    DescendKeeps(g, w, root, pi, flags);
    var (w3, t) := Descend(g, w, root, pi, flags);
    PageWriteKeeps(g, w3, TableAt(root, pi), pi.pg, MakeEntry(pa, flags));
    var w' := Map(g, w, root, pa, va, flags);
    EntryPresent(pa, flags);
    PageWriteEntries(w3, TableAt(root, pi), pi.pg, MakeEntry(pa, flags));
    forall q | PageIn(w, q)
      ensures Lookup(w'.mem, q) == if q == PagePath(root, va) then Some(MakeEntry(pa, flags)) else Lookup(w.mem, q)
    {
      LookupIs(w, q);
      LookupIs(w', q);
      GrownEntry(w, w3, q, NodesOf(root, va));
      PageWriteEntry(w3, TableAt(root, pi), pi.pg, MakeEntry(pa, flags), q);
    }
  }

  lemma UnmapFinds(w: World, root: nat, pi: PageIndex)
    requires Tree(w.mem, w.tabs) && Root(root) in w.tabs
    requires pi.pdpt < ENTRIES && pi.pdt < ENTRIES && pi.pt < ENTRIES
    ensures FindTable(w.mem, root, pi) == if TableAt(root, pi) in w.tabs then w.tabs[TableAt(root, pi)] else 0
  {
    var p1 := Sub(Root(root), pi.pdpt);
    var p2 := Sub(p1, pi.pdt);
    assert Depth(p1) == 1 && Depth(p2) == 2 && w.tabs[Root(root)] == root;
    assert Linked(w.mem, w.tabs, Root(root), pi.pdpt);
    if p1 in w.tabs {
      assert Linked(w.mem, w.tabs, p1, pi.pdt);
      if p2 in w.tabs {
        assert Linked(w.mem, w.tabs, p2, pi.pt);
      }
    }
  }

  /** `paging_unmap` makes one page absent and changes nothing else; with a level missing it changes nothing. */
  lemma UnmapMeaning(g: PmmSpec.Geometry, w: World, root: nat, va: nat)
    requires Inv(g, w) && Root(root) in w.tabs
    ensures var w' := Unmap(w, root, va);
      && Inv(g, w') && w'.tabs == w.tabs && w'.pool == w.pool
      && (if TablePath(root, va) in w.tabs then EntryOf(w', PagePath(root, va)) == 0 else w' == w)
      && (forall q :: PageIn(w, q) ==>
            Lookup(w'.mem, q) == if q == PagePath(root, va) then None else Lookup(w.mem, q))
  {
    var pi, p := VaddrToPgInd(va), TablePath(root, va);
    UnmapFinds(w, root, pi);
    var w' := Unmap(w, root, va);
    if p in w.tabs {
      PageWriteKeeps(g, w, p, pi.pg, 0);
      PokeFrame(w.mem, w.tabs[p], pi.pg, 0);
    }
    forall q | PageIn(w, q)
      ensures Lookup(w'.mem, q) == if q == PagePath(root, va) then None else Lookup(w.mem, q)
    {
      LookupIs(w, q);
      LookupIs(w', q);
      if p in w.tabs {
        PageWriteEntry(w, p, pi.pg, 0, q);
      }
    }
  }

  // ----- writability

  /** Every directory entry above the table at `p` allows writing. */
  ghost predicate UpperWritable(w: World, p: Path) {
    p.Sub? ==> p.parent in w.tabs && UpperWritable(w, p.parent) && Writable(EntryOf(w, p))
  }

  lemma {:induction false} WritableWalk(w: World, p: Path)
    requires Tree(w.mem, w.tabs) && p in w.tabs
    ensures WritableTo(w.mem, p) <==> UpperWritable(w, p)
  {
    match p
    case Root(_) =>
    case Sub(q, i) =>
      WritableWalk(w, q);
      WalkFindsTables(w.mem, w.tabs, q);
      assert Linked(w.mem, w.tabs, q, i);
  }

  /** The table at `n` exists and the entry that points to it does not allow writing. */
  ghost predicate Blocks(w: World, n: Path) {
    n in w.tabs && n.Sub? && n.parent in w.tabs && !Writable(EntryOf(w, n))
  }

  /** A table that is already on the way to `va` cannot be written below. */
  ghost predicate BlockedOnTheWay(w: World, root: nat, va: nat) {
    var p := TablePath(root, va);
    Blocks(w, p.parent.parent) || Blocks(w, p.parent) || Blocks(w, p)
  }

  lemma NodeWritable(w: World, w': World, n: Path, flags: nat)
    requires Forest(w.tabs) && Forest(w'.tabs) && EntriesKept(w, w', flags) && n in w'.tabs && n.Sub?
    ensures n.parent in w'.tabs
    ensures Writable(EntryOf(w', n)) <==> if n in w.tabs then !Blocks(w, n) else flags / 2 % 2 == 1
    ensures n in w.tabs ==> n.parent in w.tabs
  {
    if n !in w.tabs {
      EntryFacts(PAGE_SIZE * w'.tabs[n], flags);
    }
  }

  lemma PathWritable(w: World, w': World, p: Path, flags: nat)
    requires Tree(w.mem, w.tabs) && Tree(w'.mem, w'.tabs) && EntriesKept(w, w', flags) && w.tabs.Keys <= w'.tabs.Keys
    requires p.Sub? && p.parent.Sub? && p.parent.parent.Sub? && p.parent.parent.parent.Root? && p in w'.tabs
    ensures WritableTo(w'.mem, p) <==>
      && !Blocks(w, p.parent.parent) && !Blocks(w, p.parent) && !Blocks(w, p)
      && (p in w.tabs || flags / 2 % 2 == 1)
  {
    var p2, p1 := p.parent, p.parent.parent;
    WritableWalk(w', p);
    NodeWritable(w, w', p1, flags);
    NodeWritable(w, w', p2, flags);
    NodeWritable(w, w', p, flags);
    assert UpperWritable(w', p1) <==> Writable(EntryOf(w', p1));
    assert UpperWritable(w', p2) <==> UpperWritable(w', p1) && Writable(EntryOf(w', p2));
  }

  /**
   `next_pg_dir` never widens an entry it finds: the page just mapped can be written exactly when the flags ask
   for it and no table that was already on the way forbids it.
   */
  lemma MapWritableIff(g: PmmSpec.Geometry, w: World, root: nat, pa: nat, va: nat, flags: nat)
    requires Inv(g, w) && Root(root) in w.tabs && flags < PAGE_SIZE
    requires Missing(w, NodesOf(root, va)) <= PmmSpec.Avail(w.pool)
    ensures WritableTo(Map(g, w, root, pa, va, flags).mem, PagePath(root, va))
      <==> flags / 2 % 2 == 1 && !BlockedOnTheWay(w, root, va)
  {
    var w', p := Map(g, w, root, pa, va, flags), TablePath(root, va);
    MapMeaning(g, w, root, pa, va, flags);
    EntryFacts(pa, flags);
    assert PageIn(w, PagePath(root, va));
    PathWritable(w, w', p, flags);
  }

  /** Every directory entry of every map allows writing. */
  ghost predicate AllWritable(w: World) {
    forall n :: n in w.tabs && n.Sub? && n.parent in w.tabs ==> Writable(EntryOf(w, n))
  }

  /** Directories made with writable flags stay writable. */
  lemma KeptWritable(w: World, w': World, flags: nat)
    requires EntriesKept(w, w', flags) && AllWritable(w) && flags / 2 % 2 == 1
    ensures AllWritable(w')
  {
    forall n | n in w'.tabs && n.Sub? && n.parent in w'.tabs ensures Writable(EntryOf(w', n)) {
      if !(n in w.tabs && n.parent in w.tabs) {
        EntryFacts(PAGE_SIZE * w'.tabs[n], flags);
      }
    }
  }

  lemma {:induction false} AllWritableUpper(w: World, p: Path)
    requires Tree(w.mem, w.tabs) && AllWritable(w) && p in w.tabs
    ensures UpperWritable(w, p)
  {
    if p.Sub? {
      AllWritableUpper(w, p.parent);
    }
  }

  /** Where all directories allow writing, a page can be written exactly when its own entry says so. */
  lemma PageWritableIff(w: World, q: Path)
    requires Tree(w.mem, w.tabs) && AllWritable(w) && PageIn(w, q)
    ensures WritableTo(w.mem, q) <==> Lookup(w.mem, q).Some? && Writable(Lookup(w.mem, q).value)
  {
    LookupIs(w, q);
    if q.parent in w.tabs {
      AllWritableUpper(w, q.parent);
      WritableWalk(w, q.parent);
    }
  }

  // ----- running out of frames

  /** The pool is empty and frame 0 has become a table: what is left once an allocation has failed. */
  ghost predicate Broken(g: PmmSpec.Geometry, w: World) {
    && PmmSpec.ValidGeometry(g) && PmmSpec.Owned(g, w.pool) && PmmSpec.Avail(w.pool) == 0
    && exists q :: q in w.tabs && w.tabs[q] == 0
  }

  lemma BrokenNotInv(g: PmmSpec.Geometry, w: World)
    requires Broken(g, w)
    ensures !Inv(g, w)
  {
  }

  /** With no frame left, a missing table becomes frame 0. */
  lemma NextDirFails(g: PmmSpec.Geometry, w: World, p: Path, i: nat, flags: nat)
    requires Inv(g, w) && p in w.tabs && Depth(p) < 3 && i < ENTRIES && Sub(p, i) !in w.tabs
    requires PmmSpec.Avail(w.pool) == 0
    ensures Broken(g, NextDir(g, w, p, w.tabs[p], i, flags).0)
  {
    assert Linked(w.mem, w.tabs, p, i);
    PmmSpec.AllocMeaning(g, w.pool);
    PmmSpec.AvailZero(w.pool);
    var w' := NextDir(g, w, p, w.tabs[p], i, flags).0;
    assert Sub(p, i) in w'.tabs && w'.tabs[Sub(p, i)] == 0;
  }

  /** No later step repairs it. */
  lemma NextDirBroken(g: PmmSpec.Geometry, w: World, p: Path, t: nat, i: nat, flags: nat)
    requires Broken(g, w)
    ensures Broken(g, NextDir(g, w, p, t, i, flags).0)
  {
    var q :| q in w.tabs && w.tabs[q] == 0;
    PmmSpec.AllocMeaning(g, w.pool);
    PmmSpec.AvailZero(w.pool);
    var w' := NextDir(g, w, p, t, i, flags).0;
    assert q in w'.tabs && w'.tabs[q] == 0;
  }

  lemma DescendBroken(g: PmmSpec.Geometry, w: World, root: nat, pi: PageIndex, flags: nat)
    requires Broken(g, w)
    ensures Broken(g, Descend(g, w, root, pi, flags).0)
  {
    var p1 := Sub(Root(root), pi.pdpt);
    NextDirBroken(g, w, Root(root), root, pi.pdpt, flags);
    var (w1, t1) := NextDir(g, w, Root(root), root, pi.pdpt, flags);
    NextDirBroken(g, w1, p1, t1, pi.pdt, flags);
    var (w2, t2) := NextDir(g, w1, p1, t1, pi.pdt, flags);
    NextDirBroken(g, w2, Sub(p1, pi.pdt), t2, pi.pt, flags);
  }

  lemma MapBroken(g: PmmSpec.Geometry, w: World, root: nat, pa: nat, va: nat, flags: nat)
    requires Broken(g, w)
    ensures Broken(g, Map(g, w, root, pa, va, flags))
  {
    DescendBroken(g, w, root, VaddrToPgInd(va), flags);
    var w3 := Descend(g, w, root, VaddrToPgInd(va), flags).0;
    var q :| q in w3.tabs && w3.tabs[q] == 0;
    assert q in Map(g, w, root, pa, va, flags).tabs;
  }

  lemma DescendFails(g: PmmSpec.Geometry, w: World, root: nat, pi: PageIndex, flags: nat)
    requires Inv(g, w) && Root(root) in w.tabs && flags < PAGE_SIZE
    requires pi.pdpt < ENTRIES && pi.pdt < ENTRIES && pi.pt < ENTRIES
    requires PmmSpec.Avail(w.pool) < Missing(w, NodesAt(root, pi))
    ensures Broken(g, Descend(g, w, root, pi, flags).0)
  {
    var nodes := NodesAt(root, pi);
    var p0 := Root(root);
    var p1 := Sub(p0, pi.pdpt);
    var p2 := Sub(p1, pi.pdt);
    var p3 := Sub(p2, pi.pt);
    assert Depth(p0) == 0 && Depth(p1) == 1 && Depth(p2) == 2 && Depth(p3) == 3 && w.tabs[p0] == root;
    var (w1, t1) := NextDir(g, w, p0, root, pi.pdpt, flags);
    var (w2, t2) := NextDir(g, w1, p1, t1, pi.pdt, flags);
    var (w3, t3) := NextDir(g, w2, p2, t2, pi.pt, flags);
    assert Descend(g, w, root, pi, flags) == (w3, t3);
    if p1 !in w.tabs && PmmSpec.Avail(w.pool) == 0 {
      NextDirFails(g, w, p0, pi.pdpt, flags);
      NextDirBroken(g, w1, p1, t1, pi.pdt, flags);
      NextDirBroken(g, w2, p2, t2, pi.pt, flags);
      return;
    }
    ShortStep(g, w, p0, pi.pdpt, flags, nodes);
    if p2 !in w1.tabs && PmmSpec.Avail(w1.pool) == 0 {
      NextDirFails(g, w1, p1, pi.pdt, flags);
      NextDirBroken(g, w2, p2, t2, pi.pt, flags);
      return;
    }
    ShortStep(g, w1, p1, pi.pdt, flags, nodes);
    if p3 !in w2.tabs && PmmSpec.Avail(w2.pool) == 0 {
      NextDirFails(g, w2, p2, pi.pt, flags);
      return;
    }
    ShortStep(g, w2, p2, pi.pt, flags, nodes);
    ThreeNodes(root, pi);
    NoneMissing(w3, nodes);
  }

  /** `paging_map` keeps the tables a forest exactly when the pool has a frame for each missing table. */
  lemma MapKeepsIff(g: PmmSpec.Geometry, w: World, root: nat, pa: nat, va: nat, flags: nat)
    requires Inv(g, w) && Root(root) in w.tabs && flags < PAGE_SIZE
    ensures Inv(g, Map(g, w, root, pa, va, flags)) <==> Missing(w, NodesOf(root, va)) <= PmmSpec.Avail(w.pool)
    ensures !Inv(g, Map(g, w, root, pa, va, flags)) ==> Broken(g, Map(g, w, root, pa, va, flags))
  {
    if Missing(w, NodesOf(root, va)) <= PmmSpec.Avail(w.pool) {
      MapMeaning(g, w, root, pa, va, flags);
    } else {
      var w3, w' := Descend(g, w, root, VaddrToPgInd(va), flags).0, Map(g, w, root, pa, va, flags);
      DescendFails(g, w, root, VaddrToPgInd(va), flags);
      var q :| q in w3.tabs && w3.tabs[q] == 0;
      assert q in w'.tabs && w'.tabs[q] == 0;
      BrokenNotInv(g, w');
    }
  }

  // ----- which memory a call touches

  /** Every table `paging_map` reads or writes on its way lies in memory. */
  ghost predicate WalkInside(g: PmmSpec.Geometry, w: World, root: nat, pi: PageIndex, flags: nat) {
    var p1 := Sub(Root(root), pi.pdpt);
    var (w1, t1) := NextDir(g, w, Root(root), root, pi.pdpt, flags);
    var (w2, t2) := NextDir(g, w1, p1, t1, pi.pdt, flags);
    root < |w.mem| && t1 < |w.mem| && t2 < |w.mem| && Descend(g, w, root, pi, flags).1 < |w.mem|
  }

  /** The pool is empty and frame 0, if it is taken for a table, points only at itself. */
  ghost predicate Stuck(g: PmmSpec.Geometry, w: World) {
    && PmmSpec.ValidGeometry(g) && PmmSpec.Owned(g, w.pool) && PmmSpec.Avail(w.pool) == 0 && 0 < |w.mem|
    && forall j :: 0 <= j < ENTRIES && Present(Deref(w.mem, 0, j)) ==> Target(Deref(w.mem, 0, j)) == 0
  }

  lemma NullEntry(flags: nat)
    requires flags < PAGE_SIZE
    ensures Present(MakeEntry(0, flags)) && Target(MakeEntry(0, flags)) == 0
  {
  }

  lemma EmptyAlloc(g: PmmSpec.Geometry, s: PmmSpec.State)
    requires PmmSpec.ValidGeometry(g) && PmmSpec.Owned(g, s) && PmmSpec.Avail(s) == 0
    ensures PmmSpec.Alloc(g, s) == (s, PHYS_ADDR_NULL)
  {
    PmmSpec.AllocMeaning(g, s);
    PmmSpec.AvailZero(s);
  }

  lemma ZeroPoked(mem: Memory, i: nat, e: nat)
    requires 0 < |mem| && i < ENTRIES
    ensures var mem' := Poke(ZeroFrame(mem, 0), 0, i, e);
      && |mem'| == |mem| && |mem'[0]| == ENTRIES
      && forall j: nat :: Deref(mem', 0, j) == if j == i then e else 0
  {
  }

  lemma StuckStep(g: PmmSpec.Geometry, w: World, p: Path, i: nat, flags: nat)
    requires Stuck(g, w) && |w.mem[0]| == ENTRIES && i < ENTRIES && flags < PAGE_SIZE
    ensures var (w', t) := NextDir(g, w, p, 0, i, flags);
      Stuck(g, w') && |w'.mem| == |w.mem| && |w'.mem[0]| == ENTRIES && t == 0
  {
    EmptyAlloc(g, w.pool);
    NullEntry(flags);
    ZeroPoked(w.mem, i, MakeEntry(0, flags));
  }

  lemma FrameZeroCleared(mem: Memory, t: nat, i: nat, e: nat)
    requires 0 < t < |mem| && |mem[t]| == ENTRIES && i < ENTRIES
    ensures var mem' := Poke(ZeroFrame(mem, 0), t, i, e);
      && |mem'| == |mem| && mem'[0] == Zeros() && Deref(mem', t, i) == e
  {
  }

  lemma StuckIfZero(g: PmmSpec.Geometry, w: World)
    requires PmmSpec.ValidGeometry(g) && PmmSpec.Owned(g, w.pool) && PmmSpec.Avail(w.pool) == 0
    requires 0 < |w.mem| && w.mem[0] == Zeros()
    ensures Stuck(g, w)
  {
  }

  /** The first step without a frame, from a table that is not frame 0. */
  lemma GetsStuck(g: PmmSpec.Geometry, w: World, p: Path, i: nat, flags: nat)
    requires Inv(g, w) && p in w.tabs && Depth(p) < 3 && i < ENTRIES && Sub(p, i) !in w.tabs
    requires PmmSpec.Avail(w.pool) == 0 && flags < PAGE_SIZE
    ensures var (w', t) := NextDir(g, w, p, w.tabs[p], i, flags);
      Stuck(g, w') && |w'.mem| == |w.mem| && |w'.mem[0]| == ENTRIES && t == 0
  {
    assert !Present(Deref(w.mem, w.tabs[p], i)) by {
      assert Linked(w.mem, w.tabs, p, i);
    }
    EmptyAlloc(g, w.pool);
    NullEntry(flags);
    FrameZeroCleared(w.mem, w.tabs[p], i, MakeEntry(0, flags));
    StuckIfZero(g, NextDir(g, w, p, w.tabs[p], i, flags).0);
  }

  /** Where a walk that reaches `q` can be: at the recorded table, or stuck at frame 0. */
  ghost predicate Reached(g: PmmSpec.Geometry, w: World, q: Path, t: nat, flags: nat) {
    || (Inv(g, w) && q in w.tabs && w.tabs[q] == t)
    || (Stuck(g, w) && |w.mem[0]| == ENTRIES && t == 0 && flags < PAGE_SIZE)
  }

  lemma ReachedInside(g: PmmSpec.Geometry, w: World, q: Path, t: nat, flags: nat)
    requires Reached(g, w, q, t, flags)
    ensures t < |w.mem|
  {
  }

  lemma SizeKept(g: PmmSpec.Geometry, w: World, p: Path, t: nat, i: nat, flags: nat)
    ensures var w' := NextDir(g, w, p, t, i, flags).0; |w'.mem| == |w.mem| && w.tabs.Keys <= w'.tabs.Keys
  {
  }

  lemma ReachStep(g: PmmSpec.Geometry, w: World, p: Path, t: nat, i: nat, flags: nat, nodes: set<Path>)
    requires Reached(g, w, p, t, flags) && Depth(p) < 3 && i < ENTRIES && Sub(p, i) in nodes && Fits(w, nodes, flags)
    ensures var (w', t') := NextDir(g, w, p, t, i, flags);
      Reached(g, w', Sub(p, i), t', flags) && Fits(w', nodes, flags)
  {
    SizeKept(g, w, p, t, i, flags);
    if !(Inv(g, w) && p in w.tabs && w.tabs[p] == t) {
      StuckStep(g, w, p, i, flags);
    } else if Sub(p, i) !in w.tabs && PmmSpec.Avail(w.pool) == 0 {
      GetsStuck(g, w, p, i, flags);
    } else {
      NextDirKeeps(g, w, p, i, flags);
    }
  }

  lemma ReachInside(g: PmmSpec.Geometry, w: World, p: Path, t: nat, i: nat, flags: nat, nodes: set<Path>)
    requires Reached(g, w, p, t, flags) && Depth(p) < 3 && i < ENTRIES && Sub(p, i) in nodes && Fits(w, nodes, flags)
    ensures var (w', t') := NextDir(g, w, p, t, i, flags);
      && Reached(g, w', Sub(p, i), t', flags) && Fits(w', nodes, flags)
      && |w'.mem| == |w.mem| && t < |w.mem| && t' < |w.mem|
  {
    ReachStep(g, w, p, t, i, flags, nodes);
    SizeKept(g, w, p, t, i, flags);
    var (w', t') := NextDir(g, w, p, t, i, flags);
    ReachedInside(g, w, p, t, flags);
    ReachedInside(g, w', Sub(p, i), t', flags);
  }

  /** From a table that was reached, the tables `paging_map` walks lie in memory. */
  lemma ReachedStaysInside(g: PmmSpec.Geometry, w: World, root: nat, pi: PageIndex, flags: nat)
    requires Reached(g, w, Root(root), root, flags) && Fits(w, NodesAt(root, pi), flags)
    requires pi.pdpt < ENTRIES && pi.pdt < ENTRIES && pi.pt < ENTRIES
    ensures WalkInside(g, w, root, pi, flags)
  {
    var p0, nodes := Root(root), NodesAt(root, pi);
    var p1 := Sub(p0, pi.pdpt);
    var p2 := Sub(p1, pi.pdt);
    assert Depth(p0) == 0 && Depth(p1) == 1 && Depth(p2) == 2;
    ThreeNodes(root, pi);
    ReachInside(g, w, p0, root, pi.pdpt, flags, nodes);
    var (w1, t1) := NextDir(g, w, p0, root, pi.pdpt, flags);
    ReachInside(g, w1, p1, t1, pi.pdt, flags, nodes);
    var (w2, t2) := NextDir(g, w1, p1, t1, pi.pdt, flags);
    ReachInside(g, w2, p2, t2, pi.pt, flags, nodes);
  }

  /** From a sound world the tables `paging_map` walks lie in memory, whatever the pool holds. */
  lemma WalkStaysInside(g: PmmSpec.Geometry, w: World, root: nat, pi: PageIndex, flags: nat)
    requires Inv(g, w) && Root(root) in w.tabs && Fits(w, NodesAt(root, pi), flags)
    requires pi.pdpt < ENTRIES && pi.pdt < ENTRIES && pi.pt < ENTRIES
    ensures WalkInside(g, w, root, pi, flags)
  {
    ReachedStaysInside(g, w, root, pi, flags);
  }

  // ----- no-execute

  /** A table pointer with PF_XD leads past memory, whose addresses have no bit 63. */
  lemma NoExecTarget(pa: nat, flags: nat)
    requires NoExec(flags)
    ensures Present(MakeEntry(pa, flags)) && 0x8_0000_0000_0000 <= Target(MakeEntry(pa, flags))
  {
    EntryPresent(pa, flags);
    assert PF_XD <= MakeEntry(pa, flags) by {
      if SharedBit(pa, flags) != 0 {
        assert PF_XD <= 4096 * (pa / 4096);
      }
    }
  }

  /** Entry `i` of the table at `p`, which callers own, points past memory. */
  ghost predicate Astray(g: PmmSpec.Geometry, w: World, p: Path, i: nat) {
    && PmmSpec.ValidGeometry(g) && PmmSpec.Owned(g, w.pool) && i < ENTRIES
    && p in w.tabs && Depth(p) < 3 && 0 < w.tabs[p] && PAGE_SIZE * w.tabs[p] in w.pool.live
    && Present(Deref(w.mem, w.tabs[p], i)) && |w.mem| <= Target(Deref(w.mem, w.tabs[p], i))
  }

  lemma AstrayNotInv(g: PmmSpec.Geometry, w: World, p: Path, i: nat)
    ensures !(Inv(g, w) && Astray(g, w, p, i))
  {
    if Inv(g, w) && p in w.tabs && Depth(p) < 3 && i < ENTRIES {
      assert Linked(w.mem, w.tabs, p, i);
    }
  }

  /** Zeroing a frame nobody owns and writing entries with PF_XD leave the entry astray. */
  lemma AstrayKept(mem: Memory, t: nat, i: nat, f: nat, t': nat, i': nat, e: nat)
    requires f != t && |mem| <= Target(Deref(mem, t, i)) && Present(Deref(mem, t, i))
    requires Present(e) && |mem| <= Target(e)
    ensures var mem' := Poke(ZeroFrame(mem, f), t', i', e);
      |mem'| == |mem| && |mem| <= Target(Deref(mem', t, i)) && Present(Deref(mem', t, i))
    ensures var mem' := Poke(mem, t', i', e);
      |mem'| == |mem| && |mem| <= Target(Deref(mem', t, i)) && Present(Deref(mem', t, i))
  {
  }

  lemma FrameOf(pa: nat, f: nat)
    requires pa % PAGE_SIZE == 0 && pa != PAGE_SIZE * f
    ensures pa / PAGE_SIZE != f
  {
  }

  /** An allocation never gives out the frame of an owned table, not even as the null address. */
  lemma AllocatedElsewhere(g: PmmSpec.Geometry, s: PmmSpec.State, f: nat)
    requires PmmSpec.ValidGeometry(g) && PmmSpec.Owned(g, s) && 0 < f && PAGE_SIZE * f in s.live
    ensures var (s', pa) := PmmSpec.Alloc(g, s); PmmSpec.Owned(g, s') && s.live <= s'.live && pa / PAGE_SIZE != f
  {
    PmmSpec.AllocMeaning(g, s);
    var pa := PmmSpec.Alloc(g, s).1;
    if pa != PHYS_ADDR_NULL {
      PmmSpec.FrameFacts(g, pa);
      FrameOf(pa, f);
    }
  }

  lemma NextDirAstray(g: PmmSpec.Geometry, w: World, q: Path, t: nat, j: nat, flags: nat, p: Path, i: nat)
    requires Astray(g, w, p, i) && Depth(p) <= Depth(q) && NoExec(flags) && |w.mem| <= 0x8_0000_0000_0000
    ensures var w' := NextDir(g, w, q, t, j, flags).0; |w'.mem| == |w.mem| && Astray(g, w', p, i)
  {
    var (pool, pa) := PmmSpec.Alloc(g, w.pool);
    AllocatedElsewhere(g, w.pool, w.tabs[p]);
    NoExecTarget(pa, flags);
    AstrayKept(w.mem, w.tabs[p], i, pa / PAGE_SIZE, t, j, MakeEntry(pa, flags));
    assert Depth(Sub(q, j)) == 1 + Depth(q);
  }

  lemma EntryWritten(mem: Memory, t: nat, i: nat, f: nat, e: nat)
    requires t < |mem| && i < |mem[t]| && f != t
    ensures |Poke(ZeroFrame(mem, f), t, i, e)| == |mem| && Deref(Poke(ZeroFrame(mem, f), t, i, e), t, i) == e
  {
  }

  /** The step that makes the first missing directory entry sends it astray. */
  lemma NextDirGoesAstray(g: PmmSpec.Geometry, w: World, p: Path, i: nat, flags: nat)
    requires Inv(g, w) && p in w.tabs && Depth(p) < 3 && i < ENTRIES && Sub(p, i) !in w.tabs
    requires NoExec(flags) && |w.mem| <= 0x8_0000_0000_0000
    ensures var w' := NextDir(g, w, p, w.tabs[p], i, flags).0; |w'.mem| == |w.mem| && Astray(g, w', p, i)
  {
    var (pool, pa) := PmmSpec.Alloc(g, w.pool);
    assert Linked(w.mem, w.tabs, p, i);
    AllocatedElsewhere(g, w.pool, w.tabs[p]);
    NoExecTarget(pa, flags);
    EntryWritten(w.mem, w.tabs[p], i, pa / PAGE_SIZE, MakeEntry(pa, flags));
    assert Sub(p, i) != p;
  }

  lemma DescendGoesAstray(g: PmmSpec.Geometry, w: World, root: nat, pi: PageIndex, flags: nat) returns (p: Path, i: nat)
    requires Inv(g, w) && Root(root) in w.tabs && !(NodesAt(root, pi) <= w.tabs.Keys)
    requires pi.pdpt < ENTRIES && pi.pdt < ENTRIES && pi.pt < ENTRIES
    requires NoExec(flags) && |w.mem| <= 0x8_0000_0000_0000
    ensures var w3 := Descend(g, w, root, pi, flags).0; |w3.mem| == |w.mem| && Astray(g, w3, p, i)
  {
    var p0 := Root(root);
    var p1 := Sub(p0, pi.pdpt);
    var p2 := Sub(p1, pi.pdt);
    assert Depth(p0) == 0 && Depth(p1) == 1 && Depth(p2) == 2 && w.tabs[p0] == root;
    var (w1, t1) := NextDir(g, w, p0, root, pi.pdpt, flags);
    var (w2, t2) := NextDir(g, w1, p1, t1, pi.pdt, flags);
    if p1 !in w.tabs {
      p, i := p0, pi.pdpt;
      NextDirGoesAstray(g, w, p0, pi.pdpt, flags);
      NextDirAstray(g, w1, p1, t1, pi.pdt, flags, p, i);
      NextDirAstray(g, w2, p2, t2, pi.pt, flags, p, i);
    } else {
      assert Linked(w.mem, w.tabs, p0, pi.pdpt);
      if p2 !in w.tabs {
        p, i := p1, pi.pdt;
        NextDirGoesAstray(g, w, p1, pi.pdt, flags);
        NextDirAstray(g, w2, p2, t2, pi.pt, flags, p, i);
      } else {
        assert Linked(w.mem, w.tabs, p1, pi.pdt);
        ThreeNodes(root, pi);
        p, i := p2, pi.pt;
        NextDirGoesAstray(g, w, p2, pi.pt, flags);
      }
    }
  }

  /**
   With PF_XD in the flags, as `vmm_map` passes it for a page that must not be executed, `paging_map` keeps the tables
   a forest exactly when every directory on the way exists already.
   */
  lemma MapNoExecIff(g: PmmSpec.Geometry, w: World, root: nat, pa: nat, va: nat, flags: nat)
    requires Inv(g, w) && Root(root) in w.tabs && NoExec(flags) && |w.mem| <= 0x8_0000_0000_0000
    ensures Inv(g, Map(g, w, root, pa, va, flags)) <==> NodesOf(root, va) <= w.tabs.Keys
  {
    var pi := VaddrToPgInd(va);
    if NodesOf(root, va) <= w.tabs.Keys {
      NoneMissing(w, NodesOf(root, va));
      MapMeaning(g, w, root, pa, va, flags);
    } else {
      var p, i := DescendGoesAstray(g, w, root, pi, flags);
      var (w3, t) := Descend(g, w, root, pi, flags);
      NoExecTarget(pa, flags);
      AstrayKept(w3.mem, w3.tabs[p], i, w3.tabs[p] + 1, t, pi.pg, MakeEntry(pa, flags));
      AstrayNotInv(g, Map(g, w, root, pa, va, flags), p, i);
    }
  }
}
