/**
 The address spaces that `paging_create_map` and `vmm_init` build, address by address: where the processor takes each
 one, and which ones it does not find.
 */
module AddressSpace {
  import opened Common
  import opened Words
  import PmmSpec
  import Pmm
  import opened PageTables
  import opened PageRuns
  import opened Mmu
  import opened VmmSpec
  import HeapGrowth

  /** Addresses whose bits 48 to 63 repeat bit 47. */
  predicate Canonical(va: nat) {
    va < 0x8000_0000_0000 || 0xffff_8000_0000_0000 <= va < TWO64
  }

  // ----- the flags of vmm_map

  lemma SmallFlagBit(low: nat, i: nat)
    requires low < 32
    ensures Bit(low, i) ==> i < 5
    ensures (Bit(low, 0) <==> low % 2 == 1) && (Bit(low, 1) <==> low / 2 % 2 == 1)
      && (Bit(low, 2) <==> low / 4 % 2 == 1)
    ensures (Bit(low, 3) <==> low / 8 % 2 == 1) && (Bit(low, 4) <==> low / 16 % 2 == 1)
  {
    assert Pow(2, 0) == 1 && Pow(2, 1) == 2 && Pow(2, 2) == 4 && Pow(2, 3) == 8;
    assert Pow(2, 4) == 16 && Pow(2, 5) == 32;
    BitOfParts(5, 0, low, i);
    if 5 <= i {
      NoBits(i - 5);
    }
  }

  /** `vmm_map` passes on P always, R/W, PCD and XD as it is asked, and nothing else. */
  lemma FlagBits(write: bool, noExec: bool, noCache: bool, i: nat)
    requires i < 64
    ensures Bit(X86Flags(write, noExec, noCache), i) <==>
      i == 0 || (i == 1 && write) || (i == 4 && noCache) || (i == 63 && noExec)
    ensures X86Flags(true, false, false) == WRITE_FLAGS
  {
    var low := X86Flags(write, false, noCache);
    SmallFlagBit(low, i);
    if noExec {
      XdBit(low, i);
    }
  }

  // ----- paging_create_map

  lemma PlainEntry(pa: nat)
    ensures MakeEntry(pa, PF_RW) == MakeEntry(pa, WRITE_FLAGS) == pa - pa % 4096 + 3
      && !Bit(MakeEntry(pa, WRITE_FLAGS), 2)
  {
    LowEntryBit(pa, 3, 2);
    WordBit(0, 3, 2);
    assert Pow(2, 2) == 4;
  }

  /** Pages of the first megabyte, by address. */
  lemma LowPage(root: nat, va: nat) returns (k: nat)
    requires va < 0x10_0000
    ensures k < |FirstMegabyte()| && PagePath(root, FirstMegabyte()[k].va) == PagePath(root, va)
    ensures FirstMegabyte()[k] == Page(va - va % 4096, va - va % 4096)
  {
    k := va / 4096;
    PagesApart(root, 4096 * k, va);
  }

  lemma LowPageRange(k: nat)
    requires k < |FirstMegabyte()|
    ensures FirstMegabyte()[k] == Page(4096 * k, 4096 * k) && 4096 * k + 4096 <= 0x10_0000
  {
  }

  /** The entry of an address below one megabyte in the finite map of a new address space. */
  lemma LowInMap(am: PageMap, root: nat, va: nat)
    requires va < 0x10_0000
    ensures InMap(PutPages(am, root, FirstMegabyte(), |FirstMegabyte()|, PF_RW), root, Page(va, va))
  {
    var ps, q := FirstMegabyte(), PagePath(root, va);
    var k := LowPage(root, va);
    forall j | 0 <= j < |ps| && PagePath(root, ps[j].va) == q
      ensures MakeEntry(ps[j].pa, PF_RW) == MakeEntry(va, WRITE_FLAGS)
    {
      LowPageRange(j);
      PagesApart(root, ps[j].va, va);
      PlainEntry(ps[j].pa);
      PlainEntry(va);
    }
    PutPagesSame(am, root, ps, |ps|, PF_RW, q, MakeEntry(va, WRITE_FLAGS));
  }

  lemma LowElsewhere(am: PageMap, root: nat, va: nat)
    requires Canonical(va) && 0x10_0000 <= va
    ensures PagePath(root, va) in PutPages(am, root, FirstMegabyte(), |FirstMegabyte()|, PF_RW)
      <==> PagePath(root, va) in am
  {
    var ps, q := FirstMegabyte(), PagePath(root, va);
    forall k | 0 <= k < |ps| ensures PagePath(root, ps[k].va) != q {
      LowPageRange(k);
      PagesApart(root, ps[k].va, va);
    }
    PutPagesElsewhere(am, root, ps, |ps|, PF_RW, q);
  }

  lemma NewRootEmpty(w: World, am: PageMap, root: nat, va: nat)
    requires Agrees(w, am) && Root(root) !in w.tabs
    ensures PagePath(root, va) !in am
  {
    assert !PageIn(w, PagePath(root, va));
  }

  lemma LookupInMap(w: World, am: PageMap, root: nat, va: nat)
    requires Agrees(w, am) && Root(root) in w.tabs
    ensures Lookup(w.mem, PagePath(root, va)) == if PagePath(root, va) in am then Some(am[PagePath(root, va)]) else None
  {
    assert PageIn(w, PagePath(root, va));
  }

  /** The finite map of a new address space. */
  lemma CreateInMap(w: World, am: PageMap, root: nat, va: nat)
    requires Agrees(w, am) && Root(root) !in w.tabs && Canonical(va)
    ensures var am' := PutPages(am, root, FirstMegabyte(), |FirstMegabyte()|, PF_RW);
      if va < 0x10_0000 then InMap(am', root, Page(va, va)) else PagePath(root, va) !in am'
  {
    if va < 0x10_0000 {
      LowInMap(am, root, va);
    } else {
      LowElsewhere(am, root, va);
      NewRootEmpty(w, am, root, va);
    }
  }

  /** The finite map holds the first megabyte of a space and nothing else of it. */
  ghost predicate LowMap(am: PageMap, root: nat) {
    forall va: nat :: Canonical(va) ==>
      if va < 0x10_0000 then InMap(am, root, Page(va, va)) else PagePath(root, va) !in am
  }

  lemma CreateHasLowMap(w: World, am: PageMap, root: nat)
    requires Agrees(w, am) && Root(root) !in w.tabs
    ensures LowMap(PutPages(am, root, FirstMegabyte(), |FirstMegabyte()|, PF_RW), root)
  {
    forall va: nat | Canonical(va)
      ensures var am' := PutPages(am, root, FirstMegabyte(), |FirstMegabyte()|, PF_RW);
        if va < 0x10_0000 then InMap(am', root, Page(va, va)) else PagePath(root, va) !in am'
    {
      CreateInMap(w, am, root, va);
    }
  }

  /**
   Every address below one megabyte leads to itself, by a word with bits 0 and 1 and the bits of the address from 12 on;
   no other address leads anywhere.
   */
  ghost predicate LowEntries(mem: Memory, root: nat) {
    forall va: nat :: Canonical(va) ==>
      Lookup(mem, PagePath(root, va)) == if va < 0x10_0000 then Some(va - va % 4096 + 3) else None
  }

  lemma LowEntriesFromMap(w: World, am: PageMap, root: nat)
    requires Agrees(w, am) && Root(root) in w.tabs && LowMap(am, root)
    ensures LowEntries(w.mem, root)
  {
    forall va: nat | Canonical(va)
      ensures Lookup(w.mem, PagePath(root, va)) == if va < 0x10_0000 then Some(va - va % 4096 + 3) else None
    {
      LookupInMap(w, am, root, va);
      PlainEntry(va);
    }
  }

  /** What `paging_create_map` leaves in the tables of its new space. */
  lemma CreatePages(g: PmmSpec.Geometry, w: World, am: PageMap)
    requires Inv(g, w) && Agrees(w, am) && Legal(w, Create)
    ensures LowEntries(CreateMap(g, w).0.mem, CreateMap(g, w).1)
  {
    var (w', root) := CreateMap(g, w);
    CreateStep(g, w, am);
    CreateHasLowMap(w, am, root);
    LowEntriesFromMap(w', PutPages(am, root, FirstMegabyte(), |FirstMegabyte()|, PF_RW), root);
  }

  // ----- an address space as the processor sees it

  /** Where the processor takes each address of a map. */
  type View = nat -> Option<Access>

  function ViewOf(mem: Memory, root: nat): View {
    (va: nat) => Translate(mem, PAGE_SIZE * root, va)
  }

  /** The byte of `pa`'s frame that `va` names, on a page of the kernel. */
  function AccessAt(pa: nat, va: nat): Access {
    KernelByte(pa - pa % 4096, va)
  }

  /** The pages of a finite map, by every address they have, and the addresses that have none. */
  datatype Chart = Chart(pages: iset<Page>, gaps: iset<nat>)

  ghost function ChartOf(am: PageMap, root: nat): Chart {
    Chart(iset p: Page | InMap(am, root, p), iset va: nat | PagePath(root, va) !in am)
  }

  /** The processor finds the pages of the chart, and no others. */
  ghost predicate Shows(view: View, chart: Chart) {
    && (forall p :: p in chart.pages && p.pa < 0x10_0000_0000_0000 ==> view(p.va) == Some(AccessAt(p.pa, p.va)))
    && (forall va :: va in chart.gaps ==> view(va) == None)
  }

  /** The addresses of a page share its frame. */
  ghost predicate WholePages(chart: Chart) {
    forall p, vb: nat :: p in chart.pages && Canonical(p.va) && Canonical(vb) && p.va / 4096 == vb / 4096 ==>
      Page(p.pa, vb) in chart.pages
  }

  lemma ChartWhole(am: PageMap, root: nat)
    ensures WholePages(ChartOf(am, root))
  {
    var chart := ChartOf(am, root);
    forall p, vb: nat | p in chart.pages && Canonical(p.va) && Canonical(vb) && p.va / 4096 == vb / 4096
      ensures Page(p.pa, vb) in chart.pages
    {
      PagesApart(root, p.va, vb);
    }
  }

  lemma PlainFrame(pa: nat, va: nat) returns (base: nat)
    requires pa < 0x10_0000_0000_0000
    ensures !Bit(MakeEntry(pa, WRITE_FLAGS), 2) && base == PAGE_SIZE * PhysFrame(MakeEntry(pa, WRITE_FLAGS))
    ensures AccessAt(pa, va) == KernelByte(base, va)
  {
    base := pa - pa % 4096;
    PlainEntry(pa);
    EntryFrame(pa, WRITE_FLAGS);
  }

  lemma PlainAccess(mem: Memory, tabs: map<Path, nat>, root: nat, va: nat, pa: nat, base: nat)
    requires Tree(mem, tabs) && SmallTables(tabs) && Root(root) in tabs
    requires !Bit(MakeEntry(pa, WRITE_FLAGS), 2) && base == PAGE_SIZE * PhysFrame(MakeEntry(pa, WRITE_FLAGS))
    requires Lookup(mem, PagePath(root, va)) == Some(MakeEntry(pa, WRITE_FLAGS)) && WritableTo(mem, PagePath(root, va))
    ensures ViewOf(mem, root)(va) == Some(KernelByte(base, va))
  {
    KernelAccess(mem, tabs, root, va, MakeEntry(pa, WRITE_FLAGS), base);
  }

  lemma StageShows(g: PmmSpec.Geometry, w: World, am: PageMap, root: nat)
    requires Stage(g, w, am, root) && PhysSmall(g)
    ensures Shows(ViewOf(w.mem, root), ChartOf(am, root)) && WholePages(ChartOf(am, root))
  {
    var view, chart := ViewOf(w.mem, root), ChartOf(am, root);
    TablesSmall(g, w);
    forall p | p in chart.pages && p.pa < 0x10_0000_0000_0000 ensures view(p.va) == Some(AccessAt(p.pa, p.va)) {
      MapsToIs(g, w, am, root, p);
      var base := PlainFrame(p.pa, p.va);
      PlainAccess(w.mem, w.tabs, root, p.va, p.pa, base);
    }
    forall va | va in chart.gaps ensures view(va) == None {
      LookupInMap(w, am, root, va);
      NoAccess(w.mem, w.tabs, root, va);
    }
    ChartWhole(am, root);
  }

  // ----- paging_create_map

  function CreateView(g: PmmSpec.Geometry, w: World): View {
    ViewOf(CreateMap(g, w).0.mem, CreateMap(g, w).1)
  }

  /** The first megabyte at its own addresses, and nothing else. */
  ghost predicate OnlyFirstMegabyte(view: View) {
    forall va: nat :: Canonical(va) ==> view(va) == if va < 0x10_0000 then Some(Access(va, true, false)) else None
  }

  lemma OwnByte(va: nat)
    ensures AccessAt(va, va) == Access(va, true, false)
  {
  }

  ghost predicate LowChart(chart: Chart) {
    forall va: nat :: Canonical(va) ==> if va < 0x10_0000 then Page(va, va) in chart.pages else va in chart.gaps
  }

  lemma MegabyteFromChart(view: View, chart: Chart)
    requires Shows(view, chart) && LowChart(chart)
    ensures OnlyFirstMegabyte(view)
  {
    forall va: nat | Canonical(va)
      ensures view(va) == if va < 0x10_0000 then Some(Access(va, true, false)) else None
    {
      OwnByte(va);
    }
  }

  /** In the space `paging_create_map` makes, the processor finds exactly the first megabyte. */
  lemma CreateSpaceIs(g: PmmSpec.Geometry, w: World, am: PageMap)
    requires Inv(g, w) && Agrees(w, am) && AllWritable(w) && Legal(w, Create) && PhysSmall(g)
    ensures OnlyFirstMegabyte(CreateView(g, w))
  {
    var (w', root) := CreateMap(g, w);
    var am' := PutPages(am, root, FirstMegabyte(), |FirstMegabyte()|, PF_RW);
    CreateStep(g, w, am);
    CreateHasLowMap(w, am, root);
    StageShows(g, w', am', root);
    MegabyteFromChart(ViewOf(w'.mem, root), ChartOf(am', root));
  }

  // ----- vmm_init: the kernel image

  /** A byte of a loop's range lies in the page of its round. */
  lemma RoundOf(size: nat, i: nat)
    requires i < size
    ensures i / 4096 < PageCount(size) && 4096 * (i / 4096) <= i < 4096 * (i / 4096) + 4096
  {
  }

  /** The rounds of the kernel loop, by byte. */
  lemma KernelRound(c: Boot, i: nat)
    requires ValidBoot(c) && i < c.ksize
    ensures var k := i / 4096;
      k < |KernelPages(c)| && KernelPages(c)[k] == Page(c.kphys + 4096 * k, c.kvirt + 4096 * k)
  {
    RoundOf(c.ksize, i);
    KernelPageIs(c, i / 4096);
  }

  /** Every byte of the kernel image lies in a page that leads, writable, to where the boot loader put it. */
  ghost predicate KernelPagesLead(mem: Memory, root: nat, c: Boot) {
    forall i: nat :: i < c.ksize ==>
      var pa, q := c.kphys + 4096 * (i / 4096), PagePath(root, c.kvirt + 4096 * (i / 4096));
      Lookup(mem, q) == Some(pa - pa % 4096 + 3) && WritableTo(mem, q)
  }

  lemma KernelLeads(w: World, root: nat, c: Boot)
    requires ValidBoot(c) && AllMapped(w, root, KernelPages(c))
    ensures KernelPagesLead(w.mem, root, c)
  {
    forall i: nat | i < c.ksize
      ensures var pa, q := c.kphys + 4096 * (i / 4096), PagePath(root, c.kvirt + 4096 * (i / 4096));
        Lookup(w.mem, q) == Some(pa - pa % 4096 + 3) && WritableTo(w.mem, q)
    {
      var k := i / 4096;
      KernelRound(c, i);
      assert MapsTo(w, root, KernelPages(c)[k]);
      PlainEntry(KernelPages(c)[k].pa);
    }
  }

  /** `vmm_init` maps every byte of the kernel image, wherever the boot loader put it. */
  lemma KernelIsMapped(g: PmmSpec.Geometry, w: World, am: PageMap, c: Boot)
    requires Inv(g, w) && Agrees(w, am) && AllWritable(w) && ValidBoot(c) && LegalBoot(g, w, c)
    ensures KernelPagesLead(VmmInit(g, w, c).mem, CreateMap(g, w).1, c)
  {
    BootMaps(g, w, am, c);
    KernelLeads(VmmInit(g, w, c), CreateMap(g, w).1, c);
  }

  // ----- vmm_init: the whole space

  ghost predicate HasPages(chart: Chart, ps: seq<Page>) {
    forall k :: 0 <= k < |ps| ==> ps[k] in chart.pages
  }

  /** A page of the chart, reached by any of its addresses. */
  lemma ShowsPage(view: View, chart: Chart, p: Page, vb: nat)
    requires Shows(view, chart) && WholePages(chart) && p in chart.pages && p.pa % 4096 == 0
    requires p.pa < 0x10_0000_0000_0000 && Canonical(p.va) && Canonical(vb) && p.va / 4096 == vb / 4096
    ensures view(vb) == Some(Access(p.pa + vb % 4096, true, false))
  {
    assert Page(p.pa, vb) in chart.pages;
  }

  /** The page of a byte `i` of a range that starts on a page boundary. */
  lemma RoundPage(base: nat, i: nat, k: nat)
    requires base % 4096 == 0 && k == i / 4096
    ensures (base + 4096 * k) / 4096 == (base + i) / 4096 && (base + 4096 * k) % 4096 == 0
    ensures base + 4096 * k + i % 4096 == base + i && (base + i) % 4096 == i % 4096
  {
  }

  /** The boot loader puts the kernel on page boundaries, below 2^52. */
  predicate KernelAligned(c: Boot) {
    c.kphys % 4096 == 0 && c.kvirt % 4096 == 0 && c.kphys + c.ksize <= 0x10_0000_0000_0000
  }

  predicate InImage(c: Boot, va: nat) {
    c.kvirt <= va < c.kvirt + c.ksize
  }

  /** The kernel image at its addresses, byte for byte. */
  ghost predicate KernelAt(view: View, c: Boot) {
    forall va: nat :: InImage(c, va) ==> view(va) == Some(Access(c.kphys + (va - c.kvirt), true, false))
  }

  lemma KernelPageOf(c: Boot, va: nat) returns (k: nat, p: Page)
    requires ValidBoot(c) && KernelAligned(c) && InImage(c, va)
    ensures k < |KernelPages(c)| && KernelPages(c)[k] == p && p.va / 4096 == va / 4096
    ensures p.pa % 4096 == 0 && p.pa < 0x10_0000_0000_0000 && p.pa + va % 4096 == c.kphys + (va - c.kvirt)
    ensures Canonical(va) && Canonical(p.va)
  {
    var i := va - c.kvirt;
    k := i / 4096;
    KernelRound(c, i);
    RoundOf(c.ksize, i);
    p := KernelPages(c)[k];
    RoundPage(c.kphys, i, k);
    RoundPage(c.kvirt, i, k);
  }

  lemma KernelFound(view: View, chart: Chart, c: Boot)
    requires ValidBoot(c) && KernelAligned(c) && Shows(view, chart) && WholePages(chart)
      && HasPages(chart, KernelPages(c))
    ensures KernelAt(view, c)
  {
    forall va: nat | InImage(c, va) ensures view(va) == Some(Access(c.kphys + (va - c.kvirt), true, false)) {
      var k, p := KernelPageOf(c, va);
      ShowsPage(view, chart, p, va);
    }
  }

  predicate InRegion(c: Boot, e: nat, va: nat) {
    e < |c.ents| && c.ents[e].base <= va < c.ents[e].base + c.ents[e].size
  }

  /** Usable memory at its own addresses. */
  ghost predicate MemoryAt(view: View, c: Boot) {
    forall e: nat, va: nat :: InRegion(c, e, va) ==> view(va) == Some(Access(va, true, false))
  }

  lemma RegionPageOf(c: Boot, e: nat, va: nat) returns (k: nat, p: Page)
    requires ValidBoot(c) && InRegion(c, e, va)
    ensures k < |RegionPages(c.ents[e])| && RegionPages(c.ents[e])[k] == p && p.va / 4096 == va / 4096
    ensures p.pa % 4096 == 0 && p.pa < 0x10_0000_0000_0000 && p.pa + va % 4096 == va
    ensures Canonical(va) && Canonical(p.va)
  {
    var base, i := c.ents[e].base, va - c.ents[e].base;
    k := i / 4096;
    RoundOf(c.ents[e].size, i);
    RegionPageIs(c, e, k);
    p := RegionPages(c.ents[e])[k];
    RoundPage(base, i, k);
  }

  lemma MemoryByte(view: View, chart: Chart, c: Boot, e: nat, va: nat)
    requires ValidBoot(c) && Shows(view, chart) && WholePages(chart) && InRegion(c, e, va)
      && HasPages(chart, RegionPages(c.ents[e]))
    ensures view(va) == Some(Access(va, true, false))
  {
    var k, p := RegionPageOf(c, e, va);
    ShowsPage(view, chart, p, va);
  }

  ghost predicate HasRegions(chart: Chart, c: Boot) {
    forall e :: 0 <= e < |c.ents| ==> HasPages(chart, RegionPages(c.ents[e]))
  }

  lemma MemoryFound(view: View, chart: Chart, c: Boot)
    requires ValidBoot(c) && Shows(view, chart) && WholePages(chart)
    requires HasRegions(chart, c)
    ensures MemoryAt(view, c)
  {
    forall e: nat, va: nat | InRegion(c, e, va) ensures view(va) == Some(Access(va, true, false)) {
      MemoryByte(view, chart, c, e, va);
    }
  }

  predicate InStack(va: nat) {
    0xffff_ffff_4000_0000 <= va < 0xffff_ffff_4000_8000
  }

  /** The stack: 32 KiB, a frame for each page. */
  ghost predicate StackAt(view: View, frames: seq<nat>) {
    |frames| == 8 && forall va: nat :: InStack(va) ==>
      view(va) == Some(Access(frames[(va - 0xffff_ffff_4000_0000) / 4096] + va % 4096, true, false))
  }

  lemma StackPageOf(va: nat) returns (k: nat, v: nat)
    requires InStack(va)
    ensures k == (va - 0xffff_ffff_4000_0000) / 4096 < K_STK_PAGES && StackRange()[k] == v && v / 4096 == va / 4096
    ensures Canonical(va) && Canonical(v)
  {
    var i := va - 0xffff_ffff_4000_0000;
    k := i / 4096;
    StackPageIs(k);
    v := StackRange()[k];
    RoundPage(0xffff_ffff_4000_0000, i, k);
  }

  ghost predicate HasStack(chart: Chart, frames: seq<nat>) {
    && |frames| == K_STK_PAGES
    && (forall k :: 0 <= k < K_STK_PAGES ==> Page(frames[k], StackRange()[k]) in chart.pages)
    && (forall k :: 0 <= k < K_STK_PAGES ==> frames[k] % 4096 == 0 && frames[k] < 0x10_0000_0000_0000)
  }

  lemma StackFound(view: View, chart: Chart, frames: seq<nat>)
    requires Shows(view, chart) && WholePages(chart) && HasStack(chart, frames)
    ensures StackAt(view, frames)
  {
    forall va: nat | InStack(va)
      ensures view(va) == Some(Access(frames[(va - 0xffff_ffff_4000_0000) / 4096] + va % 4096, true, false))
    {
      var k, v := StackPageOf(va);
      assert Page(frames[k], StackRange()[k]) in chart.pages;
      ShowsPage(view, chart, Page(frames[k], v), va);
    }
  }

  // ----- nothing else is mapped

  /** The pages of the kernel image. */
  predicate InKernelPage(c: Boot, k: nat, va: nat) {
    4096 * k < c.ksize && va / 4096 == (c.kvirt + 4096 * k) / 4096
  }

  /** The addresses `vmm_init` is to map. */
  ghost predicate ToBeMapped(c: Boot, va: nat) {
    || va < 0x10_0000
    || (exists k: nat :: InKernelPage(c, k, va))
    || (exists e: nat :: InRegion(c, e, va))
    || InStack(va)
  }

  lemma NotKernel(root: nat, c: Boot, va: nat)
    requires ValidBoot(c) && Canonical(va) && forall k: nat :: !InKernelPage(c, k, va)
    ensures forall k :: 0 <= k < |KernelPages(c)| ==> PagePath(root, KernelPages(c)[k].va) != PagePath(root, va)
  {
    forall k | 0 <= k < |KernelPages(c)| ensures PagePath(root, KernelPages(c)[k].va) != PagePath(root, va) {
      KernelPageIs(c, k);
      PageInside(c.ksize, k);
      assert !InKernelPage(c, k, va);
      PagesApart(root, KernelPages(c)[k].va, va);
    }
  }

  lemma PageOfRegion(base: nat, size: nat, k: nat, va: nat)
    requires base % 4096 == 0 && size % 4096 == 0 && 4096 * k < size && va / 4096 == (base + 4096 * k) / 4096
    ensures base <= va < base + size
  {
  }

  lemma NotMemory(root: nat, c: Boot, va: nat)
    requires ValidBoot(c) && Canonical(va) && forall e: nat :: !InRegion(c, e, va)
    ensures forall e, k :: 0 <= e < |c.ents| && 0 <= k < |RegionPages(c.ents[e])| ==>
      PagePath(root, RegionPages(c.ents[e])[k].va) != PagePath(root, va)
  {
    forall e, k | 0 <= e < |c.ents| && 0 <= k < |RegionPages(c.ents[e])|
      ensures PagePath(root, RegionPages(c.ents[e])[k].va) != PagePath(root, va)
    {
      RegionPageIs(c, e, k);
      PageInside(c.ents[e].size, k);
      PagesApart(root, RegionPages(c.ents[e])[k].va, va);
      assert !InRegion(c, e, va);
      if va / 4096 == RegionPages(c.ents[e])[k].va / 4096 {
        PageOfRegion(c.ents[e].base, c.ents[e].size, k, va);
      }
    }
  }

  lemma NotStack(root: nat, va: nat)
    requires Canonical(va) && !InStack(va)
    ensures forall k :: 0 <= k < K_STK_PAGES ==> PagePath(root, StackRange()[k]) != PagePath(root, va)
  {
    forall k | 0 <= k < K_STK_PAGES ensures PagePath(root, StackRange()[k]) != PagePath(root, va) {
      StackPageIs(k);
      PagesApart(root, StackRange()[k], va);
    }
  }

  /** An address in none of the other parts has the entry that `paging_create_map` gave it. */
  lemma OnlyCreated(g: PmmSpec.Geometry, w: World, am: PageMap, c: Boot, root: nat, va: nat)
    requires ValidBoot(c) && Canonical(va) && root == CreateMap(g, w).1
    requires forall k: nat :: !InKernelPage(c, k, va)
    requires forall e: nat :: !InRegion(c, e, va)
    requires !InStack(va)
    ensures var low := PutPages(am, root, FirstMegabyte(), |FirstMegabyte()|, PF_RW);
      var q, am' := PagePath(root, va), PutBoot(g, w, am, c);
      (q in am' <==> q in low) && (q in low ==> am'[q] == low[q])
  {
    var q, ps := PagePath(root, va), KernelPages(c);
    NotKernel(root, c, va);
    PutPagesElsewhere(PutPages(am, root, FirstMegabyte(), |FirstMegabyte()|, PF_RW), root, ps, |ps|, WRITE_FLAGS, q);
    NotMemory(root, c, va);
    RegionsElsewhere(PutKernel(g, w, am, c), root, c.ents, |c.ents|, q);
    NotStack(root, va);
    GrowthElsewhere(g, AfterRegions(g, w, c), PutMemory(g, w, am, c), root, StackRange(), |StackRange()|, q);
  }

  lemma LowApart(c: Boot, va: nat)
    requires ValidBoot(c) && va < 0x10_0000
    ensures Canonical(va) && !InStack(va) && forall k: nat :: !InKernelPage(c, k, va)
  {
  }

  /** The first megabyte at its own addresses, whether or not it is usable memory. */
  ghost predicate LowAt(view: View) {
    forall va: nat :: va < 0x10_0000 ==> view(va) == Some(Access(va, true, false))
  }

  /** The finite map of `vmm_init` has the first megabyte, short of usable memory, as `paging_create_map` left it. */
  lemma LowStays(g: PmmSpec.Geometry, w: World, am: PageMap, c: Boot, va: nat)
    requires ValidBoot(c) && va < 0x10_0000 && forall e: nat :: !InRegion(c, e, va)
    ensures InMap(PutBoot(g, w, am, c), CreateMap(g, w).1, Page(va, va))
  {
    var root := CreateMap(g, w).1;
    LowApart(c, va);
    OnlyCreated(g, w, am, c, root, va);
    LowInMap(am, root, va);
  }

  ghost predicate LowRest(chart: Chart, c: Boot) {
    forall va: nat :: va < 0x10_0000 && (forall e: nat :: !InRegion(c, e, va)) ==> Page(va, va) in chart.pages
  }

  lemma LowFound(view: View, chart: Chart, c: Boot)
    requires Shows(view, chart) && MemoryAt(view, c) && LowRest(chart, c)
    ensures LowAt(view)
  {
    forall va: nat | va < 0x10_0000 ensures view(va) == Some(Access(va, true, false)) {
      if e: nat :| InRegion(c, e, va) {
      } else {
        assert Page(va, va) in chart.pages;
        OwnByte(va);
      }
    }
  }

  /** No other address is mapped. */
  ghost predicate NothingElse(view: View, c: Boot) {
    forall va: nat :: Canonical(va) && !ToBeMapped(c, va) ==> view(va) == None
  }

  lemma NotInMap(g: PmmSpec.Geometry, w: World, am: PageMap, c: Boot, va: nat)
    requires ValidBoot(c) && Agrees(w, am) && Root(CreateMap(g, w).1) !in w.tabs && Canonical(va) && !ToBeMapped(c, va)
    ensures PagePath(CreateMap(g, w).1, va) !in PutBoot(g, w, am, c)
  {
    var root := CreateMap(g, w).1;
    NewRootEmpty(w, am, root, va);
    LowElsewhere(am, root, va);
    OnlyCreated(g, w, am, c, root, va);
  }

  ghost predicate Rest(chart: Chart, c: Boot) {
    forall va: nat :: Canonical(va) && !ToBeMapped(c, va) ==> va in chart.gaps
  }

  lemma NothingElseFound(view: View, chart: Chart, c: Boot)
    requires Shows(view, chart) && Rest(chart, c)
    ensures NothingElse(view, c)
  {
  }

  // ----- all of it

  function BootView(g: PmmSpec.Geometry, w: World, c: Boot): View {
    ViewOf(VmmInit(g, w, c).mem, CreateMap(g, w).1)
  }

  ghost function BootChart(g: PmmSpec.Geometry, w: World, am: PageMap, c: Boot): Chart {
    ChartOf(PutBoot(g, w, am, c), CreateMap(g, w).1)
  }

  /** The frames behind the stack: handed out by the allocator, distinct, and no page tables. */
  ghost predicate OwnFrames(w: World, frames: seq<nat>) {
    && NoDup(frames)
    && (forall k :: 0 <= k < |frames| ==> frames[k] in w.pool.live)
    && (forall k, p :: 0 <= k < |frames| && p in w.tabs ==> PAGE_SIZE * w.tabs[p] != frames[k])
  }

  lemma BootHasPages(g: PmmSpec.Geometry, w: World, am: PageMap, c: Boot)
    requires ValidBoot(c)
    ensures HasPages(BootChart(g, w, am, c), KernelPages(c)) && HasRegions(BootChart(g, w, am, c), c)
  {
    var chart := BootChart(g, w, am, c);
    forall k | 0 <= k < |KernelPages(c)| ensures KernelPages(c)[k] in chart.pages {
      KernelInMap(g, w, am, c, k);
    }
    forall e | 0 <= e < |c.ents| ensures HasPages(chart, RegionPages(c.ents[e])) {
      forall k | 0 <= k < |RegionPages(c.ents[e])| ensures RegionPages(c.ents[e])[k] in chart.pages {
        MemoryInMap(g, w, am, c, e, k);
      }
    }
  }

  /** The finite map of `vmm_init` outside the kernel image, usable memory and the stack. */
  lemma BootRest(g: PmmSpec.Geometry, w: World, am: PageMap, c: Boot)
    requires ValidBoot(c) && Agrees(w, am) && Root(CreateMap(g, w).1) !in w.tabs
    ensures LowRest(BootChart(g, w, am, c), c) && Rest(BootChart(g, w, am, c), c)
  {
    var chart := BootChart(g, w, am, c);
    forall va: nat | va < 0x10_0000 && (forall e: nat :: !InRegion(c, e, va)) ensures Page(va, va) in chart.pages {
      LowStays(g, w, am, c, va);
    }
    forall va: nat | Canonical(va) && !ToBeMapped(c, va) ensures va in chart.gaps {
      NotInMap(g, w, am, c, va);
    }
  }

  lemma BootHasStack(g: PmmSpec.Geometry, w: World, am: PageMap, root: nat, frames: seq<nat>)
    requires Inv(g, w) && PhysSmall(g) && |frames| == K_STK_PAGES && Backs(w, am, root, StackRange(), frames)
    ensures HasStack(ChartOf(am, root), frames) && OwnFrames(w, frames)
  {
    forall k | 0 <= k < K_STK_PAGES ensures frames[k] % 4096 == 0 && frames[k] < 0x10_0000_0000_0000 {
      SmallFrame(g, w, frames[k]);
    }
  }

  lemma SpaceFromChart(view: View, chart: Chart, c: Boot, frames: seq<nat>)
    requires ValidBoot(c) && Shows(view, chart) && WholePages(chart)
    requires HasPages(chart, KernelPages(c)) && HasRegions(chart, c) && HasStack(chart, frames)
    requires LowRest(chart, c) && Rest(chart, c)
    ensures MemoryAt(view, c) && LowAt(view) && StackAt(view, frames) && NothingElse(view, c)
    ensures KernelAligned(c) ==> KernelAt(view, c)
  {
    MemoryFound(view, chart, c);
    LowFound(view, chart, c);
    StackFound(view, chart, frames);
    NothingElseFound(view, chart, c);
    if KernelAligned(c) {
      KernelFound(view, chart, c);
    }
  }

  /**
   After `vmm_init`, address by address: usable memory and the first megabyte are found at themselves, the kernel image
   where the boot loader put it, the stack on eight frames of its own, all of it writable and closed to user mode; and
   no other address is found.
   */
  lemma BootSpaceIs(g: PmmSpec.Geometry, w: World, am: PageMap, c: Boot)
    requires Inv(g, w) && Agrees(w, am) && AllWritable(w) && ValidBoot(c) && LegalBoot(g, w, c) && PhysSmall(g)
    ensures var view := BootView(g, w, c);
      && MemoryAt(view, c) && LowAt(view) && StackAt(view, StackFrames(g, w, c)) && NothingElse(view, c)
      && (KernelAligned(c) ==> KernelAt(view, c))
    ensures OwnFrames(VmmInit(g, w, c), StackFrames(g, w, c))
  {
    var root, w', am' := CreateMap(g, w).1, VmmInit(g, w, c), PutBoot(g, w, am, c);
    CreateStep(g, w, am);
    BootStages(g, w, am, c);
    StageShows(g, w', am', root);
    BootHasPages(g, w, am, c);
    BootRest(g, w, am, c);
    BootHasStack(g, w', am', root, StackFrames(g, w, c));
    SpaceFromChart(ViewOf(w'.mem, root), ChartOf(am', root), c, StackFrames(g, w, c));
  }

  // ----- the heap

  predicate InHeapPages(va: nat, n: nat) {
    0xffff_fbbb_0000_0000 <= va < 0xffff_fbbb_0000_0000 + 4096 * n
  }

  /** The pages of the heap, byte for byte on frames of its own. */
  ghost predicate HeapAt(view: View, frames: seq<nat>) {
    forall va: nat :: InHeapPages(va, |frames|) ==>
      view(va) == Some(Access(frames[(va - 0xffff_fbbb_0000_0000) / 4096] + va % 4096, true, false))
  }

  ghost predicate HasHeap(chart: Chart, frames: seq<nat>) {
    && |frames| <= 0x4_0000
    && (forall k :: 0 <= k < |frames| ==> Page(frames[k], HeapGrowth.HeapRange()[k]) in chart.pages)
    && (forall k :: 0 <= k < |frames| ==> frames[k] % 4096 == 0 && frames[k] < 0x10_0000_0000_0000)
  }

  lemma HeapPageOf(va: nat, n: nat) returns (k: nat, v: nat)
    requires n <= 0x4_0000 && InHeapPages(va, n)
    ensures k == (va - 0xffff_fbbb_0000_0000) / 4096 < n && HeapGrowth.HeapRange()[k] == v && v / 4096 == va / 4096
    ensures Canonical(va) && Canonical(v)
  {
    var i := va - 0xffff_fbbb_0000_0000;
    k := i / 4096;
    HeapGrowth.HeapVa(k);
    v := HeapGrowth.HeapRange()[k];
    RoundPage(0xffff_fbbb_0000_0000, i, k);
  }

  lemma HeapByte(view: View, chart: Chart, frames: seq<nat>, va: nat, k: nat, v: nat)
    requires Shows(view, chart) && WholePages(chart) && HasHeap(chart, frames) && k < |frames|
    requires HeapGrowth.HeapRange()[k] == v && v / 4096 == va / 4096 && Canonical(va) && Canonical(v)
    ensures view(va) == Some(Access(frames[k] + va % 4096, true, false))
  {
    assert Page(frames[k], HeapGrowth.HeapRange()[k]) in chart.pages;
    ShowsPage(view, chart, Page(frames[k], v), va);
  }

  lemma HeapFromChart(view: View, chart: Chart, frames: seq<nat>)
    requires Shows(view, chart) && WholePages(chart) && HasHeap(chart, frames)
    ensures HeapAt(view, frames)
  {
    forall va: nat | InHeapPages(va, |frames|)
      ensures view(va) == Some(Access(frames[(va - 0xffff_fbbb_0000_0000) / 4096] + va % 4096, true, false))
    {
      var k, v := HeapPageOf(va, |frames|);
      HeapByte(view, chart, frames, va, k, v);
    }
  }

  lemma HeapHasPages(g: PmmSpec.Geometry, w: World, am: PageMap, root: nat, frames: seq<nat>)
    requires Inv(g, w) && PhysSmall(g) && Backs(w, am, root, HeapGrowth.HeapRange(), frames)
    ensures HasHeap(ChartOf(am, root), frames) && OwnFrames(w, frames)
  {
    forall k | 0 <= k < |frames| ensures frames[k] % 4096 == 0 && frames[k] < 0x10_0000_0000_0000 {
      SmallFrame(g, w, frames[k]);
    }
  }

  /** Every byte of a sound heap is found, writable and closed to user mode, on frames no one else has. */
  lemma HeapFound(g: PmmSpec.Geometry, root: nat, k: HeapGrowth.Kernel)
    requires HeapGrowth.HeapOk(g, root, k) && PhysSmall(g)
    ensures |k.frames| == k.h.npages && HeapAt(ViewOf(k.w.mem, root), k.frames) && OwnFrames(k.w, k.frames)
  {
    StageShows(g, k.w, k.am, root);
    HeapHasPages(g, k.w, k.am, root, k.frames);
    HeapFromChart(ViewOf(k.w.mem, root), ChartOf(k.am, root), k.frames);
  }
}
