/**
 What the processor does with the words that paging.c writes: the bits of an entry, and the translation of an address
 by four-level paging (Intel SDM Vol. 3A, section 4.5), stated over bit positions.
 */
module Mmu {
  import opened Common
  import opened Words
  import PmmSpec
  import opened PageTables
  import opened PageRuns
  import PageData

  // ----- the bits of an entry

  lemma PresentOrBit(flags: nat, i: nat)
    ensures Bit(WithPresent(flags), i) <==> i == 0 || Bit(flags, i)
  {
    if i > 0 {
      ShrAdd(WithPresent(flags), 1, i - 1);
      ShrAdd(flags, 1, i - 1);
      assert Pow(2, 1) == 2;
      PresentBit(flags);
    } else {
      assert Pow(2, 0) == 1;
      PresentBit(flags);
    }
  }

  /** A word of twelve bits under a frame number. */
  lemma WordBit(k: nat, low: nat, i: nat)
    requires low < PAGE_SIZE
    ensures Bit(PAGE_SIZE * k + low, i) <==> if i < 12 then Bit(low, i) else Bit(k, i - 12)
  {
    Powers();
    BitOfParts(12, k, low, i);
  }

  lemma LowFlagBit(flags: nat, i: nat)
    requires flags < PAGE_SIZE
    ensures Bit(flags, i) ==> i < 12
  {
    WordBit(0, flags, i);
    if 12 <= i {
      NoBits(i - 12);
    }
  }

  lemma AddressBit(pa: nat, i: nat)
    requires 12 <= i
    ensures Bit(pa, i) <==> Bit(pa / PAGE_SIZE, i - 12)
  {
    DivMod(pa, PAGE_SIZE);
    WordBit(pa / PAGE_SIZE, pa % PAGE_SIZE, i);
  }

  lemma LowEntryBit(pa: nat, flags: nat, i: nat)
    requires flags < PAGE_SIZE
    ensures Bit(MakeEntry(pa, flags), i) <==> i == 0 || Bit(flags, i) || (12 <= i && Bit(pa, i))
  {
    var k := pa / PAGE_SIZE;
    DivMod(pa, PAGE_SIZE);
    PresentBit(flags);
    WordBit(k, WithPresent(flags), i);
    PresentOrBit(flags, i);
    LowFlagBit(flags, i);
    if 12 <= i {
      AddressBit(pa, i);
    }
  }

  /** Bit 51 of a frame number of 52 bits, set by adding it where it is clear. */
  lemma TopFrameBit(k: nat, j: nat)
    requires k < Pow(2, 52) && j < 52
    ensures Pow(2, 51) <= k ==> Bit(k, 51)
    ensures k < Pow(2, 51) ==> (Bit(Pow(2, 51) + k, j) <==> j == 51 || Bit(k, j)) && !Bit(k, 51)
  {
    Powers();
    if k < Pow(2, 51) {
      BitOfParts(51, 1, k, j);
      BitOfParts(51, 0, k, 51);
      NoBits(0);
      OneBit(0);
    } else {
      BitOfParts(51, 1, k - Pow(2, 51), 51);
      OneBit(0);
    }
  }

  lemma XdBit(low: nat, i: nat)
    requires low < PAGE_SIZE && i < 64
    ensures Bit(PF_XD + low, i) <==> i == 63 || Bit(low, i)
  {
    Powers();
    WordBit(Pow(2, 51), low, i);
    LowFlagBit(low, i);
    if 12 <= i {
      TopFrameBit(0, i - 12);
      NoBits(i - 12);
    }
  }

  /** With PF_XD in the flags: the frame number with its top bit set, above the low flags. */
  lemma XdEntry(pa: nat, low: nat)
    requires low < PAGE_SIZE && pa < TWO64
    ensures var k := pa / PAGE_SIZE;
      MakeEntry(pa, PF_XD + low)
        == PAGE_SIZE * (if k < 0x8_0000_0000_0000 then 0x8_0000_0000_0000 + k else k) + WithPresent(low)
    ensures pa / PAGE_SIZE < 0x10_0000_0000_0000
  {
    DivMod(pa, PAGE_SIZE);
    DivMod(pa, PF_XD);
  }

  lemma XdEntryBit(pa: nat, low: nat, i: nat)
    requires low < PAGE_SIZE && pa < TWO64 && i < 64
    ensures Bit(MakeEntry(pa, PF_XD + low), i) <==> i == 0 || Bit(PF_XD + low, i) || (12 <= i && Bit(pa, i))
  {
    var k := pa / PAGE_SIZE;
    Powers();
    XdEntry(pa, low);
    XdBit(low, i);
    PresentBit(low);
    PresentOrBit(low, i);
    WordBit(if k < Pow(2, 51) then Pow(2, 51) + k else k, WithPresent(low), i);
    LowFlagBit(low, i);
    if 12 <= i {
      AddressBit(pa, i);
      TopFrameBit(k, i - 12);
    }
  }

  lemma EntryFits(pa: nat, flags: nat)
    requires pa < TWO64 && (flags < PAGE_SIZE || NoExec(flags))
    ensures MakeEntry(pa, flags) < TWO64
  {
    if flags < PAGE_SIZE {
      EntryFacts(pa, flags);
    } else {
      XdEntry(pa, flags - PF_XD);
      PresentBit(flags - PF_XD);
    }
  }

  /**
   Every bit of the word `paging_map` and `next_pg_dir` write: bit 0, the bits of the flags, and above bit 11 the bits
   of the address, and no other.
   */
  lemma EntryBit(pa: nat, flags: nat, i: nat)
    requires pa < TWO64 && (flags < PAGE_SIZE || NoExec(flags)) && i < 64
    ensures Bit(MakeEntry(pa, flags), i) <==> i == 0 || Bit(flags, i) || (12 <= i && Bit(pa, i))
    ensures MakeEntry(pa, flags) < TWO64
  {
    EntryFits(pa, flags);
    if flags < PAGE_SIZE {
      LowEntryBit(pa, flags, i);
    } else {
      XdEntryBit(pa, flags - PF_XD, i);
    }
  }

  // ----- the bits of an address

  /** `n` bits of `x` from bit `lo` on. */
  function Field(x: nat, lo: nat, n: nat): (f: nat)
    ensures f < Pow(2, n)
  {
    PowPositive(2, n);
    Shr(x, lo) % Pow(2, n)
  }

  lemma FieldBit(x: nat, lo: nat, n: nat, i: nat)
    requires i < n
    ensures Bit(Field(x, lo, n), i) <==> Bit(x, lo + i)
  {
    PowPositive(2, n);
    LowPart(Shr(x, lo), n, i);
    ShrAdd(x, lo, i);
  }

  lemma IndexFields(va: nat)
    ensures VaddrToPgInd(va) == PageIndex(Field(va, 39, 9), Field(va, 30, 9), Field(va, 21, 9), Field(va, 12, 9))
  {
    Powers();
  }

  /** The indices are bits 39 to 47, 30 to 38, 21 to 29 and 12 to 20 of the address. */
  lemma IndexBits(va: nat, i: nat)
    requires i < 9
    ensures var pi := VaddrToPgInd(va);
      && (Bit(pi.pdpt, i) <==> Bit(va, 39 + i)) && (Bit(pi.pdt, i) <==> Bit(va, 30 + i))
      && (Bit(pi.pt, i) <==> Bit(va, 21 + i)) && (Bit(pi.pg, i) <==> Bit(va, 12 + i))
  {
    IndexFields(va);
    FieldBit(va, 39, 9, i);
    FieldBit(va, 30, 9, i);
    FieldBit(va, 21, 9, i);
    FieldBit(va, 12, 9, i);
  }

  // ----- the translation

  /** A table's physical address, and what the entries on the way to it allow. */
  datatype Level = Level(table: nat, writable: bool, user: bool)

  /** Where an access goes, and whether it may write and come from user mode. */
  datatype Access = Access(phys: nat, writable: bool, user: bool)

  /** The word at a physical address. */
  function WordAt(mem: Memory, addr: nat): nat {
    Deref(mem, addr / 4096, addr % 4096 / 8)
  }

  /** From a table to what its entry `index` points to, in bits 12 to 51; bits 0, 1 and 2 are P, R/W and U/S. */
  function Follow(mem: Memory, level: Option<Level>, index: nat): Option<Level> {
    match level
    case None => None
    case Some(l) =>
      var e := WordAt(mem, l.table + 8 * index);
      if Bit(e, 0) then Some(Level(4096 * Field(e, 12, 40), l.writable && Bit(e, 1), l.user && Bit(e, 2))) else None
  }

  /** The byte of a page that an address names. */
  function Reach(page: Option<Level>, va: nat): Option<Access> {
    match page
    case None => None
    case Some(l) => Some(Access(l.table + va % 4096, l.writable, l.user))
  }

  /** The processor's access to `va` with the top-level table at `cr3`; None is a page fault. */
  function Translate(mem: Memory, cr3: nat, va: nat): Option<Access> {
    var l1 := Follow(mem, Some(Level(cr3, true, true)), Field(va, 39, 9));
    var l2 := Follow(mem, l1, Field(va, 30, 9));
    var l3 := Follow(mem, l2, Field(va, 21, 9));
    Reach(Follow(mem, l3, Field(va, 12, 9)), va)
  }

  /** Every entry on the way to `p` is present and has bit `b`. */
  predicate BitDownTo(mem: Memory, p: Path, b: nat) {
    p.Sub? ==>
      match Walk(mem, p.parent)
      case None => false
      case Some(t) => BitDownTo(mem, p.parent, b) && Bit(Deref(mem, t, p.ix), b)
  }

  /** Tables lie below 2^52, where entries can point. */
  predicate SmallTables(tabs: map<Path, nat>) {
    forall p :: p in tabs ==> tabs[p] < 0x100_0000_0000
  }

  lemma SmallFrame(g: PmmSpec.Geometry, w: World, f: nat)
    requires Inv(g, w) && PhysSmall(g) && f in w.pool.live
    ensures 0 < f < 0x10_0000_0000_0000 && f % 4096 == 0
  {
    PmmSpec.FrameFacts(g, f);
  }

  lemma TablesSmall(g: PmmSpec.Geometry, w: World)
    requires Inv(g, w) && PhysSmall(g)
    ensures SmallTables(w.tabs)
  {
    forall p | p in w.tabs ensures w.tabs[p] < 0x100_0000_0000 {
      SmallFrame(g, w, PAGE_SIZE * w.tabs[p]);
    }
  }

  function LevelOf(mem: Memory, frame: nat, p: Path): Level {
    Level(PAGE_SIZE * frame, BitDownTo(mem, p, 1), BitDownTo(mem, p, 2))
  }

  lemma WordOfTable(mem: Memory, t: nat, i: nat)
    requires i < ENTRIES
    ensures WordAt(mem, PAGE_SIZE * t + 8 * i) == Deref(mem, t, i)
  {
    DivUnique(PAGE_SIZE * t + 8 * i, 4096, t);
  }

  lemma EntryParts(e: nat)
    ensures (Bit(e, 0) <==> Present(e)) && (Bit(e, 1) <==> Writable(e)) && Field(e, 12, 40) == PhysFrame(e)
  {
    Powers();
    PowAdd(2, 1, 39);
    assert Pow(2, 0) == 1 && Pow(2, 1) == 2;
  }

  /** One level of the translation, from the table at `p` in frame `t`. */
  lemma FollowStep(mem: Memory, t: nat, p: Path, i: nat)
    requires Walk(mem, p) == Some(t) && i < ENTRIES
    ensures var e := Deref(mem, t, i);
      Follow(mem, Some(LevelOf(mem, t, p)), i)
        == if Present(e) then Some(LevelOf(mem, PhysFrame(e), Sub(p, i))) else None
  {
    WordOfTable(mem, t, i);
    EntryParts(Deref(mem, t, i));
  }

  lemma SmallTarget(e: nat)
    requires Target(e) < 0x100_0000_0000
    ensures PhysFrame(e) == Target(e)
  {
  }

  /** The level of the table at `p`, if there is one. */
  function TableLevel(mem: Memory, tabs: map<Path, nat>, p: Path): Option<Level> {
    if p in tabs then Some(LevelOf(mem, tabs[p], p)) else None
  }

  lemma FollowTable(mem: Memory, tabs: map<Path, nat>, p: Path, i: nat)
    requires Tree(mem, tabs) && SmallTables(tabs) && Depth(p) < 3 && IndicesOk(p) && RootOf(p) in tabs && i < ENTRIES
    ensures Follow(mem, TableLevel(mem, tabs, p), i) == TableLevel(mem, tabs, Sub(p, i))
  {
    if p in tabs {
      assert Linked(mem, tabs, p, i);
      WalkFindsTables(mem, tabs, p);
      FollowStep(mem, tabs[p], p, i);
      if Sub(p, i) in tabs {
        SmallTarget(Deref(mem, tabs[p], i));
      }
    }
  }

  /** What a page's entry and the entries above it allow. */
  function AccessOf(mem: Memory, q: Path, e: nat, va: nat): Access {
    Access(PAGE_SIZE * PhysFrame(e) + va % PAGE_SIZE, BitDownTo(mem, q, 1), BitDownTo(mem, q, 2))
  }

  function LookupAccess(mem: Memory, q: Path, va: nat): Option<Access>
    requires q.Sub?
  {
    match Lookup(mem, q)
    case None => None
    case Some(e) => Some(AccessOf(mem, q, e, va))
  }

  lemma PageOfTable(mem: Memory, t: nat, p: Path, i: nat, va: nat)
    requires Walk(mem, p) == Some(t) && i < ENTRIES
    ensures LookupAccess(mem, Sub(p, i), va) == Reach(Follow(mem, Some(LevelOf(mem, t, p)), i), va)
  {
    FollowStep(mem, t, p, i);
  }

  lemma FollowPage(mem: Memory, tabs: map<Path, nat>, p: Path, i: nat, va: nat)
    requires Tree(mem, tabs) && Depth(p) == 3 && IndicesOk(p) && RootOf(p) in tabs && i < ENTRIES
    ensures LookupAccess(mem, Sub(p, i), va) == Reach(Follow(mem, TableLevel(mem, tabs, p), i), va)
  {
    WalkFindsTables(mem, tabs, p);
    if p in tabs {
      PageOfTable(mem, tabs[p], p, i, va);
    }
  }

  lemma RootLevel(mem: Memory, tabs: map<Path, nat>, root: nat)
    requires Forest(tabs) && Root(root) in tabs
    ensures TableLevel(mem, tabs, Root(root)) == Some(Level(PAGE_SIZE * root, true, true))
  {
  }

  lemma FollowTables(mem: Memory, tabs: map<Path, nat>, root: nat, pi: PageIndex)
    requires Tree(mem, tabs) && SmallTables(tabs) && Root(root) in tabs
    requires pi.pdpt < ENTRIES && pi.pdt < ENTRIES && pi.pt < ENTRIES
    ensures var l1 := Follow(mem, Some(Level(PAGE_SIZE * root, true, true)), pi.pdpt);
      Follow(mem, Follow(mem, l1, pi.pdt), pi.pt) == TableLevel(mem, tabs, TableAt(root, pi))
  {
    var p1 := Sub(Root(root), pi.pdpt);
    var p2 := Sub(p1, pi.pdt);
    assert Depth(p1) == 1 && Depth(p2) == 2;
    RootLevel(mem, tabs, root);
    FollowTable(mem, tabs, Root(root), pi.pdpt);
    FollowTable(mem, tabs, p1, pi.pdt);
    FollowTable(mem, tabs, p2, pi.pt);
  }

  /** The processor's access to `va` is what the walk finds at its page. */
  lemma TranslateIs(mem: Memory, tabs: map<Path, nat>, root: nat, va: nat)
    requires Tree(mem, tabs) && SmallTables(tabs) && Root(root) in tabs
    ensures Translate(mem, PAGE_SIZE * root, va) == LookupAccess(mem, PagePath(root, va), va)
  {
    IndexFields(va);
    FollowTables(mem, tabs, root, VaddrToPgInd(va));
    FollowPage(mem, tabs, TablePath(root, va), VaddrToPgInd(va).pg, va);
  }

  lemma WordOfPage(mem: Memory, f: nat, va: nat)
    ensures WordAt(mem, PAGE_SIZE * f + va % PAGE_SIZE) == Deref(mem, f, WordOf(va))
  {
    DivUnique(PAGE_SIZE * f + va % PAGE_SIZE, 4096, f);
  }

  lemma LookupLoad(mem: Memory, root: nat, va: nat)
    ensures PageData.Load(mem, root, va)
         == match LookupAccess(mem, PagePath(root, va), va) case None => None case Some(a) => Some(WordAt(mem, a.phys))
  {
    match Lookup(mem, PagePath(root, va))
    case None =>
    case Some(e) => WordOfPage(mem, PhysFrame(e), va);
  }

  /** A load reads the word at the address the processor translates to. */
  lemma LoadTranslates(mem: Memory, tabs: map<Path, nat>, root: nat, va: nat)
    requires Tree(mem, tabs) && SmallTables(tabs) && Root(root) in tabs
    ensures PageData.Load(mem, root, va)
         == match Translate(mem, PAGE_SIZE * root, va) case None => None case Some(a) => Some(WordAt(mem, a.phys))
  {
    TranslateIs(mem, tabs, root, va);
    LookupLoad(mem, root, va);
  }

  // ----- what mapping a page does to translations

  /** Where the walk succeeds, bit 1 all the way down is what allows writing. */
  lemma {:induction false} WriteBits(mem: Memory, p: Path)
    requires Walk(mem, p).Some?
    ensures BitDownTo(mem, p, 1) <==> WritableTo(mem, p)
  {
    match p
    case Root(_) =>
    case Sub(q, i) =>
      WriteBits(mem, q);
      EntryParts(Deref(mem, Walk(mem, q).value, i));
  }

  lemma PageBits(mem: Memory, q: Path, b: nat)
    requires q.Sub? && Lookup(mem, q).Some?
    ensures BitDownTo(mem, q, b) <==> BitDownTo(mem, q.parent, b) && Bit(Lookup(mem, q).value, b)
  {
  }

  /** The byte at `va`'s offset in the page at `base`, on a page of the kernel. */
  function KernelByte(base: nat, va: nat): Access {
    Access(base + va % 4096, true, false)
  }

  lemma KernelBits(mem: Memory, q: Path, e: nat, base: nat, va: nat)
    requires q.Sub? && Lookup(mem, q) == Some(e) && WritableTo(mem, q) && !Bit(e, 2) && base == PAGE_SIZE * PhysFrame(e)
    ensures LookupAccess(mem, q, va) == Some(KernelByte(base, va))
  {
    WriteBits(mem, q);
    PageBits(mem, q, 2);
  }

  /** A page of the kernel: writable at every level, and its own entry closed to user mode. */
  lemma KernelAccess(mem: Memory, tabs: map<Path, nat>, root: nat, va: nat, e: nat, base: nat)
    requires Tree(mem, tabs) && SmallTables(tabs) && Root(root) in tabs && base == PAGE_SIZE * PhysFrame(e)
    requires Lookup(mem, PagePath(root, va)) == Some(e) && WritableTo(mem, PagePath(root, va)) && !Bit(e, 2)
    ensures Translate(mem, PAGE_SIZE * root, va) == Some(KernelByte(base, va))
  {
    TranslateIs(mem, tabs, root, va);
    KernelBits(mem, PagePath(root, va), e, base, va);
  }

  lemma NoAccess(mem: Memory, tabs: map<Path, nat>, root: nat, va: nat)
    requires Tree(mem, tabs) && SmallTables(tabs) && Root(root) in tabs && Lookup(mem, PagePath(root, va)) == None
    ensures Translate(mem, PAGE_SIZE * root, va) == None
  {
    TranslateIs(mem, tabs, root, va);
  }

  /** The entries above a table that was there before keep their bits. */
  lemma {:induction false} BitsKept(w: World, w': World, p: Path, flags: nat, b: nat)
    requires Tree(w.mem, w.tabs) && Tree(w'.mem, w'.tabs) && EntriesKept(w, w', flags)
    requires p in w.tabs && w.tabs.Keys <= w'.tabs.Keys
    ensures BitDownTo(w'.mem, p, b) <==> BitDownTo(w.mem, p, b)
  {
    match p
    case Root(_) =>
    case Sub(q, i) =>
      assert q in w.tabs && q in w'.tabs;
      BitsKept(w, w', q, flags, b);
      WalkFindsTables(w.mem, w.tabs, q);
      WalkFindsTables(w'.mem, w'.tabs, q);
      assert EntryOf(w', p) == EntryOf(w, p);
  }

  lemma SameLookupSameAccess(w: World, w': World, q: Path, flags: nat, va: nat)
    requires Tree(w.mem, w.tabs) && Tree(w'.mem, w'.tabs) && EntriesKept(w, w', flags) && w.tabs.Keys <= w'.tabs.Keys
    requires PageIn(w, q) && Lookup(w'.mem, q) == Lookup(w.mem, q)
    ensures LookupAccess(w'.mem, q, va) == LookupAccess(w.mem, q, va)
  {
    if Lookup(w.mem, q).Some? {
      LookupIs(w, q);
      PageBits(w.mem, q, 1);
      PageBits(w'.mem, q, 1);
      PageBits(w.mem, q, 2);
      PageBits(w'.mem, q, 2);
      BitsKept(w, w', q.parent, flags, 1);
      BitsKept(w, w', q.parent, flags, 2);
    }
  }

  /** The frame an entry leads to. */
  lemma EntryFrame(pa: nat, flags: nat)
    requires pa < 0x10_0000_0000_0000 && (flags < PAGE_SIZE || NoExec(flags))
    ensures PAGE_SIZE * PhysFrame(MakeEntry(pa, flags)) == PageBase(pa)
  {
    DivMod(pa, PAGE_SIZE);
    if flags < PAGE_SIZE {
      EntryFacts(pa, flags);
    } else {
      XdEntry(pa, flags - PF_XD);
      PresentBit(flags - PF_XD);
      WordParts(0x8_0000_0000_0000 + pa / PAGE_SIZE, WithPresent(flags - PF_XD));
    }
  }

  /** Same map, and bits 12 to 47 agree. */
  predicate SamePageOf(root: nat, va: nat, root': nat, vb: nat) {
    root' == root && vb / 4096 % 0x10_0000_0000 == va / 4096 % 0x10_0000_0000
  }

  lemma MappedHere(mem: Memory, tabs: map<Path, nat>, root: nat, pa: nat, flags: nat, vb: nat)
    requires Tree(mem, tabs) && SmallTables(tabs) && Root(root) in tabs && pa < 0x10_0000_0000_0000
    requires flags < PAGE_SIZE || NoExec(flags)
    requires Lookup(mem, PagePath(root, vb)) == Some(MakeEntry(pa, flags))
    ensures var now := Translate(mem, PAGE_SIZE * root, vb);
      && now.Some? && now.value.phys == pa - pa % 4096 + vb % 4096
      && (now.value.writable ==> Bit(flags, 1)) && (now.value.user ==> Bit(flags, 2))
  {
    var q := PagePath(root, vb);
    TranslateIs(mem, tabs, root, vb);
    PageBits(mem, q, 1);
    PageBits(mem, q, 2);
    EntryBit(pa, flags, 1);
    EntryBit(pa, flags, 2);
    EntryFrame(pa, flags);
  }

  lemma MappedElsewhere(w: World, w': World, root: nat, vb: nat, flags: nat)
    requires Tree(w.mem, w.tabs) && Tree(w'.mem, w'.tabs) && EntriesKept(w, w', flags) && w.tabs.Keys <= w'.tabs.Keys
    requires Root(root) in w.tabs && SmallTables(w.tabs) && SmallTables(w'.tabs)
    requires Lookup(w'.mem, PagePath(root, vb)) == Lookup(w.mem, PagePath(root, vb))
    ensures Translate(w'.mem, PAGE_SIZE * root, vb) == Translate(w.mem, PAGE_SIZE * root, vb)
  {
    assert PageIn(w, PagePath(root, vb));
    TranslateIs(w.mem, w.tabs, root, vb);
    TranslateIs(w'.mem, w'.tabs, root, vb);
    SameLookupSameAccess(w, w', PagePath(root, vb), flags, vb);
  }

  /**
   After `paging_map` the processor takes an address of the page, in whatever form, to its byte of the frame, writable
   and open to user mode only if the flags say so; every other address of every map is translated as before.
   */
  lemma MapTranslates(g: PmmSpec.Geometry, w: World, root: nat, pa: nat, va: nat, flags: nat, root': nat, vb: nat)
    requires Inv(g, w) && Root(root) in w.tabs && FlagsFit(w, root, va, flags) && PhysSmall(g)
    requires Missing(w, NodesOf(root, va)) <= PmmSpec.Avail(w.pool)
    requires Root(root') in w.tabs && pa < 0x10_0000_0000_0000
    ensures var now := Translate(Map(g, w, root, pa, va, flags).mem, PAGE_SIZE * root', vb);
      if SamePageOf(root, va, root', vb) then
        && now.Some? && now.value.phys == pa - pa % 4096 + vb % 4096
        && (now.value.writable ==> Bit(flags, 1)) && (now.value.user ==> Bit(flags, 2))
      else now == Translate(w.mem, PAGE_SIZE * root', vb)
  {
    var w', q := Map(g, w, root, pa, va, flags), PagePath(root', vb);
    MapMeaning(g, w, root, pa, va, flags);
    TablesSmall(g, w);
    TablesSmall(g, w');
    SamePage(root, va, vb);
    assert PageIn(w, q) && RootOf(q) == Root(root') && RootOf(PagePath(root, va)) == Root(root);
    if SamePageOf(root, va, root', vb) {
      MappedHere(w'.mem, w'.tabs, root', pa, flags, vb);
    } else {
      MappedElsewhere(w, w', root', vb, flags);
    }
  }
}
