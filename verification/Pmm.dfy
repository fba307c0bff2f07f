/** pmm.c: byte bitmaps with a search hint each, and a refill stack, updated in place. */
module Pmm {
  import opened Common
  import opened Bits
  import opened PmmSpec

  /** A usable entry of the memory layout (mem_layout.h). */
  datatype Entry = Entry(base: nat, size: nat)

  /** Pages at the start of a region of `n` pages set aside for its bitmap. */
  function Reserved(n: nat): int {
    1 + (7 * n / 8 - 1) / PAGE_SIZE
  }

  /** The frames the allocator manages in a usable entry. */
  function ManagedSpan(e: Entry): Span
    requires 16 <= e.size / PAGE_SIZE
  {
    var total := e.size / PAGE_SIZE;
    Span(e.base + PAGE_SIZE * Reserved(total), total - Reserved(total))
  }

  /**
   The bitmap fits in the pages set aside for it, as few as hold seven bytes for eight pages, and those pages and the
   managed frames tile the region.
   */
  lemma BitmapFits(e: Entry)
    requires 16 <= e.size / PAGE_SIZE
    ensures var total, sp := e.size / PAGE_SIZE, ManagedSpan(e);
      && 0 < Reserved(total) < total && sp.npage == total - Reserved(total)
      && 4096 * (Reserved(total) - 1) < 7 * total / 8 <= 4096 * Reserved(total)
      && sp.npage <= 8 * (PAGE_SIZE * Reserved(total))
      && e.base < sp.base == e.base + PAGE_SIZE * Reserved(total)
      && Frame(sp, sp.npage) == e.base + PAGE_SIZE * total
  {
  }

  /** What the boot loader promises of the usable entries that mem_layout.c keeps. */
  ghost predicate ValidEntries(ents: seq<Entry>) {
    && (forall i :: 0 <= i < |ents| ==>
          && 16 <= ents[i].size / PAGE_SIZE && ents[i].base % PAGE_SIZE == 0 && ents[i].size % PAGE_SIZE == 0
          && ents[i].base + ents[i].size < TWO64)
    && (forall i, k :: 0 <= i < k < |ents| ==>
          ents[i].base + ents[i].size <= ents[k].base || ents[k].base + ents[k].size <= ents[i].base)
  }

  function Spans(ents: seq<Entry>): Geometry
    requires forall i :: 0 <= i < |ents| ==> 16 <= ents[i].size / PAGE_SIZE
  {
    seq(|ents|, i requires 0 <= i < |ents| => ManagedSpan(ents[i]))
  }

  /** The frames managed in one region never meet the pages set aside for the bitmap of any. */
  lemma BitmapsApart(ents: seq<Entry>, i: nat, k: nat)
    requires ValidEntries(ents) && i < |ents| && k < |ents|
    ensures var sp := Spans(ents)[i];
      || Frame(sp, sp.npage) <= ents[k].base
      || ents[k].base + PAGE_SIZE * Reserved(ents[k].size / PAGE_SIZE) <= sp.base
  {
    BitmapFits(ents[i]);
    BitmapFits(ents[k]);
  }

  /** Managed frames of different regions never overlap, and none is address 0. */
  lemma SpansValid(ents: seq<Entry>)
    requires ValidEntries(ents)
    ensures ValidGeometry(Spans(ents))
  {
    forall i | 0 <= i < |ents| ensures 0 < Spans(ents)[i].base && Spans(ents)[i].base % PAGE_SIZE == 0 {
      BitmapFits(ents[i]);
    }
    forall i, k | 0 <= i < k < |ents| ensures Apart(Spans(ents)[i], Spans(ents)[k]) {
      BitmapFits(ents[i]);
      BitmapFits(ents[k]);
    }
  }

  /** `maps[i]` is the memory set aside at the start of entry `i`. */
  ghost predicate BitmapMemory(ents: seq<Entry>, maps: seq<array<bv8>>) {
    && |maps| == |ents|
    && (forall i :: 0 <= i < |ents| ==> 16 <= ents[i].size / PAGE_SIZE)
    && (forall i :: 0 <= i < |ents| ==> maps[i].Length == PAGE_SIZE * Reserved(ents[i].size / PAGE_SIZE))
    && (forall i, k :: 0 <= i < k < |maps| ==> maps[i] != maps[k])
  }

  /** The page `j` of entry `i` whose bit is clear in memory. */
  ghost predicate ClearInMemory(ents: seq<Entry>, maps: seq<array<bv8>>, i: nat, j: nat)
    requires BitmapMemory(ents, maps)
    reads maps
  {
    i < |ents| && j < Spans(ents)[i].npage && (BitmapFits(ents[i]); !BitAt(maps[i], j))
  }

  /** The frames whose bits memory happens to hold clear when the allocator starts. */
  ghost function InitialClear(ents: seq<Entry>, maps: seq<array<bv8>>): set<nat>
    requires BitmapMemory(ents, maps)
    reads maps
  {
    set i, j | 0 <= i < |ents| && 0 <= j < Spans(ents)[i].npage && ClearInMemory(ents, maps, i, j)
      :: Frame(Spans(ents)[i], j)
  }

  lemma InitialLink(ents: seq<Entry>, maps: seq<array<bv8>>)
    requires ValidEntries(ents) && BitmapMemory(ents, maps)
    ensures forall i, j :: 0 <= i < |ents| && 0 <= j < Spans(ents)[i].npage ==>
      (Frame(Spans(ents)[i], j) in InitialClear(ents, maps) <==> ClearInMemory(ents, maps, i, j))
    ensures Owned(Spans(ents), State(InitialClear(ents, maps), [], {}))
  {
    var g := Spans(ents);
    SpansValid(ents);
    forall i, j | 0 <= i < |ents| && 0 <= j < g[i].npage && Frame(g[i], j) in InitialClear(ents, maps)
      ensures ClearInMemory(ents, maps, i, j)
    {
      var i', j' :| 0 <= i' < |ents| && 0 <= j' < g[i'].npage && ClearInMemory(ents, maps, i', j')
        && Frame(g[i], j) == Frame(g[i'], j');
      if i != i' || j != j' {
        FrameInjective(g, i, j, i', j');
        assert false;
      }
    }
    forall f | f in InitialClear(ents, maps) ensures f in Elems(AllFrames(g)) {
      AllFramesIndex(g, f);
    }
  }

  class Bitmap {
    const base: nat
    const data: array<bv8>
    const npage: nat
    var firstFree: nat
    /** What the bytes say, one value per page; true means "not free". */
    ghost var bits: seq<bool>

    ghost predicate Valid()
      reads this, data
    {
      && npage <= 8 * data.Length && |bits| == npage
      && (forall j {:trigger BitAt(data, j)} :: 0 <= j < npage ==> bits[j] == BitAt(data, j))
    }

    constructor (base: nat, data: array<bv8>, npage: nat)
      requires npage <= 8 * data.Length
      ensures this.base == base && this.data == data && this.npage == npage && firstFree == 0
      ensures Valid() && forall j :: 0 <= j < npage ==> bits[j] == BitAt(data, j)
    {
      this.base, this.data, this.npage, firstFree := base, data, npage, 0;
      bits := seq(npage, j requires 0 <= j < npage && npage <= 8 * data.Length reads data => BitAt(data, j));
    }

    /** `data[j / 8] & 1 << j % 8` */
    method Test(j: nat) returns (b: bool)
      requires Valid() && j < npage
      ensures b == bits[j]
    {
      b := BitAt(data, j);
    }

    method Set(j: nat)
      requires Valid() && j < npage
      modifies this`bits, data
      ensures Valid() && bits == old(bits)[j := true]
    {
      SetBit(data, j);
      bits := bits[j := true];
    }

    method Clear(j: nat)
      requires Valid() && j < npage
      modifies this`bits, data
      ensures Valid() && bits == old(bits)[j := false]
    {
      ClearBit(data, j);
      bits := bits[j := false];
    }

    /** The first clear bit at or after `start`, or a value past the end. */
    method FindFirstFree(start: nat) returns (free: nat)
      requires Valid()
      ensures start <= free
      ensures forall j :: start <= j < free && j < npage ==> bits[j]
      ensures free < npage ==> !bits[free]
      ensures npage <= free ==> free == Max(start, npage)
    {
      free := start;
      while free < npage
        invariant start <= free && free <= Max(start, npage)
        invariant forall j :: start <= j < free && j < npage ==> bits[j]
      {
        var b := Test(free);
        if !b {
          break;
        }
        free := free + 1;
      }
    }
  }

  /** `bm` covers the managed pages of entry `i` and its bits are those found in memory. */
  ghost predicate BuiltFor(ents: seq<Entry>, maps: seq<array<bv8>>, i: nat, bm: Bitmap)
    requires BitmapMemory(ents, maps) && i < |ents|
    reads bm, bm.data, maps
  {
    && bm.base == Spans(ents)[i].base && bm.npage == Spans(ents)[i].npage && bm.data == maps[i] && bm.firstFree == 0
    && bm.Valid()
    && (forall j :: 0 <= j < bm.npage ==> (bm.bits[j] <==> !ClearInMemory(ents, maps, i, j)))
  }

  method BuildBitmaps(ents: seq<Entry>, maps: seq<array<bv8>>) returns (bms: seq<Bitmap>)
    requires ValidEntries(ents) && BitmapMemory(ents, maps)
    ensures |bms| == |ents| && fresh(bms)
    ensures forall i :: 0 <= i < |ents| ==> BuiltFor(ents, maps, i, bms[i])
    ensures forall i, k :: 0 <= i < k < |bms| ==> bms[i] != bms[k]
  {
    bms := [];
    for i := 0 to |ents|
      invariant |bms| == i && fresh(bms)
      invariant forall k :: 0 <= k < i ==> BuiltFor(ents, maps, k, bms[k])
      invariant forall m, k :: 0 <= m < k < i ==> bms[m] != bms[k]
    {
      var npageTotal := ents[i].size / PAGE_SIZE;
      var npageBm := Reserved(npageTotal);
      BitmapFits(ents[i]);
      var bm := new Bitmap(ents[i].base + PAGE_SIZE * npageBm, maps[i], npageTotal - npageBm);
      bms := bms + [bm];
    }
  }

  class Allocator {
    const bms: seq<Bitmap>
    const stk: array<nat>
    var stkSize: nat
    ghost const geo: Geometry
    ghost var clear: set<nat>
    ghost var live: set<nat>

    ghost function Datas(): set<array<bv8>> {
      set i | 0 <= i < |bms| :: bms[i].data
    }

    /** The value the allocator stands for. */
    ghost function Abs(): State
      reads this, stk
      requires stkSize <= stk.Length
    {
      State(clear, stk[..stkSize], live)
    }

    /** The ghost set is what the bitmaps say, and no clear bit lies below a hint. */
    ghost predicate Valid()
      reads this, stk, bms, Datas()
    {
      && stk.Length == STK_CAP && stkSize <= STK_CAP
      && ValidGeometry(geo)
      && |geo| == |bms|
      && (forall i :: 0 <= i < |bms| ==>
            && geo[i] == Span(bms[i].base, bms[i].npage)
            && bms[i].data as object != stk
            && bms[i].Valid())
      && (forall i, k :: 0 <= i < k < |bms| ==> bms[i] != bms[k] && bms[i].data != bms[k].data)
      && (forall i, j :: 0 <= i < |bms| && 0 <= j < bms[i].npage ==> (Frame(geo[i], j) in clear <==> !bms[i].bits[j]))
      && (forall i, j :: 0 <= i < |bms| && 0 <= j < bms[i].npage && j < bms[i].firstFree ==> bms[i].bits[j])
    }

    /** `data[byte] |= 1 << bit; page_stk[page_stk_size++] = base + PAGE_SIZE * j` */
    method Take(i: nat, j: nat)
      requires Valid() && i < |bms| && j < bms[i].npage && stkSize < STK_CAP && !bms[i].bits[j]
      modifies this`stkSize, this`clear, stk, bms[i], bms[i].data
      ensures bms[i].firstFree == old(bms[i].firstFree)
      ensures Valid() && bms[i].bits == old(bms[i].bits)[j := true]
      ensures Abs() == old(Abs()).(clear := old(clear) - {Frame(geo[i], j)}, stk := old(Abs()).stk + [Frame(geo[i], j)])
    {
      OthersDiffer(geo, i, j);
      bms[i].Set(j);
      stk[stkSize] := bms[i].base + PAGE_SIZE * j;
      stkSize := stkSize + 1;
      clear := clear - {Frame(geo[i], j)};
    }

    /** One page of the scan: a clear bit is set and its frame stacked. */
    method Look(i: nat, j: nat)
      requires Valid() && i < |bms| && j < bms[i].npage && stkSize < STK_CAP
      modifies this`stkSize, this`clear, stk, bms[i], bms[i].data
      ensures bms[i].firstFree == old(bms[i].firstFree)
      ensures Valid() && bms[i].bits == old(bms[i].bits)[j := true]
      ensures var x, s := Frame(geo[i], j), old(Abs());
        Abs() == if x in s.clear then s.(clear := s.clear - {x}, stk := s.stk + [x]) else s
    {
      var b := bms[i].Test(j);
      if !b {
        Take(i, j);
      }
    }

    /** The inner loop of `bm_feed_stk`. */
    method ScanBitmap(i: nat)
      requires Valid() && i < |bms| && stkSize < STK_CAP
      modifies this`stkSize, this`clear, stk, bms[i], bms[i].data
      ensures bms[i].firstFree == old(bms[i].firstFree)
      ensures Valid()
      ensures Abs() == Move(old(Abs()), Filter(SpanFrames(geo[i], bms[i].npage), old(clear)))
      ensures bms[i].firstFree < bms[i].npage ==> bms[i].bits[bms[i].firstFree]
    {
      var bm := bms[i];
      ghost var sp, s0 := geo[i], Abs();
      ghost var scanned := Min(bm.firstFree, bm.npage);
      ScanNone(s0, sp, scanned);
      var j := bm.firstFree;
      while j < bm.npage
        invariant Valid() && bm.firstFree == old(bm.firstFree) <= j
        invariant j < bm.npage ==> scanned == j
        invariant bm.npage <= j ==> scanned == bm.npage
        invariant Abs() == Scan(s0, sp, scanned)
        invariant stkSize < STK_CAP
        invariant bm.firstFree < j && bm.firstFree < bm.npage ==> bm.bits[bm.firstFree]
      {
        Look(i, j);
        scanned := j + 1;
        if stkSize >= STK_CAP {
          break;
        }
        j := j + 1;
      }
      ScanEnds(s0, sp, scanned, bm.npage);
    }

    /** The search restarts right after the hint, whose own page was just looked at. */
    method MoveHint(i: nat)
      requires Valid() && i < |bms|
      requires bms[i].firstFree < bms[i].npage ==> bms[i].bits[bms[i].firstFree]
      modifies bms[i]
      ensures Valid() && Abs() == old(Abs()) && bms[i].bits == old(bms[i].bits)
      ensures var bm := bms[i];
        && old(bm.firstFree) < bm.firstFree && (bm.firstFree < bm.npage ==> !bm.bits[bm.firstFree])
        && (forall j :: old(bm.firstFree) < j < bm.firstFree && j < bm.npage ==> bm.bits[j])
    {
      var free := bms[i].FindFirstFree(bms[i].firstFree + 1);
      bms[i].firstFree := free;
    }

    /** One round of the outer loop: scan a bitmap, then move its hint past the frame it started at. */
    method FeedBitmap(i: nat)
      requires Valid() && i < |bms| && stkSize < STK_CAP
      modifies this`stkSize, this`clear, stk, bms[i], bms[i].data
      ensures Valid()
      ensures Abs() == Move(old(Abs()), Filter(SpanFrames(geo[i], bms[i].npage), old(clear)))
    {
      ScanBitmap(i);
      MoveHint(i);
    }

    /** `bm_feed_stk`: the hinted scan moves exactly the first clear frames of the whole layout. */
    method FeedStk()
      requires Valid()
      modifies this`stkSize, this`clear, stk, bms, Datas()
      ensures Valid() && Abs() == Refill(geo, old(Abs()))
    {
      ghost var s0 := Abs();
      MoveAll(s0, []);
      assert s0.clear - Elems([]) == s0.clear && s0.stk + [] == s0.stk;
      assert geo[..0] == [];
      var i := 0;
      while i < |bms| && stkSize < STK_CAP
        invariant 0 <= i <= |bms| && Valid()
        invariant Abs() == Move(s0, FreeList(geo[..i], s0.clear))
      {
        ghost var s1 := Abs();
        FeedBitmap(i);
        MoveNextSpan(geo, s0, i);
        i := i + 1;
      }
      if i < |bms| {
        MoveFull(geo, s0, i);
      } else {
        assert geo[..i] == geo;
      }
    }

    method Alloc() returns (paddr: nat)
      requires Valid()
      modifies this, stk, bms, Datas()
      ensures Valid() && (Abs(), paddr) == PmmSpec.Alloc(geo, old(Abs()))
    {
      if stkSize == 0 {
        FeedStk();
      }
      if stkSize == 0 {
        return PHYS_ADDR_NULL;
      }
      assert stk[..stkSize][..stkSize - 1] == stk[..stkSize - 1];
      stkSize := stkSize - 1;
      paddr := stk[stkSize];
      live := live + {paddr};
    }

    /** `data[byte] &= ~(1 << bit)`, and the hint drops to the cleared page when that is lower. */
    method ClearFrame(i: nat, ind: nat)
      requires Valid() && i < |bms| && ind < bms[i].npage
      modifies this`clear, this`live, bms[i], bms[i].data
      ensures Valid()
      ensures clear == old(clear) + {Frame(geo[i], ind)} && live == old(live) - {Frame(geo[i], ind)}
    {
      var bm := bms[i];
      OthersDiffer(geo, i, ind);
      bm.Clear(ind);
      bm.firstFree := if ind < bm.firstFree then ind else bm.firstFree;
      clear := clear + {Frame(geo[i], ind)};
      live := live - {Frame(geo[i], ind)};
    }

    lemma NotManaged(page: nat)
      requires Valid()
      requires forall k :: 0 <= k < |bms| ==> !(bms[k].base <= page < bms[k].base + PAGE_SIZE * bms[k].npage)
      ensures page !in AllFrames(geo)
    {
      AllFramesIndex(geo, page);
      forall i, j | 0 <= i < |geo| && 0 <= j < geo[i].npage ensures page != Frame(geo[i], j) {
        assert geo[i] == Span(bms[i].base, bms[i].npage);
      }
    }

    /** Addresses outside every managed region are ignored. */
    method Free(addr: nat)
      requires Valid()
      modifies this`clear, this`live, bms, Datas()
      ensures Valid() && Abs() == PmmSpec.Free(geo, old(Abs()), addr)
    {
      var page := PageBase(addr);
      var i := 0;
      while i < |bms|
        invariant 0 <= i <= |bms|
        invariant forall k :: 0 <= k < i ==> !(bms[k].base <= page < bms[k].base + PAGE_SIZE * bms[k].npage)
      {
        if bms[i].base <= page < bms[i].base + PAGE_SIZE * bms[i].npage {
          break;
        }
        i := i + 1;
      }
      if i == |bms| {
        NotManaged(page);
        return;
      }
      var bm := bms[i];
      var ind := (page - bm.base) / PAGE_SIZE;
      assert page == Frame(geo[i], ind);
      AllFramesIndex(geo, page);
      ClearFrame(i, ind);
    }

    lemma StartsValid(ents: seq<Entry>, maps: seq<array<bv8>>)
      requires ValidEntries(ents) && BitmapMemory(ents, maps)
      requires |bms| == |ents| && geo == Spans(ents) && clear == InitialClear(ents, maps)
      requires stk.Length == STK_CAP && stkSize == 0 && forall i :: 0 <= i < |maps| ==> maps[i] as object != stk
      requires forall i :: 0 <= i < |ents| ==> BuiltFor(ents, maps, i, bms[i])
      requires forall i, k :: 0 <= i < k < |bms| ==> bms[i] != bms[k]
      ensures Valid()
      ensures Datas() == set i | 0 <= i < |maps| :: maps[i]
      ensures Owned(geo, State(clear, [], {}))
    {
      SpansValid(ents);
      InitialLink(ents, maps);
      forall i | 0 <= i < |bms| ensures bms[i].data == maps[i] {
        assert BuiltFor(ents, maps, i, bms[i]);
      }
    }

    /** The static variables as `pmm_init` sets them before the first refill. */
    constructor Empty(ents: seq<Entry>, maps: seq<array<bv8>>, bms: seq<Bitmap>)
      requires ValidEntries(ents) && BitmapMemory(ents, maps) && |bms| == |ents|
      requires forall i :: 0 <= i < |ents| ==> BuiltFor(ents, maps, i, bms[i])
      requires forall i, k :: 0 <= i < k < |bms| ==> bms[i] != bms[k]
      ensures Valid() && this.bms == bms && geo == Spans(ents) && Datas() == set i | 0 <= i < |maps| :: maps[i]
      ensures fresh(stk) && Owned(geo, Abs()) && Abs() == State(InitialClear(ents, maps), [], {})
    {
      this.bms := bms;
      stk := new nat[STK_CAP];
      stkSize := 0;
      geo := Spans(ents);
      live := {};
      clear := InitialClear(ents, maps);
      new;
      StartsValid(ents, maps);
    }

    /**
     `pmm_init`. `maps[i]` is the memory at the start of entry `i`; its bytes are whatever was there before, so
     the frames whose bits happen to be set are never handed out.
     */
    static method Init(ents: seq<Entry>, maps: seq<array<bv8>>) returns (pmm: Allocator)
      requires ValidEntries(ents) && BitmapMemory(ents, maps)
      modifies maps
      ensures pmm.Valid() && pmm.geo == Spans(ents) && pmm.Datas() == set i | 0 <= i < |maps| :: maps[i]
      ensures fresh(pmm) && fresh(pmm.stk) && fresh(pmm.bms)
      ensures Owned(pmm.geo, pmm.Abs())
      ensures pmm.Abs() == Refill(pmm.geo, State(old(InitialClear(ents, maps)), [], {}))
    {
      var bms := BuildBitmaps(ents, maps);
      pmm := new Allocator.Empty(ents, maps, bms);
      RefillKeeps(pmm.geo, pmm.Abs());
      pmm.FeedStk();
    }
  }
}
