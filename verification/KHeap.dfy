/** kheap.c: the heap's list of headers and its growth, in place. */
module KHeap {
  import opened Common
  import PmmSpec
  import opened PageTables
  import opened PageRuns
  import opened VmmSpec
  import opened HeapSpec
  import opened HeapGrowth
  import opened Paging
  import Vmm

  /** `struct kh_ent`; pointers are addresses, and 0 is NULL. */
  datatype KhEnt = KhEnt(next: nat, dataSize: nat)

  /** Entry `i` of a list, NULL past its end. */
  function At(ents: seq<nat>, i: nat): nat {
    if i < |ents| then ents[i] else 0
  }

  /** `ents` lists the addresses from `head` to `tail` in link order, none twice. */
  ghost predicate Chain(head: nat, tail: nat, mem: map<nat, KhEnt>, ents: seq<nat>) {
    && 0 < |ents| && head == ents[0] && tail == ents[|ents| - 1] && NoDup(ents)
    && (forall i :: 0 <= i < |ents| ==> 0 < ents[i] && ents[i] in mem)
    && (forall i :: 0 <= i < |ents| ==> mem[ents[i]].next == At(ents, i + 1))
  }

  function BlocksOf(mem: map<nat, KhEnt>, ents: seq<nat>): (bs: seq<Block>)
    requires forall i :: 0 <= i < |ents| ==> ents[i] in mem
    ensures |bs| == |ents|
    ensures forall i :: 0 <= i < |bs| ==> bs[i] == Block(ents[i], mem[ents[i]].dataSize)
  {
    seq(|ents|, i requires 0 <= i < |ents| => Block(ents[i], mem[ents[i]].dataSize))
  }

  lemma ChainStarts(mem: map<nat, KhEnt>, addr: nat)
    requires 0 < addr
    ensures var mem1 := mem[addr := KhEnt(0, 0)];
      Chain(addr, addr, mem1, [addr]) && BlocksOf(mem1, [addr]) == [Block(addr, 0)]
  {
  }

  /** A new header linked at the tail is one more block. */
  lemma ChainGrows(head: nat, tail: nat, mem: map<nat, KhEnt>, ents: seq<nat>, addr: nat, n: nat)
    requires Chain(head, tail, mem, ents) && 0 < addr && addr !in ents
    ensures var mem1 := mem[addr := KhEnt(0, n)];
      var mem2 := mem1[tail := mem1[tail].(next := addr)];
      Chain(head, addr, mem2, ents + [addr]) && BlocksOf(mem2, ents + [addr]) == BlocksOf(mem, ents) + [Block(addr, n)]
  {
  }

  /** The static variables of kheap.c and the headers in heap memory. */
  class KernelHeap {
    const pager: Pager
    /** The map the processor uses. */
    const root: nat
    var head: nat
    var tail: nat
    var npages: nat
    /** The header at each address where one was written. */
    var mem: map<nat, KhEnt>
    ghost var ents: seq<nat>
    ghost var am: PageMap
    ghost var frames: seq<nat>

    ghost predicate Chained()
      reads this
    {
      Chain(head, tail, mem, ents)
    }

    ghost function HeapOf(): Heap
      reads this
      requires Chained()
    {
      Heap(BlocksOf(mem, ents), npages)
    }

    ghost predicate Wf()
      reads this, pager.Repr()
    {
      pager.Wf() && Chained() && this as object !in pager.Repr()
    }

    ghost function Abs(): Kernel
      reads this, pager, pager.mem, pager.pmm, pager.pmm.stk
      requires pager.pmm.stkSize <= pager.pmm.stk.Length && Chained()
    {
      Kernel(pager.Abs(), am, HeapOf(), frames)
    }

    /** The variables as the kernel is loaded. */
    constructor (pager: Pager, root: nat, ghost am: PageMap)
      requires pager.Wf()
      ensures this.pager == pager && this.root == root && this.am == am && this as object !in pager.Repr()
    {
      this.pager, this.root, this.am := pager, root, am;
      head, tail, npages, mem, ents, frames := 0, 0, 0, map[], [], [];
    }

    /** The dummy entry that starts the list. */
    method FirstEntry()
      requires pager.Wf() && this as object !in pager.Repr()
      modifies this`head, this`tail, this`mem, this`ents
      ensures Wf() && pager.Abs() == old(pager.Abs()) && HeapOf() == Heap([Block(KH_START, 0)], npages)
    {
      ChainStarts(mem, KH_START);
      tail := KH_START;
      head := KH_START;
      mem := mem[head := KhEnt(0, 0)];
      ents := [head];
    }

    /** The record of what is mapped, brought up to date. */
    ghost method Record(k: Kernel)
      requires Wf() && k.w == pager.Abs() && k.h == HeapOf()
      modifies this`am, this`frames
      ensures Wf() && Abs() == k
    {
      am, frames := k.am, k.frames;
    }

    /** The list with its dummy entry, and the record of the first page. */
    method Start(ghost k: Kernel)
      requires pager.Wf() && this as object !in pager.Repr() && k.w == pager.Abs() && k.h == INITIAL_HEAP
      modifies this
      ensures Wf() && Abs() == k
    {
      npages := 1;
      FirstEntry();
      Record(k);
    }

    /** `kheap_init`: 1 when there is no frame for the first page. */
    method Init() returns (code: nat)
      requires pager.Wf() && pager.FramesExist() && this as object !in pager.Repr()
      requires Ready(pager.pmm.geo, pager.Abs(), root)
      modifies this, pager.Repr()
      ensures pager.Wf() && pager.FramesExist()
      ensures code == if PmmSpec.Avail(old(pager.Abs()).pool) == 0 then 1 else 0
      ensures code == 1 ==> pager.Abs() == old(pager.Abs()) && unchanged(this)
      ensures code == 0 ==> Wf() && Abs() == HeapGrowth.Init(pager.pmm.geo, root, old(pager.Abs()), old(am))
    {
      ghost var k := HeapGrowth.Init(pager.pmm.geo, root, pager.Abs(), am);
      InitParts(pager.pmm.geo, root, pager.Abs(), am);
      var paddr := Vmm.TryMapNewPage(pager, root, KH_START);
      if paddr == PHYS_ADDR_NULL {
        return 1;
      }
      assert k.w == pager.Abs();
      Start(k);
      code := 0;
    }

    /** Whether a range ends inside the heap and meets neither header nor data of one block. */
    method ClearsOne(ent: nat, base: nat, limit: nat) returns (clears: bool)
      requires Chained() && ent in mem
      ensures clears == Clears(HeapOf(), Block(ent, mem[ent].dataSize), base, limit)
    {
      if Wrap64(base + limit) > KH_START + PAGE_SIZE * npages {
        return false;
      }
      if base < Wrap64(ent + HDR + mem[ent].dataSize) && Wrap64(base + limit) > ent {
        return false;
      }
      clears := true;
    }

    /** One header after the other, until one overlaps or the end of the heap is passed. */
    method IsFree(base: nat, limit: nat) returns (free: bool)
      requires Chained()
      ensures free == HeapSpec.IsFree(HeapOf(), base, limit)
    {
      var ent := head;
      ghost var i := 0;
      while ent != 0
        invariant 0 <= i <= |ents| && ent == At(ents, i)
        invariant forall j :: 0 <= j < i ==> Clears(HeapOf(), HeapOf().blocks[j], base, limit)
        decreases |ents| - i
      {
        assert HeapOf().blocks[i] == Block(ent, mem[ent].dataSize);
        var clears := ClearsOne(ent, base, limit);
        if !clears {
          return false;
        }
        ent := mem[ent].next;
        i := i + 1;
      }
      free := true;
    }

    method CandidateAfter(ent: nat) returns (addr: nat)
      requires ent in mem
      ensures addr == Candidate(Block(ent, mem[ent].dataSize))
    {
      addr := Wrap64(ent + HDR + mem[ent].dataSize);
      addr := Wrap64(addr + HDR - addr % HDR);
    }

    /** One round of `find_free`. */
    method Try(ent: nat, n: nat) returns (addr: nat, free: bool)
      requires Chained() && ent in mem
      ensures addr == Candidate(Block(ent, mem[ent].dataSize))
      ensures free == HeapSpec.IsFree(HeapOf(), addr, Wrap64(HDR + n))
    {
      addr := CandidateAfter(ent);
      free := IsFree(addr, Wrap64(HDR + n));
    }

    method FindFree(n: nat) returns (found: Option<nat>)
      requires Wf()
      ensures Wf() && Abs() == old(Abs())
      ensures found == HeapSpec.FindFree(HeapOf(), n)
    {
      var ent := head;
      ghost var i, h := 0, HeapOf();
      while ent != 0
        invariant 0 <= i <= |ents| && ent == At(ents, i)
        invariant HeapSpec.FindFree(h, n) == FindFrom(h, n, i)
        decreases |ents| - i
      {
        assert h.blocks[i] == Block(ent, mem[ent].dataSize);
        var addr, free := Try(ent, n);
        if free {
          return Some(addr);
        }
        ent := mem[ent].next;
        i := i + 1;
      }
      found := None;
    }

    /** Writes the header at `addr`, links it at the tail, and returns the address of the data. */
    method Place(addr: nat, n: nat) returns (p: Option<nat>)
      requires Wf() && 0 < addr && addr !in ents
      modifies this`mem, this`tail, this`ents
      ensures Wf() && (Abs(), p) == HeapGrowth.Place(old(Abs()), addr, n)
    {
      ChainGrows(head, tail, mem, ents, addr, n);
      mem := mem[addr := KhEnt(0, n)];
      mem := mem[tail := mem[tail].(next := addr)];
      tail := addr;
      ents := ents + [addr];
      p := Some(addr + HDR);
    }

    /** `++kh_npages`, and the record of the page just mapped. */
    method CountPage(ghost k: Kernel)
      requires Wf() && k.w == pager.Abs() && k.h.blocks == HeapOf().blocks && k.h.npages == npages + 1
      modifies this`npages, this`am, this`frames
      ensures Wf() && Abs() == k
    {
      am := k.am;
      frames := k.frames;
      npages := npages + 1;
    }

    /** `pmm_alloc`, and `vmm_map_cur` of the frame at the next heap page; false when there is no frame. */
    method AddPage(ghost k: Kernel) returns (ok: bool)
      requires Wf() && pager.FramesExist() && Ready(pager.pmm.geo, pager.Abs(), root)
      requires k.w == Step(pager.pmm.geo, pager.Abs(), MapNew(root, PageVa(npages), WRITE_FLAGS))
      requires k.h.blocks == HeapOf().blocks && k.h.npages == npages + 1
      modifies this`npages, this`am, this`frames, pager.Repr()
      ensures Wf() && pager.FramesExist() && ok == (0 < PmmSpec.Avail(old(pager.Abs()).pool))
      ensures Abs() == if ok then k else old(Abs())
    {
      var paddr := Vmm.TryMapNewPage(pager, root, PageVa(npages));
      if paddr == PHYS_ADDR_NULL {
        return false;
      }
      assert k.w == pager.Abs();
      CountPage(k);
      ok := true;
    }

    /** Places the block where the search found room for it. */
    method PlaceFound(addr: nat, n: nat) returns (p: Option<nat>)
      requires Wf() && pager.FramesExist() && Bump(HeapOf()) && n < TWO64 && !HitsBlock(HeapOf(), n)
      requires HeapSpec.FindFree(HeapOf(), n) == Some(addr)
      modifies this`mem, this`tail, this`ents
      ensures Wf() && pager.FramesExist() && (Abs(), p) == HeapGrowth.Place(old(Abs()), addr, n)
    {
      FoundIsNewIff(HeapOf(), n);
      AboveAll(HeapOf());
      assert forall i :: 0 <= i < |ents| ==> HeapOf().blocks[i].addr == ents[i];
      p := Place(addr, n);
    }

    /** One round of the loop of `kheap_alloc`: `done` when the call returns, with `p`. */
    method GrowOnce(n: nat) returns (done: bool, p: Option<nat>)
      requires Wf() && pager.FramesExist() && Ready(pager.pmm.geo, pager.Abs(), root) && npages < KH_MAX_NPAGES
      requires Bump(HeapOf()) && n < TWO64 && !HitsBlock(HeapOf(), n)
      modifies this, pager.Repr()
      ensures Wf() && pager.FramesExist()
      ensures done ==> (Abs(), p) == HeapGrowth.Grow(pager.pmm.geo, root, old(Abs()), n)
      ensures !done ==>
        && Ready(pager.pmm.geo, pager.Abs(), root) && Bump(HeapOf()) && !HitsBlock(HeapOf(), n)
        && HeapGrowth.Grow(pager.pmm.geo, root, Abs(), n) == HeapGrowth.Grow(pager.pmm.geo, root, old(Abs()), n)
        && npages == old(npages) + 1
    {
      ghost var g, k1 := pager.pmm.geo, HeapGrowth.AddPage(pager.pmm.geo, root, Abs());
      GrowRound(g, root, Abs(), n);
      AddPageParts(g, root, Abs());
      var ok := AddPage(k1);
      if !ok {
        return true, None;
      }
      assert Abs() == k1;
      assert HeapOf() == k1.h;
      var found := FindFree(n);
      if found.Some? {
        p := PlaceFound(found.value, n);
        done := true;
        assert (Abs(), p) == HeapGrowth.Place(k1, found.value, n);
        return;
      }
      done, p := false, None;
    }

    /** The loop of `kheap_alloc`. */
    method Grow(n: nat) returns (p: Option<nat>)
      requires Wf() && pager.FramesExist() && Ready(pager.pmm.geo, pager.Abs(), root)
      requires Bump(HeapOf()) && n < TWO64 && !HitsBlock(HeapOf(), n)
      modifies this, pager.Repr()
      ensures Wf() && pager.FramesExist() && (Abs(), p) == HeapGrowth.Grow(pager.pmm.geo, root, old(Abs()), n)
    {
      ghost var g, k0 := pager.pmm.geo, Abs();
      while npages < KH_MAX_NPAGES
        invariant Wf() && pager.FramesExist() && Ready(g, pager.Abs(), root) && Bump(HeapOf())
          && !HitsBlock(HeapOf(), n)
        invariant HeapGrowth.Grow(g, root, Abs(), n) == HeapGrowth.Grow(g, root, k0, n)
        decreases KH_MAX_NPAGES - npages
      {
        var done, q := GrowOnce(n);
        if done {
          return q;
        }
      }
      p := None;
    }

    /** `kheap_alloc`, whatever the pool holds, for a request that does not wrap onto a block in use. */
    method Alloc(n: nat) returns (p: Option<nat>)
      requires Wf() && pager.FramesExist() && Ready(pager.pmm.geo, pager.Abs(), root)
      requires Bump(HeapOf()) && n < TWO64 && !HitsBlock(HeapOf(), n)
      modifies this, pager.Repr()
      ensures Wf() && pager.FramesExist() && (Abs(), p) == HeapAlloc(pager.pmm.geo, root, old(Abs()), n)
    {
      var found := FindFree(n);
      if found.Some? {
        p := PlaceFound(found.value, n);
      } else {
        p := Grow(n);
      }
    }
  }
}
