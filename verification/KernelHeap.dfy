/** The heap as allocator.c runs it: static state updated in place, over the page allocator. */
module KernelHeapCode {
  import opened PageSpec
  import opened PageAllocation
  import opened HeapModel
  import opened HeapInvariant
  import opened HeapSteps
  import opened HeapTheorems

  class KernelHeap {
    const vbase: nat
    const pages: PageAllocator
    const freeLists: array<nat>
    var mem: map<nat, nat>
    var pageStart: nat
    var pageNext: nat
    var pageEnd: nat
    var extPage: nat
    var extOff: nat
    var smallInUse: int
    var bigOutstanding: int

    ghost predicate Valid()
      reads this, freeLists, pages, pages.bitmap
    {
      freeLists.Length == CLASS_COUNT && pages.Valid() && freeLists as object != pages.bitmap
    }

    ghost function View(): Heap
      requires Valid()
      reads this, freeLists, pages, pages.bitmap
    {
      Heap(vbase, mem, freeLists[..], pageStart, pageNext, pageEnd, extPage, extOff,
           smallInUse, bigOutstanding, pages.View())
    }

    // alloc_init.
    constructor (vbase: nat, heapStart: nat, heapEnd: nat, pages: PageAllocator)
      requires pages.Valid()
      ensures Valid() && fresh(freeLists) && this.pages == pages
      ensures View() == Fresh(vbase, heapStart, heapEnd, pages.View()).h
    {
      this.vbase, this.pages, this.mem := vbase, pages, map[];
      pageStart := Align16(heapStart) + vbase;
      pageNext := Align16(heapStart) + vbase;
      pageEnd := heapEnd + vbase;
      extPage, extOff, smallInUse, bigOutstanding := 0, 0, 0, 0;
      freeLists := new nat[CLASS_COUNT];
      new;
      for i := 0 to CLASS_COUNT
        invariant forall k | 0 <= k < i :: freeLists[k] == 0
        invariant Valid() && fresh(freeLists)
        invariant mem == map[] && pageStart == pageNext == Align16(heapStart) + vbase && pageEnd == heapEnd + vbase
        invariant extPage == extOff == 0 && smallInUse == bigOutstanding == 0
        invariant pages.View() == old(pages.View())
      {
        freeLists[i] := 0;
      }
      assert freeLists[..] == seq(CLASS_COUNT, _ => 0);
    }

    // page_alloc_init while the heap is in use, and page_alloc_reserve of some regions.
    method InitPages(ranges: seq<Range>, regions: seq<Region>, ghost g: Ledger)
      requires Valid() && forall r | r in ranges :: r.End() < WRAP
      requires forall r | r in regions :: r.from < WRAP && r.size < WRAP
      modifies pages, pages.bitmap
      ensures Valid() && View() == Step(System(old(View()), g), Op.InitPages(ranges, regions)).h
    {
      hide Reserve;
      pages.Init(ranges);
      ghost var P := pages.View();
      var i := 0;
      while i < |regions|
        invariant i <= |regions| && Valid() && unchanged(this) && unchanged(freeLists)
        invariant pages.bitmap == old(pages.bitmap) || fresh(pages.bitmap)
        invariant ReserveAll(pages.View(), regions[i..]) == ReserveAll(P, regions)
      {
        pages.ReserveRange(regions[i].from, regions[i].size);
        i := i + 1;
      }
    }

    // page_alloc_reserve while the heap is in use.
    method ReservePages(from: nat, size: nat, ghost g: Ledger)
      requires Valid() && from < WRAP && size < WRAP
      modifies pages, pages.bitmap
      ensures Valid() && pages.bitmap == old(pages.bitmap)
      ensures View() == Step(System(old(View()), g), Op.ReservePages(from, size)).h
    {
      pages.ReserveRange(from, size);
    }

    // class_of.
    method ClassIndex(size: nat) returns (ci: int)
      ensures ci == ClassOf(size)
    {
      if size > SLAB_MAX {
        return -1;
      }
      for i := 0 to CLASS_COUNT
        invariant FirstFit(CLASS_SIZES, size, 0) == FirstFit(CLASS_SIZES, size, i)
      {
        if CLASS_SIZES[i] >= size {
          return i;
        }
      }
      ci := -1;
    }

    method SlabCarve(ci: nat) returns (block: nat)
      requires Valid() && ci < CLASS_COUNT
      modifies this, pages, pages.bitmap
      ensures Valid() && pages.bitmap == old(pages.bitmap)
      ensures View() == Carve(old(View()), ci).0 && block == Carve(old(View()), ci).1
    {
      var need := SlabSize(ci);
      if Add64(pageNext, need) <= pageEnd {
        block := pageNext;
        pageNext := Add64(pageNext, need);
        return;
      }
      if extPage == 0 || extOff + need > PAGE {
        extPage := pages.Alloc();
        if extPage == 0 {
          return 0;
        }
        extPage := extPage + vbase;
        extOff := 0;
      }
      block := extPage + extOff;
      extOff := extOff + need;
    }

    // kr_alloc.
    method Allocate(request: nat) returns (ptr: nat)
      requires Valid()
      modifies this, freeLists, pages, pages.bitmap
      ensures Valid() && pages.bitmap == old(pages.bitmap)
      ensures View() == KrAlloc(old(View()), request).0 && ptr == KrAlloc(old(View()), request).1
    {
      var size := request;
      if size < 8 {
        size := 8;
      }
      if size <= SLAB_MAX {
        ClassOfIsLeast(size);
        ptr := AllocateSmall(size);
      } else {
        ptr := AllocateBig(size);
      }
    }

    method AllocateSmall(size: nat) returns (ptr: nat)
      requires Valid() && size <= SLAB_MAX && ClassOf(size) >= 0
      modifies this, freeLists, pages, pages.bitmap
      ensures Valid() && pages.bitmap == old(pages.bitmap)
      ensures View() == AllocSmall(old(View()), size).0 && ptr == AllocSmall(old(View()), size).1
    {
      var ci := ClassIndex(size);
      var block := freeLists[ci];
      if block != 0 {
        freeLists[ci] := Word(mem, block);
      } else {
        block := SlabCarve(ci);
        if block == 0 {
          return 0;
        }
      }
      mem := mem[block := ci];
      smallInUse := smallInUse + 1;
      ptr := block + HEADER;
    }

    method AllocateBig(size: nat) returns (ptr: nat)
      requires Valid()
      modifies this, pages, pages.bitmap
      ensures Valid() && pages.bitmap == old(pages.bitmap)
      ensures View() == AllocBig(old(View()), size).0 && ptr == AllocBig(old(View()), size).1
    {
      hide Align16, Add64, Int32, TakeRun;
      var need := Align16(Add64(HEADER, size));
      var n := Add64(need, PAGE - 1) / PAGE;
      var block;
      if Add64(pageNext, n * PAGE) <= pageEnd {
        block := pageNext;
        pageNext := Add64(pageNext, n * PAGE);
      } else {
        block := pages.AllocContig(Int32(n));
        if block == 0 {
          return 0;
        }
        block := block + vbase;
      }
      mem := mem[block := BIG_MAGIC];
      mem := mem[block + 8 := n];
      bigOutstanding := bigOutstanding + 1;
      ptr := block + HEADER;
    }

    // The page_free calls for a large block.
    method ReleasePages(block: nat, n: nat)
      requires Valid()
      modifies pages, pages.bitmap
      ensures Valid() && pages.bitmap == old(pages.bitmap)
      ensures pages.View() == FreeRun(old(pages.View()), Sub64(block, vbase), n)
    {
      hide Sub64, FreeAddr;
      for i := 0 to n
        invariant Valid() && pages.bitmap == old(pages.bitmap)
        invariant pages.View() == FreeRun(old(pages.View()), Sub64(block, vbase), i)
      {
        SubThenAdd(block, vbase, i * PAGE);
        pages.Free(Sub64(block + i * PAGE, vbase));
      }
    }

    // kr_dealloc.
    method Deallocate(addr: nat)
      requires Valid()
      modifies this, freeLists, pages, pages.bitmap
      ensures Valid() && pages.bitmap == old(pages.bitmap)
      ensures View() == KrDealloc(old(View()), addr)
    {
      if addr == 0 {
        return;
      }
      hide Sub64, FreeRun, Add64;
      var block := Sub64(addr, HEADER);
      var ci := Word(mem, block);
      if ci == BIG_MAGIC {
        var n := Word(mem, Add64(block, 8));
        ReleasePages(block, n);
        bigOutstanding := bigOutstanding - 1;
        return;
      }
      if ci >= CLASS_COUNT {
        return;
      }
      mem := mem[block := freeLists[ci]];
      freeLists[ci] := block;
      smallInUse := smallInUse - 1;
    }

    // kr_alloc_stats: the walk over each list ends, and what it counts are the free blocks.
    method Stats(ghost g: Ledger) returns (pagesUsed: nat, smallBlocks: int, smallFree: nat, bigBlocks: int)
      requires Valid() && Inv(System(View(), g))
      ensures pagesUsed == (pageNext - pageStart) / PAGE
      ensures smallBlocks == |SmallBlocks(g)| && bigBlocks == |BigBlocks(g)|
      ensures smallFree == SumLengths(g.lists)
    {
      smallFree := 0;
      for i := 0 to CLASS_COUNT
        invariant smallFree == SumLengths(g.lists[..i])
      {
        var n := ListLength(i, g);
        assert g.lists[..i + 1][..i] == g.lists[..i];
        smallFree := smallFree + n;
      }
      assert g.lists[..CLASS_COUNT] == g.lists;
      pagesUsed := (pageNext - pageStart) / PAGE;
      smallBlocks := smallInUse;
      bigBlocks := bigOutstanding;
    }

    method ListLength(ci: nat, ghost g: Ledger) returns (n: nat)
      requires Valid() && Inv(System(View(), g)) && ci < CLASS_COUNT
      ensures n == |g.lists[ci]|
    {
      ghost var l := g.lists[ci];
      ghost var s := System(View(), g);
      assert ListOk(s, ci);
      forall i | 0 <= i < |l| ensures l[i] != 0 {
        assert BlockOk(s, l[i], s.g.blocks[l[i]]);
      }
      n := 0;
      var b := freeLists[ci];
      while b != 0
        invariant n <= |l| && b == if n < |l| then l[n] else 0
        decreases |l| - n
      {
        assert Word(mem, l[n]) == Next(l, n);
        n := n + 1;
        b := Word(mem, b);
      }
    }
  }

  lemma SubThenAdd(a: nat, b: nat, k: nat)
    ensures Sub64(a + k, b) == (Sub64(a, b) + k) % WRAP
  {
  }
}
