/** Safety of the kernel heap over whole histories. */
module HeapTheorems {
  import opened Basics
  import opened PageSpec
  import opened HeapModel
  import opened HeapInvariant
  import opened HeapSteps

  // ---------------------------------------------------------------- histories

  // The page allocator before page_alloc_init.
  const NO_PAGES := Pages(0, 0, {})

  const NO_BITMAP := Region(0, 0)

  // alloc_init, with the page allocator as it is then and the virtual address of its bitmap.
  ghost function Fresh(vbase: nat, heapStart: nat, heapEnd: nat, P: Pages, bitmap: Region := NO_BITMAP): System {
    var start := Align16(heapStart) + vbase;
    System(
      Heap(vbase, map[], seq(CLASS_COUNT, _ => 0), start, start, heapEnd + vbase, 0, 0, 0, 0, P),
      Ledger(map[], seq(CLASS_COUNT, _ => []), map[], map[], 0, {}, P.free, bitmap))
  }

  // The bump region: addressable, a page short of the end of memory.
  predicate GoodRegion(vbase: nat, heapStart: nat, heapEnd: nat) {
    && vbase % 16 == 0 && 0 < vbase
    && heapStart + 15 < WRAP && Align16(heapStart) <= heapEnd && heapEnd + vbase + PAGE < WRAP
  }

  // The memory map of an allocator set up before the heap: no free page meets the bump region, which
  // does not straddle the start of the span, and the bitmap meets neither.
  ghost predicate GoodLayout(vbase: nat, heapStart: nat, heapEnd: nat, P: Pages, bitmap: Region) {
    && GoodRegion(vbase, heapStart, heapEnd)
    && P.Valid() && P.start % 16 == 0 && vbase + P.End() <= WRAP
    && (P.count > 0 ==> heapEnd <= P.start || P.start <= Align16(heapStart))
    && (forall p | p in P.free :: heapEnd <= P.start + p * PAGE || P.start + (p + 1) * PAGE <= Align16(heapStart))
    && (P.count == 0 ==> bitmap.size == 0)
    && ClearBitmap(Fresh(vbase, heapStart, heapEnd, P).h, P, bitmap)
  }

  ghost function Run(s: System, ops: seq<Op>): System
    decreases |ops|
  {
    if ops == [] then s else Run(Step(s, ops[0]), ops[1..])
  }

  ghost predicate AllAdmissible(s: System, ops: seq<Op>)
    decreases |ops|
  {
    ops == [] || (Admissible(s, ops[0]) && AllAdmissible(Step(s, ops[0]), ops[1..]))
  }

  lemma FreshIsSafe(vbase: nat, heapStart: nat, heapEnd: nat, P: Pages, bitmap: Region)
    requires GoodLayout(vbase, heapStart, heapEnd, P, bitmap)
    ensures Inv(Fresh(vbase, heapStart, heapEnd, P, bitmap))
  {
    var s := Fresh(vbase, heapStart, heapEnd, P, bitmap);
    assert s.h.pageStart % 16 == 0 by {
      Multiples(Align16(heapStart), vbase);
    }
    forall x: nat | InBump(s, x) ensures !InGiven(s, x) {
      if x >= Origin(s) {
        PageNoIsExact(s, PageNo(s, x), x);
      }
    }
    forall o1, o2, x | Owns(s, o1, x) && Owns(s, o2, x)
      ensures o1 == o2 && (o1 == Bitmap || InBump(s, x) || InGiven(s, x))
    {
      if o1.FreePage? {
        PageNoIsExact(s, o1.p, x);
      }
      if o2.FreePage? {
        PageNoIsExact(s, o2.p, x);
      }
    }
    assert SmallBlocks(s.g) == {} && BigBlocks(s.g) == {};
  }

  // The bump region at the start: from the least multiple of 16 at or above its lower bound to its upper
  // bound, all of it uncarved.
  lemma RegionIsWhole(vbase: nat, heapStart: nat, heapEnd: nat, P: Pages, bitmap: Region, x: nat)
    requires GoodRegion(vbase, heapStart, heapEnd)
    ensures Owns(Fresh(vbase, heapStart, heapEnd, P, bitmap), Bump, vbase + x) <==>
            heapStart + (16 - heapStart % 16) % 16 <= x < heapEnd
    ensures InBump(Fresh(vbase, heapStart, heapEnd, P, bitmap), vbase + x) <==>
            heapStart + (16 - heapStart % 16) % 16 <= x < heapEnd
  {
    RoundsUp(heapStart);
    hide Align16;
  }

  lemma RoundsUp(v: nat)
    requires v + 15 < WRAP
    ensures Align16(v) == v + (16 - v % 16) % 16
  {
  }

  // Every admissible history keeps the invariant.
  lemma {:induction false} HistoryIsSafe(s: System, ops: seq<Op>)
    requires Inv(s) && AllAdmissible(s, ops)
    ensures Inv(Run(s, ops))
    decreases |ops|
  {
    if ops != [] {
      StepKeeps(s, ops[0]);
      HistoryIsSafe(Step(s, ops[0]), ops[1..]);
    }
  }

  // So does every history of the running system: the first allocation finds no page allocator, which is
  // set up later, over live objects.
  lemma BootHistoryIsSafe(vbase: nat, heapStart: nat, heapEnd: nat, ops: seq<Op>)
    requires GoodRegion(vbase, heapStart, heapEnd)
    requires AllAdmissible(Fresh(vbase, heapStart, heapEnd, NO_PAGES), ops)
    ensures Inv(Run(Fresh(vbase, heapStart, heapEnd, NO_PAGES), ops))
  {
    hide Inv;
    FreshIsSafe(vbase, heapStart, heapEnd, NO_PAGES, NO_BITMAP);
    HistoryIsSafe(Fresh(vbase, heapStart, heapEnd, NO_PAGES), ops);
  }

  // ---------------------------------------------------------------- what the invariant gives a client

  // Two owners never overlap: live blocks, free-listed blocks, uncarved bump space, the rest of the
  // extension page, free pages and pages handed out directly.
  lemma NothingOverlaps(s: System, o1: Owner, o2: Owner)
    requires Inv(s) && IsOwner(s, o1) && IsOwner(s, o2) && o1 != o2
    requires Low(s, o1) < High(s, o1) && Low(s, o2) < High(s, o2)
    ensures High(s, o1) <= Low(s, o2) || High(s, o2) <= Low(s, o1)
  {
    hide Provided, BlocksOk, Headers, FreeLists, Counts, Stacked;
    var x := if Low(s, o1) < Low(s, o2) then Low(s, o2) else Low(s, o1);
    assert Owns(s, o1, x) <==> x < High(s, o1);
    assert Owns(s, o2, x) <==> x < High(s, o2);
  }

  // A request is granted an aligned block that holds it and that nobody was using.
  lemma AllocGrants(s: System, size: nat)
    requires Inv(s) && SizeFits(s.h, size) && KrAlloc(s.h, size).1 != 0
    ensures Granted(s, AllocStep(s, size), KrAlloc(s.h, size).1, size)
  {
    hide Inv, Granted, SizeFits;
    AllocKeeps(s, size);
  }

  // ---------------------------------------------------------------- data of live objects

  // Word w lies in the object (not the header) of the block in use at b.
  ghost predicate InObject(s: System, b: nat, w: nat) {
    b in s.g.blocks && !s.g.blocks[b].Free? && b + HEADER <= w && w + 8 <= b + Len(s.g.blocks[b])
  }

  // kr_alloc writes the header of the block it hands out, kr_dealloc the link of the block it takes back.
  lemma AllocWrites(s: System, size: nat)
    ensures var t, ptr := AllocStep(s, size), KrAlloc(s.h, size).1;
            if ptr == 0 then t.h.mem == s.h.mem && t.g == s.g
            else ptr >= HEADER && WritesOnly(s.h.mem, t.h.mem, ptr - HEADER, true)
                 && t.g.blocks == s.g.blocks[ptr - HEADER := NewBlock(size)]
  {
    hide PagesFor, Int32, Add64, SlabSize, TakeRun, FirstFit, WritesOnly, NewBlock;
    KrAllocWrites(s.h, size);
  }

  lemma KrAllocWrites(h: Heap, size: nat)
    ensures var (k, ptr) := KrAlloc(h, size);
            if ptr == 0 then k.mem == h.mem else ptr >= HEADER && WritesOnly(h.mem, k.mem, ptr - HEADER, true)
  {
    hide PagesFor, Int32, Add64, SlabSize, FirstFit, FirstRun;
    var n := AtLeast8(size);
    if n <= SLAB_MAX {
      ClassOfIsLeast(n);
      assert Carve(h, ClassOf(n)).0.mem == h.mem;
    }
  }

  lemma DeallocWrites(s: System, ptr: nat)
    requires Inv(s) && Live(s, ptr)
    ensures WritesOnly(s.h.mem, DeallocStep(s, ptr).h.mem, ptr - HEADER, false)
    ensures forall a | a in s.g.blocks && a != ptr - HEADER ::
              a in DeallocStep(s, ptr).g.blocks && DeallocStep(s, ptr).g.blocks[a] == s.g.blocks[a]
  {
    FreedHeap(s, ptr);
    hide Inv, FreeRun, KrDealloc;
  }

  // Until it is freed a block stays what it is.
  lemma StepKeepsBlock(s: System, op: Op, b: nat)
    requires Inv(s) && Admissible(s, op) && Live(s, b + HEADER) && op != Dealloc(b + HEADER)
    ensures Live(Step(s, op), b + HEADER) && Step(s, op).g.blocks[b] == s.g.blocks[b]
  {
    hide Exclusive, Provided, BlocksOk, Headers, FreeLists, Counts, Stacked;
    match op
    case Alloc(size) =>
      AllocKeeps(s, size);
      AllocWrites(s, size);
    case Dealloc(ptr) =>
      if ptr != 0 {
        DeallocWrites(s, ptr);
      }
    case Write(_, _, _) =>
    case GrabPages(_) =>
    case ReturnPage(_) =>
    case InitPages(_, _) =>
    case ReservePages(_, _) =>
  }

  lemma {:induction false} HistoryKeepsBlock(s: System, ops: seq<Op>, b: nat)
    requires Inv(s) && AllAdmissible(s, ops) && Live(s, b + HEADER)
    requires forall op | op in ops :: op != Dealloc(b + HEADER)
    ensures var t := Run(s, ops);
            Inv(t) && Live(t, b + HEADER) && t.g.blocks[b] == s.g.blocks[b]
    decreases |ops|
  {
    hide Inv;
    if ops != [] {
      assert ops[0] in ops && forall op | op in ops[1..] :: op in ops;
      StepKeeps(s, ops[0]);
      StepKeepsBlock(s, ops[0], b);
      HistoryKeepsBlock(Step(s, ops[0]), ops[1..], b);
    }
  }

  // kr_dealloc reads back the class index or page count that kr_alloc stored, whatever clients wrote
  // in between, although the same words hold links while blocks are free.
  lemma DeallocReadsWhatAllocStored(s: System, size: nat, ops: seq<Op>)
    requires Inv(s) && SizeFits(s.h, size) && KrAlloc(s.h, size).1 != 0
    requires AllAdmissible(AllocStep(s, size), ops)
    requires forall op | op in ops :: op != Dealloc(KrAlloc(s.h, size).1)
    ensures var ptr := KrAlloc(s.h, size).1;
            ptr >= HEADER && HeaderOk(Run(AllocStep(s, size), ops).h.mem, ptr - HEADER, NewBlock(size))
  {
    hide SizeFits, KrAlloc, AllocStep, NewBlock, AllAdmissible, Run;
    hide Exclusive, Provided, BlocksOk, FreeLists, Counts, Stacked;
    AllocKeeps(s, size);
    HistoryKeepsBlock(AllocStep(s, size), ops, KrAlloc(s.h, size).1 - HEADER);
  }

  // op stores into word w, or frees the block at b.
  ghost predicate Touches(op: Op, b: nat, w: nat) {
    match op
    case Dealloc(ptr) => ptr == b + HEADER
    case Write(ptr, off, _) => ptr + off == w
    case _ => false
  }

  lemma ObjectApart(s: System, b: nat, w: nat, a: nat)
    requires Inv(s) && InObject(s, b, w) && a in s.g.blocks && a != b
    ensures w != a && w != a + 8
  {
    hide Provided, Headers, FreeLists, Counts, Stacked;
    BlockLen(s, a);
    assert Owns(s, Carved(b), w);
  }

  // A live object keeps every word nobody stores to, whatever else happens in the heap.
  lemma StepKeepsData(s: System, op: Op, b: nat, w: nat)
    requires Inv(s) && Admissible(s, op) && InObject(s, b, w) && !Touches(op, b, w)
    ensures InObject(Step(s, op), b, w) && Word(Step(s, op).h.mem, w) == Word(s.h.mem, w)
  {
    hide Exclusive, Provided, BlocksOk, Headers, FreeLists, Counts, Stacked;
    StepKeepsBlock(s, op, b);
    match op
    case Alloc(size) =>
      AllocKeeps(s, size);
      AllocWrites(s, size);
      if KrAlloc(s.h, size).1 != 0 {
        ObjectApart(AllocStep(s, size), b, w, KrAlloc(s.h, size).1 - HEADER);
      }
    case Dealloc(ptr) =>
      if ptr != 0 {
        DeallocWrites(s, ptr);
        ObjectApart(s, b, w, ptr - HEADER);
      }
    case Write(_, _, _) =>
    case GrabPages(_) =>
    case ReturnPage(_) =>
    case InitPages(_, _) =>
    case ReservePages(_, _) =>
  }

  // Word w shares a byte with the bitmap.
  ghost predicate MeetsBitmap(s: System, w: nat) {
    exists x | w <= x < w + 8 :: Owns(s, Bitmap, x)
  }

  lemma HeaderMissesBitmap(s: System, b: nat, w: nat)
    requires Inv(s) && b in s.g.blocks && (w == b || w == b + 8)
    ensures !MeetsBitmap(s, w)
  {
    hide Provided, Headers, FreeLists, Counts, Stacked;
    BlockLen(s, b);
    hide BlocksOk;
    forall x | w <= x < w + 8 ensures !Owns(s, Bitmap, x) {
      assert Owns(s, Carved(b), x);
    }
  }

  lemma ObjectMissesBitmap(s: System, b: nat, w: nat)
    requires Inv(s) && InObject(s, b, w)
    ensures !MeetsBitmap(s, w)
  {
    hide Provided, BlocksOk, Headers, FreeLists, Counts, Stacked;
    forall x | w <= x < w + 8 ensures !Owns(s, Bitmap, x) {
      assert Owns(s, Carved(b), x);
    }
  }

  lemma SameBitmap(s: System, t: System, w: nat)
    requires t.g.bitmap == s.g.bitmap
    ensures MeetsBitmap(t, w) <==> MeetsBitmap(s, w)
  {
    assert forall x :: Owns(t, Bitmap, x) == Owns(s, Bitmap, x);
  }

  // Neither the heap nor a client ever stores into the bitmap, wherever initialisation puts it.
  lemma BitmapIsUntouched(s: System, op: Op, w: nat)
    requires Inv(s) && Admissible(s, op) && MeetsBitmap(Step(s, op), w)
    ensures Word(Step(s, op).h.mem, w) == Word(s.h.mem, w)
  {
    hide Inv, MeetsBitmap, Granted, SizeFits, FreeIsSafe, NewBlock, FreeRun, TakeRun;
    StepKeeps(s, op);
    if !op.InitPages? {
      SameBitmap(s, Step(s, op), w);
    }
    match op
    case Alloc(size) =>
      var ptr := KrAlloc(s.h, size).1;
      AllocKeeps(s, size);
      AllocWrites(s, size);
      if ptr != 0 && (w == ptr - HEADER || w == ptr - HEADER + 8) {
        HeaderMissesBitmap(AllocStep(s, size), ptr - HEADER, w);
      }
    case Dealloc(ptr) =>
      if ptr != 0 {
        DeallocWrites(s, ptr);
        if w == ptr - HEADER {
          HeaderMissesBitmap(s, w, w);
        }
      }
    case Write(ptr, off, _) =>
      if w == ptr + off {
        ObjectMissesBitmap(s, ptr - HEADER, w);
      }
    case GrabPages(_) =>
    case ReturnPage(_) =>
    case InitPages(_, _) =>
    case ReservePages(_, _) =>
  }

  lemma {:induction false} HistoryKeepsData(s: System, ops: seq<Op>, b: nat, w: nat)
    requires Inv(s) && AllAdmissible(s, ops) && InObject(s, b, w)
    requires forall op | op in ops :: !Touches(op, b, w)
    ensures InObject(Run(s, ops), b, w) && Word(Run(s, ops).h.mem, w) == Word(s.h.mem, w)
    decreases |ops|
  {
    hide Inv, InObject;
    if ops != [] {
      assert ops[0] in ops && forall op | op in ops[1..] :: op in ops;
      StepKeeps(s, ops[0]);
      StepKeepsData(s, ops[0], b, w);
      HistoryKeepsData(Step(s, ops[0]), ops[1..], b, w);
    }
  }

  // ---------------------------------------------------------------- exhaustion

  // The free list a small request looks at.
  ghost function ClassList(s: System, size: nat): seq<nat> {
    var ci := ClassOf(AtLeast8(size));
    if ci < 0 then [] else s.g.lists[ci]
  }

  // kr_alloc fails exactly when nothing can serve the request. A free page 0 of a span at address 0 is
  // out: its address is the failure value.
  lemma AllocFailsExactly(s: System, size: nat)
    requires Inv(s) && SizeFits(s.h, size) && (s.h.pages.start > 0 || 0 !in s.h.pages.free)
    ensures KrAlloc(s.h, size).1 == 0 <==>
            if size <= SLAB_MAX then
              var block := Len(NewBlock(size));
              && ClassList(s, size) == []
              && s.h.pageNext + block > s.h.pageEnd
              && (s.h.extPage == 0 || s.h.extOff + block > PAGE)
              && s.h.pages.free == {}
            else
              && s.h.pageNext + PagesFor(size) * PAGE > s.h.pageEnd
              && forall g: nat :: Int32(PagesFor(size)) <= 0 || !RunAt(s.h.pages, g, PagesFor(size))
  {
    hide Exclusive, Provided, BlocksOk, Headers, FreeLists, Counts, Stacked;
    if size <= SLAB_MAX {
      SmallFailsExactly(s, size);
    } else {
      BigFailsExactly(s, size);
    }
  }

  lemma SmallFailsExactly(s: System, size: nat)
    requires Inv(s) && size <= SLAB_MAX && (s.h.pages.start > 0 || 0 !in s.h.pages.free)
    ensures KrAlloc(s.h, size).1 == 0 <==>
            var block := Len(NewBlock(size));
            && ClassList(s, size) == []
            && s.h.pageNext + block > s.h.pageEnd
            && (s.h.extPage == 0 || s.h.extOff + block > PAGE)
            && s.h.pages.free == {}
  {
    hide Exclusive, Provided, BlocksOk, Headers, FreeLists, Counts, Stacked;
    ClassFits(size);
    var ci := ClassOf(AtLeast8(size));
    HeadOfList(s, ci);
    OnePageLeft(s.h.pages);
  }

  lemma OnePageLeft(P: Pages)
    requires P.Valid() && (P.start > 0 || 0 !in P.free)
    ensures TakeRun(P, 1).1 == 0 <==> P.free == {}
  {
    TakeRunMeaning(P, 1);
    if p :| p in P.free {
      assert Interval(p, 1) == {p};
      assert RunAt(P, p, 1);
    }
    if FirstRun(P, 1).Some? {
      assert FirstRun(P, 1).value in Interval(FirstRun(P, 1).value, 1);
    }
  }

  lemma BigFailsExactly(s: System, size: nat)
    requires Inv(s) && size > SLAB_MAX && SizeFits(s.h, size) && (s.h.pages.start > 0 || 0 !in s.h.pages.free)
    ensures KrAlloc(s.h, size).1 == 0 <==>
            && s.h.pageNext + PagesFor(size) * PAGE > s.h.pageEnd
            && forall g: nat :: Int32(PagesFor(size)) <= 0 || !RunAt(s.h.pages, g, PagesFor(size))
  {
    hide Exclusive, Provided, BlocksOk, Headers, FreeLists, Counts, Stacked;
    hide PagesFor;
    var n := PagesFor(size);
    SumDoesNotWrap(s.h.pageNext, n * PAGE);
    if Int32(n) > 0 {
      TakeRunMeaning(s.h.pages, n);
    }
  }

  // The pages asked of the page allocator start with page 0 of a span at address 0: they are taken, but
  // their address is the failure value.
  ghost predicate TakesZero(s: System, size: nat) {
    && s.h.pages.start == 0
    && if size <= SLAB_MAX then 0 in s.h.pages.free
       else Int32(PagesFor(size)) > 0 && RunAt(s.h.pages, 0, PagesFor(size))
  }

  // A small request that fails costs the rest of the extension page and nothing else, a large one
  // nothing, exactly when no page was lost that way.
  lemma FailureCostsExactly(s: System, size: nat)
    requires Inv(s) && SizeFits(s.h, size) && KrAlloc(s.h, size).1 == 0
    ensures AllocStep(s, size) == (if size <= SLAB_MAX then s.(h := s.h.(extPage := 0)) else s)
            <==> !TakesZero(s, size)
  {
    hide Exclusive, Provided, BlocksOk, Headers, FreeLists, Counts, Stacked;
    if size <= SLAB_MAX {
      SmallFailure(s, size);
    } else {
      LargeFailure(s, size);
    }
  }

  lemma LargeFailure(s: System, size: nat)
    requires Inv(s) && size > SLAB_MAX && SizeFits(s.h, size) && KrAlloc(s.h, size).1 == 0
    ensures AllocStep(s, size) == s <==> !TakesZero(s, size)
  {
    hide Exclusive, Provided, BlocksOk, Headers, FreeLists, Counts, Stacked;
    hide PagesFor, FirstRun, Int32;
    var n := PagesFor(size);
    SumDoesNotWrap(s.h.pageNext, n * PAGE);
    NoRunForNothing(s.h.pages, Int32(n));
    if Int32(n) > 0 {
      TakingZero(s.h.pages, n);
    }
  }

  // Without an address nothing was taken, or page 0 was.
  lemma TakingZero(P: Pages, n: nat)
    requires P.Valid() && n > 0 && TakeRun(P, n).1 == 0
    ensures TakeRun(P, n).0 == P <==> !(P.start == 0 && RunAt(P, 0, n))
  {
    ZeroMeansFailureExactly(P, n);
  }

  lemma SmallFailure(s: System, size: nat)
    requires Inv(s) && size <= SLAB_MAX && KrAlloc(s.h, size).1 == 0
    ensures AllocStep(s, size) == s.(h := s.h.(extPage := 0)) <==> !TakesZero(s, size)
  {
    hide Exclusive, Provided, BlocksOk, Headers, FreeLists, Counts, Stacked;
    hide KrAlloc, AllocStep, NewBlock, ClassOf, SlabSize, TakeRun;
    ClassFits(size);
    var ci := ClassOf(AtLeast8(size));
    HeadOfList(s, ci);
    if s.h.lists[ci] != 0 {
      PoppingStep(s, size, ci);
      assert false;
    }
    NoBumpWrap(s, ci);
    var (c, b) := Carve(s.h, ci);
    CarvingStep(s, size, c, b);
    NoCarving(s, ci);
    TakingZero(s.h.pages, 1);
    ZeroIsOnePage(s.h.pages);
  }

  lemma NoCarving(s: System, ci: nat)
    requires Setup(s) && ci < CLASS_COUNT && Carve(s.h, ci).1 == 0
    ensures TakeRun(s.h.pages, 1).1 == 0
    ensures Carve(s.h, ci).0 == s.h.(pages := TakeRun(s.h.pages, 1).0, extPage := 0)
  {
    NoBumpWrap(s, ci);
    hide TakeRun, SlabSize;
  }

  lemma ZeroIsOnePage(P: Pages)
    requires P.Valid()
    ensures RunAt(P, 0, 1) <==> 0 in P.free
  {
    assert Interval(0, 1) == {0};
  }

  // Freeing 0, or an address whose header holds neither a class nor the mark of a large block, does
  // nothing.
  lemma IgnoredFrees(h: Heap, addr: nat)
    requires addr == 0 || (var w := Word(h.mem, (addr - 16) % WRAP); w >= 28 && w != 0xFFFF)
    ensures KrDealloc(h, addr) == h
  {
    hide FreeRun;
  }

  // ---------------------------------------------------------------- where a request is served

  ghost predicate LowestFree(P: Pages, p: nat) {
    p in P.free && forall q | q in P.free :: p <= q
  }

  ghost predicate SameRegions(h: Heap, k: Heap) {
    && k.pageNext == h.pageNext && k.pageStart == h.pageStart && k.pageEnd == h.pageEnd
    && k.extPage == h.extPage && k.extOff == h.extOff && k.pages == h.pages
  }

  // [b, end) is cut off the front of what owner o has, and the rest stays his.
  ghost predicate CutOff(s: System, t: System, o: Owner, b: int, end: int) {
    && IsOwner(s, o) && IsOwner(t, o)
    && b == Low(s, o) && Low(t, o) == end && High(t, o) == High(s, o)
  }

  // [b, end) is the front of the lowest free page, and the rest of it that of the extension page.
  ghost predicate OffPageFront(s: System, t: System, p: nat, b: int, end: int) {
    && LowestFree(s.h.pages, p) && t.h.pages == s.h.pages.(free := s.h.pages.free - {p})
    && b == Low(s, FreePage(p)) && IsOwner(t, Tail) && Low(t, Tail) == end && High(t, Tail) == High(s, FreePage(p))
    && t.h.pageNext == s.h.pageNext && t.h.pageStart == s.h.pageStart && t.h.pageEnd == s.h.pageEnd
  }

  ghost predicate FromSomePage(s: System, t: System, b: int, end: int) {
    exists p: nat :: OffPageFront(s, t, p, b, end)
  }

  // Where a small request gets its block, and what is left there: the front of the list of its class;
  // without one, the front of the bump region; without room there, the front of the rest of the extension
  // page; without room there, the front of the lowest free page, which becomes the extension page.
  ghost predicate ServedInOrder(s: System, t: System, ptr: nat, size: nat) {
    var b, len := ptr - HEADER, Len(NewBlock(size));
    if ClassList(s, size) != [] then
      b == ClassList(s, size)[0] && ClassList(t, size) == ClassList(s, size)[1..] && SameRegions(s.h, t.h)
    else
      && t.g.lists == s.g.lists
      && if Low(s, Bump) + len <= High(s, Bump) then
           CutOff(s, t, Bump, b, b + len) && SameRegions(s.h, t.h.(pageNext := s.h.pageNext))
         else if IsOwner(s, Tail) && Low(s, Tail) + len <= High(s, Tail) then
           CutOff(s, t, Tail, b, b + len) && SameRegions(s.h, t.h.(extOff := s.h.extOff))
         else FromSomePage(s, t, b, b + len)
  }

  lemma IsFromPage(s: System, t: System, p: nat, len: nat)
    requires s.h.pages.Valid() && LowestFree(s.h.pages, p) && t.h.vbase == s.h.vbase
    requires t.h.pages == s.h.pages.(free := s.h.pages.free - {p}) && t.h.extPage == Origin(s) + p * PAGE > 0
    requires t.h.extOff == len && t.h.pageNext == s.h.pageNext
    requires t.h.pageStart == s.h.pageStart && t.h.pageEnd == s.h.pageEnd
    ensures FromSomePage(s, t, Origin(s) + p * PAGE, Origin(s) + p * PAGE + len)
  {
    assert OffPageFront(s, t, p, Origin(s) + p * PAGE, Origin(s) + p * PAGE + len);
  }

  lemma LowestIsTaken(P: Pages, p: nat)
    requires P.Valid() && p in P.free && TakeRun(P, 1).0 == P.(free := P.free - {p}) && TakeRun(P, 1).1 != 0
    ensures LowestFree(P, p)
  {
    TakeRunMeaning(P, 1);
    var f := FirstRun(P, 1).value;
    assert Interval(f, 1) == {f};
    assert p !in P.free - {p};
    forall q | q in P.free ensures f <= q {
      assert Interval(q, 1) == {q};
      assert RunAt(P, q, 1);
    }
  }

  lemma SmallIsServedInOrder(s: System, size: nat)
    requires Inv(s) && size <= SLAB_MAX && KrAlloc(s.h, size).1 != 0
    ensures ServedInOrder(s, AllocStep(s, size), KrAlloc(s.h, size).1, size)
  {
    hide Exclusive, Provided, BlocksOk, Headers, FreeLists, Counts, Stacked, FromSomePage;
    hide KrAlloc, AllocStep, NewBlock, ClassOf, SlabSize, TakeRun;
    ClassFits(size);
    var ci := ClassOf(AtLeast8(size));
    HeadOfList(s, ci);
    if s.h.lists[ci] != 0 {
      PoppingStep(s, size, ci);
    } else {
      NoBumpWrap(s, ci);
      if s.h.pageNext + SlabSize(ci) <= s.h.pageEnd {
        CarvingStep(s, size, Carve(s.h, ci).0, s.h.pageNext);
      } else if s.h.extPage != 0 && s.h.extOff + SlabSize(ci) <= PAGE {
        CarvingStep(s, size, Carve(s.h, ci).0, s.h.extPage + s.h.extOff);
      } else if TakeRun(s.h.pages, 1).1 == 0 {
        CarvingStep(s, size, Carve(s.h, ci).0, 0);
      } else {
        var p := OnePage(s.h.pages);
        LowestIsTaken(s.h.pages, p);
        CarvingStep(s, size, Carve(s.h, ci).0, Origin(s) + p * PAGE);
        IsFromPage(s, AllocStep(s, size), p, SlabSize(ci));
      }
    }
  }

  // The same request, over and over.
  ghost function AllocTimes(s: System, size: nat, k: nat): System {
    if k == 0 then s else AllocStep(AllocTimes(s, size, k - 1), size)
  }

  // Nothing but a new page can serve a small request, and p is the one.
  ghost predicate NeedsPage(s: System, size: nat, p: nat) {
    var len := Len(NewBlock(size));
    && ClassList(s, size) == [] && Low(s, Bump) + len > High(s, Bump)
    && (IsOwner(s, Tail) ==> Low(s, Tail) + len > High(s, Tail))
    && LowestFree(s.h.pages, p) && s.h.pages.start + p * PAGE > 0
  }

  // k blocks in a row have been cut off page p.
  ghost predicate CutTimes(s: System, t: System, size: nat, p: nat, k: nat) {
    && ClassList(t, size) == [] && t.h.pageNext == s.h.pageNext && t.h.pageEnd == s.h.pageEnd
    && t.h.pages == s.h.pages.(free := s.h.pages.free - {p})
    && IsOwner(t, Tail) && Low(t, Tail) == Low(s, FreePage(p)) + k * Len(NewBlock(size))
    && High(t, Tail) == Low(s, FreePage(p)) + PAGE
  }

  // A new page serves as many requests of a class as fit it, one behind the other, and no page is taken
  // for them but that one.
  lemma {:induction false} PageServesRun(s: System, size: nat, p: nat, k: nat)
    requires Inv(s) && size <= SLAB_MAX && NeedsPage(s, size, p)
    requires 1 <= k && k * Len(NewBlock(size)) <= PAGE
    ensures Inv(AllocTimes(s, size, k)) && CutTimes(s, AllocTimes(s, size, k), size, p, k)
    ensures KrAlloc(AllocTimes(s, size, k - 1).h, size).1
            == Low(s, FreePage(p)) + (k - 1) * Len(NewBlock(size)) + HEADER
    decreases k
  {
    hide Inv, KrAlloc, AllocStep, NewBlock, ServedInOrder, NeedsPage, CutTimes, Len;
    var r, len := AllocTimes(s, size, k - 1), Len(NewBlock(size));
    if k > 1 {
      assert (k - 1) * len <= k * len;
      PageServesRun(s, size, p, k - 1);
      TailServes(s, r, size, p, k - 1);
    } else {
      PageServes(s, size, p);
    }
  }

  lemma PageServes(s: System, size: nat, p: nat)
    requires Inv(s) && size <= SLAB_MAX && NeedsPage(s, size, p)
    ensures Inv(AllocStep(s, size)) && CutTimes(s, AllocStep(s, size), size, p, 1)
    ensures KrAlloc(s.h, size).1 == Low(s, FreePage(p)) + HEADER
  {
    hide Inv, KrAlloc, AllocStep, NewBlock;
    GroundOf(s);
    AllocFailsExactly(s, size);
    AllocKeeps(s, size);
    SmallIsServedInOrder(s, size);
    var q: nat :| OffPageFront(s, AllocStep(s, size), q, KrAlloc(s.h, size).1 - HEADER,
                               KrAlloc(s.h, size).1 - HEADER + Len(NewBlock(size)));
    assert q == p;
  }

  lemma GroundOf(s: System)
    requires Inv(s)
    ensures s.h.vbase > 0 && (IsOwner(s, Tail) <==> s.h.extPage != 0)
  {
  }

  lemma RestServes(r: System, size: nat)
    requires Inv(r) && size <= SLAB_MAX && IsOwner(r, Tail) && Low(r, Tail) + Len(NewBlock(size)) <= High(r, Tail)
    ensures KrAlloc(r.h, size).1 != 0
  {
    hide Exclusive, Provided, BlocksOk, Headers, FreeLists, Counts, Stacked;
    hide TakeRun, NewBlock, SlabSize, ClassOf;
    ClassFits(size);
    HeadOfList(r, ClassOf(AtLeast8(size)));
  }

  lemma TailServes(s: System, r: System, size: nat, p: nat, k: nat)
    requires Inv(r) && size <= SLAB_MAX && NeedsPage(s, size, p) && CutTimes(s, r, size, p, k)
    requires k * Len(NewBlock(size)) + Len(NewBlock(size)) <= PAGE
    ensures Inv(AllocStep(r, size)) && CutTimes(s, AllocStep(r, size), size, p, k + 1)
    ensures KrAlloc(r.h, size).1 == Low(s, FreePage(p)) + k * Len(NewBlock(size)) + HEADER
  {
    hide Inv, KrAlloc, AllocStep, NewBlock, Granted, Len, LowestFree;
    RestServes(r, size);
    AllocKeeps(r, size);
    SmallIsServedInOrder(r, size);
  }

  // A large request is served off the front of the bump region, or without room there by the lowest run
  // of free pages.
  ghost predicate LargeInOrder(s: System, t: System, ptr: nat, size: nat) {
    var b, n := ptr - HEADER, PagesFor(size);
    && t.g.lists == s.g.lists
    && if Low(s, Bump) + n * PAGE <= High(s, Bump) then
         CutOff(s, t, Bump, b, b + n * PAGE) && SameRegions(s.h, t.h.(pageNext := s.h.pageNext))
       else FromLowestRun(s, t, b, n)
  }

  ghost predicate FromLowestRun(s: System, t: System, b: int, n: nat) {
    exists f: nat :: OffRun(s, t, f, b, n)
  }

  ghost predicate OffRun(s: System, t: System, f: nat, b: int, n: nat) {
    && RunAt(s.h.pages, f, n) && (forall g: nat | g < f :: !RunAt(s.h.pages, g, n))
    && b == Low(s, FreePage(f)) && t.h.pages == s.h.pages.(free := s.h.pages.free - Interval(f, n))
    && SameRegions(s.h, t.h.(pages := s.h.pages))
  }

  lemma LargeIsServedInOrder(s: System, size: nat)
    requires Inv(s) && size > SLAB_MAX && SizeFits(s.h, size) && KrAlloc(s.h, size).1 != 0
    ensures LargeInOrder(s, AllocStep(s, size), KrAlloc(s.h, size).1, size)
  {
    hide Exclusive, Provided, BlocksOk, Headers, FreeLists, Counts, Stacked;
    hide PagesFor, Int32, FirstRun;
    var n := PagesFor(size);
    SumDoesNotWrap(s.h.pageNext, n * PAGE);
    if s.h.pageNext + n * PAGE > s.h.pageEnd {
      NoRunForNothing(s.h.pages, Int32(n));
      assert Int32(n) == n > 0;
      TakeRunMeaning(s.h.pages, n);
      assert OffRun(s, AllocStep(s, size), FirstRun(s.h.pages, n).value, KrAlloc(s.h, size).1 - HEADER, n);
    }
  }

  // ---------------------------------------------------------------- large requests

  // The pages the block is counted as having, and no others, left the bump region or the free pages, at
  // the address returned.
  ghost predicate LeftBump(h: Heap, k: Heap, ptr: nat, n: nat) {
    ptr == h.pageNext + HEADER && k.pageNext == h.pageNext + n * PAGE && k.pages == h.pages
  }

  ghost predicate LeftPages(h: Heap, k: Heap, ptr: nat, n: nat) {
    && k.pageNext == h.pageNext
    && exists first: nat ::
         && Interval(first, n) <= h.pages.free && k.pages == h.pages.(free := h.pages.free - Interval(first, n))
         && ptr == h.vbase + h.pages.start + first * PAGE + HEADER
  }

  ghost predicate Honoured(h: Heap, k: Heap, ptr: nat, size: nat) {
    var n := PagesFor(size);
    HEADER + size <= n * PAGE && (LeftBump(h, k, ptr, n) || LeftPages(h, k, ptr, n))
  }

  // A large request that is granted gets what it asked for exactly when its arithmetic fits.
  lemma LargeRequestsHonouredExactly(h: Heap, size: nat)
    requires h.pageNext <= h.pageEnd < WRAP && h.pages.Valid()
    requires SLAB_MAX < size < WRAP && KrAlloc(h, size).1 != 0
    ensures Honoured(h, KrAlloc(h, size).0, KrAlloc(h, size).1, size) <==> SizeFits(h, size)
  {
    var n := PagesFor(size);
    PagesCoverExactly(size);
    PageCountIsWord(size);
    if Add64(h.pageNext, n * PAGE) <= h.pageEnd {
      BumpRequest(h, size);
    } else {
      PagesRequest(h, size);
    }
  }

  lemma PageCountIsWord(size: nat)
    ensures PagesFor(size) * PAGE <= WRAP - PAGE
  {
  }

  lemma BumpRequest(h: Heap, size: nat)
    requires h.pageNext <= h.pageEnd < WRAP && SLAB_MAX < size < WRAP
    requires var n := PagesFor(size);
             n * PAGE <= WRAP - PAGE && Add64(h.pageNext, n * PAGE) <= h.pageEnd
             && (n * PAGE >= HEADER + size <==> size + 4111 < WRAP)
    ensures Honoured(h, KrAlloc(h, size).0, KrAlloc(h, size).1, size) <==> SizeFits(h, size)
  {
    hide PagesFor, Int32, TakeRun;
  }

  lemma PagesRequest(h: Heap, size: nat)
    requires h.pageNext <= h.pageEnd < WRAP && h.pages.Valid() && SLAB_MAX < size < WRAP && KrAlloc(h, size).1 != 0
    requires var n := PagesFor(size);
             n * PAGE <= WRAP - PAGE && Add64(h.pageNext, n * PAGE) > h.pageEnd
             && (n * PAGE >= HEADER + size <==> size + 4111 < WRAP)
    ensures Honoured(h, KrAlloc(h, size).0, KrAlloc(h, size).1, size) <==> SizeFits(h, size)
  {
    hide PagesFor, Int32, FirstRun;
    var n := PagesFor(size);
    var m, k := Int32(n), KrAlloc(h, size).0;
    assert m > 0;
    TakeRunMeaning(h.pages, m);
    var f := FirstRun(h.pages, m).value;
    assert k.pages == h.pages.(free := h.pages.free - Interval(f, m));
    if first: nat :| Interval(first, n) <= h.pages.free
                     && k.pages == h.pages.(free := h.pages.free - Interval(first, n)) {
      IntervalSize(first, n);
      IntervalSize(f, m);
      SameRemoved(h.pages.free, Interval(f, m), Interval(first, n));
    }
  }

  lemma SameRemoved(free: set<nat>, a: set<nat>, b: set<nat>)
    requires a <= free && b <= free && free - a == free - b
    ensures a == b
  {
    assert a == free - (free - a) && b == free - (free - b);
  }

  // Three ways to miss it, at the constants of the two kernels and in every state of their heaps. On
  // x86_64 the page count of 16 TiB is cut by the cast to int, and one page is granted.
  lemma CastGrantsOnePage(h: Heap)
    requires h.vbase == X86_BASE && h.pageEnd == X86_BASE + X86_HEAP_END
    requires X86_BASE + X86_HEAP <= h.pageNext <= h.pageEnd && h.pages.Valid() && TakeRun(h.pages, 1).1 != 0
    ensures var size := 0x1000_0000_0000;
            && PagesFor(size) == 0x1_0000_0001
            && KrAlloc(h, size).1 == TakeRun(h.pages, 1).1 + X86_BASE + HEADER
            && KrAlloc(h, size).0.pages == TakeRun(h.pages, 1).0
            && FreeCount(KrAlloc(h, size).0.pages) == FreeCount(h.pages) - 1
            && !SizeFits(h, size)
  {
    assert Int32(0x1_0000_0001) == 1;
    TakeRunMeaning(h.pages, 1);
    hide TakeRun, FreeCount, FirstRun;
  }

  // The constants of the riscv64 kernel.
  const RISCV_BASE: nat := 0xFFFF_FFC0_0000_0000
  const RISCV_HEAP: nat := 0x8100_0000
  const RISCV_HEAP_END: nat := 0x8200_0000

  // On riscv64 the same request wraps the bump pointer: it is granted, and the pointer moves back, out of
  // the region.
  lemma WrapRewindsRegion(h: Heap)
    requires h.vbase == RISCV_BASE && h.pageStart == RISCV_BASE + RISCV_HEAP
    requires h.pageStart <= h.pageNext <= h.pageEnd == RISCV_BASE + RISCV_HEAP_END
    ensures var size := 0x1000_0000_0000;
            && KrAlloc(h, size).1 == h.pageNext + HEADER
            && KrAlloc(h, size).0.pageNext < h.pageStart && KrAlloc(h, size).0.pages == h.pages
            && !SizeFits(h, size)
  {
    assert PagesFor(0x1000_0000_0000) == 0x1_0000_0001;
    hide TakeRun, PagesFor;
  }

  // Anywhere, rounding the largest sizes wraps: no page at all is granted.
  lemma RoundingGrantsNothing(h: Heap)
    requires h.pageNext <= h.pageEnd < WRAP
    ensures var size := WRAP - HEADER;
            && PagesFor(size) == 0 && KrAlloc(h, size).1 == h.pageNext + HEADER
            && KrAlloc(h, size).0.pageNext == h.pageNext && KrAlloc(h, size).0.pages == h.pages
            && !SizeFits(h, size)
  {
    hide TakeRun;
  }

  // ---------------------------------------------------------------- what one call undoes

  // A small block freed is the next one handed out for its class, and the heap is back where it was.
  lemma FreeThenAllocReuses(s: System, ptr: nat, size: nat)
    requires Inv(s) && Live(s, ptr) && s.g.blocks[ptr - HEADER].Small?
    requires size <= SLAB_MAX && ClassOf(AtLeast8(size)) == s.g.blocks[ptr - HEADER].ci
    ensures var b, ci := ptr - HEADER, s.g.blocks[ptr - HEADER].ci;
            && KrAlloc(KrDealloc(s.h, ptr), size).1 == ptr
            && KrAlloc(KrDealloc(s.h, ptr), size).0 == s.h.(mem := s.h.mem[b := ci])
            && Word(s.h.mem, b) == ci
  {
    var b, ci := ptr - HEADER, s.g.blocks[ptr - HEADER].ci;
    assert HeaderOk(s.h.mem, b, s.g.blocks[b]);
    FreedHeap(s, ptr);
    assert b > 0 by {
      assert BlockOk(s, b, s.g.blocks[b]);
    }
    hide Inv, FirstFit, Carve, FreeRun, KrDealloc;
    assert s.h.lists[ci := b][ci := s.h.lists[ci]] == s.h.lists;
    assert s.h.mem[b := s.h.lists[ci]][b := ci] == s.h.mem[b := ci];
  }

  lemma {:induction false} FreeRunAdds(P: Pages, first: nat, n: nat)
    requires first + n <= P.count && P.End() <= WRAP
    ensures FreeRun(P, P.start + first * PAGE, n) == P.(free := P.free + Interval(first, n))
  {
    if n > 0 {
      FreeRunAdds(P, first, n - 1);
      var Q := FreeRun(P, P.start + first * PAGE, n - 1);
      var a := P.start + first * PAGE + (n - 1) * PAGE;
      assert (first + n) * PAGE <= P.count * PAGE;
      assert a % WRAP == a && (a - P.start) / PAGE == first + n - 1;
      assert Q.free + {first + n - 1} == P.free + Interval(first, n);
    } else {
      assert P.free + Interval(first, 0) == P.free;
    }
  }

  // A large block got from the page allocator and freed again leaves the bitmap and both counters of
  // blocks as they were; only its header words were written.
  lemma BigAllocThenFreeRestores(s: System, size: nat)
    requires Inv(s) && size > SLAB_MAX && SizeFits(s.h, size)
    requires s.h.pageNext + PagesFor(size) * PAGE > s.h.pageEnd && KrAlloc(s.h, size).1 != 0
    ensures var (k, ptr) := KrAlloc(s.h, size);
            ptr >= HEADER && KrDealloc(k, ptr) == s.h.(mem := k.mem)
  {
    hide Exclusive, Provided, BlocksOk, Headers, FreeLists, Counts, Stacked;
    hide PagesFor, Int32, FirstRun, FreeRun;
    var n := PagesFor(size);
    SumDoesNotWrap(s.h.pageNext, n * PAGE);
    var P := s.h.pages;
    var Q := TakeRun(P, Int32(n)).0;
    TakeRunMeaning(P, n);
    var f := FirstRun(P, n).value;
    FreeRunAdds(Q, f, n);
    assert Q.free + Interval(f, n) == P.free;
    InsideSpan(P, s.h.vbase, f, n);
  }

  lemma InsideSpan(P: Pages, vbase: nat, f: nat, n: nat)
    requires f + n <= P.count && 0 < n && vbase + P.End() <= WRAP
    ensures var b := vbase + P.start + f * PAGE;
            Sub64(b + HEADER, HEADER) == b && Sub64(b, vbase) == P.start + f * PAGE && Add64(b, 8) == b + 8
  {
    assert (f + 1) * PAGE <= P.count * PAGE;
  }

  // ---------------------------------------------------------------- an unsafe free

  // The constants of the x86_64 kernel: physical memory is mapped at the base, the bump region lies
  // between the other two.
  const X86_BASE: nat := 0xFFFF_8000_0000_0000
  const X86_HEAP: nat := 0x200_0000
  const X86_HEAP_END: nat := 0x400_0000
  const FIRST := X86_BASE + X86_HEAP

  // A memory map with the bump region and page 0 taken out.
  const MEMORY := [Range(0x1000, 0x1FFF), Range(0x400_0000, 0x100)]

  ghost function Boot(): System {
    Fresh(X86_BASE, X86_HEAP, X86_HEAP_END, NO_PAGES)
  }

  // A small object and a large one behind it, then the page allocator is set up.
  const STARTUP := [Alloc(8), Alloc(2049), InitPages(MEMORY, [])]

  ghost function Running(): System {
    Run(Boot(), STARTUP)
  }

  lemma MemoryIsFit()
    ensures CanInit(MEMORY) && InitialPages(MEMORY).start == 0x1000 && InitialPages(MEMORY).count == 0x40FF
  {
    var a, b := MEMORY[0], MEMORY[1];
    assert MEMORY[..1] == [a] && [a][..0] == [];
    assert MinStart([]) == WRAP - 1 && MinStart([a]) == 0x1000 && MinStart(MEMORY) == 0x1000;
    assert MaxEnd([]) == 0 && MaxEnd([a]) == 0x200_0000 && MaxEnd(MEMORY) == 0x410_0000;
    assert StoragePages(MEMORY) == 1 && HostIndex(MEMORY, 1) == Some(0);
  }

  // The two allocations.
  lemma TwoObjectsInPlace()
    ensures var s := AllocStep(AllocStep(Boot(), 8), 2049);
            && SizeFits(Boot().h, 8) && SizeFits(AllocStep(Boot(), 8).h, 2049)
            && s.g.blocks == map[FIRST := Small(0, 8), FIRST + 32 := Big(1, 2049)]
            && s.h.vbase == X86_BASE && s.h.pages == NO_PAGES
            && s.h.pageStart == FIRST && s.h.pageEnd == X86_BASE + X86_HEAP_END
            && s.g.below == map[FIRST := 0, FIRST + 32 := FIRST] && s.g.retired == map[]
  {
    hide TakeRun;
    var s0 := Boot();
    var s1 := AllocStep(s0, 8);
    assert ClassOf(8) == 0 && SlabSize(0) == 32;
    assert s0.h.pageNext == FIRST && s0.h.lists[0] == 0;
    assert KrAlloc(s0.h, 8).1 == FIRST + HEADER;
    assert s1.g.blocks == map[FIRST := Small(0, 8)] && s1.h.pageNext == FIRST + 32;
    assert PagesFor(2049) == 1;
    assert KrAlloc(s1.h, 2049).1 == FIRST + 32 + HEADER;
  }

  lemma RunningInPlace()
    ensures var s := Running();
            && Inv(s) && s.g.blocks == map[FIRST := Small(0, 8), FIRST + 32 := Big(1, 2049)]
            && s.h.vbase == X86_BASE && s.h.pages.start == 0x1000 && s.h.pages.count == 0x40FF
            && s.g.retired == map[]
  {
    TwoObjectsInPlace();
    MemoryIsFit();
    hide AllocStep, SizeFits, InitialPages, CanInit, Boot, Inv;
    var s1 := AllocStep(Boot(), 8);
    var s2 := AllocStep(s1, 2049);
    assert STARTUP[1..] == [Alloc(2049), InitPages(MEMORY, [])];
    assert STARTUP[1..][1..] == [InitPages(MEMORY, [])] && [InitPages(MEMORY, [])][1..] == [];
    assert ClearRanges(s2.h, MEMORY);
    WholeRangesAreGood(s2.h, MEMORY);
    assert Running() == InitStep(s2, MEMORY, []) by {
      assert Run(s2, [InitPages(MEMORY, [])]) == InitStep(s2, MEMORY, []);
      assert Run(s1, STARTUP[1..]) == InitStep(s2, MEMORY, []);
    }
    assert AllAdmissible(Boot(), STARTUP) by {
      assert AllAdmissible(s2, [InitPages(MEMORY, [])]);
      assert AllAdmissible(s1, STARTUP[1..]);
    }
    BootIsSafe();
  }

  lemma BootIsSafe()
    requires AllAdmissible(Boot(), STARTUP)
    ensures Inv(Running())
  {
    hide Inv, Run, AllAdmissible;
    BootHistoryIsSafe(X86_BASE, X86_HEAP, X86_HEAP_END, STARTUP);
  }

  // Freeing the large one then hands out its first page, and with it the small one, still in use.
  lemma UnsafeFreeIsReachable()
    ensures Inv(Running()) && Live(Running(), FIRST + 32 + HEADER) && !FreeIsSafe(Running(), FIRST + 32)
    ensures var t := Step(Running(), Dealloc(FIRST + 32 + HEADER));
            Live(t, FIRST + HEADER) && Owns(t, Carved(FIRST), FIRST) && Owns(t, FreePage(0x1FFF), FIRST)
  {
    RunningInPlace();
    hide Running, Inv, Live, Owns, FreeIsSafe, DeallocStep;
    FreeTheSecond(Running());
    BothOwn(DeallocStep(Running(), FIRST + 32 + HEADER));
  }

  lemma BothOwn(t: System)
    requires t.g.blocks == map[FIRST := Small(0, 8)] && t.h.vbase == X86_BASE
    requires t.h.pages.start == 0x1000 && 0x1FFF in t.h.pages.free
    ensures Live(t, FIRST + HEADER) && Owns(t, Carved(FIRST), FIRST) && Owns(t, FreePage(0x1FFF), FIRST)
  {
    SlabSizes(0);
    hide SlabSize;
  }

  lemma FreeTheSecond(s: System)
    requires Inv(s) && s.g.blocks == map[FIRST := Small(0, 8), FIRST + 32 := Big(1, 2049)]
    requires s.h.vbase == X86_BASE && s.h.pages.start == 0x1000 && s.h.pages.count == 0x40FF && s.g.retired == map[]
    ensures Live(s, FIRST + 32 + HEADER) && !FreeIsSafe(s, FIRST + 32)
    ensures var t := DeallocStep(s, FIRST + 32 + HEADER);
            && 0x1FFF in t.h.pages.free && t.h.pages.start == 0x1000 && t.h.vbase == X86_BASE
            && t.g.blocks == map[FIRST := Small(0, 8)]
  {
    FreedHeap(s, FIRST + 32 + HEADER);
    hide Inv, KrDealloc;
    FreeRunFreesFirst(s.h.pages, X86_HEAP + 32, 1);
    hide FreeRun;
  }

  // ---------------------------------------------------------------- a bitmap off the page grid

  // The bump region taken out, the host of the bitmap off the page grid, as behind a kernel image.
  const OFF_GRID := [Range(0x1000, 1), Range(0x400_0010, 49153)]
  const KEPT_OUT := [Region(X86_HEAP, X86_HEAP_END - X86_HEAP)]

  lemma OffGridPages()
    ensures CanInit(OFF_GRID) && !BitmapFits(OFF_GRID)
    ensures Host(OFF_GRID).start == 0x400_0010 && BitmapBytes(OFF_GRID) == 8192
    ensures InitialPages(OFF_GRID).start == 0x1000 && InitialPages(OFF_GRID).count == 0x1_0000
    ensures 16385 in InitialPages(OFF_GRID).free
  {
    var a, b := OFF_GRID[0], OFF_GRID[1];
    assert OFF_GRID[..1] == [a] && [a][..0] == [];
    assert MinStart([]) == WRAP - 1 && MinStart([a]) == 0x1000 && MinStart(OFF_GRID) == 0x1000;
    assert MaxEnd([]) == 0 && MaxEnd([a]) == 0x2000 && MaxEnd(OFF_GRID) == 0x1000_1010;
    assert StoragePages(OFF_GRID) == 2 && HostIndex(OFF_GRID, 2, 1) == Some(1) && HostIndex(OFF_GRID, 2) == Some(1);
    assert PagesOf(b, 0x1000) == Interval(16383, 49153);
    assert Cover(OFF_GRID, 0x1000) == Cover([a], 0x1000) + PagesOf(b, 0x1000);
    assert Storage(OFF_GRID) == Interval(16383, 2);
  }

  // The end of the bitmap lies in a page that is left free, although the bump region is reserved: the
  // heap, or another user of pages, is given the bitmap's own bytes.
  lemma BitmapIsHandedOut()
    ensures var t := Step(Boot(), InitPages(OFF_GRID, KEPT_OUT));
            && Inv(Boot()) && ClearPages(Boot().h, t.h.pages)
            && Owns(t, Bitmap, X86_BASE + 0x400_2000) && Owns(t, FreePage(16385), X86_BASE + 0x400_2000)
  {
    OffGridPages();
    FreshIsSafe(X86_BASE, X86_HEAP, X86_HEAP_END, NO_PAGES, NO_BITMAP);
    hide Inv, CanInit, InitialPages, Host, BitmapBytes;
    var I := InitialPages(OFF_GRID);
    var P := Reserve(I, X86_HEAP, X86_HEAP_END - X86_HEAP);
    assert KEPT_OUT[1..] == [];
    assert ReserveAll(I, KEPT_OUT) == P;
    assert 16385 in P.free;
  }

  // ---------------------------------------------------------------- blocks are conserved

  ghost function FreeBlocks(g: Ledger, below: nat): set<nat> {
    set a | a in g.blocks && g.blocks[a].Free? && g.blocks[a].ci < below
  }

  ghost function SumLengths(lists: seq<seq<nat>>): nat {
    if lists == [] then 0 else SumLengths(lists[..|lists| - 1]) + |lists[|lists| - 1]|
  }

  ghost function Members(l: seq<nat>): set<nat> {
    set a | a in l
  }

  lemma {:induction false} DistinctSize(l: seq<nat>)
    requires forall i, j | 0 <= i < j < |l| :: l[i] != l[j]
    ensures |Members(l)| == |l|
  {
    if l != [] {
      var front, last := l[..|l| - 1], l[|l| - 1];
      DistinctSize(front);
      assert last !in front;
      assert Members(l) == Members(front) + {last};
    }
  }

  // The blocks on list k are the free blocks of class k.
  lemma ListHoldsClass(s: System, k: nat)
    requires FreeLists(s) && k < CLASS_COUNT
    ensures FreeBlocks(s.g, k + 1) == FreeBlocks(s.g, k) + Members(s.g.lists[k])
    ensures FreeBlocks(s.g, k) !! Members(s.g.lists[k])
    ensures |Members(s.g.lists[k])| == |s.g.lists[k]|
  {
    var l := s.g.lists[k];
    assert ListOk(s, k);
    DistinctSize(l);
    forall a | a in l ensures a in s.g.blocks && s.g.blocks[a] == Free(k) {
      var i :| 0 <= i < |l| && l[i] == a;
    }
    forall a | a in s.g.blocks && s.g.blocks[a] == Free(k) ensures a in l {
    }
  }

  lemma {:induction false} ListsCountFreeBlocks(s: System, k: nat)
    requires FreeLists(s) && k <= CLASS_COUNT
    ensures SumLengths(s.g.lists[..k]) == |FreeBlocks(s.g, k)|
  {
    hide FreeLists;
    if k == 0 {
      assert FreeBlocks(s.g, 0) == {};
    } else {
      ListsCountFreeBlocks(s, k - 1);
      ListHoldsClass(s, k - 1);
      assert s.g.lists[..k][..k - 1] == s.g.lists[..k - 1];
    }
  }

  // Every slab block ever carved is in use or on a free list: the counter kept by the code and the
  // lengths of the lists add up to the number of blocks.
  lemma BlocksAreConserved(s: System)
    requires Inv(s)
    ensures s.h.small + SumLengths(s.g.lists) == |set a | a in s.g.blocks && !s.g.blocks[a].Big?|
  {
    hide Exclusive, Provided, Headers, Stacked;
    ListsCountFreeBlocks(s, CLASS_COUNT);
    assert s.g.lists[..CLASS_COUNT] == s.g.lists;
    var free := FreeBlocks(s.g, CLASS_COUNT);
    forall a | a in s.g.blocks && s.g.blocks[a].Free? ensures a in free {
      assert BlockOk(s, a, s.g.blocks[a]);
    }
    assert (set a | a in s.g.blocks && !s.g.blocks[a].Big?) == SmallBlocks(s.g) + free;
  }
}
