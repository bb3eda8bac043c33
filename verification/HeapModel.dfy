/** The kernel heap of allocator.c as a function on states: size classes with free lists threaded
  * through the blocks themselves, a bump region, and pages from the page allocator. */
module HeapModel {
  import opened PageSpec

  const HEADER: nat := 16
  const SLAB_MAX: nat := 2048
  const BIG_MAGIC: nat := 0xFFFF
  const CLASS_COUNT: nat := 28
  const CLASS_SIZES: seq<nat> := [
    8, 16, 24, 32, 40, 48, 56, 64,
    80, 96, 112, 128, 160, 192, 224, 256,
    320, 384, 448, 512, 640, 768, 896, 1024,
    1280, 1536, 1792, 2048
  ]

  // (v + 15) & ~15 on 64-bit words.
  function Align16(v: nat): nat {
    (v + 15) % WRAP / 16 * 16
  }

  function Add64(a: nat, b: nat): nat {
    (a + b) % WRAP
  }

  function Sub64(a: nat, b: nat): nat {
    (a - b) % WRAP
  }

  // The cast (int)pages.
  function Int32(v: nat): int {
    var low := v % 0x1_0000_0000;
    if low < 0x8000_0000 then low else low - 0x1_0000_0000
  }

  // The first entry from i on that is at least `size`, or -1.
  function FirstFit(sizes: seq<nat>, size: nat, i: nat): (ci: int)
    requires i <= |sizes|
    ensures ci == -1 || i <= ci < |sizes|
    decreases |sizes| - i
  {
    if i == |sizes| then -1
    else if sizes[i] >= size then i
    else FirstFit(sizes, size, i + 1)
  }

  function ClassOf(size: nat): (ci: int)
    ensures ci == -1 || 0 <= ci < CLASS_COUNT
  {
    if size > SLAB_MAX then -1 else FirstFit(CLASS_SIZES, size, 0)
  }

  function SlabSize(ci: nat): nat
    requires ci < CLASS_COUNT
  {
    Align16(HEADER + CLASS_SIZES[ci])
  }

  // Whole pages for a large object, header included.
  function PagesFor(size: nat): nat {
    Add64(Align16(Add64(HEADER, size)), PAGE - 1) / PAGE
  }

  // The least class that fits, for every small size.
  lemma ClassOfIsLeast(size: nat)
    requires size <= SLAB_MAX
    ensures var ci := ClassOf(size);
            && 0 <= ci < CLASS_COUNT && CLASS_SIZES[ci] >= size
            && forall j | 0 <= j < ci :: CLASS_SIZES[j] < size
  {
    FirstFitIsLeast(CLASS_SIZES, size, 0);
    assert CLASS_SIZES[27] == SLAB_MAX;
  }

  lemma {:induction false} FirstFitIsLeast(sizes: seq<nat>, size: nat, i: nat)
    requires i <= |sizes|
    ensures var ci := FirstFit(sizes, size, i);
            && (ci >= 0 ==> sizes[ci] >= size && forall j | i <= j < ci :: sizes[j] < size)
            && (ci < 0 ==> forall j | i <= j < |sizes| :: sizes[j] < size)
    decreases |sizes| - i
  {
    if i < |sizes| && sizes[i] < size {
      FirstFitIsLeast(sizes, size, i + 1);
    }
  }

  // Multiples of 8 up to 64, then four steps from each power of two to the next.
  lemma ClassSteps(ci: nat)
    requires ci < CLASS_COUNT
    ensures CLASS_SIZES[ci] == if ci < 8 then 8 * (ci + 1) else 2 * CLASS_SIZES[ci - 4]
  {
  }

  // So a class is less than 8 bytes larger than the request, or less than a quarter.
  lemma LittleIsWasted(size: nat)
    requires 0 < size <= SLAB_MAX
    ensures ClassOf(size) >= 0
    ensures var waste := CLASS_SIZES[ClassOf(size)] - size; waste < 8 || 4 * waste < size
  {
    ClassOfIsLeast(size);
    var ci := ClassOf(size);
    StepsAreSmall(ci);
    hide ClassOf;
    if ci > 0 {
      hide CLASS_SIZES;
      assert CLASS_SIZES[ci - 1] < size;
    }
  }

  lemma StepsAreSmall(ci: nat)
    requires ci < CLASS_COUNT
    ensures ci == 0 ==> CLASS_SIZES[ci] == 8
    ensures ci > 0 ==> var step := CLASS_SIZES[ci] - CLASS_SIZES[ci - 1]; step <= 8 || 4 * step <= CLASS_SIZES[ci - 1]
  {
  }

  // The cast keeps the low 32 bits.
  lemma CastMeaning(v: nat)
    ensures (v - Int32(v)) % 0x1_0000_0000 == 0 && -0x8000_0000 <= Int32(v) < 0x8000_0000
  {
  }

  lemma SlabSizes(ci: nat)
    requires ci < CLASS_COUNT
    ensures HEADER + CLASS_SIZES[ci] <= SlabSize(ci) < HEADER + CLASS_SIZES[ci] + 16
    ensures SlabSize(ci) % 16 == 0 && 32 <= SlabSize(ci) <= PAGE
    ensures 8 <= CLASS_SIZES[ci] <= SLAB_MAX
  {
    ClassBounds(ci);
    AlignsUp(HEADER + CLASS_SIZES[ci]);
  }

  lemma ClassBounds(ci: nat)
    requires ci < CLASS_COUNT
    ensures 8 <= CLASS_SIZES[ci] <= SLAB_MAX
  {
  }

  lemma AlignsUp(v: nat)
    requires v + 15 < WRAP
    ensures v <= Align16(v) < v + 16 && Align16(v) % 16 == 0
  {
  }

  // The page count covers header and object exactly when rounding does not wrap.
  lemma PagesCoverExactly(size: nat)
    requires SLAB_MAX < size < WRAP
    ensures PagesFor(size) * PAGE >= HEADER + size <==> size + 4111 < WRAP
    ensures size + 4111 < WRAP ==> 0 < PagesFor(size) && (PagesFor(size) - 1) * PAGE < HEADER + size + 15
  {
  }

  // ---------------------------------------------------------------- state and operations

  // One entry per size class.
  type ClassTable = l: seq<nat> | |l| == CLASS_COUNT witness seq(CLASS_COUNT, _ => 0)

  // Memory is a store of 64-bit words; headers, free-list links and client data share it.
  datatype Heap = Heap(
    vbase: nat,                                   // KERNEL_PHYS_BASE
    mem: map<nat, nat>,
    lists: ClassTable,                            // head block per class, 0 when empty
    pageStart: nat, pageNext: nat, pageEnd: nat,  // bump region
    extPage: nat, extOff: nat,                    // extension page and the offset used in it
    small: int, big: int,                         // outstanding blocks
    pages: Pages)

  function Word(mem: map<nat, nat>, addr: nat): nat {
    if addr in mem then mem[addr] else 0
  }

  // slab_carve; block 0 means that the heap is exhausted.
  ghost function Carve(h: Heap, ci: nat): (Heap, nat)
    requires ci < CLASS_COUNT
  {
    var need := SlabSize(ci);
    if Add64(h.pageNext, need) <= h.pageEnd then
      (h.(pageNext := Add64(h.pageNext, need)), h.pageNext)
    else if h.extPage == 0 || h.extOff + need > PAGE then
      var (P, page) := TakeRun(h.pages, 1);
      if page == 0 then (h.(pages := P, extPage := 0), 0)
      else (h.(pages := P, extPage := page + h.vbase, extOff := need), page + h.vbase)
    else
      (h.(extOff := h.extOff + need), h.extPage + h.extOff)
  }

  function AtLeast8(size: nat): nat {
    if size < 8 then 8 else size
  }

  // kr_alloc for sizes up to SLAB_MAX.
  ghost function AllocSmall(h: Heap, size: nat): (Heap, nat)
    requires size <= SLAB_MAX && ClassOf(size) >= 0
  {
    var ci := ClassOf(size);
    var head := h.lists[ci];
    var (c, block) := if head != 0 then (h.(lists := h.lists[ci := Word(h.mem, head)]), head) else Carve(h, ci);
    if block == 0 then (c, 0)
    else (c.(mem := c.mem[block := ci], small := c.small + 1), block + HEADER)
  }

  // kr_alloc for larger sizes: whole pages.
  ghost function AllocBig(h: Heap, size: nat): (Heap, nat) {
    var pages := PagesFor(size);
    var next := Add64(h.pageNext, pages * PAGE);
    var (P, page) := TakeRun(h.pages, Int32(pages));
    if next <= h.pageEnd then WithBigHeader(h.(pageNext := next), h.pageNext, pages)
    else if page == 0 then (h.(pages := P), 0)
    else WithBigHeader(h.(pages := P), page + h.vbase, pages)
  }

  ghost function WithBigHeader(h: Heap, block: nat, pages: nat): (Heap, nat) {
    (h.(mem := h.mem[block := BIG_MAGIC][block + 8 := pages], big := h.big + 1), block + HEADER)
  }

  ghost function KrAlloc(h: Heap, size: nat): (Heap, nat) {
    var size := AtLeast8(size);
    if size <= SLAB_MAX then
      ClassOfIsLeast(size);
      AllocSmall(h, size)
    else
      AllocBig(h, size)
  }

  // kr_dealloc.
  ghost function KrDealloc(h: Heap, addr: nat): Heap {
    if addr == 0 then h
    else
      var block := Sub64(addr, HEADER);
      var ci := Word(h.mem, block);
      if ci == BIG_MAGIC then
        h.(pages := FreeRun(h.pages, Sub64(block, h.vbase), Word(h.mem, Add64(block, 8))),
           big := h.big - 1)
      else if ci >= CLASS_COUNT then h
      else
        h.(mem := h.mem[block := h.lists[ci]],
           lists := h.lists[ci := block],
           small := h.small - 1)
  }
}
