/** What every history of heap calls keeps: one owner for each byte, intact headers and free lists. */
module HeapInvariant {
  import opened PageSpec
  import opened HeapModel

  // A carved block is on the free list of its class, or in use for an object of `size` bytes.
  datatype Block = Free(ci: nat) | Small(ci: nat, size: nat) | Big(pages: nat, size: nat)

  type ListTable = l: seq<seq<nat>> | |l| == CLASS_COUNT witness seq(CLASS_COUNT, _ => [])

  // The history as far as it matters: all carved blocks; the free lists as sequences; large blocks
  // freed out of the bump region with their lengths; for each bump block the one carved just before
  // it, and the last one carved; the pages handed out directly; the pages once free; the bytes of the
  // page bitmap, by their virtual address.
  datatype Ledger = Ledger(
    blocks: map<nat, Block>,
    lists: ListTable,
    retired: map<nat, nat>,
    below: map<nat, nat>,
    top: nat,
    raw: set<nat>,
    given: set<nat>,
    bitmap: Region)

  datatype System = System(h: Heap, g: Ledger)

  ghost function Len(b: Block): nat {
    match b
    case Free(ci) => if ci < CLASS_COUNT then SlabSize(ci) else 0
    case Small(ci, _) => if ci < CLASS_COUNT then SlabSize(ci) else 0
    case Big(pages, _) => pages * PAGE
  }

  // ---------------------------------------------------------------- who owns a byte

  datatype Owner =
    | Carved(addr: nat)  // a carved block, header included
    | Bump               // bump space not carved yet
    | Tail               // the unused rest of the extension page
    | FreePage(p: nat)   // a page the bitmap marks free
    | RawPage(p: nat)    // a page handed out directly
    | Bitmap             // the storage of the page bitmap

  // Virtual address of page 0 of the span.
  function Origin(s: System): nat {
    s.h.vbase + s.h.pages.start
  }

  ghost predicate IsOwner(s: System, o: Owner) {
    match o
    case Carved(a) => a in s.g.blocks
    case Bump => true
    case Tail => s.h.extPage != 0
    case FreePage(p) => p in s.h.pages.free
    case RawPage(p) => p in s.g.raw
    case Bitmap => true
  }

  ghost function Low(s: System, o: Owner): nat {
    match o
    case Carved(a) => a
    case Bump => s.h.pageNext
    case Tail => s.h.extPage + s.h.extOff
    case FreePage(p) => Origin(s) + p * PAGE
    case RawPage(p) => Origin(s) + p * PAGE
    case Bitmap => s.g.bitmap.from
  }

  ghost function High(s: System, o: Owner): nat
    requires IsOwner(s, o)
  {
    match o
    case Carved(a) => a + Len(s.g.blocks[a])
    case Bump => s.h.pageEnd
    case Tail => s.h.extPage + PAGE
    case FreePage(p) => Origin(s) + (p + 1) * PAGE
    case RawPage(p) => Origin(s) + (p + 1) * PAGE
    case Bitmap => s.g.bitmap.from + s.g.bitmap.size
  }

  ghost predicate Owns(s: System, o: Owner, x: nat) {
    IsOwner(s, o) && Low(s, o) <= x < High(s, o)
  }

  ghost predicate Exclusive(s: System) {
    forall o1, o2, x :: Owns(s, o1, x) && Owns(s, o2, x) ==> o1 == o2
  }

  ghost predicate InBump(s: System, x: nat) {
    s.h.pageStart <= x < s.h.pageEnd
  }

  // The page of the span that byte x lies in.
  ghost function PageNo(s: System, x: nat): nat {
    if x < Origin(s) then 0 else (x - Origin(s)) / PAGE
  }

  // x lies in a page that was free to begin with.
  ghost predicate InGiven(s: System, x: nat) {
    x >= Origin(s) && PageNo(s, x) in s.g.given
  }

  // Apart from the bitmap, the heap and the page allocator only ever own bytes they were given.
  ghost predicate Provided(s: System) {
    forall o, x :: Owns(s, o, x) && o != Bitmap ==> InBump(s, x) || InGiven(s, x)
  }

  // ---------------------------------------------------------------- the other clauses

  // The page allocator is set up exactly when its span has pages.
  ghost predicate Setup(s: System) {
    && s.h.vbase % 16 == 0 && s.h.pages.start % 16 == 0 && 0 < s.h.vbase
    && s.h.vbase <= s.h.pageStart <= s.h.pageNext <= s.h.pageEnd && s.h.pageEnd + PAGE < WRAP
    && s.h.pageStart % 16 == 0 && s.h.pageNext % 16 == 0
    && s.h.pages.Valid() && s.h.vbase + s.h.pages.End() <= WRAP
    && (s.h.pages.count > 0 ==> s.h.pageEnd <= Origin(s) || Origin(s) <= s.h.pageStart)
    && (s.h.pages.count == 0 ==> s.g.raw == {} && s.h.extPage == 0 && s.g.bitmap.size == 0)
    && (forall p | p in s.g.given :: p < s.h.pages.count)
    && BumpNotGiven(s)
    && (s.h.extPage != 0 ==> ExtensionOk(s))
  }

  ghost predicate ExtensionOk(s: System) {
    s.h.extPage >= s.h.vbase && s.h.extPage % 16 == 0 && s.h.extOff % 16 == 0 && s.h.extOff <= PAGE
  }

  // No page of the bump region was free to begin with.
  ghost predicate BumpNotGiven(s: System) {
    forall x | InBump(s, x) :: !InGiven(s, x)
  }

  // The block starts on a page boundary of the span.
  ghost predicate PageAligned(s: System, a: nat) {
    a >= Origin(s) && (a - Origin(s)) % PAGE == 0
  }

  ghost predicate InSpan(s: System, a: nat) {
    Origin(s) <= a < Origin(s) + s.h.pages.count * PAGE
  }

  ghost predicate BlockOk(s: System, a: nat, b: Block) {
    && a % 16 == 0 && a > 0 && a >= s.h.vbase
    && match b
       case Free(ci) => ci < CLASS_COUNT
       case Small(ci, size) => ci < CLASS_COUNT && size <= CLASS_SIZES[ci]
       case Big(pages, size) => 0 < pages && HEADER + size <= pages * PAGE && (PageAligned(s, a) || InBump(s, a))
  }

  ghost predicate BlocksOk(s: System) {
    forall a | a in s.g.blocks :: BlockOk(s, a, s.g.blocks[a])
  }

  // A block in use carries what kr_dealloc will read.
  ghost predicate HeaderOk(mem: map<nat, nat>, a: nat, b: Block) {
    match b
    case Free(_) => true
    case Small(ci, _) => Word(mem, a) == ci
    case Big(pages, _) => Word(mem, a) == 0xFFFF && Word(mem, a + 8) == pages
  }

  ghost predicate Headers(s: System) {
    forall a | a in s.g.blocks :: HeaderOk(s.h.mem, a, s.g.blocks[a])
  }

  function Head(l: seq<nat>): nat {
    if l == [] then 0 else l[0]
  }

  function Next(l: seq<nat>, i: nat): nat {
    if i + 1 < |l| then l[i + 1] else 0
  }

  // The blocks of l are linked in this order through their first words.
  ghost predicate Linked(mem: map<nat, nat>, l: seq<nat>) {
    forall i | 0 <= i < |l| :: Word(mem, l[i]) == Next(l, i)
  }

  ghost predicate ListOk(s: System, ci: nat)
    requires ci < CLASS_COUNT
  {
    var l := s.g.lists[ci];
    && s.h.lists[ci] == Head(l)
    && Linked(s.h.mem, l)
    && (forall i | 0 <= i < |l| :: l[i] in s.g.blocks && s.g.blocks[l[i]] == Free(ci))
    && (forall i, j | 0 <= i < j < |l| :: l[i] != l[j])
  }

  ghost predicate FreeLists(s: System) {
    && (forall ci | 0 <= ci < CLASS_COUNT :: ListOk(s, ci))
    && (forall a | a in s.g.blocks && s.g.blocks[a].Free? && s.g.blocks[a].ci < CLASS_COUNT
          :: a in s.g.lists[s.g.blocks[a].ci])
  }

  ghost function SmallBlocks(g: Ledger): set<nat> {
    set a | a in g.blocks && g.blocks[a].Small?
  }

  ghost function BigBlocks(g: Ledger): set<nat> {
    set a | a in g.blocks && g.blocks[a].Big?
  }

  ghost predicate Counts(s: System) {
    s.h.small == |SmallBlocks(s.g)| && s.h.big == |BigBlocks(s.g)|
  }

  // The bump block carved at b, or the large one freed there, ends at `end`.
  ghost predicate EndsAt(s: System, b: nat, end: nat) {
    && InBump(s, b)
    && if b in s.g.retired then b + s.g.retired[b] == end
       else b in s.g.blocks && b + Len(s.g.blocks[b]) == end
  }

  // The block does not start on a page boundary of the span, or there is no span yet.
  ghost predicate OffPage(s: System, a: nat) {
    s.h.pages.count == 0 || !PageAligned(s, a)
  }

  // Bump blocks are carved back to back.
  ghost predicate BackToBack(s: System) {
    && (s.h.pageNext == s.h.pageStart || EndsAt(s, s.g.top, s.h.pageNext))
    && (forall a | a in s.g.blocks && s.g.blocks[a].Big? && OffPage(s, a) && a != s.h.pageStart
          :: a in s.g.below && EndsAt(s, s.g.below[a], a))
    && (forall r | r in s.g.retired ::
          s.g.retired[r] % PAGE == 0 && s.g.retired[r] >= PAGE && s.h.pageStart <= r < s.h.pageNext)
  }

  // x lies below a, in the first page of a block at a; before there is a span, anywhere in the page's
  // length below a.
  ghost predicate LeadByte(s: System, a: nat, x: nat) {
    x < a < x + PAGE && (s.h.pages.count == 0 || (x >= Origin(s) && PageNo(s, x) == PageNo(s, a)))
  }

  ghost predicate Unowned(s: System, x: nat) {
    forall o :: !Owns(s, o, x)
  }

  ghost predicate LeadDead(s: System, a: nat) {
    forall x: nat | LeadByte(s, a, x) :: Unowned(s, x)
  }

  // Where the block below was a large one and is gone, nobody owns the bytes that share the first page.
  ghost predicate Leads(s: System) {
    && (forall a | a in s.g.blocks && s.g.blocks[a].Big? && OffPage(s, a) && a != s.h.pageStart
          && a in s.g.below && s.g.below[a] in s.g.retired :: LeadDead(s, a))
    && (s.h.pageStart != s.h.pageNext < s.h.pageEnd && s.g.top in s.g.retired ==> LeadDead(s, s.h.pageNext))
  }

  ghost predicate Stacked(s: System) {
    BackToBack(s) && Leads(s)
  }

  ghost predicate Inv(s: System) {
    && Setup(s) && Exclusive(s) && Provided(s)
    && BlocksOk(s) && Headers(s) && FreeLists(s) && Counts(s) && Stacked(s)
  }
}

/** The operations of a history, and that each of them keeps the invariant. */
module HeapSteps {
  import opened PageSpec
  import opened HeapModel
  import opened HeapInvariant

  datatype Op =
    | Alloc(size: nat)
    | Dealloc(ptr: nat)
    | Write(ptr: nat, off: nat, value: nat)  // a client stores a word inside its object
    | GrabPages(n: int)                      // page_alloc_contig called directly
    | ReturnPage(p: nat)                     // page_free of a page so obtained
    // page_alloc_init, and page_alloc_reserve of some regions at once
    | InitPages(ranges: seq<Range>, regions: seq<Region>)
    | ReservePages(from: nat, size: nat)     // page_alloc_reserve

  // ---------------------------------------------------------------- steps

  ghost function NewBlock(size: nat): Block {
    var n := AtLeast8(size);
    if n <= SLAB_MAX && ClassOf(n) >= 0 then Small(ClassOf(n), size) else Big(PagesFor(n), size)
  }

  ghost function AllocStep(s: System, size: nat): System {
    var (h, ptr) := KrAlloc(s.h, size);
    if ptr < HEADER then System(h, s.g)
    else
      var b, block := ptr - HEADER, NewBlock(size);
      var carved := h.pageNext != s.h.pageNext;
      System(h, s.g.(
        blocks := s.g.blocks[b := block],
        lists := if block.Small? && s.g.lists[block.ci] != []
                 then s.g.lists[block.ci := s.g.lists[block.ci][1..]] else s.g.lists,
        below := if carved then s.g.below[b := s.g.top] else s.g.below,
        top := if carved then b else s.g.top))
  }

  ghost predicate Live(s: System, ptr: nat) {
    ptr >= HEADER && ptr - HEADER in s.g.blocks && !s.g.blocks[ptr - HEADER].Free?
  }

  ghost function DeallocStep(s: System, ptr: nat): System {
    var h := KrDealloc(s.h, ptr);
    if !Live(s, ptr) then System(h, s.g)
    else
      var b := ptr - HEADER;
      match s.g.blocks[b]
      case Free(_) => System(h, s.g)
      case Small(ci, _) =>
        System(h, s.g.(blocks := s.g.blocks[b := Free(ci)],
                       lists := if ci < CLASS_COUNT then s.g.lists[ci := [b] + s.g.lists[ci]] else s.g.lists))
      case Big(pages, _) =>
        System(h, s.g.(blocks := s.g.blocks - {b},
                       retired := if InBump(s, b) && b !in s.g.retired
                                  then s.g.retired[b := pages * PAGE] else s.g.retired))
  }

  ghost function Step(s: System, op: Op): System {
    match op
    case Alloc(size) => AllocStep(s, size)
    case Dealloc(ptr) => DeallocStep(s, ptr)
    case Write(ptr, off, value) => s.(h := s.h.(mem := s.h.mem[ptr + off := value]))
    case GrabPages(n) =>
      var (P, addr) := TakeRun(s.h.pages, n);
      System(s.h.(pages := P), s.g.(raw := if addr == 0 then s.g.raw else s.g.raw + (s.h.pages.free - P.free)))
    case ReturnPage(p) =>
      System(s.h.(pages := FreeAddr(s.h.pages, s.h.pages.start + p * PAGE)), s.g.(raw := s.g.raw - {p}))
    case InitPages(ranges, regions) => InitStep(s, ranges, regions)
    case ReservePages(from, size) => s.(h := s.h.(pages := Reserve(s.h.pages, from, size)))
  }

  // Where page_alloc_init puts the bitmap: at the start of the range that hosts it.
  ghost function BitmapAt(vbase: nat, ranges: seq<Range>): Region
    requires CanInit(ranges)
  {
    Region(vbase + Host(ranges).start, BitmapBytes(ranges))
  }

  // Only the first initialisation, with ranges that can host the bitmap, does anything.
  ghost function InitStep(s: System, ranges: seq<Range>, regions: seq<Region>): System {
    if s.h.pages.count > 0 || !CanInit(ranges) then s.(h := s.h.(pages := ReserveAll(s.h.pages, regions)))
    else
      var P := ReserveAll(InitialPages(ranges), regions);
      System(s.h.(pages := P), s.g.(given := P.free, bitmap := BitmapAt(s.h.vbase, ranges)))
  }

  // ---------------------------------------------------------------- what callers must respect

  // The arithmetic on a request stays within its machine words: rounding does not wrap, neither does
  // the bump pointer, and a page count the bump region cannot serve survives the cast to int, or makes
  // the request fail.
  predicate SizeFits(h: Heap, size: nat) {
    size <= SLAB_MAX || (
      var n := PagesFor(size);
      && size + 4111 < WRAP
      && h.pageNext + n * PAGE < WRAP
      && (h.pageNext + n * PAGE <= h.pageEnd || Int32(n) <= 0 || Int32(n) == n))
  }

  // The block carved below was a large one, and has been freed.
  ghost predicate LeadFreed(s: System, b: nat) {
    b != s.h.pageStart && b in s.g.below && s.g.below[b] in s.g.retired
  }

  // Freeing this large block is harmless: it starts on a page of the span or outside the span, or what
  // shares its first page is dead.
  ghost predicate FreeIsSafe(s: System, b: nat) {
    PageAligned(s, b) || !InSpan(s, b) || LeadFreed(s, b)
  }

  // The pages of P lie in addressable memory, and none that is free meets the bump region.
  ghost predicate ClearPages(h: Heap, P: Pages) {
    && P.start % 16 == 0 && h.vbase + P.End() <= WRAP
    && (h.pageEnd <= h.vbase + P.start || h.vbase + P.start <= h.pageStart)
    && forall p | p in P.free :: MissesRegion(h, h.vbase + P.start + p * PAGE)
  }

  ghost predicate MissesRegion(h: Heap, page: nat) {
    h.pageStart < h.pageEnd ==> page + PAGE <= h.pageStart || h.pageEnd <= page
  }

  // The bitmap lies outside the bump region, and outside every page of P that is free.
  ghost predicate ClearBitmap(h: Heap, P: Pages, b: Region) {
    && (h.pageStart < h.pageEnd ==> b.from + b.size <= h.pageStart || h.pageEnd <= b.from)
    && forall p | p in P.free :: MissesPage(b, h.vbase + P.start + p * PAGE)
  }

  ghost predicate MissesPage(b: Region, page: nat) {
    b.size > 0 ==> b.from + b.size <= page || page + PAGE <= b.from
  }

  ghost predicate GoodSetUp(h: Heap, ranges: seq<Range>, regions: seq<Region>) {
    && (forall r | r in ranges :: r.End() < WRAP)
    && (CanInit(ranges) ==>
          var P := ReserveAll(InitialPages(ranges), regions);
          ClearPages(h, P) && ClearBitmap(h, P, BitmapAt(h.vbase, ranges)))
  }

  ghost predicate Admissible(s: System, op: Op) {
    match op
    case Alloc(size) => SizeFits(s.h, size)
    case Dealloc(ptr) => ptr == 0 || (Live(s, ptr) && (s.g.blocks[ptr - HEADER].Big? ==> FreeIsSafe(s, ptr - HEADER)))
    case Write(ptr, off, _) => Live(s, ptr) && off % 8 == 0 && HEADER + off + 8 <= Len(s.g.blocks[ptr - HEADER])
    case GrabPages(_) => true
    case ReturnPage(p) => p in s.g.raw
    case InitPages(ranges, regions) => s.h.pages.count > 0 || GoodSetUp(s.h, ranges, regions)
    case ReservePages(_, _) => true
  }

  // ---------------------------------------------------------------- carving a block out of a region

  // Everything about the regions that no operation changes.
  ghost predicate SameGround(s: System, t: System) {
    && t.h.vbase == s.h.vbase && t.h.pageStart == s.h.pageStart && t.h.pageEnd == s.h.pageEnd
    && t.h.pages.start == s.h.pages.start && t.h.pages.count == s.h.pages.count
    && t.g.given == s.g.given && t.g.bitmap == s.g.bitmap
  }

  // At most one owner per byte, and the bytes owned provided.
  ghost predicate Owned(s: System) {
    Exclusive(s) && Provided(s)
  }

  // What nobody owned nobody owns afterwards.
  ghost predicate Narrows(s: System, t: System) {
    forall x: nat | Unowned(s, x) :: Unowned(t, x)
  }

  lemma BlockLen(s: System, a: nat)
    requires BlocksOk(s) && a in s.g.blocks
    ensures Len(s.g.blocks[a]) >= 32 && Len(s.g.blocks[a]) % 16 == 0
    ensures Owns(s, Carved(a), a) && Owns(s, Carved(a), a + 8) && Owns(s, Carved(a), a + Len(s.g.blocks[a]) - 1)
  {
    match s.g.blocks[a]
    case Free(ci) => SlabSizes(ci);
    case Small(ci, _) => SlabSizes(ci);
    case Big(_, _) =>
  }

  // Two live intervals never meet.
  lemma NotInBlocks(s: System, o: Owner, b: nat)
    requires Exclusive(s) && BlocksOk(s) && Owns(s, o, b) && !o.Carved?
    ensures b !in s.g.blocks
  {
    if b in s.g.blocks {
      BlockLen(s, b);
    }
  }

  lemma CarveFromBump(s: System, t: System, b: nat, block: Block)
    requires Setup(s) && Owned(s) && BlocksOk(s) && SameGround(s, t)
    requires b == s.h.pageNext && Len(block) > 0 && t.h.pageNext == b + Len(block) <= s.h.pageEnd
    requires t.g.blocks == s.g.blocks[b := block]
    requires t.h.extPage == s.h.extPage && t.h.extOff == s.h.extOff && t.h.pages == s.h.pages && t.g.raw == s.g.raw
    ensures Owned(t) && Narrows(s, t) && b !in s.g.blocks
  {
    assert b !in s.g.blocks by {
      NotInBlocks(s, Bump, b);
    }
    forall o, x | Owns(t, o, x) ensures Owns(s, if o == Carved(b) then Bump else o, x) {
    }
    assert Provided(t);
  }

  lemma CarveFromTail(s: System, t: System, b: nat, block: Block)
    requires Setup(s) && Owned(s) && BlocksOk(s) && SameGround(s, t)
    requires s.h.extPage != 0 && b == s.h.extPage + s.h.extOff && Len(block) > 0
    requires t.h.extPage == s.h.extPage && t.h.extOff == s.h.extOff + Len(block) <= PAGE
    requires t.g.blocks == s.g.blocks[b := block]
    requires t.h.pageNext == s.h.pageNext && t.h.pages == s.h.pages && t.g.raw == s.g.raw
    ensures Owned(t) && Narrows(s, t) && b !in s.g.blocks
  {
    assert b !in s.g.blocks by {
      NotInBlocks(s, Tail, b);
    }
    forall o, x | Owns(t, o, x) ensures Owns(s, if o == Carved(b) then Tail else o, x) {
    }
    assert Provided(t);
  }

  // A fresh extension page: its head becomes the block, the rest the new tail. What was left of the
  // old extension page has no owner any more.
  lemma CarveFromNewPage(s: System, t: System, p: nat, block: Block)
    requires Setup(s) && Owned(s) && BlocksOk(s) && SameGround(s, t)
    requires p in s.h.pages.free && t.h.pages.free == s.h.pages.free - {p} && t.g.raw == s.g.raw
    requires t.h.extPage == Origin(s) + p * PAGE && t.h.extOff == Len(block) && 0 < Len(block) <= PAGE
    requires t.g.blocks == s.g.blocks[t.h.extPage := block] && t.h.pageNext == s.h.pageNext
    ensures Owned(t) && Narrows(s, t) && t.h.extPage !in s.g.blocks
  {
    var b := t.h.extPage;
    assert b !in s.g.blocks by {
      NotInBlocks(s, FreePage(p), b);
    }
    forall o, x | Owns(t, o, x)
      ensures Owns(s, if o == Carved(b) || o == Tail then FreePage(p) else o, x)
    {
    }
    assert Provided(t);
  }

  lemma PageNoIsExact(s: System, p: nat, x: nat)
    requires x >= Origin(s)
    ensures Origin(s) + p * PAGE <= x < Origin(s) + (p + 1) * PAGE <==> PageNo(s, x) == p
  {
  }

  lemma ByteOfRun(s: System, first: nat, n: nat, x: nat)
    requires Origin(s) + first * PAGE <= x < Origin(s) + first * PAGE + n * PAGE
    ensures PageNo(s, x) in Interval(first, n)
    ensures Interval(first, n) <= s.h.pages.free ==> Owns(s, FreePage(PageNo(s, x)), x)
  {
    PageNoIsExact(s, PageNo(s, x), x);
  }

  lemma CarveFromRun(s: System, t: System, first: nat, n: nat, b: nat, block: Block)
    requires Setup(s) && Owned(s) && BlocksOk(s) && SameGround(s, t)
    requires 0 < n && Interval(first, n) <= s.h.pages.free && t.h.pages.free == s.h.pages.free - Interval(first, n)
    requires b == Origin(s) + first * PAGE
    requires Len(block) == n * PAGE && t.g.blocks == s.g.blocks[b := block]
    requires t.h.extPage == s.h.extPage && t.h.extOff == s.h.extOff
    requires t.h.pageNext == s.h.pageNext && t.g.raw == s.g.raw
    ensures Owned(t) && Narrows(s, t) && b !in s.g.blocks
  {
    assert b !in s.g.blocks by {
      ByteOfRun(s, first, n, b);
      NotInBlocks(s, FreePage(PageNo(s, b)), b);
    }
    forall o, x | Owns(t, o, x)
      ensures Owns(s, if o == Carved(b) then FreePage(PageNo(s, x)) else o, x)
      ensures o == Carved(b) ==> PageNo(s, x) in Interval(first, n)
    {
      if o == Carved(b) {
        ByteOfRun(s, first, n, x);
      }
    }
    assert Provided(t);
    forall o1, o2, x | Owns(t, o1, x) && Owns(t, o2, x) ensures o1 == o2 {
      assert o1 == Carved(b) ==> PageNo(s, x) !in t.h.pages.free;
      assert o2 == Carved(b) ==> PageNo(s, x) !in t.h.pages.free;
    }
  }

  // ---------------------------------------------------------------- headers, lists, counts

  // Changing only what blocks are, not where, leaves the owners alone.
  lemma Relabelled(s: System, t: System)
    requires Owned(s) && SameGround(s, t)
    requires t.g.blocks.Keys == s.g.blocks.Keys
    requires forall a | a in s.g.blocks :: Len(t.g.blocks[a]) == Len(s.g.blocks[a])
    requires t.h.pageNext == s.h.pageNext && t.h.extPage == s.h.extPage && t.h.extOff == s.h.extOff
    requires t.h.pages == s.h.pages && t.g.raw == s.g.raw
    ensures Owned(t) && Narrows(s, t)
  {
    forall o, x | Owns(t, o, x) ensures Owns(s, o, x) {
    }
  }

  // The header words of two blocks are four different words.
  lemma HeaderWordsApart(s: System, a: nat, b: nat)
    requires Exclusive(s) && BlocksOk(s) && a in s.g.blocks && b in s.g.blocks && a != b
    ensures a != b + 8 && a + 8 != b
  {
    BlockLen(s, a);
    BlockLen(s, b);
  }

  // A list none of whose blocks is rewritten stays a list.
  lemma ListKept(s: System, t: System, k: nat)
    requires k < CLASS_COUNT
    requires ListOk(s, k) && t.g.lists[k] == s.g.lists[k] && t.h.lists[k] == s.h.lists[k]
    requires forall a | a in s.g.blocks && s.g.blocks[a] == Free(k) ::
               a in t.g.blocks && t.g.blocks[a] == Free(k) && Word(t.h.mem, a) == Word(s.h.mem, a)
    ensures ListOk(t, k)
  {
    var l := s.g.lists[k];
    forall i | 0 <= i < |l| ensures Word(t.h.mem, l[i]) == Next(l, i) {
      assert s.g.blocks[l[i]] == Free(k);
    }
  }

  lemma ListPopped(s: System, t: System, k: nat)
    requires k < CLASS_COUNT
    requires ListOk(s, k) && s.g.lists[k] != []
    requires t.g.lists[k] == s.g.lists[k][1..] && t.h.lists[k] == Word(s.h.mem, s.g.lists[k][0])
    requires forall a | a in s.g.blocks && s.g.blocks[a] == Free(k) && a != s.g.lists[k][0] ::
               a in t.g.blocks && t.g.blocks[a] == Free(k) && Word(t.h.mem, a) == Word(s.h.mem, a)
    ensures ListOk(t, k)
  {
    var l, m := s.g.lists[k], t.g.lists[k];
    forall i | 0 <= i < |m|
      ensures Word(t.h.mem, m[i]) == Next(m, i)
      ensures m[i] in t.g.blocks && t.g.blocks[m[i]] == Free(k)
    {
      assert m[i] == l[i + 1] && l[0] != l[i + 1];
      assert s.g.blocks[l[i + 1]] == Free(k);
      assert Word(s.h.mem, l[i + 1]) == Next(l, i + 1);
    }
    assert Word(s.h.mem, l[0]) == Next(l, 0);
  }

  lemma ListPushed(s: System, t: System, k: nat, b: nat)
    requires k < CLASS_COUNT
    requires ListOk(s, k) && b in s.g.blocks && s.g.blocks[b] != Free(k)
    requires t.g.lists[k] == [b] + s.g.lists[k] && t.h.lists[k] == b
    requires b in t.g.blocks && t.g.blocks[b] == Free(k) && Word(t.h.mem, b) == s.h.lists[k]
    requires forall a | a in s.g.blocks && s.g.blocks[a] == Free(k) ::
               a in t.g.blocks && t.g.blocks[a] == Free(k) && Word(t.h.mem, a) == Word(s.h.mem, a)
    ensures ListOk(t, k)
  {
    var l, m := s.g.lists[k], t.g.lists[k];
    forall i | 0 <= i < |m|
      ensures Word(t.h.mem, m[i]) == Next(m, i)
      ensures m[i] in t.g.blocks && t.g.blocks[m[i]] == Free(k)
      ensures i > 0 ==> m[i] != b
    {
      if i > 0 {
        assert m[i] == l[i - 1] && s.g.blocks[l[i - 1]] == Free(k);
        assert Word(s.h.mem, l[i - 1]) == Next(l, i - 1);
      }
    }
  }

  // The words of b's header belong to no other block's header or link.
  ghost predicate WritesOnly(mem: map<nat, nat>, mem': map<nat, nat>, b: nat, second: bool) {
    forall w | w != b && (second ==> w != b + 8) :: Word(mem', w) == Word(mem, w)
  }

  lemma HeadersKept(s: System, t: System, b: nat, second: bool)
    requires Headers(s) && WritesOnly(s.h.mem, t.h.mem, b, second)
    requires forall a | a in t.g.blocks && a != b :: a in s.g.blocks && t.g.blocks[a] == s.g.blocks[a]
    requires forall a | a in s.g.blocks && a != b :: a + 8 != b && (second ==> a != b + 8)
    requires b in t.g.blocks ==> HeaderOk(t.h.mem, b, t.g.blocks[b])
    ensures Headers(t)
  {
    forall a | a in t.g.blocks ensures HeaderOk(t.h.mem, a, t.g.blocks[a]) {
      if a != b {
        assert HeaderOk(s.h.mem, a, s.g.blocks[a]);
      }
    }
  }

  lemma BlocksKept(s: System, t: System, b: nat)
    requires BlocksOk(s) && SameGround(s, t)
    requires forall a | a in t.g.blocks && a != b :: a in s.g.blocks && t.g.blocks[a] == s.g.blocks[a]
    requires b in t.g.blocks ==> BlockOk(t, b, t.g.blocks[b])
    ensures BlocksOk(t)
  {
    forall a | a in t.g.blocks ensures BlockOk(t, a, t.g.blocks[a]) {
      if a != b {
        assert BlockOk(s, a, s.g.blocks[a]);
      }
    }
  }

  // Everything but the regions.
  ghost predicate Contents(s: System) {
    && BlocksOk(s) && Headers(s) && FreeLists(s) && Counts(s)
  }

  lemma SmallWith(g: Ledger, g': Ledger, b: nat, block: Block)
    requires (b in g.blocks ==> g.blocks[b].Free?) && g'.blocks == g.blocks[b := block]
    ensures b !in SmallBlocks(g) && SmallBlocks(g') == if block.Small? then SmallBlocks(g) + {b} else SmallBlocks(g)
  {
  }

  lemma BigWith(g: Ledger, g': Ledger, b: nat, block: Block)
    requires (b in g.blocks ==> g.blocks[b].Free?) && g'.blocks == g.blocks[b := block]
    ensures b !in BigBlocks(g) && BigBlocks(g') == if block.Big? then BigBlocks(g) + {b} else BigBlocks(g)
  {
  }

  lemma CountsWith(s: System, t: System, b: nat, block: Block)
    requires Counts(s) && (b in s.g.blocks ==> s.g.blocks[b].Free?) && t.g.blocks == s.g.blocks[b := block]
    requires t.h.small == s.h.small + (if block.Small? then 1 else 0)
    requires t.h.big == s.h.big + if block.Big? then 1 else 0
    ensures Counts(t)
  {
    hide SmallBlocks, BigBlocks;
    SmallWith(s.g, t.g, b, block);
    BigWith(s.g, t.g, b, block);
  }

  // A new block's header is written without touching another header or a link.
  lemma Added(s: System, t: System, b: nat, block: Block)
    requires SameGround(s, t) && Contents(s)
    requires b !in s.g.blocks && t.g.blocks == s.g.blocks[b := block] && !block.Free? && BlockOk(t, b, block)
    requires forall a | a in s.g.blocks :: a != b + 8 && a + 8 != b
    requires t.h.lists == s.h.lists && t.g.lists == s.g.lists
    requires WritesOnly(s.h.mem, t.h.mem, b, block.Big?) && HeaderOk(t.h.mem, b, block)
    requires t.h.small == s.h.small + (if block.Small? then 1 else 0)
    requires t.h.big == s.h.big + if block.Big? then 1 else 0
    ensures Contents(t)
  {
    BlocksKept(s, t, b);
    HeadersKept(s, t, b, block.Big?);
    CountsWith(s, t, b, block);
    forall k | 0 <= k < CLASS_COUNT ensures ListOk(t, k) {
      ListKept(s, t, k);
    }
  }

  lemma HeaderApart(t: System, b: nat)
    requires Exclusive(t) && BlocksOk(t) && b in t.g.blocks
    ensures forall a | a in t.g.blocks && a != b :: a != b + 8 && a + 8 != b
  {
    forall a | a in t.g.blocks && a != b ensures a != b + 8 && a + 8 != b {
      HeaderWordsApart(t, a, b);
    }
  }

  // Popping a free list: the link read from the block is the next head.
  lemma ListsPopped(s: System, t: System, ci: nat, b: nat, size: nat)
    requires ci < CLASS_COUNT
    requires FreeLists(s) && BlocksOk(s)
    requires s.g.lists[ci] != [] && b == s.g.lists[ci][0]
    requires t.g.blocks == s.g.blocks[b := Small(ci, size)] && t.g.lists == s.g.lists[ci := s.g.lists[ci][1..]]
    requires t.h.lists == s.h.lists[ci := Word(s.h.mem, b)] && t.h.mem == s.h.mem[b := ci]
    ensures FreeLists(t)
  {
    assert ListOk(s, ci);
    assert s.g.blocks[b] == Free(ci);
    forall k | 0 <= k < CLASS_COUNT ensures ListOk(t, k) {
      assert ListOk(s, k);
      if k == ci {
        ListPopped(s, t, k);
      } else {
        ListKept(s, t, k);
      }
    }
    forall a | a in t.g.blocks && t.g.blocks[a] == Free(ci) ensures a in t.g.lists[ci] {
      assert BlockOk(s, a, s.g.blocks[a]);
    }
  }

  lemma Popped(s: System, t: System, ci: nat, b: nat, size: nat)
    requires Exclusive(s) && SameGround(s, t) && Contents(s)
    requires ci < CLASS_COUNT && size <= CLASS_SIZES[ci]
    requires s.g.lists[ci] != [] && b == s.g.lists[ci][0]
    requires t.g.blocks == s.g.blocks[b := Small(ci, size)] && t.g.lists == s.g.lists[ci := s.g.lists[ci][1..]]
    requires t.h.lists == s.h.lists[ci := Word(s.h.mem, b)] && t.h.mem == s.h.mem[b := ci]
    requires t.h.small == s.h.small + 1 && t.h.big == s.h.big
    ensures Contents(t)
  {
    assert ListOk(s, ci);
    assert b in s.g.blocks && s.g.blocks[b] == Free(ci) && BlockOk(s, b, Free(ci));
    BlocksKept(s, t, b);
    ListsPopped(s, t, ci, b, size);
    CountsWith(s, t, b, Small(ci, size));
    HeaderApart(s, b);
    HeadersKept(s, t, b, false);
  }

  // Pushing a freed block: its header word becomes the link to the old head.
  lemma ListsPushed(s: System, t: System, ci: nat, b: nat)
    requires ci < CLASS_COUNT
    requires FreeLists(s) && BlocksOk(s) && b in s.g.blocks && s.g.blocks[b].Small?
    requires t.g.blocks == s.g.blocks[b := Free(ci)] && t.g.lists == s.g.lists[ci := [b] + s.g.lists[ci]]
    requires t.h.lists == s.h.lists[ci := b] && t.h.mem == s.h.mem[b := s.h.lists[ci]]
    ensures FreeLists(t)
  {
    forall k | 0 <= k < CLASS_COUNT ensures ListOk(t, k) {
      assert ListOk(s, k);
      if k == ci {
        ListPushed(s, t, k, b);
      } else {
        ListKept(s, t, k);
      }
    }
    forall a | a in t.g.blocks && t.g.blocks[a] == Free(ci) ensures a in t.g.lists[ci] {
      assert a != b ==> BlockOk(s, a, s.g.blocks[a]);
    }
  }

  lemma SmallWithout(g: Ledger, g': Ledger, b: nat, ci: nat)
    requires b in g.blocks && g.blocks[b].Small? && g'.blocks == g.blocks[b := Free(ci)]
    ensures b in SmallBlocks(g) && SmallBlocks(g') == SmallBlocks(g) - {b} && BigBlocks(g') == BigBlocks(g)
  {
  }

  lemma Pushed(s: System, t: System, ci: nat, b: nat)
    requires Exclusive(s) && SameGround(s, t) && Contents(s) && ci < CLASS_COUNT
    requires b in s.g.blocks && s.g.blocks[b].Small? && s.g.blocks[b].ci == ci
    requires t.g.blocks == s.g.blocks[b := Free(ci)] && t.g.lists == s.g.lists[ci := [b] + s.g.lists[ci]]
    requires t.h.lists == s.h.lists[ci := b] && t.h.mem == s.h.mem[b := s.h.lists[ci]]
    requires t.h.small == s.h.small - 1 && t.h.big == s.h.big
    ensures Contents(t)
  {
    assert BlockOk(s, b, s.g.blocks[b]);
    BlocksKept(s, t, b);
    ListsPushed(s, t, ci, b);
    HeaderApart(s, b);
    HeadersKept(s, t, b, false);
    hide Exclusive, BlocksOk, FreeLists, Headers, SmallBlocks, BigBlocks;
    SmallWithout(s.g, t.g, b, ci);
  }

  // A large block leaves; nothing is written.
  lemma Removed(s: System, t: System, b: nat)
    requires SameGround(s, t) && Contents(s)
    requires b in s.g.blocks && s.g.blocks[b].Big? && t.g.blocks == s.g.blocks - {b} && t.g.lists == s.g.lists
    requires t.h.lists == s.h.lists && t.h.mem == s.h.mem && t.h.small == s.h.small && t.h.big == s.h.big - 1
    ensures Contents(t)
  {
    BlocksKept(s, t, b);
    assert b !in t.g.blocks;
    assert Headers(t) by {
      forall a | a in t.g.blocks ensures HeaderOk(t.h.mem, a, t.g.blocks[a]) {
        assert HeaderOk(s.h.mem, a, s.g.blocks[a]);
      }
    }
    forall k | 0 <= k < CLASS_COUNT ensures ListOk(t, k) {
      ListKept(s, t, k);
    }
    assert SmallBlocks(t.g) == SmallBlocks(s.g);
    assert BigBlocks(t.g) == BigBlocks(s.g) - {b};
  }

  // ---------------------------------------------------------------- allocation

  // t is s with a block installed at b: header written, counted, nothing else in memory changed.
  ghost predicate Installs(s: System, t: System, b: nat, block: Block) {
    && SameGround(s, t) && !block.Free?
    && t.g.blocks == s.g.blocks[b := block] && t.g.lists == s.g.lists && t.h.lists == s.h.lists
    && t.g.raw == s.g.raw && t.g.retired == s.g.retired
    && WritesOnly(s.h.mem, t.h.mem, b, block.Big?) && HeaderOk(t.h.mem, b, block)
    && t.h.small == s.h.small + (if block.Small? then 1 else 0)
    && t.h.big == s.h.big + if block.Big? then 1 else 0
  }

  lemma InstalledContents(s: System, t: System, b: nat, block: Block)
    requires Contents(s) && Exclusive(t) && b !in s.g.blocks
    requires Installs(s, t, b, block) && BlockOk(t, b, block)
    ensures Contents(t)
  {
    BlocksKept(s, t, b);
    HeaderApart(t, b);
    Added(s, t, b, block);
  }

  // The stack of bump blocks does not notice what happens elsewhere.
  lemma StackedKept(s: System, t: System)
    requires Stacked(s) && SameGround(s, t) && Narrows(s, t) && t.h.pageNext == s.h.pageNext
    requires t.g.top == s.g.top && t.g.below == s.g.below && t.g.retired == s.g.retired
    requires forall a | a in s.g.blocks :: a in t.g.blocks && Len(t.g.blocks[a]) == Len(s.g.blocks[a])
    requires forall a | a in t.g.blocks && t.g.blocks[a].Big? && OffPage(s, a) :: a in s.g.blocks && s.g.blocks[a].Big?
    ensures Stacked(t)
  {
    forall a | a in t.g.blocks && t.g.blocks[a].Big? && OffPage(t, a) && a != t.h.pageStart
      ensures a in t.g.below && EndsAt(t, t.g.below[a], a)
      ensures t.g.below[a] in t.g.retired ==> LeadDead(t, a)
    {
      assert EndsAt(s, s.g.below[a], a);
      if t.g.below[a] in t.g.retired {
        LeadKept(s, t, a);
      }
    }
    if s.h.pageStart != s.h.pageNext < s.h.pageEnd && s.g.top in s.g.retired {
      LeadKept(s, t, s.h.pageNext);
    }
  }

  lemma LeadKept(s: System, t: System, a: nat)
    requires SameGround(s, t) && Narrows(s, t) && LeadDead(s, a)
    ensures LeadDead(t, a)
  {
    hide Unowned;
    forall x: nat | LeadByte(t, a, x) ensures Unowned(t, x) {
      assert LeadByte(s, a, x);
    }
  }

  lemma NextAboveStart(s: System)
    requires Setup(s)
    ensures s.h.pageStart <= s.h.pageNext
  {
  }

  lemma StackedGrows(s: System, t: System, b: nat, block: Block)
    requires Setup(s) && Stacked(s) && SameGround(s, t) && Narrows(s, t) && b !in s.g.blocks
    requires b == s.h.pageNext && Len(block) > 0 && t.h.pageNext == b + Len(block) <= s.h.pageEnd
    requires t.g.blocks == s.g.blocks[b := block]
    requires t.g.top == b && t.g.below == s.g.below[b := s.g.top] && t.g.retired == s.g.retired
    ensures Stacked(t)
  {
    hide Unowned, LeadDead, Narrows, Setup;
    assert forall r | r in s.g.retired :: r < b;
    assert s.h.pageStart <= s.h.pageNext by {
      NextAboveStart(s);
    }
    forall a | a in t.g.blocks && t.g.blocks[a].Big? && OffPage(t, a) && a != t.h.pageStart
      ensures a in t.g.below && EndsAt(t, t.g.below[a], a)
      ensures t.g.below[a] in t.g.retired ==> LeadDead(t, a)
    {
      if a == b {
        assert EndsAt(s, s.g.top, b);
      } else {
        assert EndsAt(s, s.g.below[a], a);
      }
      if t.g.below[a] in t.g.retired {
        LeadKept(s, t, a);
      }
    }
    assert EndsAt(t, b, t.h.pageNext);
  }

  lemma SetupKept(s: System, t: System)
    requires Setup(s) && SameGround(s, t)
    requires s.h.pageNext <= t.h.pageNext <= t.h.pageEnd && t.h.pageNext % 16 == 0
    requires t.h.pages.Valid()
    requires t.h.extPage != 0 ==> ExtensionOk(t)
    requires t.h.pages.count == 0 ==> t.g.raw == {} && t.h.extPage == 0
    ensures Setup(t)
  {
    forall x | InBump(t, x) ensures !InGiven(t, x) {
      assert InBump(s, x);
    }
  }

  // A block carved off the bump region.
  ghost predicate BumpCarves(s: System, t: System, b: nat, block: Block) {
    && Installs(s, t, b, block) && BlockOk(t, b, block)
    && b == s.h.pageNext && Len(block) > 0 && Len(block) % 16 == 0 && t.h.pageNext == b + Len(block) <= s.h.pageEnd
    && t.h.extPage == s.h.extPage && t.h.extOff == s.h.extOff && t.h.pages == s.h.pages
    && t.g.top == b && t.g.below == s.g.below[b := s.g.top]
  }

  lemma BumpGround(s: System, t: System, b: nat, block: Block)
    requires Inv(s) && BumpCarves(s, t, b, block)
    ensures Setup(t) && Owned(t) && Narrows(s, t) && b !in s.g.blocks
  {
    hide Exclusive, Provided, BlocksOk, Headers, FreeLists, Counts, Stacked, Narrows;
    hide Len, BlockOk, BumpNotGiven;
    Multiples(b, Len(block));
    SetupKept(s, t);
    CarveFromBump(s, t, b, block);
  }

  lemma BumpBlock(s: System, t: System, b: nat, block: Block)
    requires Inv(s) && BumpCarves(s, t, b, block)
    ensures Inv(t) && b !in s.g.blocks
  {
    hide Exclusive, Provided, BlocksOk, Headers, FreeLists, Counts, Stacked, Narrows;
    BumpGround(s, t, b, block);
    InstalledContents(s, t, b, block);
    StackedGrows(s, t, b, block);
  }

  ghost predicate StackUntouched(s: System, t: System) {
    t.h.pageNext == s.h.pageNext && t.g.top == s.g.top && t.g.below == s.g.below && t.g.retired == s.g.retired
  }

  lemma TailBlock(s: System, t: System, b: nat, block: Block)
    requires Inv(s) && Installs(s, t, b, block) && BlockOk(t, b, block) && block.Small? && StackUntouched(s, t)
    requires s.h.extPage != 0 && b == s.h.extPage + s.h.extOff && Len(block) > 0 && Len(block) % 16 == 0
    requires t.h.extPage == s.h.extPage && t.h.extOff == s.h.extOff + Len(block) <= PAGE && t.h.pages == s.h.pages
    ensures Inv(t) && b !in s.g.blocks
  {
    hide Exclusive, Provided, BlocksOk, Headers, FreeLists, Counts, Stacked, Narrows;
    hide Len, BlockOk, BumpNotGiven;
    Multiples(s.h.extOff, Len(block));
    SetupKept(s, t);
    CarveFromTail(s, t, b, block);
    InstalledContents(s, t, b, block);
    StackedKept(s, t);
  }

  lemma PageBlock(s: System, t: System, p: nat, b: nat, block: Block)
    requires Inv(s) && Installs(s, t, b, block) && BlockOk(t, b, block) && block.Small? && StackUntouched(s, t)
    requires p in s.h.pages.free && t.h.pages == s.h.pages.(free := s.h.pages.free - {p})
    requires b == Origin(s) + p * PAGE == t.h.extPage && t.h.extOff == Len(block)
    requires 0 < Len(block) <= PAGE && Len(block) % 16 == 0
    ensures Inv(t) && b !in s.g.blocks
  {
    hide Exclusive, Provided, BlocksOk, Headers, FreeLists, Counts, Stacked, Narrows;
    SetupKept(s, t);
    CarveFromNewPage(s, t, p, block);
    InstalledContents(s, t, b, block);
    StackedKept(s, t);
  }

  lemma RunBlock(s: System, t: System, first: nat, n: nat, b: nat, block: Block)
    requires Inv(s) && Installs(s, t, b, block) && BlockOk(t, b, block) && block.Big? && StackUntouched(s, t)
    requires 0 < n && Interval(first, n) <= s.h.pages.free
    requires t.h.pages == s.h.pages.(free := s.h.pages.free - Interval(first, n))
    requires b == Origin(s) + first * PAGE && Len(block) == n * PAGE
    requires t.h.extPage == s.h.extPage && t.h.extOff == s.h.extOff
    ensures Inv(t) && b !in s.g.blocks
  {
    hide Exclusive, Provided, BlocksOk, Headers, FreeLists, Counts, Stacked, Narrows;
    assert first in Interval(first, n);
    SetupKept(s, t);
    CarveFromRun(s, t, first, n, b, block);
    InstalledContents(s, t, b, block);
    StackedKept(s, t);
  }

  // Losing pages, or the rest of the extension page, is harmless.
  lemma Shrunk(s: System, t: System)
    requires Inv(s) && SameGround(s, t) && t.g == s.g
    requires t.h == s.h.(pages := t.h.pages, extPage := t.h.extPage)
    requires t.h.pages.free <= s.h.pages.free && (t.h.extPage == s.h.extPage || t.h.extPage == 0)
    ensures Inv(t)
  {
    hide Stacked, FreeLists, Counts, Headers;
    SetupKept(s, t);
    forall o, x | Owns(t, o, x) ensures Owns(s, o, x) {
    }
    assert Owned(t) && Narrows(s, t);
    hide Exclusive, Provided, Narrows;
    SameContents(s, t);
    StackedKept(s, t);
  }

  // A block taken from the free list of its class.
  lemma ReusedBlock(s: System, t: System, ci: nat, b: nat, size: nat)
    requires Inv(s) && SameGround(s, t) && StackUntouched(s, t)
    requires ci < CLASS_COUNT && size <= CLASS_SIZES[ci]
    requires s.g.lists[ci] != [] && b == s.g.lists[ci][0]
    requires t.g.blocks == s.g.blocks[b := Small(ci, size)] && t.g.lists == s.g.lists[ci := s.g.lists[ci][1..]]
    requires t.h.lists == s.h.lists[ci := Word(s.h.mem, b)] && t.h.mem == s.h.mem[b := ci]
    requires t.h.small == s.h.small + 1 && t.h.big == s.h.big
    requires t.h.extPage == s.h.extPage && t.h.extOff == s.h.extOff && t.h.pages == s.h.pages && t.g.raw == s.g.raw
    ensures Inv(t) && b in s.g.blocks && s.g.blocks[b] == Free(ci)
  {
    assert ListOk(s, ci);
    assert b in s.g.blocks && s.g.blocks[b] == Free(ci);
    SetupKept(s, t);
    Relabelled(s, t);
    Popped(s, t, ci, b, size);
    StackedKept(s, t);
  }

  // What a successful request gets: a block not in use before, aligned and large enough.
  ghost predicate Granted(s: System, t: System, ptr: nat, size: nat) {
    && ptr % 16 == 0 && !Live(s, ptr) && Live(t, ptr)
    && t.g.blocks[ptr - HEADER] == NewBlock(size)
    && HEADER + size <= Len(t.g.blocks[ptr - HEADER])
  }

  lemma ClassFits(size: nat)
    requires size <= SLAB_MAX
    ensures ClassOf(AtLeast8(size)) >= 0 && size <= CLASS_SIZES[ClassOf(AtLeast8(size))]
    ensures NewBlock(size) == Small(ClassOf(AtLeast8(size)), size)
    ensures HEADER + size <= Len(NewBlock(size)) <= PAGE && Len(NewBlock(size)) % 16 == 0
  {
    ClassOfIsLeast(AtLeast8(size));
    SlabSizes(ClassOf(AtLeast8(size)));
  }

  // The head pointer of a class is 0 exactly when its list is empty.
  lemma HeadOfList(s: System, ci: nat)
    requires Inv(s) && ci < CLASS_COUNT
    ensures s.h.lists[ci] == Head(s.g.lists[ci])
    ensures s.h.lists[ci] == 0 <==> s.g.lists[ci] == []
    ensures s.h.lists[ci] != 0 ==> s.h.lists[ci] in s.g.blocks && s.g.blocks[s.h.lists[ci]] == Free(ci)
    ensures s.h.lists[ci] != 0 ==> BlockOk(s, s.h.lists[ci], Free(ci))
  {
    hide Exclusive, Provided, Headers, Counts, Stacked;
    assert ListOk(s, ci);
    if s.g.lists[ci] != [] {
      var head := s.g.lists[ci][0];
      assert head in s.g.blocks && BlockOk(s, head, s.g.blocks[head]);
    }
  }

  lemma AllocFromList(s: System, size: nat, ci: nat)
    requires Inv(s) && size <= SLAB_MAX && ci == ClassOf(AtLeast8(size)) && s.h.lists[ci] != 0
    ensures Inv(AllocStep(s, size)) && Granted(s, AllocStep(s, size), KrAlloc(s.h, size).1, size)
  {
    hide Exclusive, Provided, BlocksOk, Headers, FreeLists, Counts, Stacked;
    hide KrAlloc, AllocStep, NewBlock, ClassOf, SlabSize;
    ClassFits(size);
    HeadOfList(s, ci);
    PoppingStep(s, size, ci);
    ReusedBlock(s, AllocStep(s, size), ci, s.g.lists[ci][0], size);
  }

  // A small request served from a list, spelled out.
  lemma PoppingStep(s: System, size: nat, ci: nat)
    requires size <= SLAB_MAX && ci == ClassOf(AtLeast8(size)) && s.h.lists[ci] != 0
    ensures var b := s.h.lists[ci];
            && KrAlloc(s.h, size).1 == b + HEADER
            && AllocStep(s, size).h == s.h.(
                 lists := s.h.lists[ci := Word(s.h.mem, b)], mem := s.h.mem[b := ci], small := s.h.small + 1)
            && AllocStep(s, size).g == s.g.(
                 blocks := s.g.blocks[b := Small(ci, size)],
                 lists := if s.g.lists[ci] != [] then s.g.lists[ci := s.g.lists[ci][1..]] else s.g.lists)
  {
    hide Carve, FirstFit;
  }

  lemma NoBumpWrap(s: System, ci: nat)
    requires Setup(s) && ci < CLASS_COUNT
    ensures Add64(s.h.pageNext, SlabSize(ci)) == s.h.pageNext + SlabSize(ci)
  {
    SlabSizes(ci);
  }

  // A small request served by slab_carve, spelled out.
  lemma CarvingStep(s: System, size: nat, c: Heap, b: nat)
    requires Inv(s) && size <= SLAB_MAX && ClassOf(AtLeast8(size)) >= 0
    requires s.h.lists[ClassOf(AtLeast8(size))] == 0
    requires Carve(s.h, ClassOf(AtLeast8(size))).0 == c && Carve(s.h, ClassOf(AtLeast8(size))).1 == b
    ensures b == 0 ==> KrAlloc(s.h, size).1 == 0 && AllocStep(s, size) == System(c, s.g)
    ensures b != 0 ==> KrAlloc(s.h, size).1 == b + HEADER
    ensures b != 0 ==>
      var ci := ClassOf(AtLeast8(size));
      && AllocStep(s, size).h == c.(mem := c.mem[b := ci], small := c.small + 1)
      && AllocStep(s, size).g == s.g.(
           blocks := s.g.blocks[b := Small(ci, size)],
           below := if c.pageNext != s.h.pageNext then s.g.below[b := s.g.top] else s.g.below,
           top := if c.pageNext != s.h.pageNext then b else s.g.top)
  {
    hide Exclusive, Provided, BlocksOk, Headers, FreeLists, Counts, Stacked;
    HeadOfList(s, ClassOf(AtLeast8(size)));
  }

  lemma Multiples(a: nat, b: nat)
    requires a % 16 == 0 && b % 16 == 0
    ensures (a + b) % 16 == 0
  {
  }

  lemma AllocFromBump(s: System, size: nat, ci: nat)
    requires Inv(s) && size <= SLAB_MAX && ci == ClassOf(AtLeast8(size)) && s.h.lists[ci] == 0
    requires s.h.pageNext + SlabSize(ci) <= s.h.pageEnd
    ensures Inv(AllocStep(s, size)) && Granted(s, AllocStep(s, size), KrAlloc(s.h, size).1, size)
  {
    hide Exclusive, Provided, BlocksOk, Headers, FreeLists, Counts, Stacked;
    hide KrAlloc, AllocStep, ClassOf, NewBlock, SlabSize, TakeRun;
    ClassFits(size);
    CarvingStep(s, size, Carve(s.h, ci).0, s.h.pageNext);
    BumpBlock(s, AllocStep(s, size), s.h.pageNext, Small(ci, size));
  }

  lemma AllocFromTail(s: System, size: nat, ci: nat)
    requires Inv(s) && size <= SLAB_MAX && ci == ClassOf(AtLeast8(size)) && s.h.lists[ci] == 0
    requires s.h.pageNext + SlabSize(ci) > s.h.pageEnd
    requires s.h.extPage != 0 && s.h.extOff + SlabSize(ci) <= PAGE
    ensures Inv(AllocStep(s, size)) && Granted(s, AllocStep(s, size), KrAlloc(s.h, size).1, size)
  {
    hide Exclusive, Provided, BlocksOk, Headers, FreeLists, Counts, Stacked;
    hide KrAlloc, AllocStep, ClassOf, NewBlock, SlabSize, TakeRun;
    ClassFits(size);
    var b := s.h.extPage + s.h.extOff;
    CarvingStep(s, size, Carve(s.h, ci).0, b);
    Multiples(s.h.extPage, s.h.extOff);
    TailBlock(s, AllocStep(s, size), b, Small(ci, size));
  }

  // No page left: the request fails, and so does the rest of the extension page.
  lemma AllocExhausted(s: System, size: nat, ci: nat)
    requires Inv(s) && size <= SLAB_MAX && ci == ClassOf(AtLeast8(size)) && s.h.lists[ci] == 0
    requires s.h.pageNext + SlabSize(ci) > s.h.pageEnd
    requires s.h.extPage == 0 || s.h.extOff + SlabSize(ci) > PAGE
    requires TakeRun(s.h.pages, 1).1 == 0
    ensures Inv(AllocStep(s, size)) && KrAlloc(s.h, size).1 == 0
  {
    hide Exclusive, Provided, BlocksOk, Headers, FreeLists, Counts, Stacked;
    TakeRunMeaning(s.h.pages, 1);
    NoBumpWrap(s, ci);
    CarvingStep(s, size, Carve(s.h, ci).0, 0);
    Shrunk(s, AllocStep(s, size));
  }

  // The page page_alloc takes.
  lemma OnePage(P: Pages) returns (p: nat)
    requires P.Valid() && TakeRun(P, 1).1 != 0
    ensures p in P.free && TakeRun(P, 1).0 == P.(free := P.free - {p}) && TakeRun(P, 1).1 == P.start + p * PAGE
  {
    TakeRunMeaning(P, 1);
    p := FirstRun(P, 1).value;
    assert Interval(p, 1) == {p};
  }

  lemma AllocFromPage(s: System, size: nat, ci: nat)
    requires Inv(s) && size <= SLAB_MAX && ci == ClassOf(AtLeast8(size)) && s.h.lists[ci] == 0
    requires s.h.pageNext + SlabSize(ci) > s.h.pageEnd
    requires s.h.extPage == 0 || s.h.extOff + SlabSize(ci) > PAGE
    requires TakeRun(s.h.pages, 1).1 != 0
    ensures Inv(AllocStep(s, size)) && Granted(s, AllocStep(s, size), KrAlloc(s.h, size).1, size)
  {
    hide Exclusive, Provided, BlocksOk, Headers, FreeLists, Counts, Stacked;
    hide KrAlloc, AllocStep, ClassOf, NewBlock, SlabSize;
    hide TakeRun;
    ClassFits(size);
    var p := OnePage(s.h.pages);
    var b := Origin(s) + p * PAGE;
    PageAddress(s, p);
    CarvingStep(s, size, Carve(s.h, ci).0, b);
    PageBlock(s, AllocStep(s, size), p, b, Small(ci, size));
  }

  lemma PageAddress(s: System, p: nat)
    requires Setup(s)
    ensures (Origin(s) + p * PAGE) % 16 == 0
  {
    SumIsAligned(s.h.vbase, s.h.pages.start, p);
  }

  lemma SumIsAligned(a: nat, b: nat, p: nat)
    requires a % 16 == 0 && b % 16 == 0
    ensures (a + b + p * PAGE) % 16 == 0
  {
  }

  lemma AllocSmallKeeps(s: System, size: nat)
    requires Inv(s) && size <= SLAB_MAX
    ensures Inv(AllocStep(s, size))
    ensures var ptr := KrAlloc(s.h, size).1; ptr == 0 || Granted(s, AllocStep(s, size), ptr, size)
  {
    hide Exclusive, Provided, BlocksOk, Headers, FreeLists, Counts, Stacked;
    ClassFits(size);
    var ci := ClassOf(AtLeast8(size));
    if s.h.lists[ci] != 0 {
      AllocFromList(s, size, ci);
    } else if s.h.pageNext + SlabSize(ci) <= s.h.pageEnd {
      AllocFromBump(s, size, ci);
    } else if s.h.extPage != 0 && s.h.extOff + SlabSize(ci) <= PAGE {
      AllocFromTail(s, size, ci);
    } else if TakeRun(s.h.pages, 1).1 == 0 {
      AllocExhausted(s, size, ci);
    } else {
      AllocFromPage(s, size, ci);
    }
  }

  // A large request spelled out, for the block it gets.
  lemma BigStep(s: System, size: nat, h: Heap, b: nat)
    requires Inv(s) && size > SLAB_MAX && SizeFits(s.h, size)
    requires var pages := PagesFor(size);
             AllocBig(s.h, size).0 == WithBigHeader(h, b, pages).0 && AllocBig(s.h, size).1 == b + HEADER
    ensures NewBlock(size) == Big(PagesFor(size), size) && 0 < PagesFor(size) && HEADER + size <= PagesFor(size) * PAGE
    ensures KrAlloc(s.h, size).1 == b + HEADER
    ensures AllocStep(s, size).h == h.(mem := h.mem[b := BIG_MAGIC][b + 8 := PagesFor(size)], big := h.big + 1)
    ensures AllocStep(s, size).g == s.g.(
              blocks := s.g.blocks[b := Big(PagesFor(size), size)],
              below := if h.pageNext != s.h.pageNext then s.g.below[b := s.g.top] else s.g.below,
              top := if h.pageNext != s.h.pageNext then b else s.g.top)
  {
    hide Exclusive, Provided, BlocksOk, Headers, FreeLists, Counts, Stacked;
    PagesCoverExactly(size);
  }

  lemma SumDoesNotWrap(a: nat, b: nat)
    requires a + b < WRAP
    ensures Add64(a, b) == a + b
  {
  }

  lemma BigFromBump(s: System, size: nat)
    requires Inv(s) && size > SLAB_MAX && SizeFits(s.h, size)
    requires s.h.pageNext + PagesFor(size) * PAGE <= s.h.pageEnd
    ensures Inv(AllocStep(s, size)) && Granted(s, AllocStep(s, size), KrAlloc(s.h, size).1, size)
  {
    hide Exclusive, Provided, BlocksOk, Headers, FreeLists, Counts, Stacked;
    hide KrAlloc, AllocStep, NewBlock;
    hide PagesFor, Int32, Add64, TakeRun;
    var b, n := s.h.pageNext, PagesFor(size);
    assert Add64(b, n * PAGE) == b + n * PAGE by {
      SumDoesNotWrap(b, n * PAGE);
    }
    BigStep(s, size, s.h.(pageNext := b + n * PAGE), b);
    assert Len(Big(n, size)) == n * PAGE && (n * PAGE) % 16 == 0;
    BumpBlock(s, AllocStep(s, size), b, Big(n, size));
  }

  lemma PageStart(s: System, p: nat)
    ensures PageAligned(s, Origin(s) + p * PAGE)
  {
  }

  lemma NoRunForNothing(P: Pages, n: int)
    ensures n <= 0 ==> TakeRun(P, n).1 == 0
  {
  }

  // The pages page_alloc_contig takes.
  lemma OneRun(P: Pages, n: nat) returns (first: nat)
    requires P.Valid() && TakeRun(P, n).1 != 0
    ensures Interval(first, n) <= P.free && TakeRun(P, n).0 == P.(free := P.free - Interval(first, n))
    ensures TakeRun(P, n).1 == P.start + first * PAGE
  {
    TakeRunMeaning(P, n);
    first := FirstRun(P, n).value;
  }

  lemma BigFromPages(s: System, size: nat)
    requires Inv(s) && size > SLAB_MAX && SizeFits(s.h, size)
    requires s.h.pageNext + PagesFor(size) * PAGE > s.h.pageEnd
    requires TakeRun(s.h.pages, Int32(PagesFor(size))).1 != 0
    ensures Inv(AllocStep(s, size)) && Granted(s, AllocStep(s, size), KrAlloc(s.h, size).1, size)
  {
    hide Exclusive, Provided, BlocksOk, Headers, FreeLists, Counts, Stacked;
    hide KrAlloc, AllocStep, NewBlock;
    hide PagesFor, Int32, TakeRun;
    var n := PagesFor(size);
    NoRunForNothing(s.h.pages, Int32(n));
    assert Int32(n) == n;
    var first := OneRun(s.h.pages, n);
    var P := TakeRun(s.h.pages, n).0;
    var b := Origin(s) + first * PAGE;
    BigStep(s, size, s.h.(pages := P), b);
    var t := AllocStep(s, size);
    PageAddress(s, first);
    assert PageAligned(t, b) by {
      PageStart(t, first);
    }
    hide PageAligned, BumpNotGiven;
    RunBlock(s, t, first, n, b, Big(n, size));
  }

  lemma BigExhausted(s: System, size: nat)
    requires Inv(s) && size > SLAB_MAX && SizeFits(s.h, size)
    requires s.h.pageNext + PagesFor(size) * PAGE > s.h.pageEnd
    requires TakeRun(s.h.pages, Int32(PagesFor(size))).1 == 0
    ensures Inv(AllocStep(s, size)) && KrAlloc(s.h, size).1 == 0
  {
    hide Exclusive, Provided, BlocksOk, Headers, FreeLists, Counts, Stacked;
    hide PagesFor, Int32;
    if Int32(PagesFor(size)) > 0 {
      TakeRunMeaning(s.h.pages, Int32(PagesFor(size)));
    }
    Shrunk(s, AllocStep(s, size));
  }

  lemma AllocKeeps(s: System, size: nat)
    requires Inv(s) && SizeFits(s.h, size)
    ensures Inv(AllocStep(s, size))
    ensures var ptr := KrAlloc(s.h, size).1; ptr == 0 || Granted(s, AllocStep(s, size), ptr, size)
  {
    hide Exclusive, Provided, BlocksOk, Headers, FreeLists, Counts, Stacked;
    if size <= SLAB_MAX {
      AllocSmallKeeps(s, size);
    } else if s.h.pageNext + PagesFor(size) * PAGE <= s.h.pageEnd {
      BigFromBump(s, size);
    } else if TakeRun(s.h.pages, Int32(PagesFor(size))).1 == 0 {
      BigExhausted(s, size);
    } else {
      BigFromPages(s, size);
    }
  }

  // ---------------------------------------------------------------- release

  // The machine words kr_dealloc computes from a live pointer are those of its block.
  lemma LiveBlock(s: System, b: nat)
    requires Setup(s) && Provided(s) && BlocksOk(s) && b in s.g.blocks
    ensures b + Len(s.g.blocks[b]) <= WRAP && b >= s.h.vbase
    ensures Sub64(b + HEADER, HEADER) == b && Sub64(b, s.h.vbase) == b - s.h.vbase && Add64(b, 8) == b + 8
  {
    hide Len;
    BlockLen(s, b);
    assert BlockOk(s, b, s.g.blocks[b]);
    var x := b + Len(s.g.blocks[b]) - 1;
    if InGiven(s, x) {
      PageNoIsExact(s, PageNo(s, x), x);
    }
  }

  // What kr_dealloc does with a live pointer.
  lemma FreedHeap(s: System, ptr: nat)
    requires Setup(s) && Provided(s) && BlocksOk(s) && Headers(s) && Live(s, ptr)
    ensures match s.g.blocks[ptr - HEADER]
            case Free(_) => true
            case Small(ci, _) =>
              ci < CLASS_COUNT && KrDealloc(s.h, ptr) == s.h.(
                mem := s.h.mem[ptr - HEADER := s.h.lists[ci]],
                lists := s.h.lists[ci := ptr - HEADER],
                small := s.h.small - 1)
            case Big(n, _) =>
              KrDealloc(s.h, ptr) == s.h.(pages := FreeRun(s.h.pages, ptr - HEADER - s.h.vbase, n), big := s.h.big - 1)
  {
    var b := ptr - HEADER;
    LiveBlock(s, b);
    assert BlockOk(s, b, s.g.blocks[b]) && HeaderOk(s.h.mem, b, s.g.blocks[b]);
    hide FreeRun, Sub64, Add64;
  }

  lemma DeallocSmallKeeps(s: System, ptr: nat)
    requires Inv(s) && Live(s, ptr) && s.g.blocks[ptr - HEADER].Small?
    ensures Inv(DeallocStep(s, ptr))
  {
    FreedHeap(s, ptr);
    hide Exclusive, Provided, FreeLists, Counts, Stacked, KrDealloc, Narrows;
    var b := ptr - HEADER;
    var ci := s.g.blocks[b].ci;
    var t := DeallocStep(s, ptr);
    SetupKept(s, t);
    Relabelled(s, t);
    Pushed(s, t, ci, b);
    StackedKept(s, t);
  }

  ghost predicate InPage(s: System, p: nat, x: nat) {
    Origin(s) + p * PAGE <= x < Origin(s) + (p + 1) * PAGE
  }

  // The bytes a large block of n pages can give back: its own, and those that share its first page.
  ghost predicate GivesBack(s: System, b: nat, n: nat, x: nat) {
    b <= x < b + n * PAGE || (InSpan(s, b) && LeadByte(s, b, x))
  }

  // The i-th page_free call of a large block: the page it hits, if any.
  lemma FreedPage(s: System, b: nat, n: nat, i: nat, x: nat)
    requires Setup(s) && b >= s.h.vbase && i < n
    requires b - s.h.vbase + i * PAGE >= s.h.pages.start
    requires var p := (b - s.h.vbase + i * PAGE - s.h.pages.start) / PAGE; p < s.h.pages.count && InPage(s, p, x)
    ensures GivesBack(s, b, n, x)
  {
    var p := (b - s.h.vbase + i * PAGE - s.h.pages.start) / PAGE;
    assert (i + 1) * PAGE <= n * PAGE;
    if x < b {
      PageNoIsExact(s, p, x);
      PageNoIsExact(s, p, b);
    }
  }

  lemma {:induction false} FreedPages(s: System, b: nat, n: nat, k: nat)
    requires Setup(s) && b >= s.h.vbase && b + n * PAGE <= WRAP && k <= n
    ensures var Q := FreeRun(s.h.pages, b - s.h.vbase, k);
            && Q.start == s.h.pages.start && Q.count == s.h.pages.count && Q.Valid()
            && s.h.pages.free <= Q.free
            && forall p, x: nat | p in Q.free && p !in s.h.pages.free && InPage(s, p, x) :: GivesBack(s, b, n, x)
    decreases k
  {
    hide GivesBack, InPage;
    if k > 0 {
      FreedPages(s, b, n, k - 1);
      var a := b - s.h.vbase + (k - 1) * PAGE;
      NoWrap(b, n, k, s.h.vbase);
      if a >= s.h.pages.start {
        var p := (a - s.h.pages.start) / PAGE;
        if p < s.h.pages.count {
          forall x | InPage(s, p, x) ensures GivesBack(s, b, n, x) {
            FreedPage(s, b, n, k - 1, x);
          }
        }
      }
    }
  }

  lemma NoWrap(b: nat, n: nat, k: nat, vbase: nat)
    requires 0 < k <= n && vbase <= b && b + n * PAGE <= WRAP
    ensures (b - vbase + (k - 1) * PAGE) % WRAP == b - vbase + (k - 1) * PAGE
  {
    assert (k - 1) * PAGE < n * PAGE;
  }

  // Below a block whose release is safe, the bytes in its first page are bump space that is dead.
  lemma LeadIsDead(s: System, b: nat, x: nat)
    requires Setup(s) && BlocksOk(s) && Stacked(s) && b in s.g.blocks && s.g.blocks[b].Big?
    requires FreeIsSafe(s, b) && InSpan(s, b) && LeadByte(s, b, x)
    ensures Unowned(s, x) && InBump(s, x)
  {
    hide Unowned;
    assert BlockOk(s, b, s.g.blocks[b]);
    if PageAligned(s, b) {
      PageNoIsExact(s, PageNo(s, b), x);
      PageNoIsExact(s, PageNo(s, b), b);
      assert false;
    }
    assert EndsAt(s, s.g.below[b], b);
    assert LeadDead(s, b);
  }

  // The pages t has free over s: their bytes were the block's, or dead.
  ghost predicate Releases(s: System, t: System, b: nat) {
    && s.h.pages.free <= t.h.pages.free && t.h.pages.Valid()
    && forall p, x: nat | p in t.h.pages.free && p !in s.h.pages.free && InPage(s, p, x) ::
         Owns(s, Carved(b), x) || (Unowned(s, x) && InBump(s, x))
  }

  lemma ReleasesSafely(s: System, t: System, b: nat)
    requires Setup(s) && BlocksOk(s) && Stacked(s) && b in s.g.blocks && s.g.blocks[b].Big? && FreeIsSafe(s, b)
    requires b + s.g.blocks[b].pages * PAGE <= WRAP
    requires t.h.pages == FreeRun(s.h.pages, b - s.h.vbase, s.g.blocks[b].pages)
    ensures Releases(s, t, b)
    ensures t.h.pages.start == s.h.pages.start && t.h.pages.count == s.h.pages.count
  {
    hide Unowned, LeadByte, InPage, InSpan, InBump, Stacked, FreeIsSafe, FreeRun;
    var n := s.g.blocks[b].pages;
    assert BlockOk(s, b, s.g.blocks[b]);
    FreedPages(s, b, n, n);
    forall p, x: nat | p in t.h.pages.free && p !in s.h.pages.free && InPage(s, p, x)
      ensures Owns(s, Carved(b), x) || (Unowned(s, x) && InBump(s, x))
    {
      assert GivesBack(s, b, n, x);
      if !(b <= x < b + n * PAGE) {
        LeadIsDead(s, b, x);
      }
    }
  }

  // The freed pages take over bytes of the block, or dead ones, and nobody else's.
  lemma ReleaseToPages(s: System, t: System, b: nat)
    requires Setup(s) && Owned(s) && SameGround(s, t) && Releases(s, t, b)
    requires b in s.g.blocks && t.g.blocks == s.g.blocks - {b} && t.g.raw == s.g.raw
    requires t.h.pageNext == s.h.pageNext && t.h.extPage == s.h.extPage && t.h.extOff == s.h.extOff
    ensures Owned(t)
  {
    forall o, x | Owns(t, o, x)
      ensures if o.FreePage? && o.p !in s.h.pages.free then InPage(s, o.p, x) else Owns(s, o, x)
    {
    }
    assert Provided(t);
    forall o1, o2, x | Owns(t, o1, x) && Owns(t, o2, x) ensures o1 == o2 {
      if o1.FreePage? && o2.FreePage? {
        PageNoIsExact(s, o1.p, x);
        PageNoIsExact(s, o2.p, x);
      }
    }
  }

  lemma CarvedBelowNext(s: System, b: nat)
    requires Exclusive(s) && BlocksOk(s) && b in s.g.blocks && b < s.h.pageEnd
    ensures b < s.h.pageNext
  {
    BlockLen(s, b);
    assert b >= s.h.pageNext ==> Owns(s, Bump, b);
  }

  // A large block leaves; if it was carved off the bump region its extent is remembered.
  ghost predicate Retires(s: System, t: System, b: nat) {
    && SameGround(s, t) && b in s.g.blocks && s.g.blocks[b].Big? && Releases(s, t, b)
    && t.h.pageNext == s.h.pageNext && t.g.top == s.g.top && t.g.below == s.g.below
    && t.g.blocks == s.g.blocks - {b} && t.g.raw == s.g.raw
    && t.h.extPage == s.h.extPage && t.h.extOff == s.h.extOff
    && t.g.retired == if InBump(s, b) && b !in s.g.retired
                      then s.g.retired[b := s.g.blocks[b].pages * PAGE] else s.g.retired
  }

  lemma EndKept(s: System, t: System, b: nat, a: nat, end: nat)
    requires Retires(s, t, b) && EndsAt(s, a, end)
    ensures EndsAt(t, a, end)
    ensures a in t.g.retired && a !in s.g.retired ==> a == b && end == b + Len(s.g.blocks[b])
  {
    hide Releases;
  }

  // A byte somebody else owns keeps its page from being freed.
  lemma FreedElsewhere(s: System, t: System, b: nat, a: nat, o: Owner, p: nat, x: nat)
    requires Releases(s, t, b) && Exclusive(s) && Owns(s, o, a) && o != Carved(b)
    requires p in t.h.pages.free && p !in s.h.pages.free && InPage(s, p, x) && a >= Origin(s)
    ensures PageNo(s, x) != PageNo(s, a)
  {
    PageNoIsExact(s, p, x);
    PageNoIsExact(s, p, a);
    assert PageNo(s, a) == p ==> InPage(s, p, a);
  }

  // Dead bytes below it, or the end of the released block, have no other owner.
  lemma NobodyElse(s: System, b: nat, a: nat, o: Owner, x: nat)
    requires Exclusive(s) && BlocksOk(s) && b in s.g.blocks && s.g.blocks[b].Big? && LeadByte(s, a, x)
    requires LeadDead(s, a) || a == b + Len(s.g.blocks[b])
    ensures Owns(s, o, x) ==> o == Carved(b)
  {
    assert BlockOk(s, b, s.g.blocks[b]);
    if a == b + Len(s.g.blocks[b]) {
      assert Owns(s, Carved(b), x);
    }
  }

  lemma LeadAfter(s: System, t: System, b: nat, a: nat, o: Owner)
    requires Retires(s, t, b) && Exclusive(s) && BlocksOk(s) && Owns(s, o, a) && o != Carved(b)
    requires LeadDead(s, a) || a == b + Len(s.g.blocks[b])
    ensures LeadDead(t, a)
  {
    hide Exclusive, BlocksOk, LeadDead;
    forall x: nat | LeadByte(t, a, x) ensures Unowned(t, x) {
      assert LeadByte(s, a, x);
      forall o' ensures !Owns(t, o', x) {
        if Owns(t, o', x) {
          if o'.FreePage? && o'.p !in s.h.pages.free {
            FreedElsewhere(s, t, b, a, o, o'.p, x);
          } else {
            NobodyElse(s, b, a, o', x);
          }
        }
      }
    }
    LeadIs(t, a);
  }

  lemma LeadIs(t: System, a: nat)
    requires forall x: nat | LeadByte(t, a, x) :: Unowned(t, x)
    ensures LeadDead(t, a)
  {
  }

  lemma StackedAfterRelease(s: System, t: System, b: nat)
    requires Retires(s, t, b) && Setup(s) && Exclusive(s) && BlocksOk(s) && Stacked(s)
    ensures Stacked(t)
  {
    hide Exclusive, EndsAt, LeadDead, Releases;
    assert BlockOk(s, b, s.g.blocks[b]);
    if InBump(s, b) {
      CarvedBelowNext(s, b);
    }
    if t.h.pageNext != t.h.pageStart {
      EndKept(s, t, b, s.g.top, s.h.pageNext);
      if t.h.pageNext < t.h.pageEnd && t.g.top in t.g.retired {
        LeadAfter(s, t, b, t.h.pageNext, Bump);
      }
    }
    forall a | a in t.g.blocks && t.g.blocks[a].Big? && OffPage(t, a) && a != t.h.pageStart
      ensures a in t.g.below && EndsAt(t, t.g.below[a], a)
      ensures t.g.below[a] in t.g.retired ==> LeadDead(t, a)
    {
      EndKept(s, t, b, s.g.below[a], a);
      BlockLen(s, a);
      if t.g.below[a] in t.g.retired {
        LeadAfter(s, t, b, a, Carved(a));
      }
    }
  }

  lemma DeallocBigKeeps(s: System, ptr: nat)
    requires Inv(s) && Live(s, ptr) && s.g.blocks[ptr - HEADER].Big? && FreeIsSafe(s, ptr - HEADER)
    ensures Inv(DeallocStep(s, ptr))
  {
    var b := ptr - HEADER;
    FreedHeap(s, ptr);
    LiveBlock(s, b);
    hide Exclusive, Provided, FreeLists, Counts, Headers, Stacked, KrDealloc, FreeRun, Releases, BlocksOk;
    var t := DeallocStep(s, ptr);
    ReleasesSafely(s, t, b);
    assert t.h.pages.Valid() by {
      ValidAfter(s, t, b);
    }
    SetupKept(s, t);
    ReleaseToPages(s, t, b);
    Removed(s, t, b);
    StackedAfterRelease(s, t, b);
  }

  lemma ValidAfter(s: System, t: System, b: nat)
    requires Releases(s, t, b)
    ensures t.h.pages.Valid()
  {
  }

  lemma {:induction false} FreeRunFreesFirst(P: Pages, addr: nat, n: nat)
    requires n > 0 && addr >= P.start && addr < WRAP && (addr - P.start) / PAGE < P.count
    ensures var Q := FreeRun(P, addr, n);
            (addr - P.start) / PAGE in Q.free && Q.start == P.start && Q.count == P.count
  {
    if n > 1 {
      FreeRunFreesFirst(P, addr, n - 1);
    }
  }

  // A block off a page boundary shares its first page with the byte before it.
  lemma ByteBefore(s: System, b: nat)
    requires InSpan(s, b) && !PageAligned(s, b)
    ensures b > Origin(s) && PageNo(s, b - 1) == PageNo(s, b) < s.h.pages.count
  {
  }

  lemma UnsafePageIsTaken(s: System, t: System, b: nat)
    requires Setup(s) && BlocksOk(s) && Stacked(s) && SameGround(s, t)
    requires b in s.g.blocks && s.g.blocks[b].Big? && !FreeIsSafe(s, b)
    requires t.g.blocks == s.g.blocks - {b} && PageNo(s, b) in t.h.pages.free
    ensures !Owned(t)
  {
    assert BlockOk(s, b, s.g.blocks[b]);
    ByteBefore(s, b);
    PageNoIsExact(s, PageNo(s, b), b - 1);
    hide PageNo, PageAligned, Leads;
    var x := b - 1;
    assert Owns(t, FreePage(PageNo(s, b)), x);
    if b == s.h.pageStart {
      assert InBump(s, b) && !InGiven(s, b);
      NotProvided(s, t, b);
    } else {
      var below := s.g.below[b];
      assert EndsAt(s, below, b);
      BlockLen(s, below);
      assert Owns(t, Carved(below), x);
    }
  }

  lemma NotProvided(s: System, t: System, b: nat)
    requires Setup(s) && SameGround(s, t) && b == s.h.pageStart && InSpan(s, b) && !PageAligned(s, b)
    requires InBump(s, b)
    ensures !InBump(t, b - 1) && !InGiven(t, b - 1)
  {
    assert !InGiven(s, b);
    ByteBefore(s, b);
  }

  // Freeing a large block keeps ownership exclusive and within the memory provided exactly when the
  // block starts on a page of the span or outside the span, or lies on a large one that has been freed:
  // otherwise the page handed out has bytes of another owner, or bytes that were never provided.
  lemma BigFreeIsSafeExactly(s: System, ptr: nat)
    requires Inv(s) && Live(s, ptr) && s.g.blocks[ptr - HEADER].Big?
    ensures Owned(DeallocStep(s, ptr)) <==> FreeIsSafe(s, ptr - HEADER)
  {
    var b := ptr - HEADER;
    assert BlockOk(s, b, s.g.blocks[b]);
    if FreeIsSafe(s, b) {
      hide Exclusive, Provided, Stacked, FreeLists, Counts, DeallocStep;
      DeallocBigKeeps(s, ptr);
    } else {
      FreedHeap(s, ptr);
      LiveBlock(s, b);
      hide Exclusive, Provided, Stacked, FreeLists, Counts, KrDealloc, FreeRun;
      FreeRunFreesFirst(s.h.pages, b - s.h.vbase, s.g.blocks[b].pages);
      UnsafePageIsTaken(s, DeallocStep(s, ptr), b);
    }
  }

  lemma {:induction false} FreeRunMisses(P: Pages, addr: nat, n: nat)
    requires addr + n * PAGE <= WRAP
    ensures (forall i | 0 <= i < n :: addr + i * PAGE < P.start || addr + i * PAGE >= P.End()) ==>
              FreeRun(P, addr, n) == P
    ensures forall i | 0 <= i < n && P.start <= addr + i * PAGE < P.End() ::
              (addr + i * PAGE - P.start) / PAGE in FreeRun(P, addr, n).free
    ensures FreeRun(P, addr, n).start == P.start && FreeRun(P, addr, n).count == P.count
  {
    if n > 0 {
      FreeRunMisses(P, addr, n - 1);
      NoWrap(addr, n, n, 0);
    }
  }

  // The comment beside the loop calls it a no-op for blocks of the bump region. It is one exactly
  // when none of the addresses passed to page_free lies in the span.
  lemma BigFreeIsNoOpExactly(s: System, ptr: nat)
    requires Inv(s) && Live(s, ptr) && s.g.blocks[ptr - HEADER].Big?
    ensures var b, n := ptr - HEADER, s.g.blocks[ptr - HEADER].pages;
            DeallocStep(s, ptr).h.pages == s.h.pages
            <==> (forall i | 0 <= i < n :: !InSpan(s, b + i * PAGE))
  {
    var b, n := ptr - HEADER, s.g.blocks[ptr - HEADER].pages;
    FreedHeap(s, ptr);
    LiveBlock(s, b);
    assert DeallocStep(s, ptr).h.pages == FreeRun(s.h.pages, b - s.h.vbase, n);
    hide Inv, KrDealloc, DeallocStep, FreeRun;
    FreesOutsideSpan(s, b, n);
    if i :| 0 <= i < n && InSpan(s, b + i * PAGE) {
      FreesInsideSpan(s, b, n, i);
      OwnBytes(s, b, n, i);
      InBlockNotFree(s, b, b + i * PAGE);
    }
  }

  lemma OwnBytes(s: System, b: nat, n: nat, i: nat)
    requires Inv(s) && b in s.g.blocks && s.g.blocks[b].Big? && s.g.blocks[b].pages == n && i < n
    ensures Exclusive(s) && Owns(s, Carved(b), b + i * PAGE)
  {
    hide Exclusive, Provided, BlocksOk, Headers, FreeLists, Counts, Stacked;
    assert i * PAGE < n * PAGE;
  }

  lemma FreesOutsideSpan(s: System, b: nat, n: nat)
    requires b >= s.h.vbase && b + n * PAGE <= WRAP
    ensures (forall i | 0 <= i < n :: !InSpan(s, b + i * PAGE)) ==> FreeRun(s.h.pages, b - s.h.vbase, n) == s.h.pages
  {
    FreeRunMisses(s.h.pages, b - s.h.vbase, n);
    hide FreeRun;
    if forall i | 0 <= i < n :: !InSpan(s, b + i * PAGE) {
      forall i | 0 <= i < n
        ensures b - s.h.vbase + i * PAGE < s.h.pages.start || b - s.h.vbase + i * PAGE >= s.h.pages.End()
      {
        assert !InSpan(s, b + i * PAGE);
      }
    }
  }

  lemma FreesInsideSpan(s: System, b: nat, n: nat, i: nat)
    requires b >= s.h.vbase && b + n * PAGE <= WRAP && i < n && InSpan(s, b + i * PAGE)
    ensures PageNo(s, b + i * PAGE) in FreeRun(s.h.pages, b - s.h.vbase, n).free
  {
    FreeRunMisses(s.h.pages, b - s.h.vbase, n);
    hide FreeRun;
    assert s.h.pages.start <= b - s.h.vbase + i * PAGE < s.h.pages.End();
  }

  // No byte of a carved block lies in a free page.
  lemma InBlockNotFree(s: System, b: nat, x: nat)
    requires Exclusive(s) && Owns(s, Carved(b), x) && x >= Origin(s)
    ensures PageNo(s, x) !in s.h.pages.free
  {
    PageNoIsExact(s, PageNo(s, x), x);
    assert PageNo(s, x) in s.h.pages.free ==> Owns(s, FreePage(PageNo(s, x)), x);
  }

  // ---------------------------------------------------------------- clients

  lemma SameContents(s: System, t: System)
    requires Contents(s) && SameGround(s, t)
    requires t.g.blocks == s.g.blocks && t.g.lists == s.g.lists && t.h.lists == s.h.lists
    requires t.h.small == s.h.small && t.h.big == s.h.big
    requires forall a | a in s.g.blocks ::
               Word(t.h.mem, a) == Word(s.h.mem, a) && Word(t.h.mem, a + 8) == Word(s.h.mem, a + 8)
    ensures Contents(t)
  {
    forall a | a in t.g.blocks ensures BlockOk(t, a, t.g.blocks[a]) && HeaderOk(t.h.mem, a, t.g.blocks[a]) {
      assert BlockOk(s, a, s.g.blocks[a]) && HeaderOk(s.h.mem, a, s.g.blocks[a]);
    }
    forall k | 0 <= k < CLASS_COUNT ensures ListOk(t, k) {
      ListKept(s, t, k);
    }
  }

  lemma WriteMissesHeader(s: System, ptr: nat, off: nat, value: nat, a: nat)
    requires Exclusive(s) && BlocksOk(s) && Admissible(s, Write(ptr, off, value)) && a in s.g.blocks
    ensures a != ptr + off && a + 8 != ptr + off
  {
    BlockLen(s, a);
    hide BlocksOk;
    assert Owns(s, Carved(ptr - HEADER), ptr + off);
  }

  // A client's store into its own object reaches no header and no link.
  lemma WriteKeeps(s: System, ptr: nat, off: nat, value: nat)
    requires Inv(s) && Admissible(s, Write(ptr, off, value))
    ensures Inv(Step(s, Write(ptr, off, value)))
  {
    hide Provided, Stacked, FreeLists, Counts, Headers;
    var t := Step(s, Write(ptr, off, value));
    var b, w := ptr - HEADER, ptr + off;
    forall a | a in s.g.blocks ensures a != w && a + 8 != w {
      WriteMissesHeader(s, ptr, off, value, a);
    }
    hide Exclusive, BlocksOk;
    SetupKept(s, t);
    Relabelled(s, t);
    SameContents(s, t);
    StackedKept(s, t);
  }

  // Pages that leave the free set are in raw hands afterwards.
  lemma GrabOwned(s: System, t: System)
    requires Owned(s) && SameGround(s, t)
    requires t.g.blocks == s.g.blocks && t.h.pageNext == s.h.pageNext
    requires t.h.extPage == s.h.extPage && t.h.extOff == s.h.extOff
    requires t.h.pages.free <= s.h.pages.free && t.g.raw <= s.g.raw + (s.h.pages.free - t.h.pages.free)
    ensures Owned(t) && Narrows(s, t)
  {
    forall o, x | Owns(t, o, x)
      ensures Owns(s, if o.RawPage? && o.p !in s.g.raw then FreePage(o.p) else o, x)
    {
    }
    assert Provided(t);
  }

  lemma GrabKeeps(s: System, n: int)
    requires Inv(s)
    ensures Inv(Step(s, GrabPages(n)))
  {
    hide Exclusive, Provided, Stacked, FreeLists, Counts, Headers;
    var t := Step(s, GrabPages(n));
    if n > 0 {
      TakeRunMeaning(s.h.pages, n);
    }
    GrabOwned(s, t);
    SetupKept(s, t);
    SameContents(s, t);
    StackedKept(s, t);
  }

  lemma ReturnOwned(s: System, t: System, p: nat)
    requires Owned(s) && SameGround(s, t) && p in s.g.raw
    requires t.g.blocks == s.g.blocks && t.h.pageNext == s.h.pageNext
    requires t.h.extPage == s.h.extPage && t.h.extOff == s.h.extOff
    requires t.h.pages.free <= s.h.pages.free + {p} && t.g.raw == s.g.raw - {p}
    ensures Owned(t) && Narrows(s, t)
  {
    forall o, x | Owns(t, o, x)
      ensures Owns(s, if o == FreePage(p) && p !in s.h.pages.free then RawPage(p) else o, x)
    {
    }
    assert Provided(t);
  }

  lemma ReturnKeeps(s: System, p: nat)
    requires Inv(s) && Admissible(s, ReturnPage(p))
    ensures Inv(Step(s, ReturnPage(p)))
  {
    hide Exclusive, Provided, Stacked, FreeLists, Counts, Headers;
    var t := Step(s, ReturnPage(p));
    assert (s.h.pages.start + p * PAGE - s.h.pages.start) / PAGE == p;
    ReturnOwned(s, t, p);
    SetupKept(s, t);
    SameContents(s, t);
    StackedKept(s, t);
  }

  lemma ReserveKeeps(s: System, from: nat, size: nat)
    requires Inv(s)
    ensures Inv(Step(s, ReservePages(from, size)))
  {
    hide Inv;
    Shrunk(s, Step(s, ReservePages(from, size)));
  }

  // ---------------------------------------------------------------- initialisation of the page allocator

  // No byte of a free page lies in the bump region, and no byte of the bitmap in either.
  ghost predicate PagesClear(t: System) {
    && (forall p, x: nat | p in t.h.pages.free && InPage(t, p, x) :: !InBump(t, x) && !Owns(t, Bitmap, x))
    && (forall x | Owns(t, Bitmap, x) :: !InBump(t, x))
  }

  // The pages that initialisation makes free.
  lemma InitialGround(s: System, ranges: seq<Range>, regions: seq<Region>)
    requires s.h.pages.count == 0 && CanInit(ranges) && GoodSetUp(s.h, ranges, regions)
    ensures var t := InitStep(s, ranges, regions);
            && t.h.pages.count > 0 && t.h.pages.Valid() && ClearPages(s.h, t.h.pages) && PagesClear(t)
  {
    var t := InitStep(s, ranges, regions);
    InitialCount(ranges);
    SpanHasPages(ranges);
    ReserveAllShrinks(InitialPages(ranges), regions);
  }

  // Ranges of whole pages apart from the bump region need no reservation.
  predicate ClearRanges(h: Heap, ranges: seq<Range>) {
    forall r | r in ranges :: r.start % PAGE == 0 && Apart(h, r)
  }

  // In addressable memory, apart from the bump region.
  predicate Apart(h: Heap, r: Range) {
    && r.End() < WRAP && h.vbase + r.End() <= WRAP
    && (r.pages > 0 ==> h.vbase + r.End() <= h.pageStart || h.pageEnd <= h.vbase + r.start)
  }

  // The bitmap is as far from the bump region as its host, and clear of the free pages exactly when it
  // fits the pages marked for it, or the page behind them is not left free.
  lemma BitmapStaysClearExactly(h: Heap, ranges: seq<Range>, regions: seq<Region>)
    requires CanInit(ranges) && forall r | r in ranges :: Apart(h, r)
    ensures var P := ReserveAll(InitialPages(ranges), regions);
            ClearBitmap(h, P, BitmapAt(h.vbase, ranges)) <==> BitmapFits(ranges) || PageBehind(ranges) !in P.free
  {
    BitmapInHost(ranges);
    BitmapIsClearExactly(ranges, regions);
    ReserveAllShrinks(InitialPages(ranges), regions);
    var P := ReserveAll(InitialPages(ranges), regions);
    var b := BitmapAt(h.vbase, ranges);
    hide ReserveAll, InitialPages, BitmapFits, Host, BitmapBytes, CanInit, PageBehind;
    forall p | p in P.free
      ensures MissesPage(b, h.vbase + P.start + p * PAGE) <==> !Meets(P, p, Host(ranges).start, BitmapBytes(ranges))
    {
    }
  }

  lemma WholeRangesAreGood(h: Heap, ranges: seq<Range>)
    requires h.pageStart <= h.pageEnd && ClearRanges(h, ranges)
    ensures GoodSetUp(h, ranges, [])
  {
    if CanInit(ranges) {
      var P := InitialPages(ranges);
      EndsOfSpan(h, ranges);
      WholeRangesFit(ranges);
      BitmapStaysClearExactly(h, ranges, []);
      forall p | p in P.free
        ensures MissesRegion(h, h.vbase + P.start + p * PAGE)
      {
        assert p in Cover(ranges, MinStart(ranges));
        PageInRange(h, ranges, p);
      }
    }
  }

  lemma WholeRangesFit(ranges: seq<Range>)
    requires CanInit(ranges) && forall r | r in ranges :: r.start % PAGE == 0 && r.End() < WRAP
    ensures BitmapFits(ranges)
  {
    hide Host, BitmapBytes, StoragePages, MinStart;
    var lo, hi := ExtremesAreAttained(ranges);
    BitmapInHost(ranges);
    SizesAreLeast(ranges);
    WholeDifference(Host(ranges).start, lo.start);
  }

  lemma WholeDifference(a: nat, b: nat)
    requires a % PAGE == 0 && b % PAGE == 0
    ensures (a - b) % PAGE == 0
  {
    assert a == a / PAGE * PAGE && b == b / PAGE * PAGE;
    assert a - b == (a / PAGE - b / PAGE) * PAGE;
  }

  lemma PageInRange(h: Heap, ranges: seq<Range>, p: nat)
    requires CanInit(ranges) && ClearRanges(h, ranges) && p in Cover(ranges, MinStart(ranges))
    ensures MissesRegion(h, h.vbase + MinStart(ranges) + p * PAGE)
  {
    var lo, hi := ExtremesAreAttained(ranges);
    AlignedCoverIsExact(ranges, p);
    var i :| 0 <= i < |ranges| && Inside(MinStart(ranges), p, ranges[i]);
    assert ranges[i] in ranges;
  }

  lemma EndsOfSpan(h: Heap, ranges: seq<Range>)
    requires CanInit(ranges) && h.pageStart <= h.pageEnd
    requires forall r | r in ranges :: r.start % 16 == 0 && Apart(h, r)
    ensures var P := InitialPages(ranges);
            && P.start % 16 == 0 && h.vbase + P.End() <= WRAP
            && (h.pageEnd <= h.vbase + P.start || h.vbase + P.start <= h.pageStart)
  {
    var lo, hi := ExtremesAreAttained(ranges);
    ExtentIsProper(ranges);
  }

  // Reserving the bump region makes up for ranges off the page grid: pages that reach into it are
  // withheld. What is left to see to is the page behind the bitmap.
  lemma ReservingMakesGood(h: Heap, ranges: seq<Range>, regions: seq<Region>)
    requires h.vbase <= h.pageStart <= h.pageEnd && h.pageEnd - h.vbase < WRAP
    requires forall r | r in ranges :: r.start % 16 == 0 && Apart(h, r)
    requires Region(h.pageStart - h.vbase, h.pageEnd - h.pageStart) in regions
    ensures GoodSetUp(h, ranges, regions) <==>
            (CanInit(ranges) ==>
               BitmapFits(ranges) || PageBehind(ranges) !in ReserveAll(InitialPages(ranges), regions).free)
  {
    if CanInit(ranges) {
      EndsOfSpan(h, ranges);
      BitmapStaysClearExactly(h, ranges, regions);
      var I := InitialPages(ranges);
      ReserveAllShrinks(I, regions);
      var P := ReserveAll(I, regions);
      hide InitialPages, CanInit, ReserveAll, BitmapFits, PageBehind;
      forall p | p in P.free
        ensures MissesRegion(h, h.vbase + P.start + p * PAGE)
      {
        if h.pageStart < h.pageEnd {
          ReserveAllClears(I, regions, Region(h.pageStart - h.vbase, h.pageEnd - h.pageStart), p);
        }
      }
    }
  }

  // The caller frees its array between initialisation and reservation: for a small one, whose header
  // names a class, the order makes no difference.
  lemma ReserveCommutesWithSmallFree(s: System, ptr: nat, from: nat, size: nat)
    requires Word(s.h.mem, Sub64(ptr, HEADER)) < CLASS_COUNT
    ensures Step(Step(s, Dealloc(ptr)), ReservePages(from, size))
            == Step(Step(s, ReservePages(from, size)), Dealloc(ptr))
  {
    hide Sub64, Add64, Reserve, FreeRun;
  }

  // Before initialisation only the bump region and blocks carved off it have owners.
  lemma InitOwned(s: System, t: System)
    requires Setup(s) && Owned(s) && s.h.pages.count == 0
    requires t.h == s.h.(pages := t.h.pages) && t.g == s.g.(given := t.h.pages.free, bitmap := t.g.bitmap)
    requires PagesClear(t)
    ensures Owned(t)
    ensures forall x: nat | Unowned(s, x) && InBump(s, x) :: Unowned(t, x)
  {
    forall o, x | Owns(t, o, x)
      ensures if o.FreePage? then InPage(t, o.p, x) else o == Bitmap || (Owns(s, o, x) && InBump(s, x))
    {
      if !o.FreePage? && o != Bitmap {
        assert Owns(s, o, x);
      }
    }
    forall o, x | Owns(t, o, x) && o.FreePage? ensures PageNo(t, x) == o.p && InGiven(t, x) {
      PageNoIsExact(t, o.p, x);
    }
  }

  // Dead bytes of a block freed before there is a span stay dead when there is one.
  lemma InitLead(s: System, t: System, a: nat, r: nat)
    requires s.h.pages.count == 0 && BackToBack(s) && LeadDead(s, a) && r in s.g.retired && EndsAt(s, r, a)
    requires a <= s.h.pageEnd
    requires forall x: nat | Unowned(s, x) && InBump(s, x) :: Unowned(t, x)
    ensures LeadDead(t, a)
  {
    hide Unowned;
    forall x: nat | LeadByte(t, a, x) ensures Unowned(t, x) {
      assert LeadByte(s, a, x);
      assert InBump(s, x);
    }
  }

  // The stack of bump blocks meets the span for the first time.
  lemma InitStacked(s: System, t: System)
    requires Setup(s) && Provided(s) && BlocksOk(s) && Stacked(s) && s.h.pages.count == 0
    requires t.h == s.h.(pages := t.h.pages) && t.g == s.g.(given := t.h.pages.free, bitmap := t.g.bitmap)
    requires forall x: nat | Unowned(s, x) && InBump(s, x) :: Unowned(t, x)
    ensures Stacked(t)
  {
    hide Unowned, LeadDead;
    forall a | a in t.g.blocks && t.g.blocks[a].Big? && OffPage(t, a) && a != t.h.pageStart
      ensures a in t.g.below && EndsAt(t, t.g.below[a], a)
      ensures t.g.below[a] in t.g.retired ==> LeadDead(t, a)
    {
      assert EndsAt(s, s.g.below[a], a);
      BlockLen(s, a);
      if t.g.below[a] in t.g.retired {
        InitLead(s, t, a, s.g.below[a]);
      }
    }
    if s.h.pageStart != s.h.pageNext < s.h.pageEnd && s.g.top in s.g.retired {
      InitLead(s, t, s.h.pageNext, s.g.top);
    }
  }

  lemma InitKeeps(s: System, ranges: seq<Range>, regions: seq<Region>)
    requires Inv(s) && Admissible(s, InitPages(ranges, regions))
    ensures Inv(Step(s, InitPages(ranges, regions)))
  {
    hide Exclusive, BlocksOk, Headers, FreeLists, Counts, Stacked;
    var t := InitStep(s, ranges, regions);
    if s.h.pages.count == 0 && CanInit(ranges) {
      InitialGround(s, ranges, regions);
      assert t.h == s.h.(pages := t.h.pages) && t.g == s.g.(given := t.h.pages.free, bitmap := t.g.bitmap);
      hide InitStep, CanInit, GoodSetUp;
      InitOwned(s, t);
      InitStacked(s, t);
      InitContents(s, t);
      InitSetup(s, t);
    } else {
      ReserveAllShrinks(s.h.pages, regions);
      Shrunk(s, t);
    }
  }

  // With the bump region reserved, setting up the page allocator is safe exactly when the bitmap stays
  // clear of the page behind its own.
  lemma InitIsSafeExactly(s: System, ranges: seq<Range>, regions: seq<Region>)
    requires Inv(s) && s.h.pages.count == 0 && CanInit(ranges)
    requires forall r | r in ranges :: r.start % 16 == 0 && Apart(s.h, r)
    requires Region(s.h.pageStart - s.h.vbase, s.h.pageEnd - s.h.pageStart) in regions
    ensures var t := InitStep(s, ranges, regions);
            Owned(t) <==> BitmapFits(ranges) || PageBehind(ranges) !in t.h.pages.free
  {
    hide Exclusive, Provided, BlocksOk, Headers, FreeLists, Counts, Stacked;
    var t := InitStep(s, ranges, regions);
    if BitmapFits(ranges) || PageBehind(ranges) !in t.h.pages.free {
      ReservingMakesGood(s.h, ranges, regions);
      hide InitStep, CanInit, GoodSetUp, BitmapFits, PageBehind;
      InitKeeps(s, ranges, regions);
    } else {
      ReserveAllShrinks(InitialPages(ranges), regions);
      BitmapReaches(t, ranges);
    }
  }

  lemma BitmapReaches(t: System, ranges: seq<Range>)
    requires CanInit(ranges) && !BitmapFits(ranges) && forall r | r in ranges :: r.End() < WRAP
    requires t.h.pages.start == MinStart(ranges) && t.g.bitmap == BitmapAt(t.h.vbase, ranges)
    requires PageBehind(ranges) in t.h.pages.free
    ensures !Exclusive(t)
  {
    StorageIsCovered(ranges);
    BitmapPages(ranges, PageBehind(ranges));
    var p := PageBehind(ranges);
    hide BitmapFits;
    var x := Origin(t) + p * PAGE;
    assert Owns(t, FreePage(p), x);
    assert Owns(t, Bitmap, x);
  }

  lemma InitSetup(s: System, t: System)
    requires Setup(s) && s.h.pages.count == 0 && PagesClear(t)
    requires t.h == s.h.(pages := t.h.pages) && t.g == s.g.(given := t.h.pages.free, bitmap := t.g.bitmap)
    requires t.h.pages.count > 0 && t.h.pages.Valid() && ClearPages(s.h, t.h.pages)
    ensures Setup(t)
  {
    BumpStaysApart(t);
    hide BumpNotGiven, PagesClear, ExtensionOk;
  }

  lemma BumpStaysApart(t: System)
    requires PagesClear(t) && t.g.given == t.h.pages.free
    ensures BumpNotGiven(t)
  {
    hide InBump;
    forall x: nat | InBump(t, x) ensures !InGiven(t, x) {
      if InGiven(t, x) {
        PageNoIsExact(t, PageNo(t, x), x);
      }
    }
  }

  lemma InitContents(s: System, t: System)
    requires Setup(s) && Provided(s) && Contents(s) && s.h.pages.count == 0
    requires t.h == s.h.(pages := t.h.pages) && t.g == s.g.(given := t.h.pages.free, bitmap := t.g.bitmap)
    ensures Contents(t)
  {
    forall a | a in t.g.blocks ensures BlockOk(t, a, t.g.blocks[a]) {
      BlockLen(s, a);
      assert BlockOk(s, a, s.g.blocks[a]);
    }
    forall k | 0 <= k < CLASS_COUNT ensures ListOk(t, k) {
      ListKept(s, t, k);
    }
  }

  lemma StepKeeps(s: System, op: Op)
    requires Inv(s) && Admissible(s, op)
    ensures Inv(Step(s, op))
  {
    match op
    case Alloc(size) => AllocKeeps(s, size);
    case Dealloc(ptr) =>
      if ptr != 0 {
        if s.g.blocks[ptr - HEADER].Big? {
          DeallocBigKeeps(s, ptr);
        } else {
          DeallocSmallKeeps(s, ptr);
        }
      }
    case Write(ptr, off, value) => WriteKeeps(s, ptr, off, value);
    case GrabPages(n) => GrabKeeps(s, n);
    case ReturnPage(p) => ReturnKeeps(s, p);
    case InitPages(ranges, regions) => InitKeeps(s, ranges, regions);
    case ReservePages(from, size) => ReserveKeeps(s, from, size);
  }
}
