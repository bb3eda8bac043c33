/** What the page allocator means: a span of 4 KiB pages and the set of those that are free. */
module PageSpec {
  import opened Basics

  const PAGE: nat := 4096
  // Addresses are 64-bit words; sums of them wrap here.
  const WRAP: nat := 0x1_0000_0000_0000_0000

  // Page p covers [start + p * PAGE, start + (p + 1) * PAGE); `free` holds page numbers.
  datatype Pages = Pages(start: nat, count: nat, free: set<nat>) {
    ghost predicate Valid() {
      forall p | p in free :: p < count
    }

    function End(): nat {
      start + count * PAGE
    }
  }

  // Page numbers first, ..., first + n - 1.
  ghost function Interval(first: nat, n: nat): set<nat> {
    set p: nat | p < first + n && InRun(p, first)
  }

  ghost predicate InRun(p: nat, first: nat) {
    first <= p
  }

  lemma {:induction false} IntervalSize(first: nat, n: nat)
    ensures |Interval(first, n)| == n
  {
    if n > 0 {
      IntervalSize(first, n - 1);
      assert Interval(first, n) == Interval(first, n - 1) + {first + n - 1};
    } else {
      assert Interval(first, n) == {};
    }
  }

  // The number of free pages, counted page by page.
  ghost function FreeCount(P: Pages): nat {
    CountBelow(P.free, P.count)
  }

  ghost function CountBelow(s: set<nat>, n: nat): nat {
    if n == 0 then 0 else CountBelow(s, n - 1) + if n - 1 in s then 1 else 0
  }

  lemma {:induction false} CountBelowIsSize(s: set<nat>, n: nat)
    ensures CountBelow(s, n) == |s * Interval(0, n)|
  {
    if n > 0 {
      CountBelowIsSize(s, n - 1);
      var front := s * Interval(0, n - 1);
      assert s * Interval(0, n) == if n - 1 in s then front + {n - 1} else front;
    }
  }

  lemma FreeCountIsSize(P: Pages)
    requires P.Valid()
    ensures FreeCount(P) == |P.free|
  {
    CountBelowIsSize(P.free, P.count);
    assert P.free * Interval(0, P.count) == P.free;
  }

  lemma CountAfterTaking(P: Pages, first: nat, n: nat)
    requires P.Valid() && Interval(first, n) <= P.free
    ensures FreeCount(P.(free := P.free - Interval(first, n))) == FreeCount(P) - n
  {
    var Q := P.(free := P.free - Interval(first, n));
    FreeCountIsSize(P);
    FreeCountIsSize(Q);
    IntervalSize(first, n);
    assert P.free == Q.free + Interval(first, n);
  }

  lemma CountAfterFreeing(P: Pages, p: nat)
    requires P.Valid() && p < P.count && p !in P.free
    ensures FreeCount(P.(free := P.free + {p})) == FreeCount(P) + 1
  {
    FreeCountIsSize(P);
    FreeCountIsSize(P.(free := P.free + {p}));
  }

  // ---------------------------------------------------------------- allocation

  ghost predicate RunAt(P: Pages, first: nat, n: nat) {
    first + n <= P.count && Interval(first, n) <= P.free
  }

  ghost function FirstRun(P: Pages, n: nat, from: nat := 0): Option<nat>
    decreases P.count - from
  {
    if from + n > P.count then None
    else if RunAt(P, from, n) then Some(from)
    else if from == P.count then None
    else FirstRun(P, n, from + 1)
  }

  // page_alloc_contig on the abstract state: the address is 0 when nothing was taken.
  ghost function TakeRun(P: Pages, n: int): (Pages, nat) {
    if n <= 0 then (P, 0)
    else match FirstRun(P, n)
      case None => (P, 0)
      case Some(first) => (P.(free := P.free - Interval(first, n)), P.start + first * PAGE)
  }

  lemma {:induction false} FirstRunIsLowest(P: Pages, n: nat, from: nat)
    requires from <= P.count
    ensures match FirstRun(P, n, from)
            case None => forall g | from <= g :: !RunAt(P, g, n)
            case Some(f) => from <= f && RunAt(P, f, n) && forall g | from <= g < f :: !RunAt(P, g, n)
    decreases P.count - from
  {
    if from + n <= P.count && !RunAt(P, from, n) && from < P.count {
      FirstRunIsLowest(P, n, from + 1);
    }
  }

  // The search is decided by its meaning: any lowest run is the one it returns.
  lemma LowestRunIsFirst(P: Pages, n: nat, f: nat)
    requires RunAt(P, f, n)
    requires forall g | 0 <= g < f :: !RunAt(P, g, n)
    ensures FirstRun(P, n) == Some(f)
  {
    FirstRunIsLowest(P, n, 0);
    assert FirstRun(P, n).Some? by {
      if FirstRun(P, n) == None {
        assert RunAt(P, f, n);
      }
    }
    assert !(FirstRun(P, n).value < f);
  }

  lemma NoRunIsNone(P: Pages, n: nat)
    requires forall g: nat :: !RunAt(P, g, n)
    ensures FirstRun(P, n) == None
  {
    FirstRunIsLowest(P, n, 0);
  }

  // Success: the lowest run leaves the free set, nothing else does. Failure: there was no run.
  lemma TakeRunMeaning(P: Pages, n: nat)
    requires n > 0 && P.Valid()
    ensures var (Q, addr) := TakeRun(P, n);
            match FirstRun(P, n)
            case None => Q == P && addr == 0 && forall g: nat :: !RunAt(P, g, n)
            case Some(f) =>
              && RunAt(P, f, n) && (forall g | 0 <= g < f :: !RunAt(P, g, n))
              && Q == P.(free := P.free - Interval(f, n)) && addr == P.start + f * PAGE
              && FreeCount(Q) == FreeCount(P) - n
  {
    FirstRunIsLowest(P, n, 0);
    if FirstRun(P, n).Some? {
      CountAfterTaking(P, FirstRun(P, n).value, n);
    }
  }

  lemma NothingForNoPages(P: Pages, n: int)
    requires n <= 0
    ensures TakeRun(P, n) == (P, 0)
  {
  }

  // 0 doubles as the failure value: it means failure exactly when page 0 of a span at address 0
  // is not what was taken.
  lemma ZeroMeansFailureExactly(P: Pages, n: nat)
    requires n > 0
    ensures (TakeRun(P, n).1 == 0 ==> TakeRun(P, n).0 == P) <==> !(P.start == 0 && RunAt(P, 0, n))
  {
    FirstRunIsLowest(P, n, 0);
    if RunAt(P, 0, n) {
      assert 0 in Interval(0, n);
    }
  }

  // ---------------------------------------------------------------- release

  ghost function FreeAddr(P: Pages, addr: nat): Pages {
    if addr < P.start then P
    else
      var p := (addr - P.start) / PAGE;
      if p >= P.count then P else P.(free := P.free + {p})
  }

  ghost function FreeAll(P: Pages, order: seq<nat>): Pages
    decreases |order|
  {
    if order == [] then P
    else FreeAll(FreeAddr(P, P.start + order[0] * PAGE), order[1..])
  }

  // Freeing an address, anywhere in a page, makes free the page of the span that holds that byte.
  lemma FreeAddrMeaning(P: Pages, addr: nat)
    requires P.Valid()
    ensures var Q := FreeAddr(P, addr);
            && Q.start == P.start && Q.count == P.count && Q.Valid()
            && forall p: nat :: p in Q.free <==>
                 p in P.free || (p < P.count && P.start + p * PAGE <= addr < P.start + (p + 1) * PAGE)
  {
    forall p: nat
      ensures P.start + p * PAGE <= addr < P.start + (p + 1) * PAGE <==> addr >= P.start && (addr - P.start) / PAGE == p
    {
    }
  }

  lemma {:induction false} FreeAllAddsThosePages(P: Pages, order: seq<nat>)
    requires forall p | p in order :: p < P.count
    ensures FreeAll(P, order) == P.(free := P.free + set p | p in order)
    decreases |order|
  {
    if order != [] {
      var Q := FreeAddr(P, P.start + order[0] * PAGE);
      assert order[0] in order && (order[0] * PAGE) / PAGE == order[0];
      assert forall p | p in order[1..] :: p in order;
      FreeAllAddsThosePages(Q, order[1..]);
      assert (set p | p in order) == {order[0]} + set p | p in order[1..];
    }
  }

  // Undoing a contiguous allocation page by page, in any order, restores the allocator.
  lemma FreeingARunRestores(P: Pages, n: nat, f: nat, order: seq<nat>)
    requires n > 0 && FirstRun(P, n) == Some(f)
    requires forall p :: p in order <==> f <= p < f + n
    ensures FreeAll(TakeRun(P, n).0, order) == P
  {
    FirstRunIsLowest(P, n, 0);
    var Q := TakeRun(P, n).0;
    FreeAllAddsThosePages(Q, order);
    assert (set p | p in order) == Interval(f, n);
    assert Q.free + Interval(f, n) == P.free;
  }

  // page_free over n consecutive page addresses, as kr_dealloc does for a large block; addresses wrap.
  ghost function FreeRun(P: Pages, addr: nat, n: nat): Pages {
    if n == 0 then P else FreeAddr(FreeRun(P, addr, n - 1), (addr + (n - 1) * PAGE) % WRAP)
  }

  // ---------------------------------------------------------------- reservation

  // Page p has a byte in [from, from + size).
  ghost predicate Meets(P: Pages, p: nat, from: nat, size: nat) {
    from < P.start + (p + 1) * PAGE && P.start + p * PAGE < from + size
  }

  // What reserving a byte interval is for.
  ghost function Withhold(P: Pages, from: nat, size: nat): Pages {
    P.(free := set p | p in P.free && !(size > 0 && Meets(P, p, from, size)))
  }

  // What the code does: an interval whose end wraps past 2^64 is taken for an empty one.
  ghost function Reserve(P: Pages, from: nat, size: nat): Pages {
    if from + size < WRAP then Withhold(P, from, size) else P
  }

  // The code meets the purpose exactly when the end of the interval does not wrap, or the
  // interval starts at or past the end of the span.
  lemma ReserveMeetsItsPurposeExactly(start: nat, count: nat, from: nat, size: nat)
    requires 0 < count && start + count * PAGE < WRAP
    ensures (forall P: Pages | P.start == start && P.count == count && P.Valid()
               :: Reserve(P, from, size) == Withhold(P, from, size))
            <==> (from + size < WRAP || from >= start + count * PAGE)
  {
    if from + size >= WRAP {
      var last := count - 1;
      var P := Pages(start, count, {last});
      assert P.Valid();
      if from < start + count * PAGE {
        assert last in Reserve(P, from, size).free;
        assert Meets(P, last, from, size);
        assert last !in Withhold(P, from, size).free;
      } else {
        forall P: Pages | P.start == start && P.count == count && P.Valid()
          ensures Reserve(P, from, size) == Withhold(P, from, size)
        {
          forall p | p in P.free ensures !Meets(P, p, from, size) {
            assert (p + 1) * PAGE <= count * PAGE;
          }
          assert Withhold(P, from, size).free == P.free;
        }
      }
    }
  }

  lemma ReserveIsIdempotentAndCommutes(P: Pages, a: nat, m: nat, b: nat, n: nat)
    ensures Reserve(Reserve(P, a, m), a, m) == Reserve(P, a, m)
    ensures Reserve(Reserve(P, a, m), b, n) == Reserve(Reserve(P, b, n), a, m)
  {
    assert Reserve(Reserve(P, a, m), a, m).free == Reserve(P, a, m).free;
    assert Reserve(Reserve(P, a, m), b, n).free == Reserve(Reserve(P, b, n), a, m).free;
  }

  datatype Region = Region(from: nat, size: nat)

  // page_alloc_reserve of one region after the other.
  ghost function ReserveAll(P: Pages, regions: seq<Region>): Pages
    decreases |regions|
  {
    if regions == [] then P else ReserveAll(Reserve(P, regions[0].from, regions[0].size), regions[1..])
  }

  lemma {:induction false} ReserveAllShrinks(P: Pages, regions: seq<Region>)
    ensures var Q := ReserveAll(P, regions); Q.start == P.start && Q.count == P.count && Q.free <= P.free
    decreases |regions|
  {
    if regions != [] {
      ReserveAllShrinks(Reserve(P, regions[0].from, regions[0].size), regions[1..]);
    }
  }

  // A page still free has no byte in any region that does not wrap.
  lemma {:induction false} ReserveAllClears(P: Pages, regions: seq<Region>, r: Region, p: nat)
    requires r in regions && r.from + r.size < WRAP && r.size > 0 && p in ReserveAll(P, regions).free
    ensures !Meets(P, p, r.from, r.size)
    decreases |regions|
  {
    var Q := Reserve(P, regions[0].from, regions[0].size);
    if r == regions[0] {
      ReserveAllShrinks(Q, regions[1..]);
    } else {
      ReserveAllClears(Q, regions[1..], r, p);
    }
  }

  // ---------------------------------------------------------------- initialisation

  // A free range of the memory map: byte address and page count.
  datatype Range = Range(start: nat, pages: nat) {
    function End(): nat {
      start + pages * PAGE
    }
  }

  // Lowest start and highest end of the non-empty ranges.
  function MinStart(rs: seq<Range>): nat {
    if rs == [] then WRAP - 1
    else
      var m, r := MinStart(rs[..|rs| - 1]), rs[|rs| - 1];
      if r.pages > 0 && r.start < m then r.start else m
  }

  function MaxEnd(rs: seq<Range>): nat {
    if rs == [] then 0
    else
      var m, r := MaxEnd(rs[..|rs| - 1]), rs[|rs| - 1];
      if r.pages > 0 && r.End() > m then r.End() else m
  }

  function SumPages(rs: seq<Range>): nat {
    if rs == [] then 0 else SumPages(rs[..|rs| - 1]) + rs[|rs| - 1].pages
  }

  // The page numbers a range covers, counted from `origin`.
  ghost function PagesOf(r: Range, origin: nat): set<nat> {
    if r.pages == 0 || r.start < origin then {} else Interval((r.start - origin) / PAGE, r.pages)
  }

  // A range covers as many pages as it has, from the one that holds its first byte.
  lemma PagesFromFirstByte(r: Range, origin: nat, p: nat)
    requires origin <= r.start
    ensures p in PagesOf(r, origin) <==>
            exists first | 0 <= first <= p ::
              && origin + first * PAGE <= r.start < origin + (first + 1) * PAGE && p < first + r.pages
  {
    var k := (r.start - origin) / PAGE;
    assert origin + k * PAGE <= r.start < origin + (k + 1) * PAGE;
  }

  ghost function Cover(rs: seq<Range>, origin: nat): set<nat> {
    if rs == [] then {} else Cover(rs[..|rs| - 1], origin) + PagesOf(rs[|rs| - 1], origin)
  }

  function HostIndex(rs: seq<Range>, need: nat, from: nat := 0): Option<nat>
    decreases |rs| - from
  {
    if from >= |rs| then None
    else if rs[from].pages >= need then Some(from)
    else HostIndex(rs, need, from + 1)
  }

  function SpanPages(rs: seq<Range>): nat {
    if MaxEnd(rs) <= MinStart(rs) then 0 else (MaxEnd(rs) - MinStart(rs)) / PAGE
  }

  function BitmapBytes(rs: seq<Range>): nat {
    (SpanPages(rs) + 7) / 8
  }

  // Pages marked occupied for the bitmap.
  function StoragePages(rs: seq<Range>): nat {
    (BitmapBytes(rs) + PAGE - 1) / PAGE
  }

  predicate CanInit(rs: seq<Range>) {
    MinStart(rs) != WRAP - 1 && HostIndex(rs, StoragePages(rs)).Some?
  }

  // The range hosting the bitmap, whose first byte is that of the bitmap.
  ghost function Host(rs: seq<Range>): Range
    requires CanInit(rs)
  {
    HostMeaning(rs, StoragePages(rs), 0);
    rs[HostIndex(rs, StoragePages(rs)).value]
  }

  ghost function Storage(rs: seq<Range>): set<nat>
    requires CanInit(rs)
  {
    PagesOf(Range(Host(rs).start, StoragePages(rs)), MinStart(rs))
  }

  // What page_alloc_init makes available: the pages of the ranges, less the bitmap's own.
  ghost function InitialPages(rs: seq<Range>): Pages
    requires CanInit(rs)
  {
    Pages(MinStart(rs), SpanPages(rs), Cover(rs, MinStart(rs)) - Storage(rs))
  }

  lemma {:induction false} HostMeaning(rs: seq<Range>, need: nat, from: nat)
    ensures match HostIndex(rs, need, from)
            case None => forall i | from <= i < |rs| :: rs[i].pages < need
            case Some(h) => from <= h < |rs| && rs[h].pages >= need && forall i | from <= i < h :: rs[i].pages < need
    decreases |rs| - from
  {
    if from < |rs| && rs[from].pages < need {
      HostMeaning(rs, need, from + 1);
    }
  }

  lemma {:induction false} SomeRangeIsNotEmpty(rs: seq<Range>)
    requires forall r | r in rs :: r.End() < WRAP
    ensures MinStart(rs) != WRAP - 1 <==> exists i | 0 <= i < |rs| :: rs[i].pages > 0
    ensures MinStart(rs) < WRAP && MaxEnd(rs) < WRAP
  {
    if rs != [] {
      var front := rs[..|rs| - 1];
      SomeRangeIsNotEmpty(front);
      assert rs[|rs| - 1] in rs;
      assert forall i | 0 <= i < |front| :: front[i] == rs[i];
    }
  }

  // Both extremes are those of a range.
  lemma {:induction false} ExtremesAreAttained(rs: seq<Range>) returns (lo: Range, hi: Range)
    requires MinStart(rs) != WRAP - 1 && forall r | r in rs :: r.End() < WRAP
    ensures lo in rs && lo.pages > 0 && lo.start == MinStart(rs)
    ensures hi in rs && hi.pages > 0 && hi.End() == MaxEnd(rs)
  {
    var front, last := rs[..|rs| - 1], rs[|rs| - 1];
    if MinStart(front) == WRAP - 1 {
      NothingToCover(front);
      lo, hi := last, last;
    } else {
      lo, hi := ExtremesAreAttained(front);
      if last.pages > 0 && last.start < MinStart(front) {
        lo := last;
      }
      if last.pages > 0 && last.End() > MaxEnd(front) {
        hi := last;
      }
    }
  }

  lemma {:induction false} NothingToCover(rs: seq<Range>)
    requires MinStart(rs) == WRAP - 1 && forall r | r in rs :: r.End() < WRAP
    ensures MaxEnd(rs) == 0
  {
    if rs != [] {
      assert rs[|rs| - 1] in rs;
      NothingToCover(rs[..|rs| - 1]);
    }
  }

  lemma ExtentIsProper(rs: seq<Range>)
    requires MinStart(rs) != WRAP - 1 && forall r | r in rs :: r.End() < WRAP
    ensures MinStart(rs) < MaxEnd(rs) < WRAP
  {
    SomeRangeIsNotEmpty(rs);
    var i :| 0 <= i < |rs| && rs[i].pages > 0;
    SpanIsTight(rs, i);
  }

  lemma SpanHasPages(rs: seq<Range>)
    requires MinStart(rs) != WRAP - 1 && forall r | r in rs :: r.End() < WRAP
    ensures SpanPages(rs) > 0
  {
    var lo, hi := ExtremesAreAttained(rs);
    var i :| 0 <= i < |rs| && rs[i] == lo;
    RangeFitsSpan(rs, i);
  }

  // Clearing bits range by range stays inside the bitmap.
  lemma RangeFitsSpan(rs: seq<Range>, i: nat)
    requires i < |rs| && rs[i].pages > 0
    ensures MinStart(rs) <= rs[i].start
    ensures (rs[i].start - MinStart(rs)) / PAGE + rs[i].pages <= SpanPages(rs)
  {
    SpanIsTight(rs, i);
    var origin := MinStart(rs);
    assert (rs[i].start - origin) / PAGE + rs[i].pages == (rs[i].start - origin + rs[i].pages * PAGE) / PAGE;
  }

  lemma StorageIsCovered(rs: seq<Range>)
    requires CanInit(rs) && forall r | r in rs :: r.End() < WRAP
    ensures Host(rs) in rs && 0 < StoragePages(rs) <= Host(rs).pages && MinStart(rs) <= Host(rs).start
    ensures Storage(rs) == Interval((Host(rs).start - MinStart(rs)) / PAGE, StoragePages(rs))
    ensures Storage(rs) <= Cover(rs, MinStart(rs))
  {
    SomeRangeIsNotEmpty(rs);
    var i :| 0 <= i < |rs| && rs[i].pages > 0;
    RangeFitsSpan(rs, i);
    HostMeaning(rs, StoragePages(rs), 0);
    var h := HostIndex(rs, StoragePages(rs)).value;
    RangeFitsSpan(rs, h);
    forall p | p in Storage(rs) ensures p in Cover(rs, MinStart(rs)) {
      assert p in PagesOf(rs[h], MinStart(rs));
      CoverMeaning(rs, MinStart(rs), p);
    }
  }

  // The span is all whole pages between the extremes, the bitmap the fewest bytes with a bit for each of
  // them, its storage the fewest pages that hold as many bytes.
  lemma SizesAreLeast(rs: seq<Range>)
    requires MinStart(rs) != WRAP - 1 && forall r | r in rs :: r.End() < WRAP
    ensures SpanPages(rs) * PAGE <= MaxEnd(rs) - MinStart(rs) < (SpanPages(rs) + 1) * PAGE
    ensures SpanPages(rs) <= 8 * BitmapBytes(rs) < SpanPages(rs) + 8
    ensures BitmapBytes(rs) <= StoragePages(rs) * PAGE < BitmapBytes(rs) + PAGE
  {
    ExtentIsProper(rs);
  }

  // The bitmap starts at the first byte of its host, the pages marked for it at the first page: with
  // the host off the page grid of the span the last bytes may lie in the page behind those.
  ghost predicate BitmapFits(rs: seq<Range>)
    requires CanInit(rs)
  {
    (Host(rs).start - MinStart(rs)) % PAGE + BitmapBytes(rs) <= StoragePages(rs) * PAGE
  }

  // The page behind those marked for the bitmap.
  ghost function PageBehind(rs: seq<Range>): nat
    requires CanInit(rs)
  {
    if Host(rs).start < MinStart(rs) then 0 else (Host(rs).start - MinStart(rs)) / PAGE + StoragePages(rs)
  }

  // The pages with a byte of the bitmap are those marked for it, and the one behind them unless the
  // bitmap fits.
  lemma BitmapPages(rs: seq<Range>, p: nat)
    requires CanInit(rs) && forall r | r in rs :: r.End() < WRAP
    ensures Meets(InitialPages(rs), p, Host(rs).start, BitmapBytes(rs)) ==>
              p in Storage(rs) || (p == PageBehind(rs) && !BitmapFits(rs))
    ensures p == PageBehind(rs) && !BitmapFits(rs) ==>
              p !in Storage(rs) && Meets(InitialPages(rs), p, Host(rs).start, BitmapBytes(rs))
  {
    StorageIsCovered(rs);
    var d := Host(rs).start - MinStart(rs);
    assert d == d / PAGE * PAGE + d % PAGE;
    hide Host, BitmapBytes, MinStart;
  }

  lemma BitmapInHost(rs: seq<Range>)
    requires CanInit(rs) && forall r | r in rs :: r.End() < WRAP
    ensures Host(rs) in rs && 0 < BitmapBytes(rs) && Host(rs).start + BitmapBytes(rs) <= Host(rs).End()
  {
    StorageIsCovered(rs);
    hide Host, BitmapBytes;
  }

  // Byte x lies in a page marked for the bitmap.
  ghost predicate IsMarked(rs: seq<Range>, x: nat)
    requires CanInit(rs)
  {
    x >= MinStart(rs) && (x - MinStart(rs)) / PAGE in Storage(rs)
  }

  // Every byte of the bitmap lies in a page marked for it exactly when it fits.
  lemma BitmapFitsExactly(rs: seq<Range>)
    requires CanInit(rs) && forall r | r in rs :: r.End() < WRAP
    ensures (forall x | Host(rs).start <= x < Host(rs).start + BitmapBytes(rs) :: IsMarked(rs, x)) <==> BitmapFits(rs)
  {
    StorageIsCovered(rs);
    BitmapInHost(rs);
    var from, n := Host(rs).start, BitmapBytes(rs);
    if BitmapFits(rs) {
      forall x | from <= x < from + n ensures IsMarked(rs, x) {
        BitmapPages(rs, (x - MinStart(rs)) / PAGE);
      }
    } else {
      BitmapPages(rs, PageBehind(rs));
      assert !IsMarked(rs, from + n - 1);
    }
  }

  // After initialisation and any reservations no free page has a byte of the bitmap exactly when the
  // bitmap fits, or the page behind its own is not left free.
  lemma BitmapIsClearExactly(rs: seq<Range>, regions: seq<Region>)
    requires CanInit(rs) && forall r | r in rs :: r.End() < WRAP
    ensures var P := ReserveAll(InitialPages(rs), regions);
            (forall p | p in P.free :: !Meets(P, p, Host(rs).start, BitmapBytes(rs)))
            <==> BitmapFits(rs) || PageBehind(rs) !in P.free
  {
    var P := ReserveAll(InitialPages(rs), regions);
    ReserveAllShrinks(InitialPages(rs), regions);
    BitmapPages(rs, PageBehind(rs));
    forall p | p in P.free && Meets(P, p, Host(rs).start, BitmapBytes(rs))
      ensures p == PageBehind(rs) && !BitmapFits(rs)
    {
      BitmapPages(rs, p);
    }
  }

  // The running count set up by page_alloc_init is never short, and it is the number of free pages
  // exactly when no two ranges share a page.
  lemma InitialCount(rs: seq<Range>)
    requires CanInit(rs) && forall r | r in rs :: r.End() < WRAP
    ensures InitialPages(rs).Valid()
    ensures FreeCount(InitialPages(rs)) <= SumPages(rs) - StoragePages(rs)
    ensures FreeCount(InitialPages(rs)) == SumPages(rs) - StoragePages(rs) <==> Separate(rs, MinStart(rs))
  {
    CoverIsInSpan(rs);
    FreeCountIsSize(InitialPages(rs));
    StorageSize(rs);
    SizeWithout(Cover(rs, MinStart(rs)), Storage(rs));
    forall r | r in rs && r.pages > 0 ensures MinStart(rs) <= r.start {
      var i :| 0 <= i < |rs| && rs[i] == r;
      SpanIsTight(rs, i);
    }
    SumCountsPagesExactly(rs, MinStart(rs));
  }

  // Two ranges with a page in common: three pages are counted as free, two are.
  lemma OverlapIsCountedTwice()
    ensures var rs := [Range(0x1000, 2), Range(0x2000, 2)];
            && CanInit(rs) && InitialPages(rs) == Pages(0x1000, 3, {1, 2})
            && SumPages(rs) - StoragePages(rs) == 3 && FreeCount(InitialPages(rs)) == 2
  {
    var a, b := Range(0x1000, 2), Range(0x2000, 2);
    var rs := [a, b];
    assert rs[..1] == [a] && [a][..0] == [];
    assert MinStart([]) == WRAP - 1 && MinStart([a]) == 0x1000 && MinStart(rs) == 0x1000;
    assert MaxEnd([]) == 0 && MaxEnd([a]) == 0x3000 && MaxEnd(rs) == 0x4000;
    assert SumPages([]) == 0 && SumPages([a]) == 2 && SumPages(rs) == 4;
    assert Cover([], 0x1000) == {};
    assert PagesOf(a, 0x1000) == Interval(0, 2) == {0, 1};
    assert PagesOf(b, 0x1000) == Interval(1, 2) == {1, 2};
    assert Cover([a], 0x1000) == {0, 1};
    assert Cover(rs, 0x1000) == {0, 1, 2};
    assert SpanPages(rs) == 3 && StoragePages(rs) == 1 && HostIndex(rs, 1) == Some(0);
    assert Storage(rs) == Interval(0, 1) == {0};
    FreeCountIsSize(InitialPages(rs));
    assert InitialPages(rs).free == {1, 2} && |{1, 2}| == 2;
  }

  lemma StorageSize(rs: seq<Range>)
    requires CanInit(rs) && forall r | r in rs :: r.End() < WRAP
    ensures Storage(rs) <= Cover(rs, MinStart(rs)) && |Storage(rs)| == StoragePages(rs)
  {
    StorageIsCovered(rs);
    IntervalSize((Host(rs).start - MinStart(rs)) / PAGE, StoragePages(rs));
  }

  lemma SizeWithout(a: set<nat>, b: set<nat>)
    requires b <= a
    ensures |a - b| == |a| - |b|
  {
    assert a == (a - b) + b;
  }

  lemma CoverIsInSpan(rs: seq<Range>)
    ensures forall p | p in Cover(rs, MinStart(rs)) :: p < SpanPages(rs)
  {
    forall p | p in Cover(rs, MinStart(rs)) ensures p < SpanPages(rs) {
      CoverMeaning(rs, MinStart(rs), p);
      var i :| 0 <= i < |rs| && p in PagesOf(rs[i], MinStart(rs));
      RangeFitsSpan(rs, i);
    }
  }

  lemma {:induction false} SpanIsTight(rs: seq<Range>, i: nat)
    requires i < |rs| && rs[i].pages > 0
    ensures MinStart(rs) <= rs[i].start && rs[i].End() <= MaxEnd(rs)
  {
    if i < |rs| - 1 {
      SpanIsTight(rs[..|rs| - 1], i);
    }
  }

  lemma {:induction false} CoverMeaning(rs: seq<Range>, origin: nat, p: nat)
    ensures p in Cover(rs, origin) <==> exists i | 0 <= i < |rs| :: p in PagesOf(rs[i], origin)
  {
    if rs != [] {
      var front := rs[..|rs| - 1];
      CoverMeaning(front, origin, p);
      assert forall i | 0 <= i < |front| :: front[i] == rs[i];
    }
  }

  // Page p lies wholly inside the range r.
  ghost predicate Inside(origin: nat, p: nat, r: Range) {
    r.start <= origin + p * PAGE && origin + (p + 1) * PAGE <= r.End()
  }

  // With page-aligned ranges a page is covered exactly when it lies wholly inside a range: holes
  // between ranges stay occupied.
  lemma AlignedCoverIsExact(rs: seq<Range>, p: nat)
    requires forall r | r in rs :: r.start % PAGE == MinStart(rs) % PAGE
    ensures p in Cover(rs, MinStart(rs)) <==> exists i | 0 <= i < |rs| :: Inside(MinStart(rs), p, rs[i])
  {
    var origin := MinStart(rs);
    CoverMeaning(rs, origin, p);
    forall i | 0 <= i < |rs| ensures p in PagesOf(rs[i], origin) <==> Inside(origin, p, rs[i]) {
      assert rs[i] in rs;
      if rs[i].pages > 0 {
        SpanIsTight(rs, i);
        AlignedRangeIsExact(origin, p, rs[i]);
      }
    }
  }

  lemma AlignedRangeIsExact(origin: nat, p: nat, r: Range)
    requires origin <= r.start && r.start % PAGE == origin % PAGE
    ensures p in PagesOf(r, origin) <==> Inside(origin, p, r)
  {
    var k := (r.start - origin) / PAGE;
    assert r.start == origin + k * PAGE;
  }

  lemma DisjointUnionSize(a: set<nat>, b: set<nat>)
    ensures |a + b| <= |a| + |b|
    ensures |a + b| == |a| + |b| <==> a !! b
  {
    assert a + b == a + (b - a);
    assert |a + (b - a)| == |a| + |b - a|;
    assert b == (b - a) + (b * a);
    assert |b| == |b - a| + |b * a|;
  }

  ghost predicate Separate(rs: seq<Range>, origin: nat) {
    forall i, j | 0 <= i < j < |rs| :: PagesOf(rs[i], origin) !! PagesOf(rs[j], origin)
  }

  lemma SeparateFromCover(rs: seq<Range>, origin: nat, b: set<nat>)
    ensures Cover(rs, origin) !! b <==> forall i | 0 <= i < |rs| :: PagesOf(rs[i], origin) !! b
  {
    forall p ensures p in Cover(rs, origin) <==> exists i | 0 <= i < |rs| :: p in PagesOf(rs[i], origin) {
      CoverMeaning(rs, origin, p);
    }
  }

  // The count that page_alloc_init sums up is the number of pages it frees exactly when no two
  // ranges cover a common page.
  lemma {:induction false} SumCountsPagesExactly(rs: seq<Range>, origin: nat)
    requires forall r | r in rs && r.pages > 0 :: origin <= r.start
    ensures SumPages(rs) >= |Cover(rs, origin)|
    ensures SumPages(rs) == |Cover(rs, origin)| <==> Separate(rs, origin)
  {
    if rs != [] {
      var front, last := rs[..|rs| - 1], rs[|rs| - 1];
      SumCountsPagesExactly(front, origin);
      if origin <= last.start {
        IntervalSize((last.start - origin) / PAGE, last.pages);
      }
      DisjointUnionSize(Cover(front, origin), PagesOf(last, origin));
      SeparateFromCover(front, origin, PagesOf(last, origin));
      SeparateSplits(rs, origin);
    }
  }

  lemma SeparateSplits(rs: seq<Range>, origin: nat)
    requires rs != []
    ensures var front, b := rs[..|rs| - 1], PagesOf(rs[|rs| - 1], origin);
            Separate(rs, origin)
            <==> Separate(front, origin) && forall i | 0 <= i < |front| :: PagesOf(front[i], origin) !! b
  {
    var front := rs[..|rs| - 1];
    if Separate(rs, origin) {
      forall i, j | 0 <= i < j < |front| ensures PagesOf(front[i], origin) !! PagesOf(front[j], origin) {
        assert front[i] == rs[i] && front[j] == rs[j];
      }
    }
    var b := PagesOf(rs[|rs| - 1], origin);
    if Separate(front, origin) && forall i | 0 <= i < |front| :: PagesOf(front[i], origin) !! b {
      forall i, j | 0 <= i < j < |rs| ensures PagesOf(rs[i], origin) !! PagesOf(rs[j], origin) {
        assert front[i] == rs[i];
        if j < |front| {
          assert front[j] == rs[j];
        }
      }
    }
  }

  lemma DisjointBytesAreDisjointPages(origin: nat, a: Range, b: Range)
    requires a.End() <= b.start
    ensures PagesOf(a, origin) !! PagesOf(b, origin)
  {
    if a.pages > 0 && b.pages > 0 && origin <= a.start {
      assert (a.start - origin) / PAGE + a.pages == (a.start - origin + a.pages * PAGE) / PAGE;
    }
  }
}
