/** The page bitmap: one bit a page, set while the page is occupied. */
module PageBitmap {
  import opened PageBits

  predicate Used(bm: seq<bv8>, p: nat)
    requires p / 8 < |bm|
  {
    Bit(bm[p / 8], p % 8)
  }

  ghost function Unused(bm: seq<bv8>, count: nat): set<nat>
    requires count <= 8 * |bm|
  {
    set p | 0 <= p < count && !Used(bm, p)
  }

  // Only bit p differs, and it is now `used`.
  ghost predicate OnlyBit(bm: seq<bv8>, bm': seq<bv8>, p: nat, used: bool) {
    && |bm'| == |bm|
    && forall q | 0 <= q < 8 * |bm| :: Used(bm', q) == if q == p then used else Used(bm, q)
  }

  ghost predicate TailUsed(bm: seq<bv8>, count: nat) {
    forall q | count <= q < 8 * |bm| :: Used(bm, q)
  }

  lemma SettingChangesOneBit(bm: seq<bv8>, p: nat)
    requires p / 8 < |bm|
    ensures OnlyBit(bm, bm[p / 8 := bm[p / 8] | Mask(p % 8)], p, true)
    ensures OnlyBit(bm, bm[p / 8 := bm[p / 8] & !Mask(p % 8)], p, false)
  {
    forall q | 0 <= q < 8 * |bm|
      ensures Used(bm[p / 8 := bm[p / 8] | Mask(p % 8)], q) == (q == p || Used(bm, q))
      ensures Used(bm[p / 8 := bm[p / 8] & !Mask(p % 8)], q) == (q != p && Used(bm, q))
    {
      if q / 8 == p / 8 {
        SetBit(bm[p / 8], p % 8, q % 8);
        ClearBit(bm[p / 8], p % 8, q % 8);
      }
    }
  }

  lemma OnlyBitAndUnused(bm: seq<bv8>, bm': seq<bv8>, p: nat, used: bool, count: nat)
    requires p < count <= 8 * |bm| && OnlyBit(bm, bm', p, used) && TailUsed(bm, count)
    ensures TailUsed(bm', count)
    ensures Unused(bm', count) == if used then Unused(bm, count) - {p} else Unused(bm, count) + {p}
  {
  }

  // The bytes of the bitmap are determined by the free pages.
  lemma UnusedDeterminesBytes(a: seq<bv8>, b: seq<bv8>, count: nat)
    requires |a| == |b| && count <= 8 * |a|
    requires TailUsed(a, count) && TailUsed(b, count)
    requires Unused(a, count) == Unused(b, count)
    ensures a == b
  {
    forall i | 0 <= i < |a| ensures a[i] == b[i] {
      forall k | 0 <= k < 8 ensures Bit(a[i], k) == Bit(b[i], k) {
        var p := 8 * i + k;
        assert p / 8 == i && p % 8 == k;
        assert p in Unused(a, count) <==> p in Unused(b, count);
        assert Used(a, p) == Used(b, p);
      }
      BitsDetermineByte(a[i], b[i]);
    }
  }
}

/** The page allocator itself, over the bitmap it keeps in place. */
module PageAllocation {
  import opened Basics
  import opened PageBits
  import opened PageBitmap
  import opened PageSpec

  class PageAllocator {
    var bitmap: array<bv8>
    var spanStart: nat
    var spanPages: nat
    var totalPages: nat
    var freePages: nat
    var inited: bool

    // The bitmap covers the span, and its spare bits beyond the last page stay set.
    ghost predicate Mapped()
      reads `bitmap, `spanStart, `spanPages, bitmap
    {
      && spanPages <= 8 * bitmap.Length
      && TailUsed(bitmap[..], spanPages)
      && spanStart + spanPages * PAGE < WRAP
    }

    ghost predicate Valid()
      reads this, bitmap
    {
      inited ==> Mapped() && spanPages > 0 && FreeCount(View()) <= freePages
    }

    ghost function Span(): Pages
      requires Mapped()
      reads `bitmap, `spanStart, `spanPages, bitmap
    {
      Pages(spanStart, spanPages, Unused(bitmap[..], spanPages))
    }

    // The abstract allocator. Before initialisation there is nothing to hand out.
    ghost function View(): Pages
      reads `inited, `bitmap, `spanStart, `spanPages, bitmap
    {
      if inited && Mapped() then Span() else Pages(0, 0, {})
    }

    // How far the running count is ahead of the pages really free.
    ghost function Drift(): int
      reads this, bitmap
    {
      freePages - FreeCount(View())
    }

    constructor ()
      ensures Valid() && !inited && fresh(bitmap)
    {
      bitmap := new bv8[0];
      spanStart, spanPages, totalPages, freePages := 0, 0, 0, 0;
      inited := false;
    }

    // page_alloc_init. Nothing happens a second time, without a non-empty range, or without a range
    // large enough to host the bitmap.
    method Init(ranges: seq<Range>)
      requires Valid() && forall r | r in ranges :: r.End() < WRAP
      modifies this
      ensures Valid()
      ensures !old(inited) && CanInit(ranges) ==>
                && inited && fresh(bitmap)
                && View() == InitialPages(ranges)
                && totalPages == SumPages(ranges)
                && freePages == SumPages(ranges) - StoragePages(ranges)
      ensures old(inited) || !CanInit(ranges) ==>
                inited == old(inited) && bitmap == old(bitmap) && View() == old(View())
    {
      if inited || ranges == [] {
        return;
      }
      var minStart, maxEnd := Extent(ranges);
      if minStart == WRAP - 1 {
        return;
      }
      ExtentIsProper(ranges);
      SpanHasPages(ranges);
      hide MinStart, MaxEnd, InitialPages, SumPages, FreeCount;
      spanStart := minStart;
      spanPages := (maxEnd - minStart) / PAGE;
      var bmBytes := (spanPages + 7) / 8;
      var bmPages := (bmBytes + PAGE - 1) / PAGE;
      var host := FindHost(ranges, bmPages);
      if host < 0 {
        return;
      }
      HostMeaning(ranges, bmPages, 0);
      MapRanges(ranges, host, bmBytes, bmPages);
      InitialCount(ranges);
      var sum := Total(ranges);
      totalPages := sum;
      freePages := sum - bmPages;
      inited := true;
    }

    // The bitmap: all pages occupied, then the ranges cleared, then its own pages set again.
    method MapRanges(ranges: seq<Range>, host: nat, bmBytes: nat, bmPages: nat)
      requires CanInit(ranges) && forall r | r in ranges :: r.End() < WRAP
      requires spanStart == MinStart(ranges) < MaxEnd(ranges) < WRAP && spanPages == SpanPages(ranges)
      requires host < |ranges| && HostIndex(ranges, StoragePages(ranges)) == Some(host)
      requires bmBytes == (spanPages + 7) / 8 && bmPages == StoragePages(ranges)
      modifies this`bitmap
      ensures Mapped() && fresh(bitmap) && Span() == InitialPages(ranges)
    {
      hide HostIndex, CanInit, MinStart, MaxEnd;
      StorageIsCovered(ranges);
      bitmap := AllOnes(bmBytes);
      assert Span().free == {};
      ClearRanges(ranges);
      RangeFitsSpan(ranges, host);
      var bmFirst := (ranges[host].start - spanStart) / PAGE;
      MarkRun(bmFirst, bmFirst + bmPages - 1);
    }

    method ClearRanges(ranges: seq<Range>)
      requires Mapped() && Span().free == {}
      requires spanStart == MinStart(ranges) && spanPages == SpanPages(ranges)
      modifies bitmap
      ensures Mapped() && Span().free == Cover(ranges, spanStart)
    {
      for i := 0 to |ranges|
        invariant Mapped() && Span().free == Cover(ranges[..i], spanStart)
      {
        var r := ranges[i];
        CoverGrows(ranges, i, spanStart);
        if r.pages > 0 {
          RangeFitsSpan(ranges, i);
          var first := (r.start - spanStart) / PAGE;
          assert PagesOf(r, spanStart) == Interval(first, r.pages);
          ClearRun(first, r.pages);
        }
      }
      assert ranges[..|ranges|] == ranges;
    }

    method ClearRun(first: nat, pages: nat)
      requires Mapped() && first + pages <= spanPages
      modifies bitmap
      ensures Mapped() && Span().free == old(Span()).free + Interval(first, pages)
    {
      for j := 0 to pages
        invariant Mapped() && Span().free == old(Span()).free + Interval(first, j)
      {
        BitClear(first + j);
      }
    }

    predicate BitGet(p: nat)
      requires p / 8 < bitmap.Length
      reads `bitmap, bitmap
    {
      Used(bitmap[..], p)
    }

    method BitSet(p: nat)
      requires Mapped() && p < spanPages
      modifies bitmap
      ensures Mapped() && Span() == old(Span()).(free := old(Span()).free - {p})
    {
      SettingChangesOneBit(bitmap[..], p);
      bitmap[p / 8] := bitmap[p / 8] | Mask(p % 8);
      assert bitmap[..] == old(bitmap[..])[p / 8 := bitmap[p / 8]];
      OnlyBitAndUnused(old(bitmap[..]), bitmap[..], p, true, spanPages);
    }

    method BitClear(p: nat)
      requires Mapped() && p < spanPages
      modifies bitmap
      ensures Mapped() && Span() == old(Span()).(free := old(Span()).free + {p})
    {
      SettingChangesOneBit(bitmap[..], p);
      bitmap[p / 8] := bitmap[p / 8] & !Mask(p % 8);
      assert bitmap[..] == old(bitmap[..])[p / 8 := bitmap[p / 8]];
      OnlyBitAndUnused(old(bitmap[..]), bitmap[..], p, false, spanPages);
    }

    // The search loop of page_alloc.
    method FindFree() returns (p: nat)
      requires Mapped()
      ensures FirstRun(Span(), 1) == if p < spanPages then Some(p) else None
    {
      ghost var P := Span();
      p := 0;
      while p < spanPages && BitGet(p)
        invariant p <= spanPages
        invariant forall q | 0 <= q < p :: q !in P.free
      {
        p := p + 1;
      }
      SingleRun(P, p);
    }

    // page_alloc: the single-page search agrees with the contiguous one for n = 1.
    method Alloc() returns (addr: nat)
      requires Valid()
      modifies this, bitmap
      ensures Valid() && bitmap == old(bitmap) && inited == old(inited)
      ensures View() == TakeRun(old(View()), 1).0 && addr == TakeRun(old(View()), 1).1
      ensures Drift() == old(Drift())
    {
      addr := 0;
      if inited {
        var p := FindFree();
        if p < spanPages {
          TakenRun(View(), 1, p);
          TakePages(p, 1);
          addr := spanStart + p * PAGE;
        }
      }
    }

    // The search loop of page_alloc_contig: `run` counts the free pages just passed. It ends at the
    // last page of the run found, or at the end of the span.
    method FindRun(pages: nat) returns (p: nat)
      requires Mapped() && pages > 0
      ensures p >= spanPages ==> FirstRun(Span(), pages) == None
      ensures p < spanPages ==> p + 1 >= pages && FirstRun(Span(), pages) == Some(p + 1 - pages)
    {
      ghost var P := Span();
      var run := 0;
      p := 0;
      while p < spanPages
        invariant p <= spanPages
        invariant Window(P, p, run, pages)
      {
        if !BitGet(p) {
          run := run + 1;
          WindowGrows(P, p, run - 1, pages);
          if run >= pages {
            return;
          }
        } else {
          WindowRestarts(P, p, run, pages);
          run := 0;
        }
        p := p + 1;
      }
      WindowEnds(P, run, pages);
    }

    method AllocContig(pages: int) returns (addr: nat)
      requires Valid()
      modifies this, bitmap
      ensures Valid() && bitmap == old(bitmap) && inited == old(inited)
      ensures View() == TakeRun(old(View()), pages).0 && addr == TakeRun(old(View()), pages).1
      ensures Drift() == old(Drift())
    {
      addr := 0;
      if inited && pages > 0 {
        var p := FindRun(pages);
        if p < spanPages {
          var first := p + 1 - pages;
          TakenRun(View(), pages, first);
          TakePages(first, pages);
          addr := spanStart + first * PAGE;
        }
      }
    }

    method TakePages(first: nat, pages: nat)
      requires Valid() && inited && pages > 0
      requires first + pages <= spanPages && Interval(first, pages) <= View().free
      modifies bitmap, `freePages
      ensures Valid()
      ensures View() == old(View()).(free := old(View()).free - Interval(first, pages))
      ensures Drift() == old(Drift())
    {
      CountAfterTaking(Span(), first, pages);
      MarkRun(first, first + pages - 1);
      freePages := freePages - pages;
    }

    method MarkRun(first: nat, last: nat)
      requires Mapped() && first <= last < spanPages
      modifies bitmap
      ensures Mapped()
      ensures Span() == old(Span()).(free := old(Span()).free - Interval(first, last + 1 - first))
    {
      ghost var P := Span();
      var j := first;
      while j <= last
        invariant first <= j <= last + 1
        invariant Mapped() && Span() == P.(free := P.free - Interval(first, j - first))
      {
        TakeOneMore(P.free, first, j);
        BitSet(j);
        j := j + 1;
      }
    }

    // page_free: the page containing the address, if the span has it.
    method Free(addr: nat)
      requires Valid()
      modifies this, bitmap
      ensures Valid() && bitmap == old(bitmap) && inited == old(inited)
      ensures View() == FreeAddr(old(View()), addr)
      ensures Drift() == old(Drift())
    {
      if !inited || addr < spanStart {
        return;
      }
      var p := (addr - spanStart) / PAGE;
      if p >= spanPages {
        return;
      }
      ghost var P := View();
      if BitGet(p) {
        CountAfterFreeing(P, p);
        BitClear(p);
        freePages := freePages + 1;
      } else {
        assert p in P.free && P.free == P.free + {p};
      }
    }

    // page_alloc_reserve clamps the interval to the span; its end is a 64-bit sum. An empty result
    // stands for the early return.
    method PagesMet(from: nat, size: nat) returns (first: nat, last: nat)
      requires Mapped() && from < WRAP && 0 < size < WRAP
      ensures first <= last <= spanPages
      ensures Reserve(Span(), from, size).free == Span().free - Interval(first, last - first)
    {
      var s := if from < spanStart then spanStart else from;
      var spanEnd := spanStart + spanPages * PAGE;
      var e := (from + size) % WRAP;
      if e > spanEnd {
        e := spanEnd;
      }
      if e <= s {
        NothingToReserve(Span(), from, size);
        return 0, 0;
      }
      first := (s - spanStart) / PAGE;
      last := (e - spanStart + PAGE - 1) / PAGE;
      ReservedPages(Span(), from, size, first, last);
      if last > spanPages {
        last := spanPages;
      }
    }

    method ReserveRange(from: nat, size: nat)
      requires Valid() && from < WRAP && size < WRAP
      modifies this, bitmap
      ensures Valid() && bitmap == old(bitmap) && inited == old(inited)
      ensures View() == Reserve(old(View()), from, size)
      ensures Drift() == old(Drift())
    {
      if !inited || size == 0 {
        NothingToReserve(View(), from, size);
        return;
      }
      var first, last := PagesMet(from, size);
      MarkFree(first, last);
    }

    method MarkOneFree(p: nat)
      requires Mapped() && p < spanPages && FreeCount(Span()) <= freePages
      modifies bitmap, `freePages
      ensures Mapped()
      ensures Span() == old(Span()).(free := old(Span()).free - {p})
      ensures freePages - FreeCount(Span()) == old(freePages - FreeCount(Span()))
    {
      if !BitGet(p) {
        assert Interval(p, 1) == {p};
        CountAfterTaking(Span(), p, 1);
        BitSet(p);
        freePages := freePages - 1;
      } else {
        assert p !in Span().free && Span().free - {p} == Span().free;
      }
    }

    // The loop of page_alloc_reserve: pages already occupied are not counted twice.
    method MarkFree(first: nat, last: nat)
      requires Valid() && inited && first <= last <= spanPages
      modifies bitmap, `freePages
      ensures Valid()
      ensures View() == old(View()).(free := old(View()).free - Interval(first, last - first))
      ensures Drift() == old(Drift())
    {
      ghost var P := View();
      var p := first;
      while p < last
        invariant first <= p <= last
        invariant Mapped() && Span() == P.(free := P.free - Interval(first, p - first))
        invariant freePages - FreeCount(Span()) == old(Drift()) >= 0
      {
        TakeOneMore(P.free, first, p);
        MarkOneFree(p);
        p := p + 1;
      }
    }
  }

  // A caller that takes a run and gives its pages back one by one, in any order and even repeatedly,
  // leaves the bytes of the bitmap and the running count as they were.
  method TakeAndReturn(a: PageAllocator, pages: nat, order: seq<nat>)
    requires a.Valid() && a.inited && pages > 0
    requires match FirstRun(a.View(), pages)
             case None => order == []
             case Some(f) => forall p :: p in order <==> f <= p < f + pages
    modifies a, a.bitmap
    ensures a.Valid() && a.bitmap == old(a.bitmap)
    ensures a.bitmap[..] == old(a.bitmap[..]) && a.freePages == old(a.freePages)
  {
    hide FirstRun, Unused, TailUsed, FreeCount;
    ghost var P := a.View();
    ghost var Q := TakeRun(P, pages).0;
    RunComesBack(P, pages, order);
    var addr := a.AllocContig(pages);
    var i := 0;
    while i < |order|
      invariant i <= |order| && a.Valid() && a.inited && a.bitmap == old(a.bitmap)
      invariant FreeAll(a.View(), order[i..]) == FreeAll(Q, order) && a.View().start == P.start
      invariant a.Drift() == old(a.Drift())
    {
      a.Free(a.spanStart + order[i] * PAGE);
      i := i + 1;
    }
    UnusedDeterminesBytes(a.bitmap[..], old(a.bitmap[..]), a.spanPages);
  }

  lemma RunComesBack(P: Pages, n: nat, order: seq<nat>)
    requires n > 0
    requires match FirstRun(P, n)
             case None => order == []
             case Some(f) => forall p :: p in order <==> f <= p < f + n
    ensures FreeAll(TakeRun(P, n).0, order) == P
  {
    if FirstRun(P, n).Some? {
      FreeingARunRestores(P, n, FirstRun(P, n).value, order);
    }
  }

  method Extent(ranges: seq<Range>) returns (minStart: nat, maxEnd: nat)
    ensures minStart == MinStart(ranges) && maxEnd == MaxEnd(ranges)
  {
    minStart, maxEnd := WRAP - 1, 0;
    for i := 0 to |ranges|
      invariant minStart == MinStart(ranges[..i]) && maxEnd == MaxEnd(ranges[..i])
    {
      var r := ranges[i];
      assert ranges[..i + 1][..i] == ranges[..i];
      if r.pages > 0 {
        if r.start < minStart {
          minStart := r.start;
        }
        if r.End() > maxEnd {
          maxEnd := r.End();
        }
      }
    }
    assert ranges[..|ranges|] == ranges;
  }

  method FindHost(ranges: seq<Range>, need: nat) returns (h: int)
    ensures match HostIndex(ranges, need)
            case None => h == -1
            case Some(i) => h == i
  {
    h := -1;
    for i := 0 to |ranges|
      invariant h == -1 && HostIndex(ranges, need) == HostIndex(ranges, need, i)
    {
      if ranges[i].pages >= need {
        return i;
      }
    }
  }

  method Total(ranges: seq<Range>) returns (sum: nat)
    ensures sum == SumPages(ranges)
  {
    sum := 0;
    for i := 0 to |ranges|
      invariant sum == SumPages(ranges[..i])
    {
      assert ranges[..i + 1][..i] == ranges[..i];
      sum := sum + ranges[i].pages;
    }
    assert ranges[..|ranges|] == ranges;
  }

  // A bitmap whose every page is occupied.
  method AllOnes(bytes: nat) returns (bm: array<bv8>)
    ensures fresh(bm) && bm.Length == bytes
    ensures TailUsed(bm[..], 0)
  {
    bm := new bv8[bytes];
    for i := 0 to bytes
      invariant forall k | 0 <= k < i :: bm[k] == 0xFF
    {
      bm[i] := 0xFF;
    }
    assert forall k | 0 <= k < 8 :: Bit(0xFF, k);
  }

  lemma CoverGrows(rs: seq<Range>, i: nat, origin: nat)
    requires i < |rs|
    ensures Cover(rs[..i + 1], origin) == Cover(rs[..i], origin) + PagesOf(rs[i], origin)
  {
    assert rs[..i + 1][..i] == rs[..i];
  }

  lemma SingleRun(P: Pages, p: nat)
    requires P.Valid() && p <= P.count && forall q | 0 <= q < p :: q !in P.free
    requires p < P.count ==> p in P.free
    ensures FirstRun(P, 1) == if p < P.count then Some(p) else None
  {
    forall g: nat | g != p ensures RunAt(P, g, 1) ==> g > p && p < P.count {
      assert g in Interval(g, 1);
    }
    assert Interval(p, 1) == {p};
    if p < P.count {
      LowestRunIsFirst(P, 1, p);
    } else {
      assert !RunAt(P, p, 1);
      NoRunIsNone(P, 1);
    }
  }

  lemma TakeOneMore(free: set<nat>, first: nat, p: nat)
    requires first <= p
    ensures free - Interval(first, p + 1 - first) == (free - Interval(first, p - first)) - {p}
  {
  }

  // What the search of page_alloc_contig knows before page p: the `run` pages below p are free, the
  // one below them is not, and no run of the wanted length ends at or below p.
  ghost predicate Window(P: Pages, p: nat, run: nat, pages: nat) {
    && run <= p && run < pages
    && FreeBelow(P, p, run)
    && NoRunBy(P, p, pages)
  }

  // The number of free pages just below p is `run`.
  ghost predicate FreeBelow(P: Pages, p: nat, run: nat)
    requires run <= p
    decreases run
  {
    if run == 0 then p == 0 || p - 1 !in P.free else p - 1 in P.free && FreeBelow(P, p - 1, run - 1)
  }

  ghost predicate NoRunBy(P: Pages, p: nat, pages: nat) {
    && (p >= pages ==> !RunAt(P, p - pages, pages))
    && (p > 0 ==> NoRunBy(P, p - 1, pages))
  }

  lemma {:induction false} FreeBelowMeaning(P: Pages, p: nat, run: nat)
    requires run <= p && FreeBelow(P, p, run)
    ensures forall q | p - run <= q < p :: q in P.free
    ensures run < p ==> p - run - 1 !in P.free
    decreases run
  {
    if run > 0 {
      FreeBelowMeaning(P, p - 1, run - 1);
    }
  }

  lemma {:induction false} NoRunByMeaning(P: Pages, p: nat, pages: nat)
    requires NoRunBy(P, p, pages)
    ensures forall g: nat | g + pages <= p :: !RunAt(P, g, pages)
  {
    if p > 0 {
      NoRunByMeaning(P, p - 1, pages);
    }
  }

  lemma WindowGrows(P: Pages, p: nat, run: nat, pages: nat)
    requires p < P.count && p in P.free && Window(P, p, run, pages)
    ensures run + 1 < pages ==> Window(P, p + 1, run + 1, pages)
    ensures run + 1 >= pages ==> run + 1 == pages && FirstRun(P, pages) == Some(p - run)
  {
    FreeBelowMeaning(P, p, run);
    if run + 1 == pages {
      NoRunByMeaning(P, p, pages);
      LowestRunIsFirst(P, pages, p - run);
    } else if p + 1 >= pages {
      assert p - run - 1 in Interval(p + 1 - pages, pages);
    }
  }

  lemma WindowRestarts(P: Pages, p: nat, run: nat, pages: nat)
    requires p !in P.free && Window(P, p, run, pages)
    ensures Window(P, p + 1, 0, pages)
  {
    if p + 1 >= pages {
      assert p in Interval(p + 1 - pages, pages);
    }
  }

  lemma WindowEnds(P: Pages, run: nat, pages: nat)
    requires Window(P, P.count, run, pages)
    ensures FirstRun(P, pages) == None
  {
    NoRunByMeaning(P, P.count, pages);
    NoRunIsNone(P, pages);
  }

  // What taking a found run does to the state and its count.
  lemma TakenRun(P: Pages, n: nat, f: nat)
    requires n > 0 && FirstRun(P, n) == Some(f)
    ensures TakeRun(P, n).0 == P.(free := P.free - Interval(f, n)) && TakeRun(P, n).1 == P.start + f * PAGE
    ensures f + n <= P.count && Interval(f, n) <= P.free
  {
    FirstRunIsLowest(P, n, 0);
  }

  // The interval page_alloc_reserve works on, clamped to the span.
  function ClampLow(P: Pages, from: nat): nat {
    if from < P.start then P.start else from
  }

  function ClampHigh(P: Pages, from: nat, size: nat): nat {
    var e := (from + size) % WRAP;
    if e > P.End() then P.End() else e
  }

  // An empty interval, or one empty after clamping, reserves nothing: it misses the span, or its
  // end has wrapped.
  lemma NothingToReserve(P: Pages, from: nat, size: nat)
    requires P.Valid() && P.End() < WRAP && from < WRAP && size < WRAP
    requires P.free == {} || size == 0 || ClampHigh(P, from, size) <= ClampLow(P, from)
    ensures Reserve(P, from, size) == P
  {
    if from + size < WRAP {
      forall p | p in P.free && size > 0 ensures !Meets(P, p, from, size) {
        assert (p + 1) * PAGE <= P.count * PAGE;
      }
    }
    assert Reserve(P, from, size).free == P.free;
  }

  lemma ReservedPages(P: Pages, from: nat, size: nat, first: nat, last: nat)
    requires P.Valid() && P.End() < WRAP && from < WRAP && 0 < size < WRAP
    requires ClampLow(P, from) < ClampHigh(P, from, size)
    requires first == (ClampLow(P, from) - P.start) / PAGE
    requires last == (ClampHigh(P, from, size) - P.start + PAGE - 1) / PAGE
    ensures first <= last <= P.count
    ensures Reserve(P, from, size) == P.(free := P.free - Interval(first, last - first))
  {
    assert from + size < WRAP;
    forall p | p in P.free
      ensures Meets(P, p, from, size) <==> first <= p < last
    {
      assert (p + 1) * PAGE <= P.count * PAGE;
    }
    assert Reserve(P, from, size).free == P.free - Interval(first, last - first);
  }
}
