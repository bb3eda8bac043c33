/** Loading an ELF image: what memory holds afterwards (chapter 5, Program Loading, of the System V ABI). */
module ElfImage {
  import opened Basics

  const PT_LOAD: nat := 1
  const KERNEL_VMA_BASE: nat := 0xFFFF_8000_0000_0000
  const PAGE: nat := 4096
  const WORD: nat := 0x1_0000_0000_0000_0000

  datatype Phdr = Phdr(kind: nat, vaddr: nat, offset: nat, filesz: nat, memsz: nat)

  // load_addr: addresses in the upper half map to the physical address below them.
  function LoadAddr(vaddr: nat): nat {
    if vaddr >= KERNEL_VMA_BASE then vaddr - KERNEL_VMA_BASE else vaddr
  }

  // An address in the upper half and the one it is loaded at differ by the base, whatever it is; the
  // others are loaded where they say.
  lemma LoadAddrMeaning(vaddr: nat)
    ensures vaddr >= 0xFFFF_8000_0000_0000 ==> LoadAddr(vaddr) + 0xFFFF_8000_0000_0000 == vaddr
    ensures vaddr < 0xFFFF_8000_0000_0000 ==> LoadAddr(vaddr) == vaddr
  {
  }

  predicate Loadable(s: Phdr) {
    s.kind == PT_LOAD && s.memsz != 0
  }

  function Start(s: Phdr): nat {
    LoadAddr(s.vaddr)
  }

  // Bytes written for a segment.
  function Extent(s: Phdr): nat {
    if s.filesz > s.memsz then s.filesz else s.memsz
  }

  predicate Fits(s: Phdr, memory: nat, file: nat) {
    Loadable(s) ==> Start(s) + Extent(s) <= memory && s.offset + s.filesz <= file
  }

  predicate AllFit(segs: seq<Phdr>, memory: nat, file: nat) {
    forall s | s in segs :: Fits(s, memory, file)
  }

  predicate Covers(s: Phdr, a: nat) {
    Loadable(s) && Start(s) <= a < Start(s) + Extent(s)
  }

  // Segments do not share memory, and none has more bytes in the file than in memory.
  predicate Disjoint(segs: seq<Phdr>) {
    && (forall s | s in segs && Loadable(s) :: s.filesz <= s.memsz)
    && (forall s, t | s in segs && t in segs && Loadable(s) && Loadable(t) && s != t ::
          Start(s) + s.memsz <= Start(t) || Start(t) + t.memsz <= Start(s))
  }

  // Byte i of a segment in memory.
  function SegmentByte(s: Phdr, file: seq<Byte>, i: nat): Byte
    requires s.offset + s.filesz <= |file|
  {
    if i < s.filesz then file[s.offset + i] else 0
  }

  // Memory after one segment is written.
  function Put(mem: seq<Byte>, file: seq<Byte>, s: Phdr): (r: seq<Byte>)
    requires Fits(s, |mem|, |file|)
    ensures |r| == |mem|
  {
    seq(|mem|, (a: nat) requires Fits(s, |mem|, |file|) && a < |mem| =>
      if Covers(s, a) then SegmentByte(s, file, a - Start(s)) else mem[a])
  }

  // Memory after the segments are written in order.
  function Load(mem: seq<Byte>, file: seq<Byte>, segs: seq<Phdr>): (r: seq<Byte>)
    requires AllFit(segs, |mem|, |file|)
    ensures |r| == |mem|
    decreases |segs|
  {
    if segs == [] then mem
    else
      var last := |segs| - 1;
      Put(Load(mem, file, segs[..last]), file, segs[last])
  }

  // The segment is to be loaded, type 1, and has a byte i in memory.
  ghost predicate HasByte(s: Phdr, i: nat) {
    s.kind == 1 && i < s.memsz
  }

  // The first byte of the segment goes to physical address `start`.
  ghost predicate StartsAt(s: Phdr, start: nat) {
    s.vaddr == if s.vaddr >= 0xFFFF_8000_0000_0000 then start + 0xFFFF_8000_0000_0000 else start
  }

  // The bytes an image must hold, in terms of memory, file and header fields: byte i of every segment is
  // byte i of its part of the file, or 0 behind that part.
  ghost predicate HoldsSegments(image: seq<Byte>, file: seq<Byte>, segs: seq<Phdr>) {
    forall s, start: nat, i: nat | s in segs && HasByte(s, i) && StartsAt(s, start) ::
      && start + i < |image|
      && (i < s.filesz ==> s.offset + i < |file| && image[start + i] == file[s.offset + i])
      && (i >= s.filesz ==> image[start + i] == 0)
  }

  // No segment has a byte there.
  ghost predicate Untouched(segs: seq<Phdr>, a: nat) {
    forall s, start: nat, i: nat | s in segs && HasByte(s, i) && StartsAt(s, start) :: start + i != a
  }

  // Every byte of a segment is its file byte, or zero past the file part; every other byte of memory
  // is as before.
  lemma ImageIsExact(mem: seq<Byte>, file: seq<Byte>, segs: seq<Phdr>)
    requires AllFit(segs, |mem|, |file|) && Disjoint(segs)
    ensures HoldsSegments(Load(mem, file, segs), file, segs)
    ensures forall a | 0 <= a < |mem| && Untouched(segs, a) :: Load(mem, file, segs)[a] == mem[a]
  {
    hide HoldsSegments, Untouched;
    HoldsExactly(mem, file, segs);
    forall a | 0 <= a < |mem| && Untouched(segs, a) ensures Load(mem, file, segs)[a] == mem[a] {
      RestIsUntouched(mem, file, segs, a);
    }
  }

  lemma HoldsExactly(mem: seq<Byte>, file: seq<Byte>, segs: seq<Phdr>)
    requires AllFit(segs, |mem|, |file|) && Disjoint(segs)
    ensures HoldsSegments(Load(mem, file, segs), file, segs)
  {
    hide Disjoint, Load;
    var image := Load(mem, file, segs);
    forall s, start: nat, i: nat | s in segs && HasByte(s, i) && StartsAt(s, start)
      ensures start + i < |mem|
      ensures i < s.filesz ==> s.offset + i < |file| && image[start + i] == file[s.offset + i]
      ensures i >= s.filesz ==> image[start + i] == 0
    {
      assert Fits(s, |mem|, |file|) && Loadable(s) && Start(s) == start;
      assert Covers(s, start + i);
      BytesAreExact(mem, file, segs, start + i);
    }
  }

  lemma RestIsUntouched(mem: seq<Byte>, file: seq<Byte>, segs: seq<Phdr>, a: nat)
    requires AllFit(segs, |mem|, |file|) && Disjoint(segs) && a < |mem| && Untouched(segs, a)
    ensures Load(mem, file, segs)[a] == mem[a]
  {
    forall s | s in segs ensures !Covers(s, a) {
      assert Covers(s, a) ==> StartsAt(s, Start(s)) && HasByte(s, a - Start(s));
    }
    hide Disjoint, Untouched;
    BytesAreExact(mem, file, segs, a);
  }

  lemma {:induction false} BytesAreExact(mem: seq<Byte>, file: seq<Byte>, segs: seq<Phdr>, a: nat)
    requires AllFit(segs, |mem|, |file|) && Disjoint(segs) && a < |mem|
    ensures forall s | s in segs && Covers(s, a) :: Load(mem, file, segs)[a] == SegmentByte(s, file, a - Start(s))
    ensures (forall s | s in segs :: !Covers(s, a)) ==> Load(mem, file, segs)[a] == mem[a]
    decreases |segs|
  {
    if segs != [] {
      var init := segs[..|segs| - 1];
      assert segs == init + [segs[|segs| - 1]];
      BytesAreExact(mem, file, init, a);
    }
  }

  // The order of the program headers does not matter.
  lemma OrderIsIrrelevant(mem: seq<Byte>, file: seq<Byte>, segs: seq<Phdr>, others: seq<Phdr>)
    requires AllFit(segs, |mem|, |file|) && Disjoint(segs) && multiset(segs) == multiset(others)
    ensures AllFit(others, |mem|, |file|) && Load(mem, file, segs) == Load(mem, file, others)
  {
    forall s ensures s in segs <==> s in others {
      assert s in multiset(segs) <==> s in multiset(others);
    }
    assert Disjoint(others);
    forall a | 0 <= a < |mem| ensures Load(mem, file, segs)[a] == Load(mem, file, others)[a] {
      BytesAreExact(mem, file, segs, a);
      BytesAreExact(mem, file, others, a);
    }
  }

  // ---------------------------------------------------------------- pages

  function Lowest(segs: seq<Phdr>): nat
    decreases |segs|
  {
    if segs == [] then WORD - 1
    else
      var s, m := segs[|segs| - 1], Lowest(segs[..|segs| - 1]);
      if Loadable(s) && Start(s) < m then Start(s) else m
  }

  function Highest(segs: seq<Phdr>): nat
    decreases |segs|
  {
    if segs == [] then 0
    else
      var s, m := segs[|segs| - 1], Highest(segs[..|segs| - 1]);
      if Loadable(s) && Start(s) + s.memsz > m then Start(s) + s.memsz else m
  }

  predicate SomeLoadable(segs: seq<Phdr>) {
    exists s :: s in segs && Loadable(s)
  }

  // The two bounds are tight.
  lemma {:induction false} BoundsAreTight(segs: seq<Phdr>)
    requires forall s | s in segs && Loadable(s) :: Start(s) + s.memsz < WORD
    ensures forall s | s in segs && Loadable(s) :: Lowest(segs) <= Start(s) && Start(s) + s.memsz <= Highest(segs)
    ensures SomeLoadable(segs) ==>
              && (exists s :: s in segs && Loadable(s) && Start(s) == Lowest(segs))
              && (exists s :: s in segs && Loadable(s) && Start(s) + s.memsz == Highest(segs))
    ensures SomeLoadable(segs) <==> Lowest(segs) < Highest(segs)
    ensures !SomeLoadable(segs) ==> Lowest(segs) == WORD - 1 && Highest(segs) == 0
    decreases |segs|
  {
    if segs != [] {
      var init := segs[..|segs| - 1];
      var last := segs[|segs| - 1];
      assert segs == init + [last] && last in segs;
      BoundsAreTight(init);
      if SomeLoadable(init) {
        var l :| l in init && Loadable(l) && Start(l) == Lowest(init);
        var h :| h in init && Loadable(h) && Start(h) + h.memsz == Highest(init);
        assert l in segs && h in segs;
      }
    }
  }

  // The pages asked of the firmware: from the page of the lowest byte, as many as the length needs.
  datatype Request = Request(base: nat, pages: nat)

  function PagesFor(low: nat, high: nat): Request
    requires low <= high
  {
    Request(low - low % PAGE, (high - low + (PAGE - 1)) / PAGE)
  }

  predicate Contains(r: Request, s: Phdr) {
    r.base <= Start(s) && Start(s) + s.memsz <= r.base + r.pages * PAGE
  }

  lemma PagesReach(low: nat, high: nat)
    requires low < high
    ensures var r := PagesFor(low, high);
            r.base <= low && (high <= r.base + r.pages * PAGE <==> low % PAGE + (high - low - 1) % PAGE < PAGE)
  {
    var len := high - low;
    var q, m := (len - 1) / PAGE, (len - 1) % PAGE;
    assert (len + (PAGE - 1)) / PAGE == q + 1;
  }

  // The requested pages hold every segment exactly when the offset of the lowest byte in its page
  // plus the length of the part in the last page stay within a page: the request forgets the offset.
  lemma RequestCoversExactly(segs: seq<Phdr>)
    requires SomeLoadable(segs) && forall s | s in segs && Loadable(s) :: Start(s) + s.memsz < WORD
    ensures var low, high := Lowest(segs), Highest(segs);
            && low < high
            && ((forall s | s in segs && Loadable(s) :: Contains(PagesFor(low, high), s)) <==>
                low % PAGE + (high - low - 1) % PAGE < PAGE)
    ensures Lowest(segs) % PAGE == 0 ==>
              forall s | s in segs && Loadable(s) :: Contains(PagesFor(Lowest(segs), Highest(segs)), s)
  {
    BoundsAreTight(segs);
    var low, high := Lowest(segs), Highest(segs);
    PagesReach(low, high);
    var top :| top in segs && Loadable(top) && Start(top) + top.memsz == high;
    var r := PagesFor(low, high);
    assert Contains(r, top) <==> high <= r.base + r.pages * PAGE;
  }

  // A segment of two bytes across a page boundary: one page is requested, and its last byte lies
  // outside.
  lemma RequestFallsShort()
    ensures var s := Phdr(PT_LOAD, 0x10_0FFF, 0, 2, 2);
            && Lowest([s]) == 0x10_0FFF && Highest([s]) == 0x10_1001
            && PagesFor(0x10_0FFF, 0x10_1001) == Request(0x10_0000, 1)
            && !Contains(PagesFor(0x10_0FFF, 0x10_1001), s)
  {
    var s := Phdr(PT_LOAD, 0x10_0FFF, 0, 2, 2);
    assert [s][..0] == [];
    assert Lowest([]) == WORD - 1 && Highest([]) == 0;
  }
}

/** x86_64BL.c. */
module ElfLoader {
  import opened Basics
  import opened ElfImage

  method Memcpy(mem: array<Byte>, dst: nat, src: nat, n: nat)
    requires dst + n <= mem.Length && src + n <= mem.Length
    requires dst + n <= src || src + n <= dst
    modifies mem
    ensures forall a | 0 <= a < mem.Length ::
              mem[a] == if dst <= a < dst + n then old(mem[src + (a - dst)]) else old(mem[a])
  {
    var i := 0;
    while i < n
      invariant i <= n
      invariant forall a | 0 <= a < mem.Length ::
                  mem[a] == if dst <= a < dst + i then old(mem[src + (a - dst)]) else old(mem[a])
    {
      mem[dst + i] := mem[src + i];
      i := i + 1;
    }
  }

  method Memset(mem: array<Byte>, p: nat, v: Byte, n: nat)
    requires p + n <= mem.Length
    modifies mem
    ensures forall a | 0 <= a < mem.Length :: mem[a] == if p <= a < p + n then v else old(mem[a])
  {
    var i := 0;
    while i < n
      invariant i <= n
      invariant forall a | 0 <= a < mem.Length :: mem[a] == if p <= a < p + i then v else old(mem[a])
    {
      mem[p + i] := v;
      i := i + 1;
    }
  }

  // The file lies in memory at `data`, out of the way of every segment.
  predicate Clear(s: Phdr, data: nat, size: nat) {
    Loadable(s) ==> Start(s) + Extent(s) <= data || data + size <= Start(s)
  }

  // One pass of the second loop.
  method LoadSegment(mem: array<Byte>, data: nat, s: Phdr, ghost file: seq<Byte>)
    requires data + |file| <= mem.Length && mem[data..data + |file|] == file
    requires Fits(s, mem.Length, |file|) && Clear(s, data, |file|)
    modifies mem
    ensures mem[..] == Put(old(mem[..]), file, s) && mem[data..data + |file|] == file
  {
    ghost var before := mem[..];
    if !Loadable(s) {
      assert mem[..] == Put(before, file, s);
      return;
    }
    var dest := LoadAddr(s.vaddr);
    if s.filesz > 0 {
      Memcpy(mem, dest, data + s.offset, s.filesz);
    }
    if s.memsz > s.filesz {
      Memset(mem, dest + s.filesz, 0, s.memsz - s.filesz);
    }
    forall a | 0 <= a < mem.Length ensures mem[a] == Put(before, file, s)[a] {
      if dest <= a < dest + s.filesz {
        assert before[data + (s.offset + (a - dest))] == file[s.offset + (a - dest)];
      }
    }
    assert mem[..] == Put(before, file, s);
    assert mem[data..data + |file|] == before[data..data + |file|];
  }

  datatype Ehdr = Ehdr(entry: nat, phdrs: seq<Phdr>)

  // The first loop of load_elf: the lowest and the highest address of the image.
  method FindRange(segs: seq<Phdr>) returns (minAddr: nat, maxAddr: nat)
    ensures minAddr == Lowest(segs) && maxAddr == Highest(segs)
  {
    minAddr, maxAddr := WORD - 1, 0;
    var i := 0;
    while i < |segs|
      invariant i <= |segs| && minAddr == Lowest(segs[..i]) && maxAddr == Highest(segs[..i])
    {
      PassOne(segs, i);
      var s := segs[i];
      if Loadable(s) {
        var segStart := LoadAddr(s.vaddr);
        var segEnd := segStart + s.memsz;
        if segStart < minAddr {
          minAddr := segStart;
        }
        if segEnd > maxAddr {
          maxAddr := segEnd;
        }
      }
      i := i + 1;
    }
    assert segs[..i] == segs;
  }

  // The second loop.
  method LoadSegments(mem: array<Byte>, data: nat, segs: seq<Phdr>, ghost file: seq<Byte>)
    requires data + |file| <= mem.Length && mem[data..data + |file|] == file
    requires AllFit(segs, mem.Length, |file|) && forall s | s in segs :: Clear(s, data, |file|)
    modifies mem
    ensures mem[..] == Load(old(mem[..]), file, segs)
  {
    hide Put, Loadable;
    var i := 0;
    while i < |segs|
      invariant i <= |segs| && mem[data..data + |file|] == file
      invariant AllFit(segs[..i], mem.Length, |file|) && mem[..] == Load(old(mem[..]), file, segs[..i])
    {
      assert segs[..i + 1][..i] == segs[..i];
      LoadSegment(mem, data, segs[i], file);
      i := i + 1;
    }
    assert segs[..i] == segs;
  }

  // load_elf with its headers parsed. Physical memory ends a page short of the 64-bit address space,
  // so no sum wraps. `asked` is what is requested of the firmware, whose answer is not looked at.
  method LoadElf(mem: array<Byte>, data: nat, elf: Ehdr, ghost file: seq<Byte>)
    returns (entry: nat, asked: Option<Request>)
    requires mem.Length <= WORD - PAGE && data + |file| <= mem.Length && mem[data..data + |file|] == file
    requires AllFit(elf.phdrs, mem.Length, |file|) && forall s | s in elf.phdrs :: Clear(s, data, |file|)
    modifies mem
    ensures entry == elf.entry && mem[..] == Load(old(mem[..]), file, elf.phdrs)
    ensures Disjoint(elf.phdrs) ==> HoldsSegments(mem[..], file, elf.phdrs)
    ensures Disjoint(elf.phdrs) ==> forall a | 0 <= a < mem.Length && Untouched(elf.phdrs, a) :: mem[a] == old(mem[a])
    ensures asked.Some? <==> SomeLoadable(elf.phdrs)
    ensures asked.Some? ==> Lowest(elf.phdrs) < Highest(elf.phdrs)
                            && asked.value == PagesFor(Lowest(elf.phdrs), Highest(elf.phdrs))
  {
    var minAddr, maxAddr := FindRange(elf.phdrs);
    BoundsAreTight(elf.phdrs);
    if Disjoint(elf.phdrs) {
      ImageIsExact(mem[..], file, elf.phdrs);
    }
    hide HoldsSegments, Disjoint, Untouched;
    if maxAddr <= minAddr {
      NothingToLoad(mem[..], file, elf.phdrs);
      return elf.entry, None;
    }
    asked := Some(Request(minAddr - minAddr % PAGE, (maxAddr - minAddr + (PAGE - 1)) / PAGE));
    LoadSegments(mem, data, elf.phdrs, file);
    entry := elf.entry;
  }

  lemma PassOne(segs: seq<Phdr>, i: nat)
    requires i < |segs|
    ensures var s, low, high := segs[i], Lowest(segs[..i]), Highest(segs[..i]);
            && Lowest(segs[..i + 1]) == (if Loadable(s) && Start(s) < low then Start(s) else low)
            && Highest(segs[..i + 1]) == (if Loadable(s) && Start(s) + s.memsz > high then Start(s) + s.memsz else high)
  {
    assert segs[..i + 1][..i] == segs[..i];
  }

  lemma {:induction false} NothingToLoad(mem: seq<Byte>, file: seq<Byte>, segs: seq<Phdr>)
    requires AllFit(segs, |mem|, |file|) && !SomeLoadable(segs)
    ensures Load(mem, file, segs) == mem
    decreases |segs|
  {
    if segs != [] {
      var init := segs[..|segs| - 1];
      assert segs == init + [segs[|segs| - 1]];
      NothingToLoad(mem, file, init);
    }
  }
}
