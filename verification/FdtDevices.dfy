/** Which nodes of a devicetree the scan takes its addresses from, by what their properties say. */
module FdtDevices {
  import opened Basics
  import opened FdtModel
  import opened FdtReference

  // A node as the reading by whole nodes sees it: its name, its properties, and how many cells its
  // address has.
  datatype Node = Node(name: seq<Byte>, facts: Facts, width: nat)

  // All nodes in preorder, down to the depth of the tables.
  function Nodes(rule: Rule, b: seq<Byte>, strings: nat, t: Items, depth: nat, width: nat): seq<Node>
    decreases t
  {
    match t
    case Done => []
    case Nop(next) => Nodes(rule, b, strings, next, depth, width)
    case Prop(_, _, next) => Nodes(rule, b, strings, next, depth, width)
    case Child(name, body, next) =>
      (if depth + 1 >= MAX_DEPTH then []
       else
         var f := FactsOf(b, strings, body);
         [Node(name, f, width)] + Nodes(rule, b, strings, body, depth + 1, Word(f.cells, Unstated(rule, width))))
      + Nodes(rule, b, strings, next, depth, width)
  }

  function Fold(rule: Rule, ns: seq<Node>, g: Globals): Globals
    decreases |ns|
  {
    if ns == [] then g
    else
      var n := ns[|ns| - 1];
      Contribute(rule, n.facts, IsCpus(n.name), n.width, Fold(rule, ns[..|ns| - 1], g))
  }

  lemma {:induction false} FoldSplits(rule: Rule, ms: seq<Node>, ns: seq<Node>, g: Globals)
    ensures Fold(rule, ms + ns, g) == Fold(rule, ns, Fold(rule, ms, g))
    decreases |ns|
  {
    hide Contribute, IsCpus;
    if ns == [] {
      assert ms + ns == ms;
    } else {
      FoldSplits(rule, ms, ns[..|ns| - 1], g);
      assert (ms + ns)[..|ms + ns| - 1] == ms + ns[..|ns| - 1];
    }
  }

  lemma FoldsInParts(rule: Rule, n: Node, inner: seq<Node>, rest: seq<Node>, g: Globals)
    ensures var g1 := Contribute(rule, n.facts, IsCpus(n.name), n.width, g);
            Fold(rule, [n] + inner + rest, g) == Fold(rule, rest, Fold(rule, inner, g1))
  {
    hide Contribute, IsCpus;
    assert [n][..0] == [];
    assert Fold(rule, [n], g) == Contribute(rule, n.facts, IsCpus(n.name), n.width, g);
    FoldSplits(rule, [n], inner, g);
    FoldSplits(rule, [n] + inner, rest, g);
  }

  // The reading by whole nodes goes over these nodes one by one.
  lemma {:induction false} ReferenceIsFold(rule: Rule, b: seq<Byte>, strings: nat, t: Items, depth: nat,
                                           width: nat, g: Globals)
    ensures Reference(rule, b, strings, t, depth, width, g) == Fold(rule, Nodes(rule, b, strings, t, depth, width), g)
    decreases t
  {
    hide Contribute, IsCpus, FactsOf, Word;
    match t
    case Done =>
    case Nop(next) => ReferenceIsFold(rule, b, strings, next, depth, width, g);
    case Prop(_, _, next) => ReferenceIsFold(rule, b, strings, next, depth, width, g);
    case Child(name, body, next) =>
      var rest := Nodes(rule, b, strings, next, depth, width);
      if depth + 1 >= MAX_DEPTH {
        assert [] + rest == rest;
        ReferenceIsFold(rule, b, strings, next, depth, width, g);
      } else {
        var f := FactsOf(b, strings, body);
        var own := Word(f.cells, Unstated(rule, width));
        var inner := Nodes(rule, b, strings, body, depth + 1, own);
        var g1 := Contribute(rule, f, IsCpus(name), width, g);
        FoldsInParts(rule, Node(name, f, width), inner, rest, g);
        ReferenceIsFold(rule, b, strings, body, depth + 1, own, g1);
        ReferenceIsFold(rule, b, strings, next, depth, width, Fold(rule, inner, g1));
      }
  }

  // ---------------------------------------------------------------- what a node is

  predicate Holds(n: Node, s: string) {
    n.facts.compatible.Some? && Ascii(s) in Strings(n.facts.compatible.value)
  }

  function AddressOf(rule: Rule, n: Node): nat {
    if n.facts.reg == None then 0 else AddressBy(rule, n.facts.reg.value, n.width)
  }

  predicate IsUart(n: Node) {
    Holds(n, "ns16550a") || Holds(n, "snps,dw-apb-uart")
  }

  // A UART with an address stands before position k.
  ghost predicate UartBefore(rule: Rule, ns: seq<Node>, k: nat) {
    exists i | 0 <= i < k :: i < |ns| && IsUart(ns[i]) && AddressOf(rule, ns[i]) != 0
  }

  // A node is taken for a UART first, while none with an address has been seen, then for a PLIC, then for
  // a PCIe host.
  ghost predicate IsPlic(rule: Rule, ns: seq<Node>, k: nat)
    requires k < |ns|
  {
    Holds(ns[k], "riscv,plic0") && !(IsUart(ns[k]) && !UartBefore(rule, ns, k))
  }

  ghost predicate PlicBefore(rule: Rule, ns: seq<Node>, k: nat) {
    exists i | 0 <= i < k :: i < |ns| && IsPlic(rule, ns, i) && AddressOf(rule, ns[i]) != 0
  }

  ghost predicate IsPcie(rule: Rule, ns: seq<Node>, k: nat)
    requires k < |ns|
  {
    && Holds(ns[k], "pci-host-ecam-generic")
    && !(IsUart(ns[k]) && !UartBefore(rule, ns, k))
    && !(IsPlic(rule, ns, k) && !PlicBefore(rule, ns, k))
  }

  ghost predicate PcieBefore(rule: Rule, ns: seq<Node>, k: nat) {
    exists i | 0 <= i < k :: i < |ns| && IsPcie(rule, ns, i) && AddressOf(rule, ns[i]) != 0
  }

  // Its reg-shift, 0 without one of four bytes, as a signed 32-bit number widened to 64 bits.
  ghost predicate ShiftIs(n: Node, shift: nat) {
    if n.facts.shift.Some? && |n.facts.shift.value| == 4 then
      var v := BigNum(n.facts.shift.value, 1);
      shift == if v < 0x8000_0000 then v else v + 0xFFFF_FFFF_0000_0000
    else shift == 0
  }

  // "cpus", or that followed by '@' or ':'.
  predicate IsCpusNode(n: Node) {
    n.name == Ascii("cpus") || Ascii("cpus@") <= n.name || Ascii("cpus:") <= n.name
  }

  predicate StatesTimebase(n: Node) {
    IsCpusNode(n) && n.facts.timebase.Some? && |n.facts.timebase.value| == 4
  }

  // ---------------------------------------------------------------- what the globals are

  // The base of a kind of device is the address of its first node that has one.
  ghost predicate UartIs(rule: Rule, ns: seq<Node>, k: nat, g: Globals) {
    && (g.uart != 0 <==> UartBefore(rule, ns, k))
    && forall j | 0 <= j < k && j < |ns| && IsUart(ns[j]) && AddressOf(rule, ns[j]) != 0 && !UartBefore(rule, ns, j) ::
         g.uart == AddressOf(rule, ns[j]) && ShiftIs(ns[j], g.shift)
  }

  ghost predicate PlicIs(rule: Rule, ns: seq<Node>, k: nat, g: Globals) {
    && (g.plic != 0 <==> PlicBefore(rule, ns, k))
    && forall j | 0 <= j < k && j < |ns| && IsPlic(rule, ns, j) && AddressOf(rule, ns[j]) != 0
                  && !PlicBefore(rule, ns, j) ::
         g.plic == AddressOf(rule, ns[j])
  }

  ghost predicate PcieIs(rule: Rule, ns: seq<Node>, k: nat, g: Globals) {
    && (g.pcie != 0 <==> PcieBefore(rule, ns, k))
    && forall j | 0 <= j < k && j < |ns| && IsPcie(rule, ns, j) && AddressOf(rule, ns[j]) != 0
                  && !PcieBefore(rule, ns, j) ::
         g.pcie == AddressOf(rule, ns[j])
  }

  // The timebase is that of the last cpus node that states one.
  ghost predicate TimebaseIs(ns: seq<Node>, k: nat, g: Globals) {
    && ((forall j | 0 <= j < k && j < |ns| :: !StatesTimebase(ns[j])) ==> g.timebase == 0)
    && forall j | 0 <= j < k && j < |ns| && StatesTimebase(ns[j])
                  && (forall i | j < i < k && i < |ns| :: !StatesTimebase(ns[i])) ::
         g.timebase == BigNum(ns[j].facts.timebase.value, 1)
  }

  ghost predicate DevicesAre(rule: Rule, ns: seq<Node>, k: nat, g: Globals) {
    UartIs(rule, ns, k, g) && PlicIs(rule, ns, k, g) && PcieIs(rule, ns, k, g) && TimebaseIs(ns, k, g)
  }

  lemma CpusByName(name: seq<Byte>)
    ensures IsCpus(name) <==> name == Ascii("cpus") || Ascii("cpus@") <= name || Ascii("cpus:") <= name
  {
    var c, a, d := Ascii("cpus"), Ascii("cpus@"), Ascii("cpus:");
    assert a == c + Ascii("@") && d == c + Ascii(":") && |c| == 4;
    assert Ascii("@:") == Ascii("@") + Ascii(":");
    if |name| >= 5 && name[..4] == c {
      assert name[..5] == c + [name[4]];
    }
  }

  lemma OneCell(data: seq<Byte>)
    requires |data| == 4
    ensures BigNum(data, 1) == Be32(data, 0)
  {
  }

  lemma ShiftOf(n: Node)
    ensures ShiftIs(n, Widened(FdtReference.Word(n.facts.shift, 0)))
  {
    if n.facts.shift.Some? && |n.facts.shift.value| == 4 {
      OneCell(n.facts.shift.value);
    }
  }

  // What one more node adds to what is recorded.
  lemma KindByStrings(rule: Rule, ns: seq<Node>, k: nat, g: Globals)
    requires k < |ns| && UartIs(rule, ns, k, g) && PlicIs(rule, ns, k, g) && PcieIs(rule, ns, k, g)
    ensures KindOf(ns[k].facts, g) == Uart <==> IsUart(ns[k]) && !UartBefore(rule, ns, k)
    ensures KindOf(ns[k].facts, g) == Plic <==> IsPlic(rule, ns, k) && !PlicBefore(rule, ns, k)
    ensures KindOf(ns[k].facts, g) == Pcie <==> IsPcie(rule, ns, k) && !PcieBefore(rule, ns, k)
  {
    hide Strings, Ascii, UartBefore, PlicBefore, PcieBefore;
  }

  lemma Before(rule: Rule, ns: seq<Node>, k: nat)
    requires k < |ns|
    ensures UartBefore(rule, ns, k + 1) <==> UartBefore(rule, ns, k) || (IsUart(ns[k]) && AddressOf(rule, ns[k]) != 0)
    ensures PlicBefore(rule, ns, k + 1) <==>
            PlicBefore(rule, ns, k) || (IsPlic(rule, ns, k) && AddressOf(rule, ns[k]) != 0)
    ensures PcieBefore(rule, ns, k + 1) <==>
            PcieBefore(rule, ns, k) || (IsPcie(rule, ns, k) && AddressOf(rule, ns[k]) != 0)
  {
    hide IsUart, IsPlic, IsPcie, AddressOf;
  }

  lemma OneMoreUart(rule: Rule, ns: seq<Node>, k: nat, g: Globals, h: Globals)
    requires k < |ns| && UartIs(rule, ns, k, g)
    requires var here := IsUart(ns[k]) && !UartBefore(rule, ns, k);
             && h.uart == (if here then AddressOf(rule, ns[k]) else g.uart)
             && (if here then ShiftIs(ns[k], h.shift) else h.shift == g.shift)
    ensures UartIs(rule, ns, k + 1, h)
  {
    Before(rule, ns, k);
    hide IsUart, UartBefore, AddressOf, ShiftIs;
  }

  lemma OneMorePlic(rule: Rule, ns: seq<Node>, k: nat, g: Globals, h: Globals)
    requires k < |ns| && PlicIs(rule, ns, k, g)
    requires h.plic == if IsPlic(rule, ns, k) && !PlicBefore(rule, ns, k) then AddressOf(rule, ns[k]) else g.plic
    ensures PlicIs(rule, ns, k + 1, h)
  {
    Before(rule, ns, k);
    hide IsPlic, PlicBefore, AddressOf;
  }

  lemma OneMorePcie(rule: Rule, ns: seq<Node>, k: nat, g: Globals, h: Globals)
    requires k < |ns| && PcieIs(rule, ns, k, g)
    requires h.pcie == if IsPcie(rule, ns, k) && !PcieBefore(rule, ns, k) then AddressOf(rule, ns[k]) else g.pcie
    ensures PcieIs(rule, ns, k + 1, h)
  {
    Before(rule, ns, k);
    hide IsPcie, PcieBefore, AddressOf;
  }

  lemma OneMoreTimebase(ns: seq<Node>, k: nat, g: Globals, h: Globals)
    requires k < |ns| && TimebaseIs(ns, k, g)
    requires h.timebase == if StatesTimebase(ns[k]) then BigNum(ns[k].facts.timebase.value, 1) else g.timebase
    ensures TimebaseIs(ns, k + 1, h)
  {
    hide StatesTimebase, BigNum;
  }

  lemma OneMoreNode(rule: Rule, ns: seq<Node>, k: nat, g: Globals)
    requires k < |ns| && DevicesAre(rule, ns, k, g)
    ensures var n := ns[k];
            DevicesAre(rule, ns, k + 1, Contribute(rule, n.facts, IsCpus(n.name), n.width, g))
  {
    hide KindOf, IsUart, IsPlic, IsPcie, UartBefore, PlicBefore, PcieBefore, AddressBy, ShiftIs, Widened, IsCpus;
    hide BigNum, Be32, Ascii, UartIs, PlicIs, PcieIs, TimebaseIs, FdtReference.Word;
    var n := ns[k];
    var h := Contribute(rule, n.facts, IsCpus(n.name), n.width, g);
    KindByStrings(rule, ns, k, g);
    ShiftOf(n);
    CpusByName(n.name);
    if n.facts.timebase.Some? && |n.facts.timebase.value| == 4 {
      OneCell(n.facts.timebase.value);
    }
    OneMoreUart(rule, ns, k, g, h);
    OneMorePlic(rule, ns, k, g, h);
    OneMorePcie(rule, ns, k, g, h);
    OneMoreTimebase(ns, k, g, h);
  }

  lemma {:induction false} DevicesInOrder(rule: Rule, ns: seq<Node>, k: nat)
    requires k <= |ns|
    ensures DevicesAre(rule, ns, k, Fold(rule, ns[..k], NOTHING))
    decreases k
  {
    if k > 0 {
      DevicesInOrder(rule, ns, k - 1);
      OneMoreNode(rule, ns, k - 1, Fold(rule, ns[..k - 1], NOTHING));
      hide DevicesAre, Contribute, IsCpus;
      assert ns[..k][..k - 1] == ns[..k - 1];
    }
  }

  // What a scan leaves recorded, by the strings, names and numbers in the tree.
  lemma DevicesFound(rule: Rule, b: seq<Byte>, strings: nat, t: Items)
    requires NoProps(t) && Neat(rule, b, strings, t, 2, 2, 2)
    ensures var ns := Nodes(rule, b, strings, t, 0, 2);
            DevicesAre(rule, ns, |ns|, Walk(b, strings, t, 0, AT_ROOT, NOTHING))
  {
    hide DevicesAre, Walk, Reference, Nodes, Neat, Fold;
    var ns := Nodes(rule, b, strings, t, 0, 2);
    WalkIsReference(rule, b, strings, t);
    ReferenceIsFold(rule, b, strings, t, 0, 2, NOTHING);
    DevicesInOrder(rule, ns, |ns|);
    assert ns[..|ns|] == ns;
  }
}

/** fdt_init: the header, then the scan. */
module FdtInit {
  import opened Basics
  import opened FdtModel
  import opened FdtScan
  import opened FdtReference
  import opened FdtDevices

  const MAGIC: nat := 0xd00d_feed

  // The block at address 0 of blob is accepted and holds the tree t.
  predicate Accepted(blob: seq<Byte>)
    requires |blob| >= 40
  {
    Be32(blob, 0) == MAGIC && Be32(blob, 20) >= 16
  }

  ghost predicate Holds(blob: seq<Byte>, t: Items)
    requires |blob| >= 40
  {
    var start, size := Be32(blob, 8), Be32(blob, 36);
    && start % 4 == 0 && start + size <= |blob|
    && Flat(t) + Big32(END) <= blob[start..start + size]
    && Good(blob, Be32(blob, 12), t, 0, 2)
  }

  // The header of section 5.2 of the Devicetree Specification v0.4, and the bytes it takes.
  datatype Fields = Fields(
    magic: nat, totalsize: nat, offStruct: nat, offStrings: nat, offRsvmap: nat, version: nat,
    lastCompVersion: nat, bootCpu: nat, sizeStrings: nat, sizeStruct: nat)

  predicate Words(h: Fields) {
    && h.magic < 0x1_0000_0000 && h.totalsize < 0x1_0000_0000 && h.offStruct < 0x1_0000_0000
    && h.offStrings < 0x1_0000_0000 && h.offRsvmap < 0x1_0000_0000 && h.version < 0x1_0000_0000
    && h.lastCompVersion < 0x1_0000_0000 && h.bootCpu < 0x1_0000_0000 && h.sizeStrings < 0x1_0000_0000
    && h.sizeStruct < 0x1_0000_0000
  }

  function HeaderBytes(h: Fields): (b: seq<Byte>)
    ensures |b| == 40
  {
    Big32(h.magic) + Big32(h.totalsize) + Big32(h.offStruct) + Big32(h.offStrings) + Big32(h.offRsvmap)
    + Big32(h.version) + Big32(h.lastCompVersion) + Big32(h.bootCpu) + Big32(h.sizeStrings) + Big32(h.sizeStruct)
  }

  lemma FieldAt(b: seq<Byte>, p: nat, v: nat)
    requires v < 0x1_0000_0000 && p + 4 <= |b| && b[p..p + 4] == Big32(v)
    ensures Be32(b, p) == v
  {
    BigRoundTrip(v);
    var w := b[p..p + 4];
    assert b[p] == w[0] && b[p + 1] == w[1] && b[p + 2] == w[2] && b[p + 3] == w[3];
  }

  lemma FourLong()
    ensures forall v :: |Big32(v)| == 4
  {
  }

  // Which fields decide whether a blob is read, and where its two blocks are.
  lemma HeaderIsRead(h: Fields, rest: seq<Byte>, t: Items)
    requires Words(h)
    ensures var blob := HeaderBytes(h) + rest;
            && (Accepted(blob) <==> h.magic == 0xd00d_feed && h.version >= 16)
            && Be32(blob, 12) == h.offStrings
            && (Holds(blob, t) <==>
                  && h.offStruct % 4 == 0 && h.offStruct + h.sizeStruct <= |blob|
                  && Flat(t) + Big32(END) <= blob[h.offStruct..h.offStruct + h.sizeStruct]
                  && Good(blob, h.offStrings, t, 0, 2))
  {
    hide Big32, Flat, Good;
    FourLong();
    var b := HeaderBytes(h) + rest;
    assert b[0..4] == Big32(h.magic) && b[8..12] == Big32(h.offStruct) && b[12..16] == Big32(h.offStrings);
    assert b[20..24] == Big32(h.version) && b[36..40] == Big32(h.sizeStruct);
    FieldAt(b, 0, h.magic);
    FieldAt(b, 8, h.offStruct);
    FieldAt(b, 12, h.offStrings);
    FieldAt(b, 20, h.version);
    FieldAt(b, 36, h.sizeStruct);
  }

  // blob is the memory from a 4-aligned pointer on, or None for a null pointer.
  method Init(blob: Option<seq<Byte>>, ghost t: Items) returns (g: Globals)
    requires blob.Some? ==> |blob.value| >= 40
    requires blob.Some? && Accepted(blob.value) ==> Holds(blob.value, t)
    ensures blob.None? || !Accepted(blob.value) ==> g == NOTHING
    ensures blob.Some? && Accepted(blob.value) ==>
              g == Walk(blob.value, Be32(blob.value, 12), t, 0, AT_ROOT, NOTHING)
    ensures blob.Some? && Accepted(blob.value) && NoProps(t) ==>
              var strings := Be32(blob.value, 12);
              forall rule | Neat(rule, blob.value, strings, t, 2, 2, 2) ::
                && g == Reference(rule, blob.value, strings, t, 0, 2, NOTHING)
                && var ns := Nodes(rule, blob.value, strings, t, 0, 2); DevicesAre(rule, ns, |ns|, g)
  {
    hide Flat, Good, Walk, Reference, Neat, NoProps, Big32, Nodes, DevicesAre;
    var scanner := new FdtScanner();
    g := scanner.g;
    if blob.None? {
      return;
    }
    var base := blob.value;
    if Be32(base, 0) != MAGIC {
      return;
    }
    var version := Be32(base, 20);
    if version < 16 {
      return;
    }
    var start, strings, size := Be32(base, 8), Be32(base, 12), Be32(base, 36);
    var p, depth := scanner.Scan(base, strings, start, start + size, t);
    g := scanner.g;
    forall rule | NoProps(t) && Neat(rule, base, strings, t, 2, 2, 2)
      ensures g == Reference(rule, base, strings, t, 0, 2, NOTHING)
      ensures var ns := Nodes(rule, base, strings, t, 0, 2); DevicesAre(rule, ns, |ns|, g)
    {
      WalkIsReference(rule, base, strings, t);
      DevicesFound(rule, base, strings, t);
    }
  }
}
