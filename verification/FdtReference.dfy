/** The same result without the order of tokens: each node looked up as a whole. */
module FdtReference {
  import opened Basics
  import opened FdtModel

  // The value of the first property with this name in the node itself.
  function Lookup(b: seq<Byte>, strings: nat, t: Items, name: seq<Byte>): Option<seq<Byte>> {
    match t
    case Done => None
    case Nop(next) => Lookup(b, strings, next, name)
    case Child(_, _, next) => Lookup(b, strings, next, name)
    case Prop(nameoff, data, next) =>
      if CStr(b, strings + nameoff) == name then Some(data) else Lookup(b, strings, next, name)
  }

  // The properties that matter, each as found in a node.
  datatype Facts = Facts(
    compatible: Option<seq<Byte>>, reg: Option<seq<Byte>>, shift: Option<seq<Byte>>,
    timebase: Option<seq<Byte>>, cells: Option<seq<Byte>>)

  const UNKNOWN := Facts(None, None, None, None, None)

  function FactsOf(b: seq<Byte>, strings: nat, t: Items): Facts {
    Facts(Lookup(b, strings, t, Ascii("compatible")), Lookup(b, strings, t, Ascii("reg")),
          Lookup(b, strings, t, Ascii("reg-shift")), Lookup(b, strings, t, Ascii("timebase-frequency")),
          Lookup(b, strings, t, Ascii("#address-cells")))
  }

  function Word(o: Option<seq<Byte>>, otherwise: nat): nat {
    if o.Some? && |o.value| == 4 then Be32(o.value, 0) else otherwise
  }

  // The big-endian number of the first cells of a property value.
  function BigNum(data: seq<Byte>, cells: nat): nat
    requires 4 * cells <= |data|
  {
    if cells == 0 then 0 else BigNum(data, cells - 1) * 0x1_0000_0000 + Be32(data, 4 * (cells - 1))
  }

  // How many cells the addresses of a node's children take when the node does not say, and how an
  // address of that many is read: as the code does both, or as section 2.3.5 of the Devicetree
  // Specification has it, where the default is two and the address a number of any length.
  datatype Rule = Inherited | Default2

  function Unstated(rule: Rule, width: nat): nat {
    if rule.Inherited? then width else 2
  }

  function AddressBy(rule: Rule, data: seq<Byte>, cells: nat): nat {
    if rule.Inherited? then Address(data, cells) else if 4 * cells <= |data| then BigNum(data, cells) else 0
  }

  function Base(rule: Rule, f: Facts, width: nat): nat {
    if f.reg.Some? then AddressBy(rule, f.reg.value, width) else 0
  }

  function KindOf(f: Facts, g: Globals): Device {
    if f.compatible.Some? then Kind(f.compatible.value, g, NoDevice) else NoDevice
  }

  // What one node adds, whatever the order of its properties: the first UART, PLIC and PCIe host with
  // a nonzero address, read with the cells of the parent; a timebase from a cpus node.
  function Contribute(rule: Rule, f: Facts, cpus: bool, width: nat, g: Globals): Globals {
    var g' := if cpus && f.timebase.Some? && |f.timebase.value| == 4
              then g.(timebase := Be32(f.timebase.value, 0)) else g;
    match KindOf(f, g)
    case NoDevice => g'
    case Uart => g'.(uart := Base(rule, f, width), shift := Widened(Word(f.shift, 0)))
    case Plic => g'.(plic := Base(rule, f, width))
    case Pcie => g'.(pcie := Base(rule, f, width))
  }

  // Preorder over the nodes; `width` is the cell count of addresses at this depth.
  function Reference(rule: Rule, b: seq<Byte>, strings: nat, t: Items, depth: nat, width: nat, g: Globals): Globals
    decreases t
  {
    match t
    case Done => g
    case Nop(next) => Reference(rule, b, strings, next, depth, width, g)
    case Prop(_, _, next) => Reference(rule, b, strings, next, depth, width, g)
    case Child(name, body, next) =>
      if depth + 1 >= MAX_DEPTH then Reference(rule, b, strings, next, depth, width, g)
      else
        var f := FactsOf(b, strings, body);
        var g1 := Contribute(rule, f, IsCpus(name), width, g);
        var g2 := Reference(rule, b, strings, body, depth + 1, Word(f.cells, Unstated(rule, width)), g1);
        Reference(rule, b, strings, next, depth, width, g2)
  }

  // ---------------------------------------------------------------- trees it applies to

  predicate NoProps(t: Items) {
    match t
    case Done => true
    case Nop(next) => NoProps(next)
    case Prop(_, _, _) => false
    case Child(_, _, next) => NoProps(next)
  }

  // The cells the code reads of an address, by its table entry.
  function CellsRead(slot: nat): nat {
    if slot == 2 then 2 else 1
  }

  // Reading the address as wide as the table entry says gives the number that `cells` cells hold.
  predicate RightCells(data: seq<Byte>, slot: nat, cells: nat) {
    var most := if CellsRead(slot) < cells then cells else CellsRead(slot);
    4 * most <= |data| && (CellsRead(slot) == cells || BigNum(data, most) == 0)
  }

  predicate ReadAlike(rule: Rule, data: seq<Byte>, slot: nat, width: nat) {
    if rule.Inherited? then slot == 2 <==> width == 2 else RightCells(data, slot, width)
  }

  // Properties come before child nodes and no name occurs twice, as the specification demands; and
  // wherever a reg property stands, the slot the code reads it with and the width the rule gives it
  // come to the same. `width` is that of this node, `own` that of its children so far, `slot` the
  // code's table entry.
  predicate Neat(rule: Rule, b: seq<Byte>, strings: nat, t: Items, width: nat, own: nat, slot: nat)
    decreases t
  {
    match t
    case Done => true
    case Nop(next) => Neat(rule, b, strings, next, width, own, slot)
    case Prop(nameoff, data, next) =>
      var name := CStr(b, strings + nameoff);
      && Lookup(b, strings, next, name) == None
      && (name == Ascii("reg") ==> ReadAlike(rule, data, slot, width))
      && if name == Ascii("#address-cells") then
           Neat(rule, b, strings, next, width, Word(Some(data), own), Word(Some(data), slot))
         else
           Neat(rule, b, strings, next, width, own, slot)
    case Child(_, body, next) =>
      && NoProps(next)
      && Neat(rule, b, strings, body, own, Unstated(rule, own), slot)
      && Neat(rule, b, strings, next, width, own, slot)
  }

  lemma {:induction false} MoreCellsMore(data: seq<Byte>, few: nat, cells: nat)
    requires few < cells && 4 * cells <= |data|
    ensures BigNum(data, cells) >= BigNum(data, few) * 0x1_0000_0000
  {
    if few + 1 < cells {
      MoreCellsMore(data, few, cells - 1);
    }
  }

  lemma CellsReadHold(data: seq<Byte>, slot: nat)
    requires 4 * CellsRead(slot) <= |data|
    ensures Address(data, slot) == BigNum(data, CellsRead(slot))
  {
    assert BigNum(data, 1) == Be32(data, 0);
    if slot == 2 {
      assert BigNum(data, 2) == BigNum(data, 1) * 0x1_0000_0000 + Be32(data, 4);
    }
  }

  lemma RightCellsExactly(data: seq<Byte>, slot: nat, cells: nat)
    requires 4 * cells <= |data| && 4 * CellsRead(slot) <= |data|
    ensures Address(data, slot) == BigNum(data, cells) <==> RightCells(data, slot, cells)
  {
    CellsReadHold(data, slot);
    var r := CellsRead(slot);
    hide BigNum, Address, CellsRead;
    if r < cells {
      MoreCellsMore(data, r, cells);
    } else if cells < r {
      MoreCellsMore(data, cells, r);
    }
  }

  // What the scan records of a reg property is the number in as many cells as the parent states, two
  // without a statement, exactly when that is how many it reads, or the cells either would read are all
  // zero. It reads two cells when the node itself has stated two before, or without a statement of its
  // own, when the nearest ancestor with one has; otherwise one.
  lemma RegRecordedExactly(own: Option<seq<Byte>>, inherited: nat, parent: Option<seq<Byte>>,
                           l: Local, g: Globals, data: seq<Byte>)
    requires l.ac == Word(own, inherited) && 4 * CellsRead(l.ac) <= |data| && 4 * Word(parent, 2) <= |data|
    ensures var name, cells := Ascii("reg"), Word(parent, 2);
            var address, right := BigNum(data, cells), RightCells(data, l.ac, cells);
            && (LocalAfter(name, data, l, g).reg == address <==> right)
            && (l.dev == Uart && g.uart == 0 ==> (GlobalsAfter(name, data, l, g).uart == address <==> right))
            && (l.dev == Plic && g.plic == 0 ==> (GlobalsAfter(name, data, l, g).plic == address <==> right))
            && (l.dev == Pcie && g.pcie == 0 ==> (GlobalsAfter(name, data, l, g).pcie == address <==> right))
  {
    NamesDiffer();
    RightCellsExactly(data, l.ac, Word(parent, 2));
    hide Ascii, Word, BigNum, RightCells;
  }

  // ---------------------------------------------------------------- the walk inside one node

  // Pending entries and globals once the facts f of a node of this width are known, entered with slot
  // and g.
  function LocalOf(rule: Rule, f: Facts, cpus: bool, width: nat, slot: nat, g: Globals): Local {
    Local(KindOf(f, g), Base(rule, f, width), Word(f.cells, slot), Word(f.shift, 0), cpus)
  }

  function Learn(f: Facts, name: seq<Byte>, data: seq<Byte>): Facts {
    if name == Ascii("compatible") then f.(compatible := Some(data))
    else if name == Ascii("reg") then f.(reg := Some(data))
    else if name == Ascii("reg-shift") then f.(shift := Some(data))
    else if name == Ascii("timebase-frequency") then f.(timebase := Some(data))
    else if name == Ascii("#address-cells") then f.(cells := Some(data))
    else f
  }

  // A property not seen before in its node.
  predicate Fresh(f: Facts, name: seq<Byte>) {
    && (name == Ascii("compatible") ==> f.compatible == None)
    && (name == Ascii("reg") ==> f.reg == None)
    && (name == Ascii("reg-shift") ==> f.shift == None)
    && (name == Ascii("timebase-frequency") ==> f.timebase == None)
    && (name == Ascii("#address-cells") ==> f.cells == None)
  }

  lemma KindMeans(data: seq<Byte>, g: Globals)
    ensures var k := Kind(data, g, NoDevice);
            (k == Uart ==> g.uart == 0) && (k == Plic ==> g.plic == 0) && (k == Pcie ==> g.pcie == 0)
  {
  }

  lemma KindSameZeros(data: seq<Byte>, g: Globals, t: nat)
    ensures Kind(data, g.(timebase := t), NoDevice) == Kind(data, g, NoDevice)
  {
  }

  lemma AlikeIsSame(rule: Rule, data: seq<Byte>, slot: nat, width: nat)
    requires ReadAlike(rule, data, slot, width)
    ensures AddressBy(rule, data, width) == Address(data, slot) && (|data| < 4 ==> Address(data, slot) == 0)
  {
    if rule.Default2? {
      RightCellsExactly(data, slot, width);
    }
  }

  // From the state the facts known describe, a property leads to the one described with it known.
  ghost predicate Learns(rule: Rule, f: Facts, cpus: bool, width: nat, slot: nat, g: Globals, name: seq<Byte>,
                         data: seq<Byte>)
  {
    var l, known := LocalOf(rule, f, cpus, width, slot, g), Learn(f, name, data);
    && LocalAfter(name, data, l, Contribute(rule, f, cpus, width, g)) == LocalOf(rule, known, cpus, width, slot, g)
    && GlobalsAfter(name, data, l, Contribute(rule, f, cpus, width, g)) == Contribute(rule, known, cpus, width, g)
  }

  lemma LearnsKind(rule: Rule, f: Facts, cpus: bool, width: nat, slot: nat, g: Globals, data: seq<Byte>)
    requires f.compatible == None
    ensures Learns(rule, f, cpus, width, slot, g, Ascii("compatible"), data)
  {
    NamesDiffer();
    hide Kind, Ascii, Widened, Be32, AddressBy;
    KindMeans(data, g);
    if f.timebase.Some? && |f.timebase.value| == 4 {
      KindSameZeros(data, g, Be32(f.timebase.value, 0));
    }
  }

  lemma LearnsReg(rule: Rule, f: Facts, cpus: bool, width: nat, slot: nat, g: Globals, data: seq<Byte>)
    requires f.reg == None && ReadAlike(rule, data, Word(f.cells, slot), width)
    ensures Learns(rule, f, cpus, width, slot, g, Ascii("reg"), data)
  {
    NamesDiffer();
    hide Kind, Ascii, Widened, Be32, Address, AddressBy, ReadAlike;
    AlikeIsSame(rule, data, Word(f.cells, slot), width);
    if f.compatible.Some? {
      KindMeans(f.compatible.value, g);
    }
  }

  lemma LearnsShift(rule: Rule, f: Facts, cpus: bool, width: nat, slot: nat, g: Globals, data: seq<Byte>)
    requires f.shift == None
    ensures Learns(rule, f, cpus, width, slot, g, Ascii("reg-shift"), data)
  {
    NamesDiffer();
    hide Kind, Ascii, Widened, Be32, AddressBy;
    if f.compatible.Some? {
      KindMeans(f.compatible.value, g);
    }
  }

  // Whatever is already known of the node, one more property leads to exactly the state that knowing
  // it as well describes: this is why the order of properties does not matter.
  lemma OneMoreFact(rule: Rule, f: Facts, cpus: bool, width: nat, slot: nat, g: Globals, name: seq<Byte>,
                    data: seq<Byte>)
    requires Fresh(f, name)
    requires name == Ascii("reg") ==> ReadAlike(rule, data, Word(f.cells, slot), width)
    ensures Learns(rule, f, cpus, width, slot, g, name, data)
  {
    NamesDiffer();
    hide Kind, Ascii, Widened, Be32, AddressBy;
    if name == Ascii("compatible") {
      LearnsKind(rule, f, cpus, width, slot, g, data);
    } else if name == Ascii("reg") {
      LearnsReg(rule, f, cpus, width, slot, g, data);
    } else if name == Ascii("reg-shift") {
      LearnsShift(rule, f, cpus, width, slot, g, data);
    }
  }

  function Either(a: Option<seq<Byte>>, b: Option<seq<Byte>>): Option<seq<Byte>> {
    if a.Some? then a else b
  }

  function Merge(f: Facts, r: Facts): Facts {
    Facts(Either(f.compatible, r.compatible), Either(f.reg, r.reg), Either(f.shift, r.shift),
          Either(f.timebase, r.timebase), Either(f.cells, r.cells))
  }

  // What is known of the node does not occur again in the rest of it.
  predicate Apart(f: Facts, r: Facts) {
    && (f.compatible.Some? ==> r.compatible == None)
    && (f.reg.Some? ==> r.reg == None)
    && (f.shift.Some? ==> r.shift == None)
    && (f.timebase.Some? ==> r.timebase == None)
    && (f.cells.Some? ==> r.cells == None)
  }

  lemma LearnFromHead(b: seq<Byte>, strings: nat, t: Items, f: Facts)
    requires t.Prop? && Apart(f, FactsOf(b, strings, t))
    requires Lookup(b, strings, t.next, CStr(b, strings + t.nameoff)) == None
    ensures var name := CStr(b, strings + t.nameoff);
            var f' := Learn(f, name, t.data);
            && Fresh(f, name) && Apart(f', FactsOf(b, strings, t.next))
            && Merge(f', FactsOf(b, strings, t.next)) == Merge(f, FactsOf(b, strings, t))
  {
    hide Ascii, CStr;
    NamesDiffer();
  }

  lemma {:induction false} NoPropsNoFacts(b: seq<Byte>, strings: nat, t: Items, name: seq<Byte>)
    requires NoProps(t)
    ensures Lookup(b, strings, t, name) == None
  {
    match t
    case Done =>
    case Nop(next) => NoPropsNoFacts(b, strings, next, name);
    case Child(_, _, next) => NoPropsNoFacts(b, strings, next, name);
  }

  // Nodes deeper than the tables contribute nothing.
  lemma {:induction false} DeepIsInert(b: seq<Byte>, strings: nat, t: Items, depth: nat, l: Local, g: Globals)
    requires depth >= 64
    ensures Walk(b, strings, t, depth, l, g) == g
    decreases t
  {
    match t
    case Done =>
    case Nop(next) => DeepIsInert(b, strings, next, depth, l, g);
    case Prop(_, _, next) => DeepIsInert(b, strings, next, depth, l, g);
    case Child(_, body, next) =>
      DeepIsInert(b, strings, body, depth + 1, l, g);
      DeepIsInert(b, strings, next, depth, l, g);
  }

  lemma {:induction false} ChildrenWalk(rule: Rule, b: seq<Byte>, strings: nat, t: Items, depth: nat,
                                        width: nat, own: nat, l: Local, g: Globals)
    requires NoProps(t) && Neat(rule, b, strings, t, width, own, l.ac) && (rule.Inherited? ==> own == l.ac)
    ensures Walk(b, strings, t, depth, l, g) == Reference(rule, b, strings, t, depth, own, g)
    decreases t, 0
  {
    hide IsCpus, Contribute, FactsOf;
    match t
    case Done =>
    case Nop(next) => ChildrenWalk(rule, b, strings, next, depth, width, own, l, g);
    case Child(name, body, next) =>
      if depth + 1 >= MAX_DEPTH {
        DeepIsInert(b, strings, body, depth + 1, l, g);
        ChildrenWalk(rule, b, strings, next, depth, width, own, l, g);
      } else {
        FreshNode(rule, b, strings, body, name, own, l, g);
        NodeWalk(rule, b, strings, body, depth + 1, IsCpus(name), own, l.ac, g, UNKNOWN);
        var g1 := Walk(b, strings, body, depth + 1, Enter(name, l), g);
        ChildrenWalk(rule, b, strings, next, depth, width, own, l, g1);
      }
  }

  lemma FreshNode(rule: Rule, b: seq<Byte>, strings: nat, body: Items, name: seq<Byte>, width: nat, l: Local,
                  g: Globals)
    ensures LocalOf(rule, UNKNOWN, IsCpus(name), width, l.ac, g) == Enter(name, l)
    ensures Contribute(rule, UNKNOWN, IsCpus(name), width, g) == g
    ensures Merge(UNKNOWN, FactsOf(b, strings, body)) == FactsOf(b, strings, body)
    ensures Apart(UNKNOWN, FactsOf(b, strings, body)) && forall n: nat :: Word(UNKNOWN.cells, n) == n
  {
  }

  lemma {:induction false} NodeWalk(rule: Rule, b: seq<Byte>, strings: nat, t: Items, depth: nat, cpus: bool,
                                    width: nat, slot: nat, g: Globals, f: Facts)
    requires depth < MAX_DEPTH && Apart(f, FactsOf(b, strings, t)) && (rule.Inherited? ==> width == slot)
    requires Neat(rule, b, strings, t, width, Word(f.cells, Unstated(rule, width)), Word(f.cells, slot))
    ensures var all := Merge(f, FactsOf(b, strings, t));
            Walk(b, strings, t, depth, LocalOf(rule, f, cpus, width, slot, g), Contribute(rule, f, cpus, width, g))
            == Reference(rule, b, strings, t, depth, Word(all.cells, Unstated(rule, width)),
                         Contribute(rule, all, cpus, width, g))
    decreases t, 1
  {
    hide LocalAfter, GlobalsAfter, Contribute, Kind, Ascii, CStr;
    match t
    case Nop(next) => NodeWalk(rule, b, strings, next, depth, cpus, width, slot, g, f);
    case Prop(nameoff, data, next) =>
      var name := CStr(b, strings + nameoff);
      LearnFromHead(b, strings, t, f);
      OneMoreFact(rule, f, cpus, width, slot, g, name, data);
      NamesDiffer();
      NodeWalk(rule, b, strings, next, depth, cpus, width, slot, g, Learn(f, name, data));
    case _ =>
      OnlyChildren(b, strings, t, f);
      ChildrenWalk(rule, b, strings, t, depth, width, Word(f.cells, Unstated(rule, width)),
                   LocalOf(rule, f, cpus, width, slot, g), Contribute(rule, f, cpus, width, g));
  }

  lemma OnlyChildren(b: seq<Byte>, strings: nat, t: Items, f: Facts)
    requires NoProps(t)
    ensures Merge(f, FactsOf(b, strings, t)) == f
  {
    NoPropsNoFacts(b, strings, t, Ascii("compatible"));
    NoPropsNoFacts(b, strings, t, Ascii("reg"));
    NoPropsNoFacts(b, strings, t, Ascii("reg-shift"));
    NoPropsNoFacts(b, strings, t, Ascii("timebase-frequency"));
    NoPropsNoFacts(b, strings, t, Ascii("#address-cells"));
  }

  // The token-by-token scan of a well-ordered tree records what looking each node up as a whole does,
  // under either rule for cell counts that the tree does not tell apart from the code's.
  lemma WalkIsReference(rule: Rule, b: seq<Byte>, strings: nat, t: Items)
    requires NoProps(t) && Neat(rule, b, strings, t, 2, 2, 2)
    ensures Walk(b, strings, t, 0, AT_ROOT, NOTHING) == Reference(rule, b, strings, t, 0, 2, NOTHING)
  {
    ChildrenWalk(rule, b, strings, t, 0, 2, 2, AT_ROOT, NOTHING);
  }

  // A base once recorded stays, in any tree, well-ordered or not, from inside the node on.
  lemma {:induction false} BasesStay(b: seq<Byte>, strings: nat, t: Items, depth: nat, l: Local, g: Globals)
    ensures var h := Walk(b, strings, t, depth, l, g);
            && (g.uart != 0 ==> h.uart == g.uart) && (g.plic != 0 ==> h.plic == g.plic)
            && (g.pcie != 0 ==> h.pcie == g.pcie)
    decreases t
  {
    hide Ascii, CStr, IsCpus, Kind;
    match t
    case Done =>
    case Nop(next) => BasesStay(b, strings, next, depth, l, g);
    case Prop(nameoff, data, next) =>
      if depth >= MAX_DEPTH {
        BasesStay(b, strings, next, depth, l, g);
      } else {
        var name := CStr(b, strings + nameoff);
        BasesStay(b, strings, next, depth, LocalAfter(name, data, l, g), GlobalsAfter(name, data, l, g));
      }
    case Child(name, body, next) =>
      var inner := if depth + 1 >= MAX_DEPTH then l else Enter(name, l);
      BasesStay(b, strings, body, depth + 1, inner, g);
      BasesStay(b, strings, next, depth, l, Walk(b, strings, body, depth + 1, inner, g));
  }

  // Once a UART with a nonzero address is recorded, nothing later in the tree changes it or its
  // shift, in any tree, well-ordered or not.
  lemma {:induction false} FirstUartStays(b: seq<Byte>, strings: nat, t: Items, depth: nat, l: Local, g: Globals)
    requires g.uart != 0 && l.dev != Uart
    ensures Walk(b, strings, t, depth, l, g).uart == g.uart && Walk(b, strings, t, depth, l, g).shift == g.shift
    decreases t
  {
    hide Ascii, CStr, IsCpus, Strings;
    match t
    case Done =>
    case Nop(next) => FirstUartStays(b, strings, next, depth, l, g);
    case Prop(nameoff, data, next) =>
      if depth >= MAX_DEPTH {
        FirstUartStays(b, strings, next, depth, l, g);
      } else {
        var name := CStr(b, strings + nameoff);
        NamesDiffer();
        FirstUartStays(b, strings, next, depth, LocalAfter(name, data, l, g), GlobalsAfter(name, data, l, g));
      }
    case Child(name, body, next) =>
      var inner := if depth + 1 >= MAX_DEPTH then l else Enter(name, l);
      FirstUartStays(b, strings, body, depth + 1, inner, g);
      FirstUartStays(b, strings, next, depth, l, Walk(b, strings, body, depth + 1, inner, g));
  }

  // ---------------------------------------------------------------- any order of properties

  datatype Property = Property(nameoff: nat, data: seq<Byte>)

  function WithProps(ps: seq<Property>, kids: Items): Items {
    if ps == [] then kids else Prop(ps[0].nameoff, ps[0].data, WithProps(ps[1..], kids))
  }

  function NameOf(b: seq<Byte>, strings: nat, p: Property): seq<Byte> {
    CStr(b, strings + p.nameoff)
  }

  // With names that occur once, a lookup finds exactly the properties in the list.
  lemma {:induction false} LookupFinds(b: seq<Byte>, strings: nat, ps: seq<Property>, kids: Items,
                                       width: nat, own: nat, slot: nat, name: seq<Byte>)
    requires NoProps(kids) && Neat(Inherited, b, strings, WithProps(ps, kids), width, own, slot)
    ensures forall p | p in ps && NameOf(b, strings, p) == name ::
              Lookup(b, strings, WithProps(ps, kids), name) == Some(p.data)
    ensures (forall p | p in ps :: NameOf(b, strings, p) != name) ==>
              Lookup(b, strings, WithProps(ps, kids), name) == None
    decreases |ps|
  {
    hide CStr, Ascii;
    if ps == [] {
      NoPropsNoFacts(b, strings, kids, name);
    } else {
      var cells := NameOf(b, strings, ps[0]) == Ascii("#address-cells");
      var own' := if cells then Word(Some(ps[0].data), own) else own;
      var slot' := if cells then Word(Some(ps[0].data), slot) else slot;
      LookupFinds(b, strings, ps[1..], kids, width, own', slot', name);
    }
  }

  lemma SameLookup(b: seq<Byte>, strings: nat, ps: seq<Property>, qs: seq<Property>, kids: Items, ac: nat,
                   name: seq<Byte>)
    requires NoProps(kids) && multiset(ps) == multiset(qs)
    requires Neat(Inherited, b, strings, WithProps(ps, kids), ac, ac, ac)
    requires Neat(Inherited, b, strings, WithProps(qs, kids), ac, ac, ac)
    ensures Lookup(b, strings, WithProps(ps, kids), name) == Lookup(b, strings, WithProps(qs, kids), name)
  {
    hide Lookup, Neat, NoProps, WithProps, NameOf;
    LookupFinds(b, strings, ps, kids, ac, ac, ac, name);
    LookupFinds(b, strings, qs, kids, ac, ac, ac, name);
    forall p | p in ps ensures p in qs {
      assert p in multiset(ps);
    }
    forall p | p in qs ensures p in ps {
      assert p in multiset(qs);
    }
  }

  lemma {:induction false} PropsAreSkipped(b: seq<Byte>, strings: nat, ps: seq<Property>, kids: Items,
                                           depth: nat, ac: nat, g: Globals)
    ensures Reference(Inherited, b, strings, WithProps(ps, kids), depth, ac, g)
            == Reference(Inherited, b, strings, kids, depth, ac, g)
    decreases |ps|
  {
    if ps != [] {
      PropsAreSkipped(b, strings, ps[1..], kids, depth, ac, g);
    }
  }

  // A node with its properties in any order leaves the same globals behind: for the first UART the
  // same base and shift.
  lemma AnyOrderOfProperties(b: seq<Byte>, strings: nat, name: seq<Byte>, ps: seq<Property>, qs: seq<Property>,
                             kids: Items, next: Items, depth: nat, l: Local, g: Globals)
    requires NoProps(kids) && NoProps(next) && multiset(ps) == multiset(qs)
    requires Neat(Inherited, b, strings, WithProps(ps, kids), l.ac, l.ac, l.ac)
    requires Neat(Inherited, b, strings, WithProps(qs, kids), l.ac, l.ac, l.ac)
    requires Neat(Inherited, b, strings, next, l.ac, l.ac, l.ac)
    ensures Walk(b, strings, Child(name, WithProps(ps, kids), next), depth, l, g)
            == Walk(b, strings, Child(name, WithProps(qs, kids), next), depth, l, g)
  {
    hide Walk, Contribute, Lookup, Ascii, IsCpus, WithProps;
    ChildrenWalk(Inherited, b, strings, Child(name, WithProps(ps, kids), next), depth, l.ac, l.ac, l, g);
    ChildrenWalk(Inherited, b, strings, Child(name, WithProps(qs, kids), next), depth, l.ac, l.ac, l, g);
    SameLookup(b, strings, ps, qs, kids, l.ac, Ascii("compatible"));
    SameLookup(b, strings, ps, qs, kids, l.ac, Ascii("reg"));
    SameLookup(b, strings, ps, qs, kids, l.ac, Ascii("reg-shift"));
    SameLookup(b, strings, ps, qs, kids, l.ac, Ascii("timebase-frequency"));
    SameLookup(b, strings, ps, qs, kids, l.ac, Ascii("#address-cells"));
    var f := FactsOf(b, strings, WithProps(ps, kids));
    assert f == FactsOf(b, strings, WithProps(qs, kids));
    if depth + 1 < MAX_DEPTH {
      var g1 := Contribute(Inherited, f, IsCpus(name), l.ac, g);
      PropsAreSkipped(b, strings, ps, kids, depth + 1, Word(f.cells, l.ac), g1);
      PropsAreSkipped(b, strings, qs, kids, depth + 1, Word(f.cells, l.ac), g1);
    }
  }
}

/** Trees on which the scan and the specification differ. */
module FdtDeviations {
  import opened Basics
  import opened FdtModel
  import opened FdtScan
  import opened FdtReference

  // A strings block, and where its names start.
  function Text(): seq<Byte> {
    Ascii("#address-cells") + [0] + Ascii("reg") + [0] + Ascii("compatible") + [0]
  }

  const CELLS: nat := 0
  const REG: nat := 15
  const COMPATIBLE: nat := 19
  const ONE: seq<Byte> := [0, 0, 0, 1]
  const TWO: seq<Byte> := [0, 0, 0, 2]
  const THREE: seq<Byte> := [0, 0, 0, 3]
  const ADDRESS: seq<Byte> := [0, 0, 0, 1, 0, 0, 0, 0]
  const WIDE: seq<Byte> := [0, 0, 0, 1, 0, 0, 0, 0, 0, 0, 0, 2]

  lemma TextHolds()
    ensures CStr(Text(), CELLS) == Ascii("#address-cells")
    ensures CStr(Text(), REG) == Ascii("reg") && CStr(Text(), COMPATIBLE) == Ascii("compatible")
  {
    var a, r, c := Ascii("#address-cells"), Ascii("reg"), Ascii("compatible");
    NamesAreText();
    assert |a| == 14 && |r| == 3 && |c| == 10;
    hide Ascii;
    assert Text() == [] + a + [0] + (r + [0] + c + [0]);
    NameWithin([], a, r + [0] + c + [0]);
    assert Text() == (a + [0]) + r + [0] + (c + [0]);
    NameWithin(a + [0], r, c + [0]);
    assert Text() == (a + [0] + r + [0]) + c + [0] + [];
    NameWithin(a + [0] + r + [0], c, []);
  }

  lemma NameWithin(pre: seq<Byte>, name: seq<Byte>, post: seq<Byte>)
    requires 0 !in name
    ensures CStr(pre + name + [0] + post, |pre|) == name
  {
    var b := pre + name + [0] + post;
    assert b[|pre|..|pre| + |name|] == name;
    CStrIs(b, |pre|, |name|);
  }

  function UartName(): seq<Byte> {
    Ascii("ns16550a") + [0]
  }

  lemma NamesUart(g: Globals)
    requires g.uart == 0
    ensures Kind(UartName(), g, NoDevice) == Uart
  {
    var s := UartName();
    assert s[0..8] == Ascii("ns16550a");
    CStrIs(s, 0, 8);
    assert Strings(s)[0] == Ascii("ns16550a");
  }

  function Serial(address: seq<Byte>): Items {
    Prop(COMPATIBLE, UartName(), Prop(REG, address, Done))
  }

  // The UART states one cell for children of its own, under a root that states nothing.
  function OwnCells(): Items {
    Child([], Child([], Prop(CELLS, ONE, Serial(ADDRESS)), Done), Done)
  }

  // The UART is on a bus that states nothing, under a root that states one cell.
  function QuietBus(): Items {
    Child([], Prop(CELLS, ONE, Child([], Child([], Serial(ADDRESS), Done), Done)), Done)
  }

  // The UART is on a bus that states three cells.
  function WideBus(): Items {
    Child([], Prop(CELLS, THREE, Child([], Serial(WIDE), Done)), Done)
  }

  // The UART has a one-cell address and states two cells before it, under a root that states one.
  function NarrowBus(): Items {
    Child([], Prop(CELLS, ONE, Child([], Prop(CELLS, TWO, Serial(ONE)), Done)), Done)
  }

  const WRONG := Globals(1, 0, 0, 0, 0)
  const RIGHT := Globals(0x1_0000_0000, 0, 0, 0, 0)
  const WIDE_RIGHT := Globals(0x1_0000_0000_0000_0002, 0, 0, 0, 0)

  lemma CellsStated(l: Local, cells: seq<Byte>)
    requires |cells| == 4
    ensures LocalAfter(CStr(Text(), CELLS), cells, l, NOTHING) == l.(ac := Be32(cells, 0))
    ensures GlobalsAfter(CStr(Text(), CELLS), cells, l, NOTHING) == NOTHING
  {
    TextHolds();
    NamesDiffer();
    hide Ascii, Text, Kind, CStr, Be32;
  }

  // Read as one cell.
  lemma SerialWalk(depth: nat, l: Local, address: seq<Byte>)
    requires depth < MAX_DEPTH && l.dev == NoDevice && l.ac != 2 && l.reg == 0 && l.shift == 0
    requires |address| >= 4 && Be32(address, 0) == 1
    ensures Walk(Text(), 0, Serial(address), depth, l, NOTHING) == WRONG
  {
    TextHolds();
    NamesDiffer();
    NamesUart(NOTHING);
    hide Ascii, Text, Kind, CStr, Be32, Be64;
    var l1 := LocalAfter(CStr(Text(), COMPATIBLE), UartName(), l, NOTHING);
    assert l1 == l.(dev := Uart);
    assert GlobalsAfter(CStr(Text(), COMPATIBLE), UartName(), l, NOTHING) == NOTHING;
    assert GlobalsAfter(CStr(Text(), REG), address, l1, NOTHING) == WRONG;
    hide LocalAfter, GlobalsAfter;
    assert Walk(Text(), 0, Prop(REG, address, Done), depth, l1, NOTHING) == WRONG;
  }

  lemma FactsGrow(nameoff: nat, data: seq<Byte>, next: Items)
    ensures FactsOf(Text(), 0, Prop(nameoff, data, next))
            == Learn(FactsOf(Text(), 0, next), CStr(Text(), nameoff), data)
  {
    NamesDiffer();
    hide Ascii, Text, CStr;
  }

  lemma SerialFacts(address: seq<Byte>, cells: seq<Byte>)
    ensures FactsOf(Text(), 0, Serial(address)) == Facts(Some(UartName()), Some(address), None, None, None)
    ensures FactsOf(Text(), 0, Prop(CELLS, cells, Serial(address)))
            == Facts(Some(UartName()), Some(address), None, None, Some(cells))
  {
    TextHolds();
    NamesDiffer();
    RootIsSilent(Done);
    hide Ascii, Text, CStr, FactsOf;
    FactsGrow(REG, address, Done);
    FactsGrow(COMPATIBLE, UartName(), Prop(REG, address, Done));
    FactsGrow(CELLS, cells, Serial(address));
  }

  lemma SerialContributes(address: seq<Byte>, cells: Option<seq<Byte>>, cpus: bool, width: nat)
    requires 4 * width <= |address|
    ensures Contribute(Default2, Facts(Some(UartName()), Some(address), None, None, cells), cpus, width, NOTHING)
            == NOTHING.(uart := BigNum(address, width))
  {
    NamesUart(NOTHING);
    hide Kind, UartName, BigNum;
  }

  lemma Numbers()
    ensures Be32(ONE, 0) == 1 && Be32(TWO, 0) == 2 && Be32(THREE, 0) == 3
    ensures Be32(ADDRESS, 0) == 1 && BigNum(ADDRESS, 2) == 0x1_0000_0000 && BigNum(ONE, 1) == 1
    ensures Be32(WIDE, 0) == 1 && BigNum(WIDE, 3) == 0x1_0000_0000_0000_0002
  {
    assert BigNum(ADDRESS, 1) == 1 && BigNum(ADDRESS, 2) == BigNum(ADDRESS, 1) * 0x1_0000_0000 + Be32(ADDRESS, 4);
    assert BigNum(WIDE, 1) == 1 && BigNum(WIDE, 2) == 0x1_0000_0000;
    assert BigNum(WIDE, 3) == BigNum(WIDE, 2) * 0x1_0000_0000 + Be32(WIDE, 8);
  }

  // A node that states a cell count before its own address is read with that count.
  lemma OwnCellsMisread()
    ensures Walk(Text(), 0, OwnCells(), 0, AT_ROOT, NOTHING) == WRONG
    ensures Reference(Default2, Text(), 0, OwnCells(), 0, 2, NOTHING) == RIGHT
  {
    Numbers();
    hide Text, CStr, IsCpus, LocalAfter, GlobalsAfter, Contribute, FactsOf, Be32, BigNum;
    var root, body := Enter([], AT_ROOT), Prop(CELLS, ONE, Serial(ADDRESS));
    var l := Enter([], root);
    CellsStated(l, ONE);
    SerialWalk(2, l.(ac := 1), ADDRESS);
    assert Walk(Text(), 0, body, 2, l, NOTHING) == WRONG;
    assert Walk(Text(), 0, Child([], body, Done), 1, root, NOTHING) == WRONG;
    SerialFacts(ADDRESS, ONE);
    SerialContributes(ADDRESS, Some(ONE), IsCpus([]), 2);
    RootIsSilent(Child([], body, Done));
    assert Reference(Default2, Text(), 0, body, 2, 1, RIGHT) == RIGHT;
    assert Word(Some(ONE), 2) == 1;
    assert Reference(Default2, Text(), 0, Child([], body, Done), 1, 2, NOTHING) == RIGHT;
  }

  lemma QuietBusWalk()
    ensures Walk(Text(), 0, QuietBus(), 0, AT_ROOT, NOTHING) == WRONG
  {
    Numbers();
    hide Text, CStr, IsCpus, LocalAfter, GlobalsAfter, Be32, BigNum;
    var uart := Child([], Serial(ADDRESS), Done);
    var bus := Child([], uart, Done);
    var root := Enter([], AT_ROOT);
    var l := Enter([], root.(ac := 1));
    CellsStated(root, ONE);
    SerialWalk(3, Enter([], l), ADDRESS);
    assert Walk(Text(), 0, uart, 2, l, NOTHING) == WRONG;
    assert Walk(Text(), 0, bus, 1, root.(ac := 1), NOTHING) == WRONG;
    assert Walk(Text(), 0, Prop(CELLS, ONE, bus), 1, root, NOTHING) == WRONG;
  }

  lemma SerialReading(depth: nat)
    requires 0 < depth < MAX_DEPTH
    ensures Reference(Default2, Text(), 0, Child([], Serial(ADDRESS), Done), depth - 1, 2, NOTHING) == RIGHT
  {
    hide Text, CStr, IsCpus, Walk, Contribute, FactsOf, Be32, BigNum;
    Numbers();
    SerialFacts(ADDRESS, ONE);
    SerialContributes(ADDRESS, None, IsCpus([]), 2);
    assert Reference(Default2, Text(), 0, Serial(ADDRESS), depth, 2, RIGHT) == RIGHT;
  }

  // A cell count is inherited past a bus that states none.
  lemma InheritedCellsMisread()
    ensures Walk(Text(), 0, QuietBus(), 0, AT_ROOT, NOTHING) == WRONG
    ensures Reference(Default2, Text(), 0, QuietBus(), 0, 2, NOTHING) == RIGHT
  {
    hide Text, CStr, IsCpus, Walk, Contribute, FactsOf, Be32, BigNum, Serial;
    QuietBusWalk();
    var uart := Child([], Serial(ADDRESS), Done);
    var bus := Child([], uart, Done);
    RootStatesCells(ONE, bus);
    SerialReading(3);
    RootIsSilent(uart);
    assert Reference(Default2, Text(), 0, bus, 1, Be32(ONE, 0), NOTHING) == RIGHT;
  }

  // Of three cells stated, the first alone is read.
  lemma WideCellsMisread()
    ensures Walk(Text(), 0, WideBus(), 0, AT_ROOT, NOTHING) == WRONG
    ensures Reference(Default2, Text(), 0, WideBus(), 0, 2, NOTHING) == WIDE_RIGHT
  {
    var uart := Child([], Serial(WIDE), Done);
    RootStatesCells(THREE, uart);
    Numbers();
    hide Text, CStr, IsCpus, LocalAfter, GlobalsAfter, Contribute, FactsOf, Be32, BigNum;
    var root := Enter([], AT_ROOT);
    var l := Enter([], root.(ac := 3));
    CellsStated(root, THREE);
    SerialWalk(2, l, WIDE);
    assert Walk(Text(), 0, uart, 1, root.(ac := 3), NOTHING) == WRONG;
    assert Walk(Text(), 0, Prop(CELLS, THREE, uart), 1, root, NOTHING) == WRONG;
    SerialFacts(WIDE, THREE);
    SerialContributes(WIDE, None, IsCpus([]), 3);
    assert Reference(Default2, Text(), 0, Serial(WIDE), 2, 2, WIDE_RIGHT) == WIDE_RIGHT;
    assert Reference(Default2, Text(), 0, uart, 1, 3, NOTHING) == WIDE_RIGHT;
  }

  // A one-cell address is read as two, past the end of the property, where the node has stated two
  // before: the tree is a valid one, but not one that the theorems about the scan cover.
  lemma NarrowCellsOverread()
    ensures !Good(Text(), 0, NarrowBus(), 0, 2)
    ensures Reference(Default2, Text(), 0, NarrowBus(), 0, 2, NOTHING) == WRONG
  {
    var body := Prop(CELLS, TWO, Serial(ONE));
    var uart := Child([], body, Done);
    RootStatesCells(ONE, uart);
    Numbers();
    TextHolds();
    NamesDiffer();
    hide Text, CStr, IsCpus, Contribute, FactsOf, Be32, BigNum, Ascii;
    assert !Good(Text(), 0, Serial(ONE), 2, 2);
    assert !Good(Text(), 0, body, 2, 1);
    assert !Good(Text(), 0, uart, 1, 1);
    assert !Good(Text(), 0, Prop(CELLS, ONE, uart), 1, 2);
    SerialFacts(ONE, TWO);
    SerialContributes(ONE, Some(TWO), IsCpus([]), 1);
    assert Reference(Default2, Text(), 0, body, 2, 2, WRONG) == WRONG;
    assert Reference(Default2, Text(), 0, uart, 1, 1, NOTHING) == WRONG;
  }

  lemma RootStatesCells(cells: seq<Byte>, kids: Items)
    requires NoProps(kids) && |cells| == 4
    ensures FactsOf(Text(), 0, Prop(CELLS, cells, kids)) == UNKNOWN.(cells := Some(cells))
    ensures forall cpus, width :: Contribute(Default2, UNKNOWN.(cells := Some(cells)), cpus, width, NOTHING) == NOTHING
    ensures Word(Some(cells), 2) == Be32(cells, 0)
  {
    TextHolds();
    NamesDiffer();
    RootIsSilent(kids);
    hide Ascii, Text, CStr;
  }

  // A node without properties contributes nothing.
  lemma RootIsSilent(kids: Items)
    requires NoProps(kids)
    ensures FactsOf(Text(), 0, kids) == UNKNOWN
    ensures forall cpus, width :: Contribute(Default2, UNKNOWN, cpus, width, NOTHING) == NOTHING
  {
    OnlyChildren(Text(), 0, kids, UNKNOWN);
  }
}
