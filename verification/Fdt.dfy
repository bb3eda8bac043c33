/** Flattened devicetrees: what a structure block encodes, and what the scanner records from it
  * (sections 2.3 and 5.4 of the Devicetree Specification v0.4). */
module FdtModel {
  import opened Basics

  const BEGIN_NODE: nat := 1
  const END_NODE: nat := 2
  const PROP: nat := 3
  const NOP: nat := 4
  const END: nat := 9
  const MAX_DEPTH: nat := 64

  // The rest of a node's contents, in order: properties, no-ops, child nodes.
  datatype Items =
    | Done
    | Prop(nameoff: nat, data: seq<Byte>, next: Items)
    | Nop(next: Items)
    | Child(name: seq<Byte>, body: Items, next: Items)

  // ---------------------------------------------------------------- encoding

  function Big32(v: nat): seq<Byte> {
    [v / 0x100_0000 % 256, v / 0x1_0000 % 256, v / 0x100 % 256, v % 256]
  }

  // be32 and be64.
  function Be32(b: seq<Byte>, p: nat): nat
    requires p + 4 <= |b|
  {
    var b0: nat, b1: nat, b2: nat, b3: nat := b[p], b[p + 1], b[p + 2], b[p + 3];
    b0 * 0x100_0000 + b1 * 0x1_0000 + b2 * 0x100 + b3
  }

  function Be64(b: seq<Byte>, p: nat): nat
    requires p + 8 <= |b|
  {
    Be32(b, p) * 0x1_0000_0000 + Be32(b, p + 4)
  }

  // Zero bytes up to the next multiple of four.
  function Padding(n: nat): (z: seq<Byte>)
    ensures |z| < 4 && (n + |z|) % 4 == 0
  {
    seq((4 - n % 4) % 4, _ => 0)
  }

  function Flat(t: Items): seq<Byte> {
    match t
    case Done => []
    case Prop(nameoff, data, next) =>
      Big32(PROP) + Big32(|data|) + Big32(nameoff) + data + Padding(|data|) + Flat(next)
    case Nop(next) => Big32(NOP) + Flat(next)
    case Child(name, body, next) =>
      Big32(BEGIN_NODE) + name + [0] + Padding(|name| + 1) + Flat(body) + Big32(END_NODE) + Flat(next)
  }

  // ---------------------------------------------------------------- strings

  // The C string at p.
  function CStr(b: seq<Byte>, p: nat): seq<Byte>
    decreases |b| - p
  {
    if p >= |b| || b[p] == 0 then [] else [b[p]] + CStr(b, p + 1)
  }

  predicate Terminated(b: seq<Byte>, p: nat)
    decreases |b| - p
  {
    p < |b| && (b[p] == 0 || Terminated(b, p + 1))
  }

  // A string list as its strings: each ends with a zero byte.
  function Strings(data: seq<Byte>): seq<seq<Byte>>
    decreases |data|
  {
    if data == [] then []
    else
      var s := CStr(data, 0);
      [s] + if |s| + 1 <= |data| then Strings(data[|s| + 1..]) else []
  }

  function Ascii(s: string): seq<Byte> {
    seq(|s|, (i: nat) requires i < |s| => (s[i] as int) % 256)
  }

  // name_is_cpus: "cpus", "cpus@..." or "cpus:...".
  predicate IsCpus(name: seq<Byte>) {
    |name| >= 4 && name[..4] == Ascii("cpus") && (|name| == 4 || name[4] in Ascii("@:"))
  }

  // ---------------------------------------------------------------- what the scanner records

  datatype Device = NoDevice | Uart | Plic | Pcie

  datatype Globals = Globals(uart: nat, shift: nat, plic: nat, pcie: nat, timebase: nat)

  // The pending_* entries of one depth.
  datatype Local = Local(dev: Device, reg: nat, ac: nat, shift: nat, cpus: bool)

  const NOTHING := Globals(0, 0, 0, 0, 0)
  const AT_ROOT := Local(NoDevice, 0, 2, 0, false)

  // A 32-bit reg-shift kept as int and widened to 64 bits.
  function Widened(v: nat): nat {
    if v < 0x8000_0000 then v else v + 0xFFFF_FFFF_0000_0000
  }

  // set_reg.
  function SetReg(l: Local, g: Globals): Globals {
    match l.dev
    case NoDevice => g
    case Uart => if g.uart == 0 then g.(uart := l.reg, shift := Widened(l.shift)) else g
    case Plic => if g.plic == 0 then g.(plic := l.reg) else g
    case Pcie => if g.pcie == 0 then g.(pcie := l.reg) else g
  }

  function Kind(data: seq<Byte>, g: Globals, otherwise: Device): Device {
    var s := Strings(data);
    if g.uart == 0 && (Ascii("ns16550a") in s || Ascii("snps,dw-apb-uart") in s) then Uart
    else if g.plic == 0 && Ascii("riscv,plic0") in s then Plic
    else if g.pcie == 0 && Ascii("pci-host-ecam-generic") in s then Pcie
    else otherwise
  }

  function Address(data: seq<Byte>, ac: nat): nat {
    if ac == 2 && |data| >= 8 then Be64(data, 0) else if |data| >= 4 then Be32(data, 0) else 0
  }

  // One property in the node whose pending entries are l.
  function LocalAfter(name: seq<Byte>, data: seq<Byte>, l: Local, g: Globals): Local {
    if name == Ascii("#address-cells") then if |data| == 4 then l.(ac := Be32(data, 0)) else l
    else if name == Ascii("reg-shift") then if |data| == 4 then l.(shift := Be32(data, 0)) else l
    else if name == Ascii("reg") then if |data| >= 4 then l.(reg := Address(data, l.ac)) else l
    else if name == Ascii("compatible") then l.(dev := Kind(data, g, l.dev))
    else l
  }

  function GlobalsAfter(name: seq<Byte>, data: seq<Byte>, l: Local, g: Globals): Globals {
    var after := LocalAfter(name, data, l, g);
    if name == Ascii("reg-shift") then
      if |data| == 4 && l.dev == Uart then g.(shift := Widened(after.shift)) else g
    else if name == Ascii("timebase-frequency") then
      if |data| == 4 && l.cpus then g.(timebase := Be32(data, 0)) else g
    else if name == Ascii("reg") then if |data| >= 4 then SetReg(after, g) else g
    else if name == Ascii("compatible") then SetReg(after, g)
    else g
  }

  function Enter(name: seq<Byte>, parent: Local): Local {
    Local(NoDevice, 0, parent.ac, 0, IsCpus(name))
  }

  // A recursive reading of the tree, token by token; nodes deeper than the per-depth tables are
  // skipped. `strings` is where the strings block starts in b.
  function Walk(b: seq<Byte>, strings: nat, t: Items, depth: nat, l: Local, g: Globals): Globals
    decreases t
  {
    match t
    case Done => g
    case Nop(next) => Walk(b, strings, next, depth, l, g)
    case Prop(nameoff, data, next) =>
      if depth >= MAX_DEPTH then Walk(b, strings, next, depth, l, g)
      else
        var name := CStr(b, strings + nameoff);
        Walk(b, strings, next, depth, LocalAfter(name, data, l, g), GlobalsAfter(name, data, l, g))
    case Child(name, body, next) =>
      var inner := if depth + 1 >= MAX_DEPTH then l else Enter(name, l);
      Walk(b, strings, next, depth, l, Walk(b, strings, body, depth + 1, inner, g))
  }

  // A well-formed tree. A reg property is as wide as the address cells it is read with.
  ghost predicate Good(b: seq<Byte>, strings: nat, t: Items, depth: nat, ac: nat)
    decreases t
  {
    match t
    case Done => true
    case Nop(next) => Good(b, strings, next, depth, ac)
    case Prop(nameoff, data, next) =>
      var name := CStr(b, strings + nameoff);
      && |data| < 0x1_0000_0000 && nameoff < 0x1_0000_0000 && Terminated(b, strings + nameoff)
      && (name == Ascii("compatible") && data != [] ==> data[|data| - 1] == 0)
      && (name == Ascii("reg") && depth < MAX_DEPTH && ac == 2 && |data| >= 4 ==> |data| >= 8)
      && Good(b, strings, next, depth,
              if depth < MAX_DEPTH && name == Ascii("#address-cells") && |data| == 4 then Be32(data, 0) else ac)
    case Child(name, body, next) =>
      && 0 !in name
      && Good(b, strings, body, depth + 1, ac)
      && Good(b, strings, next, depth, ac)
  }

  // ---------------------------------------------------------------- facts about strings

  lemma NamesDiffer()
    ensures Ascii("#address-cells") != Ascii("reg-shift") && Ascii("#address-cells") != Ascii("timebase-frequency")
    ensures Ascii("#address-cells") != Ascii("reg") && Ascii("#address-cells") != Ascii("compatible")
    ensures Ascii("reg-shift") != Ascii("timebase-frequency") && Ascii("reg-shift") != Ascii("reg")
    ensures Ascii("reg-shift") != Ascii("compatible") && Ascii("timebase-frequency") != Ascii("reg")
    ensures Ascii("timebase-frequency") != Ascii("compatible") && Ascii("reg") != Ascii("compatible")
  {
    assert |Ascii("#address-cells")| == 14 && |Ascii("reg-shift")| == 9 && |Ascii("timebase-frequency")| == 18;
    assert |Ascii("reg")| == 3 && |Ascii("compatible")| == 10;
  }

  lemma {:induction false} CStrLength(b: seq<Byte>, p: nat)
    ensures p <= |b| ==> p + |CStr(b, p)| <= |b|
    ensures Terminated(b, p) ==> p + |CStr(b, p)| < |b| && b[p + |CStr(b, p)|] == 0
    ensures forall i | 0 <= i < |CStr(b, p)| :: p + i < |b| && b[p + i] == CStr(b, p)[i] != 0
    decreases |b| - p
  {
    if p < |b| && b[p] != 0 {
      CStrLength(b, p + 1);
    }
  }

  // The names compared with are those characters' codes.
  lemma AsciiIs(s: string)
    requires forall i | 0 <= i < |s| :: s[i] as int < 0x80
    ensures |Ascii(s)| == |s| && forall i | 0 <= i < |s| :: Ascii(s)[i] == s[i] as int
  {
  }

  // A C string is determined by its bytes up to the zero.
  lemma {:induction false} CStrIs(b: seq<Byte>, p: nat, n: nat)
    requires p + n < |b| && b[p + n] == 0 && 0 !in b[p..p + n]
    ensures CStr(b, p) == b[p..p + n] && Terminated(b, p)
    decreases n
  {
    if n > 0 {
      assert b[p] == b[p..p + n][0];
      assert b[p + 1..p + n] == b[p..p + n][1..];
      CStrIs(b, p + 1, n - 1);
      assert b[p..p + n] == [b[p]] + b[p + 1..p + n];
    }
  }
}

/** What the encodings of a tree, its strings and its header come to, byte by byte. */
module FdtBytes {
  import opened Basics
  import opened FdtModel

  function Joined(list: seq<seq<Byte>>): seq<Byte> {
    if list == [] then [] else list[0] + [0] + Joined(list[1..])
  }

  // A list of strings, each closed by a zero, is read as that list.
  lemma {:induction false} StringsRoundTrip(list: seq<seq<Byte>>)
    requires forall s | s in list :: 0 !in s
    ensures Strings(Joined(list)) == list
    decreases |list|
  {
    hide CStr;
    if list != [] {
      var s, rest := list[0], Joined(list[1..]);
      var data := s + [0] + rest;
      assert s in list && data[0..|s|] == s && data[|s|] == 0;
      CStrIs(data, 0, |s|);
      assert data[|s| + 1..] == rest;
      StringsRoundTrip(list[1..]);
      if rest == [] {
        assert list[1..] == [];
      }
      assert list == [s] + list[1..];
    }
  }

  // 32 and 64-bit numbers have their most significant byte first.
  lemma BigEndian(a: Byte, b: Byte, c: Byte, d: Byte)
    ensures var x: nat, y: nat, z: nat, w: nat := a, b, c, d;
            Be32([a, b, c, d], 0) == ((x * 0x100 + y) * 0x100 + z) * 0x100 + w
  {
  }

  lemma TwoWords(v: nat, w: nat)
    requires v < 0x1_0000_0000 && w < 0x1_0000_0000
    ensures Be64(Big32(v) + Big32(w), 0) == v * 0x1_0000_0000 + w
  {
    FourBytes(v);
    FourBytes(w);
  }

  const FIVE: seq<Byte> := [1, 2, 3, 4, 5]

  // A block of one node with a no-op and one property of five bytes: the tokens, lengths and paddings of
  // section 5.4 of the Devicetree Specification v0.4.
  lemma SmallBlock()
    ensures Flat(Child([0x61, 0x62], Nop(Prop(0x10, FIVE, Done)), Done)) + Big32(END)
            == [0, 0, 0, 1] + [0x61, 0x62, 0, 0]
               + [0, 0, 0, 4]
               + [0, 0, 0, 3] + [0, 0, 0, 5] + [0, 0, 0, 0x10] + FIVE + [0, 0, 0]
               + [0, 0, 0, 2]
               + [0, 0, 0, 9]
  {
    var name: seq<Byte> := [0x61, 0x62];
    var prop, body := Prop(0x10, FIVE, Done), Nop(Prop(0x10, FIVE, Done));
    var p, n := Flat(prop), Flat(body);
    SmallParts();
    hide Big32, Padding;
    assert p == [0, 0, 0, 3] + [0, 0, 0, 5] + [0, 0, 0, 0x10] + FIVE + [0, 0, 0] + [];
    assert n == [0, 0, 0, 4] + p;
    assert Flat(Child(name, body, Done)) == [0, 0, 0, 1] + name + [0] + [0] + n + [0, 0, 0, 2] + [];
    assert name + [0] + [0] == [0x61, 0x62, 0, 0];
  }

  lemma SmallParts()
    ensures Padding(5) == [0, 0, 0] && Padding(3) == [0] && Flat(Done) == []
    ensures Big32(BEGIN_NODE) == [0, 0, 0, 1] && Big32(END_NODE) == [0, 0, 0, 2] && Big32(PROP) == [0, 0, 0, 3]
    ensures Big32(NOP) == [0, 0, 0, 4] && Big32(END) == [0, 0, 0, 9]
    ensures Big32(5) == [0, 0, 0, 5] && Big32(0x10) == [0, 0, 0, 0x10]
  {
  }
}

/** fdt.c: one loop over the structure block with a pending slot for each depth. */
module FdtScan {
  import opened Basics
  import opened FdtModel

  // str_eq against a constant.
  method StrEq(b: seq<Byte>, p: nat, target: seq<Byte>) returns (eq: bool)
    requires Terminated(b, p) && 0 !in target
    ensures eq <==> CStr(b, p) == target
  {
    CStrLength(b, p);
    ghost var s := CStr(b, p);
    var i := 0;
    while b[p + i] != 0 && i < |target| && b[p + i] == target[i]
      invariant i <= |target| && i <= |s| && p + i < |b|
      invariant s[..i] == target[..i]
      decreases |target| - i
    {
      assert i < |s|;
      i := i + 1;
    }
    eq := b[p + i] == 0 && i == |target|;
    assert i < |s| ==> b[p + i] == s[i] != 0;
  }

  // The loops that skip to the end of a string.
  method SkipToZero(b: seq<Byte>, p: nat, end: nat) returns (q: nat)
    requires end <= |b| && Terminated(b, p) && p + |CStr(b, p)| < end
    ensures q == p + |CStr(b, p)|
  {
    CStrLength(b, p);
    ghost var s := CStr(b, p);
    q := p;
    while q < end && b[q] != 0
      invariant p <= q <= p + |s| < end
      invariant q < p + |s| ==> b[q] == s[q - p] != 0
      decreases end - q
    {
      q := q + 1;
    }
  }

  // match_compatible over the len bytes at p.
  method MatchCompatible(b: seq<Byte>, p: nat, len: nat, target: seq<Byte>) returns (found: bool)
    requires p + len <= |b| && (len > 0 ==> b[p + len - 1] == 0) && 0 !in target
    ensures found <==> target in Strings(b[p..p + len])
  {
    hide Strings, CStr, Terminated;
    var pos := p;
    var end := p + len;
    while pos < end
      invariant p <= pos <= end
      invariant target in Strings(b[p..end]) <==> target in Strings(b[pos..end])
    {
      ListHead(b, pos, end);
      var eq := StrEq(b, pos, target);
      if eq {
        return true;
      }
      pos := SkipToZero(b, pos, end);
      pos := pos + 1;
    }
    EmptyList(b[pos..end]);
    found := false;
  }

  // The C string at the start of a terminated stretch stays inside it.
  lemma FirstString(b: seq<Byte>, p: nat, end: nat)
    requires p < end <= |b| && b[end - 1] == 0
    ensures Terminated(b, p) && CStr(b, p) == CStr(b[p..end], 0)
    ensures p + |CStr(b, p)| < end && b[p + |CStr(b, p)|] == 0
  {
    var rest := b[p..end];
    ZeroTerminates(rest, 0, |rest| - 1);
    CStrLength(rest, 0);
    var n := |CStr(rest, 0)|;
    assert 0 !in rest[..n] by {
      forall i | 0 <= i < n ensures rest[i] != 0 {
        assert rest[i] == CStr(rest, 0)[i];
      }
    }
    assert b[p..p + n] == rest[..n] && b[p + n] == rest[n];
    CStrIs(b, p, n);
    CStrIs(rest, 0, n);
  }

  // The first string of a list is the C string at its start.
  lemma ListHead(b: seq<Byte>, p: nat, end: nat)
    requires p < end <= |b| && b[end - 1] == 0
    ensures Terminated(b, p) && p + |CStr(b, p)| < end
    ensures Strings(b[p..end]) == [CStr(b, p)] + Strings(b[p + |CStr(b, p)| + 1..end])
  {
    hide CStr, Terminated;
    FirstString(b, p, end);
    var n := |CStr(b, p)|;
    assert b[p..end][n + 1..] == b[p + n + 1..end];
  }

  lemma EmptyList(data: seq<Byte>)
    requires |data| == 0
    ensures Strings(data) == []
  {
  }

  lemma {:induction false} ZeroTerminates(b: seq<Byte>, p: nat, z: nat)
    requires p <= z < |b| && b[z] == 0
    ensures Terminated(b, p)
    decreases z - p
  {
    if b[p] != 0 {
      ZeroTerminates(b, p + 1, z);
    }
  }

  // ---------------------------------------------------------------- what is left to scan

  // A node being scanned: its remaining contents and its pending entries.
  datatype Open = Open(items: Items, l: Local)

  // The bytes still to come: the rest of this node, then of each open parent, then the end token.
  ghost function Rest(cur: Items, parents: seq<Open>): seq<Byte>
    decreases |parents|
  {
    Flat(cur) +
    if parents == [] then Big32(END)
    else Big32(END_NODE) + Rest(parents[|parents| - 1].items, parents[..|parents| - 1])
  }

  // What they will leave recorded.
  ghost function Outlook(b: seq<Byte>, strings: nat, cur: Items, l: Local, parents: seq<Open>, g: Globals): Globals
    decreases |parents|
  {
    var g' := Walk(b, strings, cur, |parents|, l, g);
    if parents == [] then g'
    else
      var top := parents[|parents| - 1];
      Outlook(b, strings, top.items, top.l, parents[..|parents| - 1], g')
  }

  ghost predicate AllGood(b: seq<Byte>, strings: nat, cur: Items, l: Local, parents: seq<Open>)
    decreases |parents|
  {
    && Good(b, strings, cur, |parents|, l.ac)
    && (parents != [] ==>
          var top := parents[|parents| - 1];
          AllGood(b, strings, top.items, top.l, parents[..|parents| - 1]))
  }

  // ---------------------------------------------------------------- token boundaries

  lemma BigRoundTrip(v: nat)
    requires v < 0x1_0000_0000
    ensures Be32(Big32(v), 0) == v
  {
    FourBytes(v);
  }

  // If b continues with a + rest at p, then a is next and rest follows it.
  lemma Splits(b: seq<Byte>, p: nat, end: nat, a: seq<Byte>, rest: seq<Byte>)
    requires p <= end <= |b| && a + rest <= b[p..end]
    ensures p + |a| <= end && b[p..p + |a|] == a && rest <= b[p + |a|..end]
  {
    var n, m := |a|, |rest|;
    var s := b[p..end];
    assert s[..n + m] == a + rest;
    assert b[p..p + n] == s[..n] == (a + rest)[..n];
    assert b[p + n..end][..m] == s[n..n + m] == (a + rest)[n..];
  }

  lemma WordAt(b: seq<Byte>, p: nat, end: nat, v: nat, rest: seq<Byte>)
    requires p <= end <= |b| && Big32(v) + rest <= b[p..end] && v < 0x1_0000_0000
    ensures p + 4 <= end && Be32(b, p) == v && rest <= b[p + 4..end]
  {
    Splits(b, p, end, Big32(v), rest);
    BigRoundTrip(v);
    var w := b[p..p + 4];
    assert w == Big32(v);
    assert b[p] == w[0] && b[p + 1] == w[1] && b[p + 2] == w[2] && b[p + 3] == w[3];
  }

  function TokenOf(cur: Items, parents: seq<Open>): nat {
    match cur
    case Done => if parents == [] then END else END_NODE
    case Prop(_, _, _) => PROP
    case Nop(_) => NOP
    case Child(_, _, _) => BEGIN_NODE
  }

  // What follows the next token.
  ghost function Tail(cur: Items, l: Local, parents: seq<Open>): seq<Byte> {
    match cur
    case Done => if parents == [] then [] else Rest(parents[|parents| - 1].items, parents[..|parents| - 1])
    case Nop(next) => Rest(next, parents)
    case Prop(nameoff, data, next) =>
      Big32(|data|) + (Big32(nameoff) + (data + (Padding(|data|) + Rest(next, parents))))
    case Child(name, body, next) =>
      (name + [0]) + (Padding(|name| + 1) + Rest(body, parents + [Open(next, l)]))
  }

  lemma Assoc(a: seq<Byte>, b: seq<Byte>, c: seq<Byte>)
    ensures a + b + c == a + (b + c)
  {
  }

  // The shapes of a property and of a child node, regrouped to the right.
  lemma PropShape(a: seq<Byte>, b: seq<Byte>, c: seq<Byte>, d: seq<Byte>, e: seq<Byte>, f: seq<Byte>, k: seq<Byte>)
    ensures a + b + c + d + e + f + k == a + (b + (c + (d + (e + (f + k)))))
  {
    Assoc(a + b + c + d + e, f, k);
    Assoc(a + b + c + d, e, f + k);
    Assoc(a + b + c, d, e + (f + k));
    Assoc(a + b, c, d + (e + (f + k)));
    Assoc(a, b, c + (d + (e + (f + k))));
  }

  lemma ChildShape(a: seq<Byte>, n: seq<Byte>, z: seq<Byte>, d: seq<Byte>, body: seq<Byte>, e: seq<Byte>,
                   f: seq<Byte>, k: seq<Byte>)
    ensures a + n + z + d + body + e + f + k == a + ((n + z) + (d + (body + (e + (f + k)))))
  {
    PropShape(a + n + z, d, body, e, f, [], k);
    assert a + n + z + d + body + e + f + [] + k == a + n + z + d + body + e + f + k;
    assert f + ([] + k) == f + k;
    Assoc(a, n, z);
    Assoc(a, n + z, d + (body + (e + (f + k))));
  }

  // Everything still to come after the node being scanned.
  ghost function After(parents: seq<Open>): seq<Byte> {
    if parents == [] then Big32(END)
    else Big32(END_NODE) + Rest(parents[|parents| - 1].items, parents[..|parents| - 1])
  }

  lemma RestOfChild(next: Items, l: Local, body: Items, parents: seq<Open>)
    ensures Rest(body, parents + [Open(next, l)]) == Flat(body) + (Big32(END_NODE) + (Flat(next) + After(parents)))
  {
    var inside := parents + [Open(next, l)];
    assert inside[..|inside| - 1] == parents;
  }

  lemma RestIsToken(cur: Items, l: Local, parents: seq<Open>)
    ensures Rest(cur, parents) == Big32(TokenOf(cur, parents)) + Tail(cur, l, parents)
  {
    hide Big32, Padding;
    var k := After(parents);
    assert Rest(cur, parents) == Flat(cur) + k;
    match cur
    case Done =>
      assert Flat(Done) + k == k;
      if parents == [] {
        assert Big32(END) + [] == Big32(END);
      }
    case Nop(next) =>
      Assoc(Big32(NOP), Flat(next), k);
    case Prop(nameoff, data, next) =>
      PropShape(Big32(PROP), Big32(|data|), Big32(nameoff), data, Padding(|data|), Flat(next), k);
    case Child(name, body, next) =>
      ChildIsToken(name, body, next, l, parents);
  }

  lemma ChildIsToken(name: seq<Byte>, body: Items, next: Items, l: Local, parents: seq<Open>)
    ensures Flat(Child(name, body, next)) + After(parents)
            == Big32(BEGIN_NODE) + Tail(Child(name, body, next), l, parents)
  {
    hide Big32, Padding, After, Rest;
    RestOfChild(next, l, body, parents);
    ChildShape(Big32(BEGIN_NODE), name, [0], Padding(|name| + 1), Flat(body), Big32(END_NODE), Flat(next),
               After(parents));
  }

  lemma NextToken(b: seq<Byte>, p: nat, end: nat, cur: Items, l: Local, parents: seq<Open>)
    requires p <= end <= |b| && Rest(cur, parents) <= b[p..end]
    ensures p + 4 <= end && Be32(b, p) == TokenOf(cur, parents)
    ensures Tail(cur, l, parents) <= b[p + 4..end]
  {
    RestIsToken(cur, l, parents);
    hide Rest, Tail, Be32, Big32;
    WordAt(b, p, end, TokenOf(cur, parents), Tail(cur, l, parents));
  }

  // The cursor rounded up to a multiple of four.
  function AlignUp(q: nat): nat {
    if q % 4 != 0 then q + 4 - q % 4 else q
  }

  lemma AlignIsPadding(p: nat, n: nat)
    requires p % 4 == 0
    ensures AlignUp(p + n) == p + n + |Padding(n)| && AlignUp(p + n) % 4 == 0
  {
  }

  // Where the scan must end, and with what.
  datatype Goal = Goal(final: Globals, finish: nat)

  // What the loop of fdt_init keeps: the cursor is on a token boundary, and scanning on would record
  // what the whole tree asks for.
  ghost predicate OnTrack(b: seq<Byte>, strings: nat, p: nat, end: nat, cur: Items, l: Local,
                          parents: seq<Open>, g: Globals, goal: Goal)
  {
    && p % 4 == 0 && p <= end <= |b|
    && Rest(cur, parents) <= b[p..end]
    && AllGood(b, strings, cur, l, parents)
    && Outlook(b, strings, cur, l, parents, g) == goal.final
    && p + |Rest(cur, parents)| == goal.finish
  }

  // The entries a child starts with; nodes too deep for the tables have none.
  function Inner(name: seq<Byte>, l: Local, depth: nat): Local {
    if depth >= MAX_DEPTH then l else Enter(name, l)
  }

  // The token ahead and what it says about the tree.
  lemma TokenAhead(b: seq<Byte>, strings: nat, p: nat, end: nat, cur: Items, l: Local,
                   parents: seq<Open>, g: Globals, goal: Goal)
    requires OnTrack(b, strings, p, end, cur, l, parents, g, goal)
    ensures p + 4 <= end <= |b| && Be32(b, p) == TokenOf(cur, parents)
    ensures cur.Done? && parents == [] ==> g == goal.final && p + 4 == goal.finish
  {
    NextToken(b, p, end, cur, l, parents);
    RestIsToken(cur, l, parents);
  }

  lemma NodeCloses(b: seq<Byte>, strings: nat, p: nat, end: nat, cur: Items, l: Local,
                   parents: seq<Open>, g: Globals, goal: Goal)
    requires OnTrack(b, strings, p, end, cur, l, parents, g, goal) && cur.Done? && parents != []
    ensures var top := parents[|parents| - 1];
            OnTrack(b, strings, p + 4, end, top.items, top.l, parents[..|parents| - 1], g, goal)
  {
    NextToken(b, p, end, cur, l, parents);
    RestIsToken(cur, l, parents);
    hide Rest;
  }

  lemma NopPasses(b: seq<Byte>, strings: nat, p: nat, end: nat, cur: Items, l: Local,
                  parents: seq<Open>, g: Globals, goal: Goal)
    requires OnTrack(b, strings, p, end, cur, l, parents, g, goal) && cur.Nop?
    ensures OnTrack(b, strings, p + 4, end, cur.next, l, parents, g, goal)
  {
    NextToken(b, p, end, cur, l, parents);
    RestIsToken(cur, l, parents);
    hide Rest;
  }

  lemma ChildBytes(b: seq<Byte>, p: nat, end: nat, cur: Items, l: Local, parents: seq<Open>)
    requires p <= end <= |b| && cur.Child? && Tail(cur, l, parents) <= b[p..end]
    ensures cur.name + [0] <= b[p..end]
    ensures var inside := parents + [Open(cur.next, l)];
            var q := p + |cur.name| + 1 + |Padding(|cur.name| + 1)|;
            && q <= end && Rest(cur.body, inside) <= b[q..end]
            && |Tail(cur, l, parents)| == q - p + |Rest(cur.body, inside)|
  {
    hide Rest, Padding;
    var inside := parents + [Open(cur.next, l)];
    var name, pad, rest := cur.name + [0], Padding(|cur.name| + 1), Rest(cur.body, inside);
    Splits(b, p, end, name, pad + rest);
    Splits(b, p + |name|, end, pad, rest);
    assert b[p..end][..|name|] == b[p..p + |name|];
  }

  lemma ChildPlan(b: seq<Byte>, strings: nat, cur: Items, l: Local, parents: seq<Open>, g: Globals)
    requires cur.Child? && AllGood(b, strings, cur, l, parents)
    ensures var inside, inner := parents + [Open(cur.next, l)], Inner(cur.name, l, |parents| + 1);
            && AllGood(b, strings, cur.body, inner, inside) && 0 !in cur.name
            && Outlook(b, strings, cur.body, inner, inside, g) == Outlook(b, strings, cur, l, parents, g)
  {
    var inside := parents + [Open(cur.next, l)];
    assert inside[..|inside| - 1] == parents;
    hide IsCpus;
  }

  lemma ChildOpens(b: seq<Byte>, strings: nat, p: nat, end: nat, cur: Items, l: Local,
                   parents: seq<Open>, g: Globals, goal: Goal)
    requires OnTrack(b, strings, p, end, cur, l, parents, g, goal) && cur.Child?
    ensures p + 4 <= end && p % 4 == 0 && end <= |b| && 0 !in cur.name && cur.name + [0] <= b[p + 4..end]
    ensures var q := p + 4 + |cur.name| + 1 + |Padding(|cur.name| + 1)|;
            OnTrack(b, strings, q, end, cur.body, Inner(cur.name, l, |parents| + 1), parents + [Open(cur.next, l)],
                    g, goal)
  {
    hide Rest, AllGood, Outlook, Tail, Be32, Padding, Inner, TokenOf, AlignUp;
    NextToken(b, p, end, cur, l, parents);
    RestIsToken(cur, l, parents);
    ChildBytes(b, p + 4, end, cur, l, parents);
    ChildPlan(b, strings, cur, l, parents, g);
    AlignIsPadding(p + 4, |cur.name| + 1);
  }

  lemma PropertyPasses(b: seq<Byte>, strings: nat, p: nat, end: nat, cur: Items, l: Local,
                       parents: seq<Open>, g: Globals, goal: Goal)
    requires OnTrack(b, strings, p, end, cur, l, parents, g, goal) && cur.Prop?
    ensures p + 4 <= end <= |b| && p % 4 == 0
    ensures Tail(cur, l, parents) <= b[p + 4..end] && Good(b, strings, cur, |parents|, l.ac)
    ensures var name := CStr(b, strings + cur.nameoff);
            var deep := |parents| >= MAX_DEPTH;
            var q := p + 12 + |cur.data| + |Padding(|cur.data|)|;
            q % 4 == 0 && q <= end && Rest(cur.next, parents) <= b[q..end] ==>
            OnTrack(b, strings, q, end, cur.next,
                    if deep then l else LocalAfter(name, cur.data, l, g), parents,
                    if deep then g else GlobalsAfter(name, cur.data, l, g), goal)
  {
    hide Rest, Padding, CStr, Ascii, Kind, Be32;
    NextToken(b, p, end, cur, l, parents);
    RestIsToken(cur, l, parents);
  }

  class FdtScanner {
    var g: Globals
    const dev: array<Device>
    const reg: array<nat>
    const ac: array<nat>
    const shift: array<nat>
    const names: array<seq<Byte>>

    ghost predicate Valid()
      reads this
    {
      && dev.Length == reg.Length == ac.Length == shift.Length == names.Length == MAX_DEPTH
      && reg != ac && reg != shift && ac != shift
    }

    ghost function Pending(d: nat): Local
      requires Valid() && d < MAX_DEPTH
      reads this, dev, reg, ac, shift, names
    {
      Local(dev[d], reg[d], ac[d], shift[d], IsCpus(names[d]))
    }

    constructor ()
      ensures Valid() && fresh(dev) && fresh(reg) && fresh(ac) && fresh(shift) && fresh(names)
      ensures g == NOTHING && forall d | 0 <= d < MAX_DEPTH :: Pending(d) == AT_ROOT
    {
      g := NOTHING;
      dev := new Device[MAX_DEPTH](_ => NoDevice);
      reg := new nat[MAX_DEPTH](_ => 0);
      ac := new nat[MAX_DEPTH](_ => 2);
      shift := new nat[MAX_DEPTH](_ => 0);
      names := new seq<Byte>[MAX_DEPTH](_ => []);
    }

    method SetRegAt(d: nat)
      requires Valid() && d < MAX_DEPTH
      modifies this`g
      ensures g == SetReg(Pending(d), old(g))
    {
      var base := reg[d];
      match dev[d]
      case NoDevice =>
      case Uart =>
        if g.uart == 0 {
          g := g.(uart := base);
          g := g.(shift := Widened(shift[d]));
        }
      case Plic =>
        if g.plic == 0 {
          g := g.(plic := base);
        }
      case Pcie =>
        if g.pcie == 0 {
          g := g.(pcie := base);
        }
    }

    // Only slot d differs.
    twostate predicate OnlySlot(d: nat)
      requires old(Valid()) && Valid()
      reads this, dev, reg, ac, shift, names
    {
      forall e: nat | e < MAX_DEPTH && e != d :: Pending(e) == old(Pending(e))
    }

    // The kind of a device from its compatible list of len bytes at p.
    method Compatible(b: seq<Byte>, p: nat, len: nat, d: nat)
      requires Valid() && d < MAX_DEPTH
      requires p + len <= |b| && (len > 0 ==> b[p + len - 1] == 0)
      modifies dev
      ensures dev[d] == Kind(b[p..p + len], g, old(dev[d]))
      ensures forall e | 0 <= e < MAX_DEPTH && e != d :: dev[e] == old(dev[e])
    {
      DeviceNamesAreText();
      hide Strings, Ascii;
      var uart := MatchCompatible(b, p, len, Ascii("ns16550a"));
      if !uart {
        uart := MatchCompatible(b, p, len, Ascii("snps,dw-apb-uart"));
      }
      var plic := MatchCompatible(b, p, len, Ascii("riscv,plic0"));
      var pcie := MatchCompatible(b, p, len, Ascii("pci-host-ecam-generic"));
      if g.uart == 0 && uart {
        dev[d] := Uart;
      } else if g.plic == 0 && plic {
        dev[d] := Plic;
      } else if g.pcie == 0 && pcie {
        dev[d] := Pcie;
      }
    }

    // One FDT_PROP token at depth d: nameoff already read, the value of len bytes at p.
    method Property(b: seq<Byte>, strings: nat, nameoff: nat, p: nat, len: nat, d: nat)
      requires Valid() && d < MAX_DEPTH && p + len <= |b| && Terminated(b, strings + nameoff)
      requires CStr(b, strings + nameoff) == Ascii("compatible") && len > 0 ==> b[p + len - 1] == 0
      requires CStr(b, strings + nameoff) == Ascii("reg") && Pending(d).ac == 2 && len >= 4 ==> len >= 8
      modifies this`g, dev, reg, ac, shift
      ensures Pending(d) == LocalAfter(CStr(b, strings + nameoff), b[p..p + len], old(Pending(d)), old(g))
      ensures g == GlobalsAfter(CStr(b, strings + nameoff), b[p..p + len], old(Pending(d)), old(g))
      ensures OnlySlot(d)
    {
      hide Be32, Be64, CStr, Terminated, Ascii, Kind, IsCpus, Widened;
      var at := strings + nameoff;
      NamesDiffer();
      NamesAreText();
      var isCells := StrEq(b, at, Ascii("#address-cells"));
      var isShift := StrEq(b, at, Ascii("reg-shift"));
      var isTimebase := StrEq(b, at, Ascii("timebase-frequency"));
      var isReg := StrEq(b, at, Ascii("reg"));
      var isCompatible := StrEq(b, at, Ascii("compatible"));
      SameBytes(b, p, len);
      if isCells && len == 4 {
        ac[d] := Be32(b, p);
      }
      if isShift && len == 4 {
        shift[d] := Be32(b, p);
        if dev[d] == Uart {
          g := g.(shift := Widened(shift[d]));
        }
      }
      if IsCpus(names[d]) && isTimebase && len == 4 {
        g := g.(timebase := Be32(b, p));
      }
      if isReg && len >= 4 {
        reg[d] := if ac[d] == 2 then Be64(b, p) else Be32(b, p);
        SetRegAt(d);
      }
      if isCompatible {
        Compatible(b, p, len, d);
        SetRegAt(d);
      }
    }

    // One FDT_BEGIN_NODE token: the entries of the new depth are reset, cells are inherited, and the
    // cursor moves past the name and its padding.
    method BeginNode(b: seq<Byte>, p: nat, end: nat, d: nat, ghost name: seq<Byte>) returns (q: nat)
      requires Valid() && d > 0 && p % 4 == 0 && p <= end <= |b|
      requires 0 !in name && name + [0] <= b[p..end]
      modifies dev, reg, ac, shift, names
      ensures q == p + |name| + 1 + |Padding(|name| + 1)|
      ensures 0 < d < MAX_DEPTH ==> Pending(d) == Enter(name, old(Pending(d - 1)))
      ensures forall e: nat | e < MAX_DEPTH && e != d :: Pending(e) == old(Pending(e))
    {
      NameAt(b, p, end, name);
      q := p;
      if d < MAX_DEPTH {
        dev[d] := NoDevice;
        reg[d] := 0;
        ac[d] := ac[d - 1];
        shift[d] := 0;
        var copy: seq<Byte> := [];
        while b[q] != 0 && q < end && |copy| < 32
          invariant p <= q <= p + |name| && q - p == |copy| <= 32
          invariant copy == name[..q - p]
          decreases end - q
        {
          assert name[q - p] == b[q];
          copy := copy + [b[q]];
          q := q + 1;
        }
        assert |copy| == 32 || copy == name;
        CpusInFirst32(name);
        names[d] := copy;
        assert IsCpus(copy) == IsCpus(name);
      }
      NameTail(b, p, q, end, name);
      q := SkipToZero(b, q, end);
      q := q + 1;
      AlignIsPadding(p, |name| + 1);
      q := AlignUp(q);
    }

    ghost predicate Matches(d: nat, l: Local)
      requires Valid()
      reads this, dev, reg, ac, shift, names
    {
      d < MAX_DEPTH ==> Pending(d) == l
    }

    ghost predicate AllMatch(l: Local, parents: seq<Open>)
      requires Valid()
      reads this, dev, reg, ac, shift, names
    {
      Matches(|parents|, l) && forall e | 0 <= e < |parents| :: Matches(e, parents[e].l)
    }

    // One FDT_PROP token, cursor past it.
    method ScanProperty(b: seq<Byte>, strings: nat, p: nat, end: nat, d: nat,
                        ghost cur: Items, ghost l: Local, ghost parents: seq<Open>)
      returns (q: nat)
      requires Valid() && p % 4 == 0 && p <= end <= |b| && cur.Prop?
      requires Tail(cur, l, parents) <= b[p..end] && Good(b, strings, cur, d, l.ac) && Matches(d, l)
      modifies this`g, dev, reg, ac, shift
      ensures q % 4 == 0 && q <= end && q == p + 8 + |cur.data| + |Padding(|cur.data|)|
      ensures Rest(cur.next, parents) <= b[q..end]
      ensures d < MAX_DEPTH ==>
                var name := CStr(b, strings + cur.nameoff);
                && Pending(d) == LocalAfter(name, cur.data, l, old(g))
                && g == GlobalsAfter(name, cur.data, l, old(g))
      ensures d >= MAX_DEPTH ==> g == old(g)
      ensures forall e: nat | e < MAX_DEPTH && e != d :: Pending(e) == old(Pending(e))
    {
      hide Rest, Tail, Padding, AlignUp, LocalAfter, GlobalsAfter, CStr, Terminated, Ascii, Be32, Flat, Good;
      GoodProperty(b, strings, cur, d, l.ac);
      PropertyFields(b, p, end, cur, l, parents);
      var len := Be32(b, p);
      q := p + 4;
      var nameoff := Be32(b, q);
      q := q + 4;
      if d < MAX_DEPTH {
        Property(b, strings, nameoff, q, len, d);
      }
      q := q + len;
      AlignIsPadding(p + 8, len);
      q := AlignUp(q);
    }

    method TakeChild(b: seq<Byte>, strings: nat, p: nat, end: nat, depth: nat,
                     ghost cur: Items, ghost l: Local, ghost parents: seq<Open>, ghost goal: Goal)
      returns (q: nat, ghost inner: Local)
      requires Valid() && OnTrack(b, strings, p, end, cur, l, parents, g, goal) && AllMatch(l, parents)
      requires cur.Child? && depth == |parents| + 1
      modifies dev, reg, ac, shift, names
      ensures q > p
      ensures OnTrack(b, strings, q, end, cur.body, inner, parents + [Open(cur.next, l)], g, goal)
      ensures AllMatch(inner, parents + [Open(cur.next, l)])
    {
      hide OnTrack, Enter, Padding;
      ChildOpens(b, strings, p, end, cur, l, parents, g, goal);
      q := BeginNode(b, p + 4, end, depth, cur.name);
      inner := Inner(cur.name, l, depth);
    }

    method TakeProperty(b: seq<Byte>, strings: nat, p: nat, end: nat, depth: nat,
                        ghost cur: Items, ghost l: Local, ghost parents: seq<Open>, ghost goal: Goal)
      returns (q: nat, ghost after: Local)
      requires Valid() && OnTrack(b, strings, p, end, cur, l, parents, g, goal) && AllMatch(l, parents)
      requires cur.Prop? && depth == |parents|
      modifies this`g, dev, reg, ac, shift
      ensures q > p
      ensures OnTrack(b, strings, q, end, cur.next, after, parents, g, goal)
      ensures AllMatch(after, parents)
    {
      hide OnTrack, Padding, LocalAfter, GlobalsAfter, Rest, Tail, Good, Flat;
      PropertyPasses(b, strings, p, end, cur, l, parents, g, goal);
      ghost var name := CStr(b, strings + cur.nameoff);
      after := if depth < MAX_DEPTH then LocalAfter(name, cur.data, l, g) else l;
      q := ScanProperty(b, strings, p + 4, end, depth, cur, l, parents);
    }

    // The loop of fdt_init. It returns to depth 0 just past the end token, having recorded what a
    // recursive reading of the tree records.
    method Scan(b: seq<Byte>, strings: nat, start: nat, end: nat, ghost t: Items) returns (p: nat, depth: int)
      requires Valid() && g == NOTHING && Pending(0) == AT_ROOT
      requires start % 4 == 0 && start <= end <= |b|
      requires Flat(t) + Big32(END) <= b[start..end] && Good(b, strings, t, 0, 2)
      modifies this`g, dev, reg, ac, shift, names
      ensures g == Walk(b, strings, t, 0, AT_ROOT, NOTHING)
      ensures p == start + |Flat(t)| + 4 && depth == 0
    {
      hide Big32, Be32, Flat, Good, Walk, Padding;
      p, depth := start, 0;
      ghost var cur, l, parents := t, AT_ROOT, [];
      ghost var goal := Goal(Walk(b, strings, t, 0, AT_ROOT, NOTHING), start + |Flat(t)| + 4);
      assert |Rest(t, [])| == |Flat(t)| + 4 by {
        EndTokenLength();
      }
      ghost var finished := false;
      while p < end
        invariant !finished && depth == |parents|
        invariant OnTrack(b, strings, p, end, cur, l, parents, g, goal) && AllMatch(l, parents)
        decreases end - p
      {
        TokenAhead(b, strings, p, end, cur, l, parents, g, goal);
        hide Rest, OnTrack;
        var token := Be32(b, p);
        if token == BEGIN_NODE {
          depth := depth + 1;
          ghost var inner;
          p, inner := TakeChild(b, strings, p, end, depth, cur, l, parents, goal);
          cur, l, parents := cur.body, inner, parents + [Open(cur.next, l)];
        } else if token == END_NODE {
          NodeCloses(b, strings, p, end, cur, l, parents, g, goal);
          p := p + 4;
          depth := depth - 1;
          ghost var top := parents[|parents| - 1];
          cur, l, parents := top.items, top.l, parents[..|parents| - 1];
        } else if token == PROP {
          p, l := TakeProperty(b, strings, p, end, depth, cur, l, parents, goal);
          cur := cur.next;
        } else if token == NOP {
          NopPasses(b, strings, p, end, cur, l, parents, g, goal);
          p := p + 4;
          cur := cur.next;
        } else if token == END {
          p := p + 4;
          finished := true;
          break;
        }
      }
      if !finished {
        TokenAhead(b, strings, p, end, cur, l, parents, g, goal);
      }
    }
  }

  lemma EndTokenLength()
    ensures |Big32(END)| == 4
  {
  }

  // What well-formedness says about the property at hand.
  lemma GoodProperty(b: seq<Byte>, strings: nat, cur: Items, d: nat, ac: nat)
    requires cur.Prop? && Good(b, strings, cur, d, ac)
    ensures |cur.data| < 0x1_0000_0000 && cur.nameoff < 0x1_0000_0000
    ensures Terminated(b, strings + cur.nameoff)
    ensures CStr(b, strings + cur.nameoff) == Ascii("compatible") && |cur.data| > 0 ==> cur.data[|cur.data| - 1] == 0
    ensures d < MAX_DEPTH && CStr(b, strings + cur.nameoff) == Ascii("reg") && ac == 2 && |cur.data| >= 4 ==>
              |cur.data| >= 8
  {
  }

  lemma PropertyFields(b: seq<Byte>, p: nat, end: nat, cur: Items, l: Local, parents: seq<Open>)
    requires p <= end <= |b| && cur.Prop? && Tail(cur, l, parents) <= b[p..end]
    requires |cur.data| < 0x1_0000_0000 && cur.nameoff < 0x1_0000_0000
    ensures var q := p + 8 + |cur.data|;
            && q + |Padding(|cur.data|)| <= end
            && Be32(b, p) == |cur.data| && Be32(b, p + 4) == cur.nameoff && b[p + 8..q] == cur.data
            && Rest(cur.next, parents) <= b[q + |Padding(|cur.data|)|..end]
  {
    hide Rest, Be32, Big32, Padding;
    var data, pad, rest := cur.data, Padding(|cur.data|), Rest(cur.next, parents);
    WordAt(b, p, end, |data|, Big32(cur.nameoff) + (data + (pad + rest)));
    WordAt(b, p + 4, end, cur.nameoff, data + (pad + rest));
    Splits(b, p + 8, end, data, pad + rest);
    Splits(b, p + 8 + |data|, end, pad, rest);
  }

  // A name in the block as the C string it is.
  lemma NameAt(b: seq<Byte>, p: nat, end: nat, name: seq<Byte>)
    requires p <= end <= |b| && 0 !in name && name + [0] <= b[p..end]
    ensures p + |name| < end && b[p..p + |name|] == name && b[p + |name|] == 0
    ensures CStr(b, p) == name && Terminated(b, p)
  {
    Splits(b, p, end, name, [0]);
    assert b[p + |name|..end][0] == 0;
    CStrIs(b, p, |name|);
  }

  lemma NameTail(b: seq<Byte>, p: nat, q: nat, end: nat, name: seq<Byte>)
    requires p <= q <= p + |name| < end <= |b| && b[p..p + |name|] == name && b[p + |name|] == 0 && 0 !in name
    ensures Terminated(b, q) && q + |CStr(b, q)| == p + |name|
  {
    assert b[q..p + |name|] == name[q - p..];
    CStrIs(b, q, p + |name| - q);
  }

  lemma CpusInFirst32(name: seq<Byte>)
    ensures |name| > 32 ==> IsCpus(name[..32]) == IsCpus(name)
  {
    if |name| > 32 {
      assert name[..32][..4] == name[..4];
    }
  }

  lemma DeviceNamesAreText()
    ensures 0 !in Ascii("ns16550a") && 0 !in Ascii("snps,dw-apb-uart")
    ensures 0 !in Ascii("riscv,plic0") && 0 !in Ascii("pci-host-ecam-generic")
  {
  }

  lemma NamesAreText()
    ensures 0 !in Ascii("#address-cells") && 0 !in Ascii("reg-shift") && 0 !in Ascii("timebase-frequency")
    ensures 0 !in Ascii("reg") && 0 !in Ascii("compatible")
  {
  }

  lemma SameBytes(b: seq<Byte>, p: nat, len: nat)
    requires p + len <= |b|
    ensures len >= 4 ==> Be32(b[p..p + len], 0) == Be32(b, p)
    ensures len >= 8 ==> Be64(b[p..p + len], 0) == Be64(b, p)
  {
  }
}
