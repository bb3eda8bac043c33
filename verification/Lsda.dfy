/** What a compiler writes into a language-specific data area is what the personality reads from it. */
module LsdaTables {
  import opened Basics
  import opened Leb128
  import opened UnwindSpec
  import opened PersonalityCode

  // ---------------------------------------------------------------- encoded values

  const WORD: nat := 0x1_0000_0000_0000_0000

  function Two(a: nat, b: nat): nat {
    a + 0x100 * b
  }

  function Four(a: nat, b: nat, c: nat, d: nat): nat {
    a + 0x100 * b + 0x1_0000 * c + 0x100_0000 * d
  }

  // The formats that hold a plain number: width, byte order and sign.
  lemma PlainFormats(t: Tables, p: nat)
    requires p + 8 <= |t.buf|
    ensures var b := t.buf[p..p + 8];
            var two, four := Two(b[0], b[1]), Four(b[0], b[1], b[2], b[3]);
            var eight := four + 0x1_0000_0000 * Four(b[4], b[5], b[6], b[7]);
            && ReadEnc(t, p, 0x02) == Some(Cursor(two, p + 2))
            && ReadEnc(t, p, 0x03) == Some(Cursor(four, p + 4))
            && ReadEnc(t, p, 0x00) == Some(Cursor(eight, p + 8)) == ReadEnc(t, p, 0x0c)
            && ReadEnc(t, p, 0x0d) == Some(Cursor(if two < 0x8000 then two else WORD - 0x1_0000 + two, p + 2))
            && ReadEnc(t, p, 0x0b)
               == Some(Cursor(if four < 0x8000_0000 then four else WORD - 0x1_0000_0000 + four, p + 4))
            && ReadEnc(t, p, 0xff) == Some(Cursor(0, p))
  {
    LittleIsSum(t.buf, p);
    hide Little;
  }

  lemma LittleIsSum(buf: seq<Byte>, p: nat)
    requires p + 8 <= |buf|
    ensures var b := buf[p..p + 8];
            && Little(buf, p, 2) == Two(b[0], b[1])
            && Little(buf, p, 4) == Four(b[0], b[1], b[2], b[3])
            && Little(buf, p, 8) == Four(b[0], b[1], b[2], b[3]) + 0x1_0000_0000 * Four(b[4], b[5], b[6], b[7])
  {
    TwoBytes(buf, p);
    TwoBytes(buf, p + 2);
    TwoBytes(buf, p + 4);
    TwoBytes(buf, p + 6);
    FurtherOn(buf, p, 2);
    FurtherOn(buf, p, 6);
    FurtherOn(buf, p + 2, 4);
    FurtherOn(buf, p + 4, 2);
    hide Little;
  }

  lemma TwoBytes(buf: seq<Byte>, p: nat)
    requires p + 2 <= |buf|
    ensures Little(buf, p, 2) == Two(buf[p], buf[p + 1])
  {
    assert Little(buf, p + 1, 1) == buf[p + 1];
  }

  lemma FurtherOn(buf: seq<Byte>, p: nat, n: nat)
    requires p + 2 + n <= |buf|
    ensures Little(buf, p, n + 2) == Two(buf[p], buf[p + 1]) + 0x1_0000 * Little(buf, p + 2, n)
  {
    var low: nat, next: nat := buf[p], buf[p + 1];
    assert Little(buf, p + 1, n + 1) == next + 256 * Little(buf, p + 2, n);
    assert Little(buf, p, n + 2) == low + 256 * Little(buf, p + 1, n + 1);
  }

  // On top of a plain format: 0x10 counts from the place of the value, 0x80 means what memory holds
  // there.
  lemma Modifiers(t: Tables, p: nat, enc: Byte)
    requires enc < 0x10 && ReadEnc(t, p, enc).Some? && enc in {0x00, 0x01, 0x02, 0x03, 0x0b, 0x0c, 0x0d}
    ensures var Cursor(v, next) := ReadEnc(t, p, enc).value;
            var there := (v + t.addr + p) % WORD;
            && ReadEnc(t, p, enc + 0x10) == Some(Cursor(there, next))
            && ReadEnc(t, p, enc + 0x80) == Some(Cursor(At(t.mem, v), next))
            && ReadEnc(t, p, enc + 0x90) == Some(Cursor(At(t.mem, there), next))
  {
    hide RawEnc;
  }

  lemma UlebHere(pre: seq<Byte>, v: nat, post: seq<Byte>)
    requires v < WORD
    ensures UlebAt(pre + EncodeU(v) + post, |pre|) == Some(Cursor(v, |pre| + |EncodeU(v)|))
  {
    UnsignedRoundTrip(pre, v, post);
  }

  lemma SlebHere(pre: seq<Byte>, v: int, post: seq<Byte>)
    requires -TWO63 <= v < TWO63
    ensures SlebAt(pre + EncodeS(v) + post, |pre|) == Some(Cursor(v, |pre| + |EncodeS(v)|))
  {
    SignedRoundTrip(pre, v, post);
  }

  // ---------------------------------------------------------------- header

  // The start of the area: an omitted landing-pad base, or one of four bytes, which is skipped.
  predicate PadBase(lp: seq<Byte>) {
    if |lp| == 1 then lp[0] == 0xff else |lp| == 5 && lp[0] != 0xff
  }

  function HeaderBytes(lp: seq<Byte>, ttEnc: Byte, ttBase: nat, csEnc: Byte, csLen: nat): seq<Byte> {
    lp + [ttEnc] + (if ttEnc == 0xff then [] else EncodeU(ttBase)) + [csEnc] + EncodeU(csLen)
  }

  // The type table ends where its base counts to, the call sites start behind the header.
  lemma HeaderRoundTrip(lp: seq<Byte>, ttEnc: Byte, ttBase: nat, csEnc: Byte, csLen: nat, rest: seq<Byte>)
    requires PadBase(lp) && ttBase < WORD && csLen < WORD
    ensures var head := HeaderBytes(lp, ttEnc, ttBase, csEnc, csLen);
            var ends := |lp| + 1 + if ttEnc == 0xff then 0 else |EncodeU(ttBase)| + ttBase;
            ParseHeader(head + rest) == Some(Header(ttEnc, ends, csEnc, |head|, |head| + csLen))
  {
    hide EncodeU, UlebAt;
    var front := lp + [ttEnc];
    var tt := if ttEnc == 0xff then [] else EncodeU(ttBase);
    var buf := HeaderBytes(lp, ttEnc, ttBase, csEnc, csLen) + rest;
    var before := front + tt + [csEnc];
    assert buf == before + EncodeU(csLen) + rest;
    assert buf[0] == lp[0] && buf[|lp|] == ttEnc && buf[|front| + |tt|] == csEnc;
    UlebHere(before, csLen, rest);
    if ttEnc != 0xff {
      assert buf == front + EncodeU(ttBase) + ([csEnc] + EncodeU(csLen) + rest);
      UlebHere(front, ttBase, [csEnc] + EncodeU(csLen) + rest);
    }
  }

  // ---------------------------------------------------------------- call sites

  predicate Words(c: CallSite) {
    c.start < WORD && c.len < WORD && c.pad < WORD && c.action < WORD
  }

  function SiteBytes(c: CallSite): seq<Byte> {
    EncodeU(c.start) + EncodeU(c.len) + EncodeU(c.pad) + EncodeU(c.action)
  }

  function SitesBytes(sites: seq<CallSite>): seq<Byte> {
    if sites == [] then [] else SiteBytes(sites[0]) + SitesBytes(sites[1..])
  }

  lemma UlebFormat(t: Tables, p: nat)
    ensures ReadEnc(t, p, 0x01) == UlebAt(t.buf, p)
  {
  }

  lemma SiteRoundTrip(t: Tables, pre: seq<Byte>, c: CallSite, post: seq<Byte>)
    requires Words(c) && t.buf == pre + SiteBytes(c) + post
    ensures SiteAt(t, |pre|, 0x01) == Some(Cursor(c, |pre| + |SiteBytes(c)|))
  {
    hide EncodeU, UlebAt, ReadEnc;
    var s, l, d, a := EncodeU(c.start), EncodeU(c.len), EncodeU(c.pad), EncodeU(c.action);
    assert t.buf == pre + s + (l + d + a + post);
    UlebHere(pre, c.start, l + d + a + post);
    UlebFormat(t, |pre|);
    assert t.buf == (pre + s) + l + (d + a + post);
    UlebHere(pre + s, c.len, d + a + post);
    UlebFormat(t, |pre + s|);
    assert t.buf == (pre + s + l) + d + (a + post);
    UlebHere(pre + s + l, c.pad, a + post);
    UlebFormat(t, |pre + s + l|);
    assert t.buf == (pre + s + l + d) + a + post;
    UlebHere(pre + s + l + d, c.action, post);
  }

  // Every call-site table is read back record by record.
  lemma {:induction false} SitesRoundTrip(t: Tables, pre: seq<Byte>, sites: seq<CallSite>, post: seq<Byte>)
    requires (forall c | c in sites :: Words(c)) && t.buf == pre + SitesBytes(sites) + post
    ensures Sites(t, |pre|, |pre| + |SitesBytes(sites)|, 0x01) == Some(sites)
    decreases |sites|
  {
    hide SiteBytes, SiteAt;
    if sites != [] {
      var c, rest := sites[0], sites[1..];
      assert t.buf == pre + SiteBytes(c) + (SitesBytes(rest) + post);
      SiteRoundTrip(t, pre, c, SitesBytes(rest) + post);
      assert t.buf == (pre + SiteBytes(c)) + SitesBytes(rest) + post;
      SitesRoundTrip(t, pre + SiteBytes(c), rest, post);
      assert [c] + rest == sites;
    }
  }

  // The call site found is the first whose stretch of code has the instruction.
  lemma {:induction false} FirstCoveringIsFirst(sites: seq<CallSite>, off: nat)
    requires forall c | c in sites :: c.start + c.len < WORD
    ensures match FirstCovering(sites, off)
            case None => forall i | 0 <= i < |sites| :: !(sites[i].start <= off < sites[i].start + sites[i].len)
            case Some(c) =>
              exists i | 0 <= i < |sites| ::
                && sites[i] == c && c.start <= off < c.start + c.len
                && forall j | 0 <= j < i :: !(sites[j].start <= off < sites[j].start + sites[j].len)
    decreases |sites|
  {
    if sites != [] && !Covers(sites[0], off) {
      FirstCoveringIsFirst(sites[1..], off);
    }
  }

  // ---------------------------------------------------------------- actions and types

  // One record behind the other; the displacement leads to the next, 0 ends the chain.
  function ChainBytes(filters: seq<int>): seq<Byte> {
    if filters == [] then []
    else if |filters| == 1 then EncodeS(filters[0]) + EncodeS(0)
    else EncodeS(filters[0]) + EncodeS(|EncodeS(filters[0])| + 1) + ChainBytes(filters[1..])
  }

  // Two numbers one behind the other, as a record has them.
  lemma RecordHere(pre: seq<Byte>, v: int, w: int, post: seq<Byte>)
    requires -TWO63 <= v < TWO63 && -TWO63 <= w < TWO63
    ensures var buf := pre + EncodeS(v) + EncodeS(w) + post;
            && SlebAt(buf, |pre|) == Some(Cursor(v, |pre| + |EncodeS(v)|))
            && SlebAt(buf, |pre| + |EncodeS(v)|) == Some(Cursor(w, |pre| + |EncodeS(v)| + |EncodeS(w)|))
  {
    hide EncodeS, SlebAt;
    var buf := pre + EncodeS(v) + EncodeS(w) + post;
    assert buf == pre + EncodeS(v) + (EncodeS(w) + post);
    SlebHere(pre, v, EncodeS(w) + post);
    SlebHere(pre + EncodeS(v), w, post);
  }

  lemma ChainGoesOn(buf: seq<Byte>, pos: nat, filters: seq<int>, q: nat, n: nat)
    requires |filters| > 1 && n > 0 && IsChain(buf, pos + n, filters[1..])
    requires SlebAt(buf, pos) == Some(Cursor(filters[0], q)) && SlebAt(buf, q).Some? && SlebAt(buf, q).value.value == n
    ensures IsChain(buf, pos, filters)
  {
    hide SlebAt;
  }

  lemma ChainEnds(buf: seq<Byte>, pos: nat, filters: seq<int>, q: nat)
    requires |filters| == 1
    requires SlebAt(buf, pos) == Some(Cursor(filters[0], q)) && SlebAt(buf, q).Some? && SlebAt(buf, q).value.value == 0
    ensures IsChain(buf, pos, filters)
  {
    hide SlebAt;
  }

  lemma {:induction false} ChainRoundTrip(pre: seq<Byte>, filters: seq<int>, post: seq<Byte>)
    requires filters != [] && forall f | f in filters :: -TWO63 <= f < TWO63
    ensures IsChain(pre + ChainBytes(filters) + post, |pre|, filters)
    decreases |filters|
  {
    hide EncodeS, SlebAt, IsChain;
    var f := EncodeS(filters[0]);
    var buf := pre + ChainBytes(filters) + post;
    assert filters[0] in filters;
    if |filters| == 1 {
      assert buf == pre + f + EncodeS(0) + post;
      RecordHere(pre, filters[0], 0, post);
      ChainEnds(buf, |pre|, filters, |pre| + |f|);
    } else {
      SignedLength(filters[0]);
      var next, rest := EncodeS(|f| + 1), ChainBytes(filters[1..]);
      OneByte(|f| + 1);
      assert buf == pre + f + next + (rest + post);
      RecordHere(pre, filters[0], |f| + 1, rest + post);
      assert forall g | g in filters[1..] :: g in filters;
      ChainRoundTrip(pre + f + next, filters[1..], post);
      hide ChainBytes;
      assert buf == (pre + f + next) + rest + post;
      ChainGoesOn(buf, |pre|, filters, |pre| + |f|, |f| + 1);
    }
  }

  lemma OneByte(n: nat)
    requires n < 64
    ensures |EncodeS(n)| == 1
  {
  }

  lemma FourFits(a: Byte, b: Byte, c: Byte, d: Byte)
    ensures Four(a, b, c, d) % 0x1_0000_0000 == Four(a, b, c, d)
  {
  }

  // The chain as C++ compilers lay it out: the displacement counts from its own field.
  predicate IsStandardChain(buf: seq<Byte>, pos: int, filters: seq<int>)
    decreases |filters|
  {
    && filters != [] && pos >= 0
    && var f := SlebAt(buf, pos);
       && f.Some? && f.value.value == filters[0]
       && var n := SlebAt(buf, f.value.next);
          && n.Some?
          && if n.value.value == 0 then |filters| == 1
             else IsStandardChain(buf, f.value.next + n.value.value, filters[1..])
  }

  function StandardBytes(filters: seq<int>): seq<Byte> {
    if filters == [] then []
    else if |filters| == 1 then EncodeS(filters[0]) + EncodeS(0)
    else EncodeS(filters[0]) + EncodeS(1) + StandardBytes(filters[1..])
  }

  lemma {:induction false} StandardRoundTrip(pre: seq<Byte>, filters: seq<int>, post: seq<Byte>)
    requires filters != [] && forall f | f in filters :: -TWO63 <= f < TWO63
    ensures IsStandardChain(pre + StandardBytes(filters) + post, |pre|, filters)
    decreases |filters|
  {
    hide EncodeS, SlebAt;
    var f := EncodeS(filters[0]);
    var buf := pre + StandardBytes(filters) + post;
    assert filters[0] in filters;
    if |filters| == 1 {
      assert buf == pre + f + EncodeS(0) + post;
      RecordHere(pre, filters[0], 0, post);
    } else {
      var next, rest := EncodeS(1), StandardBytes(filters[1..]);
      OneByte(1);
      assert buf == pre + f + next + (rest + post);
      RecordHere(pre, filters[0], 1, rest + post);
      assert buf == (pre + f + next) + rest + post;
      assert forall g | g in filters[1..] :: g in filters;
      StandardRoundTrip(pre + f + next, filters[1..], post);
    }
  }

  // A first record, a gap as long as its filter, and the rest where the displacement leads from its own
  // field. From the start of the record it leads to the gap.
  function WithGap(filters: seq<int>, gap: int): seq<Byte>
    requires |filters| >= 2
  {
    var f := EncodeS(filters[0]);
    f + EncodeS(|f| + 1) + Repeat(EncodeS(gap), |f|) + StandardBytes(filters[1..])
  }

  function Repeat(b: seq<Byte>, n: nat): seq<Byte> {
    if n == 0 then [] else b + Repeat(b, n - 1)
  }

  lemma {:induction false} RepeatLength(b: seq<Byte>, n: nat)
    requires |b| == 1
    ensures |Repeat(b, n)| == n
  {
    if n > 0 {
      RepeatLength(b, n - 1);
    }
  }

  lemma GapLayout(filters: seq<int>, gap: int)
    requires |filters| >= 2 && (forall f | f in filters :: -TWO63 <= f < TWO63) && 0 <= gap < 64
    ensures var buf, n := WithGap(filters, gap), |EncodeS(filters[0])|;
            && n > 0 && SlebAt(buf, 0) == Some(Cursor(filters[0], n)) && SlebAt(buf, n) == Some(Cursor(n + 1, n + 1))
            && SlebAt(buf, n + 1) == Some(Cursor(gap, n + 2)) && IsStandardChain(buf, n + n + 1, filters[1..])
  {
    hide EncodeS, SlebAt, StandardBytes, IsStandardChain;
    assert filters[0] in filters && forall g | g in filters[1..] :: g in filters;
    SignedLength(filters[0]);
    var f := EncodeS(filters[0]);
    var next, g, rest := EncodeS(|f| + 1), EncodeS(gap), StandardBytes(filters[1..]);
    OneByte(|f| + 1);
    OneByte(gap);
    RepeatLength(g, |f|);
    var fill := Repeat(g, |f|);
    var buf := WithGap(filters, gap);
    assert fill == g + Repeat(g, |f| - 1);
    hide WithGap, Repeat;
    assert buf == [] + f + next + (fill + rest);
    RecordHere([], filters[0], |f| + 1, fill + rest);
    assert buf == (f + next) + g + (Repeat(g, |f| - 1) + rest);
    SlebHere(f + next, gap, Repeat(g, |f| - 1) + rest);
    assert buf == (f + next + fill) + rest + [];
    StandardRoundTrip(f + next + fill, filters[1..], []);
  }

  lemma GapIsMisread(filters: seq<int>, gap: int)
    requires |filters| >= 2 && (forall f | f in filters :: -TWO63 <= f < TWO63)
    requires 0 <= gap < 64 && gap != filters[1]
    ensures IsStandardChain(WithGap(filters, gap), 0, filters) && !IsChain(WithGap(filters, gap), 0, filters)
  {
    hide EncodeS, SlebAt, WithGap;
    GapLayout(filters, gap);
  }

  // Chains so laid out are read as such exactly when they have one record.
  lemma StandardChainsReadExactly(filters: seq<int>)
    requires filters != [] && forall f | f in filters :: -TWO63 <= f < TWO63
    ensures (forall buf, pos | IsStandardChain(buf, pos, filters) :: IsChain(buf, pos, filters)) <==> |filters| == 1
  {
    if |filters| >= 2 {
      var gap := if filters[1] == 0 then 1 else 0;
      GapIsMisread(filters, gap);
    }
  }

  lemma FourBytesAt(buf: seq<Byte>, p: nat)
    requires p + 4 <= |buf|
    ensures Little(buf, p, 4) == Four(buf[p], buf[p + 1], buf[p + 2], buf[p + 3])
  {
    TwoBytes(buf, p);
    TwoBytes(buf, p + 2);
    FurtherOn(buf, p, 2);
    hide Little;
  }

  // Entry `filter` of the type table, counted back from its end, is this type.
  predicate TypeEntry(buf: seq<Byte>, end: nat, filter: nat, ti: nat) {
    && 4 * filter <= end && end - 4 * filter + 4 <= |buf|
    && var p := end - 4 * filter;
       Four(buf[p], buf[p + 1], buf[p + 2], buf[p + 3]) == ti
  }

  lemma ReadFour(t: Tables, p: nat)
    requires p + 4 <= |t.buf|
    ensures ReadEnc(t, p, 0x03) == Some(Cursor(Little(t.buf, p, 4), p + 4))
  {
    hide Little;
  }

  lemma TypeRoundTrip(t: Tables, h: Header, filter: nat, ti: nat)
    requires h.ttEnc == 0x03 && TypeEntry(t.buf, h.typeTable, filter, ti)
    ensures TypeAt(t, h, filter) == Some(ti)
  {
    hide Little, Four, ReadEnc;
    var p := h.typeTable - 4 * filter;
    FourBytesAt(t.buf, p);
    FourFits(t.buf[p], t.buf[p + 1], t.buf[p + 2], t.buf[p + 3]);
    ReadFour(t, p);
  }

  // Of wider entries the low four bytes count, and without a table every type is 0.
  lemma OtherTypes(t: Tables, h: Header, filter: nat)
    ensures h.ttEnc == 0xff ==> TypeAt(t, h, filter) == Some(0)
    ensures h.ttEnc == 0x00 && 4 * filter <= h.typeTable && h.typeTable - 4 * filter + 8 <= |t.buf| ==>
              var p := h.typeTable - 4 * filter;
              TypeAt(t, h, filter) == Some(Four(t.buf[p], t.buf[p + 1], t.buf[p + 2], t.buf[p + 3]))
  {
    if h.ttEnc == 0x00 && 4 * filter <= h.typeTable && h.typeTable - 4 * filter + 8 <= |t.buf| {
      var p := h.typeTable - 4 * filter;
      PlainFormats(t, p);
      var b := t.buf[p..p + 8];
      LowHalf(b[0], b[1], b[2], b[3], Four(b[4], b[5], b[6], b[7]));
      hide ReadEnc, Four;
    }
  }

  lemma LowHalf(a: Byte, b: Byte, c: Byte, d: Byte, high: nat)
    ensures (Four(a, b, c, d) + 0x1_0000_0000 * high) % 0x1_0000_0000 == Four(a, b, c, d)
  {
  }

  // ---------------------------------------------------------------- classes

  // A vtable starts with the address of the parent's, that of the last class with 0.
  predicate HasParent(mem: map<nat, nat>, vts: seq<nat>, i: nat)
    requires i < |vts|
  {
    vts[i] != 0 && vts[i] in mem && mem[vts[i]] == if i == |vts| - 1 then 0 else vts[i + 1]
  }

  // These are then the classes an exception is of, up to the final 0.
  lemma {:induction false} ParentsAreChained(mem: map<nat, nat>, vts: seq<nat>)
    requires vts != [] && forall i | 0 <= i < |vts| :: HasParent(mem, vts, i)
    ensures VtableChain(mem, vts[0], vts + [0])
    decreases |vts|
  {
    assert HasParent(mem, vts, 0);
    if |vts| == 1 {
      assert (vts + [0])[1..] == [0] && VtableChain(mem, 0, [0]);
    } else {
      var rest := vts[1..];
      forall i | 0 <= i < |rest| ensures HasParent(mem, rest, i) {
        assert HasParent(mem, vts, i + 1);
      }
      ParentsAreChained(mem, rest);
      assert (vts + [0])[1..] == rest + [0];
    }
  }

  // ---------------------------------------------------------------- the whole area

  // A header for these call sites and a type table of four-byte entries.
  function AreaHead(sites: seq<CallSite>, ttBase: nat): seq<Byte> {
    HeaderBytes([0xff], 0x03, ttBase, 0x01, |SitesBytes(sites)|)
  }

  function TypesEnd(ttBase: nat): nat {
    2 + |EncodeU(ttBase)| + ttBase
  }

  // An area with these call sites, a chain of these filters for the one that covers the instruction, and
  // these types for its clauses is read as just that.
  lemma AreaRoundTrip(t: Tables, sites: seq<CallSite>, before: seq<Byte>, filters: seq<int>, after: seq<Byte>,
                      ttBase: nat, clause: map<nat, nat>, off: nat)
    requires (forall c | c in sites :: Words(c)) && (forall f | f in filters :: -TWO63 <= f < TWO63)
    requires ttBase < WORD && |SitesBytes(sites)| < WORD
    requires t.buf == AreaHead(sites, ttBase) + SitesBytes(sites) + before + ChainBytes(filters) + after
    requires forall f: nat | f in filters && f > 0 :: TypeEntry(t.buf, TypesEnd(ttBase), f, At(clause, f))
    requires FirstCovering(sites, off).Some?
    requires var c := FirstCovering(sites, off).value;
             if filters == [] then c.action == 0 else c.action == |before| + 1
    ensures Describes(t, off, Site(FirstCovering(sites, off).value.pad, filters, clause))
  {
    hide EncodeU, HeaderBytes, ParseHeader, Sites, IsChain, TypeAt, TypeEntry, ChainBytes, SitesBytes, FirstCovering;
    var head, body, chain := AreaHead(sites, ttBase), SitesBytes(sites), ChainBytes(filters);
    assert t.buf == head + (body + before + chain + after);
    HeaderRoundTrip([0xff], 0x03, ttBase, 0x01, |body|, body + before + chain + after);
    var h := ParseHeader(t.buf).value;
    assert t.buf == head + body + (before + chain + after);
    SitesRoundTrip(t, head, sites, before + chain + after);
    forall f: nat | f in filters && f > 0 ensures TypeAt(t, h, f) == Some(At(clause, f)) {
      TypeRoundTrip(t, h, f, At(clause, f));
    }
    if filters != [] {
      assert t.buf == (head + body + before) + chain + after;
      ChainRoundTrip(head + body + before, filters, after);
    }
  }

  // Without a call site for the instruction the area says nothing about it.
  lemma UncoveredRoundTrip(t: Tables, sites: seq<CallSite>, rest: seq<Byte>, ttBase: nat, off: nat)
    requires (forall c | c in sites :: Words(c)) && ttBase < WORD && |SitesBytes(sites)| < WORD
    requires t.buf == AreaHead(sites, ttBase) + SitesBytes(sites) + rest && FirstCovering(sites, off) == None
    ensures Describes(t, off, NoSite)
  {
    hide EncodeU, HeaderBytes, ParseHeader, Sites, SitesBytes, FirstCovering;
    var head, body := AreaHead(sites, ttBase), SitesBytes(sites);
    assert t.buf == head + (body + rest);
    HeaderRoundTrip([0xff], 0x03, ttBase, 0x01, |body|, body + rest);
    SitesRoundTrip(t, head, sites, rest);
  }
}
