/** What the exception personality decides, on decoded unwind tables (section 1.6 of the Itanium C++
  * ABI: Exception Handling). */
module UnwindSpec {
  // What a frame's tables say about the interrupted instruction: no tables or no call site, or the
  // landing pad (0 for none), the filters of the action chain, empty when there is no action, and the
  // frame's own type table: the type a positive filter names there, 0 for catch-all.
  datatype FrameInfo = NoSite | Site(pad: nat, filters: seq<int>, clause: map<nat, nat>)

  // `typeWord` maps a type to the vtable found there; `ancestors` are the vtables of the exception's
  // class and its parents, ending in 0.
  datatype Exception = Exception(typeWord: map<nat, nat>, ancestors: seq<nat>)

  function At(m: map<nat, nat>, k: nat): nat {
    if k in m then m[k] else 0
  }

  predicate Catches(e: Exception, clause: map<nat, nat>, filter: int) {
    filter > 0 && (At(clause, filter) == 0 || At(e.typeWord, At(clause, filter)) in e.ancestors)
  }

  // 1-based position of the first clause from i on that catches, 0 when none does.
  function FirstCatch(e: Exception, clause: map<nat, nat>, filters: seq<int>, i: nat := 0): nat
    requires i <= |filters|
    decreases |filters| - i
  {
    if i == |filters| then 0
    else if Catches(e, clause, filters[i]) then i + 1
    else FirstCatch(e, clause, filters, i + 1)
  }

  function HasCleanup(filters: seq<int>, i: nat := 0): bool
    requires i <= |filters|
    decreases |filters| - i
  {
    i < |filters| && (filters[i] <= 0 || HasCleanup(filters, i + 1))
  }

  datatype Verdict = Continue | HandlerFound | Install(pad: nat, selector: nat)

  function Search(e: Exception, f: FrameInfo): Verdict {
    if f.Site? && FirstCatch(e, f.clause, f.filters) > 0 then HandlerFound else Continue
  }

  function Cleanup(e: Exception, f: FrameInfo, isHandler: bool): Verdict {
    if f.NoSite? || f.pad == 0 then Continue
    else if !isHandler && f.filters != [] && !HasCleanup(f.filters) then Continue
    else Install(f.pad, FirstCatch(e, f.clause, f.filters))
  }

  // The vtable a type holds is that of the exception's class or of one of its parents.
  ghost predicate IsKindOf(e: Exception, ti: nat) {
    exists j | 0 <= j < |e.ancestors| :: e.ancestors[j] == if ti in e.typeWord then e.typeWord[ti] else 0
  }

  // A positive filter without a type, or with 0 for it, catches everything; with a type it catches what
  // is of that kind. Other filters catch nothing.
  lemma CatchesExactly(e: Exception, clause: map<nat, nat>, filter: int)
    ensures Catches(e, clause, filter) <==>
            filter > 0 && (filter !in clause || clause[filter] == 0 || IsKindOf(e, clause[filter]))
  {
  }

  lemma {:induction false} HasCleanupMeaning(filters: seq<int>, i: nat)
    requires i <= |filters|
    ensures HasCleanup(filters, i) <==> exists k | i <= k < |filters| :: filters[k] <= 0
    decreases |filters| - i
  {
    if i < |filters| && filters[i] > 0 {
      HasCleanupMeaning(filters, i + 1);
    }
  }

  lemma {:induction false} FirstCatchIsFirst(e: Exception, clause: map<nat, nat>, filters: seq<int>, i: nat)
    requires i <= |filters|
    ensures var k := FirstCatch(e, clause, filters, i);
            if k == 0 then forall j | i <= j < |filters| :: !Catches(e, clause, filters[j])
            else
              && i < k <= |filters| && Catches(e, clause, filters[k - 1])
              && forall j | i <= j < k - 1 :: !Catches(e, clause, filters[j])
    decreases |filters| - i
  {
    if i < |filters| && !Catches(e, clause, filters[i]) {
      FirstCatchIsFirst(e, clause, filters, i + 1);
    }
  }

  // ---------------------------------------------------------------- both phases over a stack

  // The search phase: frames are asked youngest first until one has a handler.
  function HandlerFrame(e: Exception, stack: seq<FrameInfo>, i: nat := 0): nat
    requires i <= |stack|
    decreases |stack| - i
  {
    if i == |stack| || Search(e, stack[i]).HandlerFound? then i else HandlerFrame(e, stack, i + 1)
  }

  // The cleanup phase asks the frames again, up to the handler frame, which is told what it is.
  function CleanupVerdict(e: Exception, stack: seq<FrameInfo>, i: nat): Verdict
    requires i < |stack|
  {
    Cleanup(e, stack[i], i == HandlerFrame(e, stack))
  }

  lemma {:induction false} HandlerFrameIsFirst(e: Exception, stack: seq<FrameInfo>, i: nat)
    requires i <= |stack|
    ensures var h := HandlerFrame(e, stack, i);
            && i <= h <= |stack| && (h < |stack| ==> Search(e, stack[h]).HandlerFound?)
            && forall j | i <= j < h :: Search(e, stack[j]).Continue?
    decreases |stack| - i
  {
    if i < |stack| && !Search(e, stack[i]).HandlerFound? {
      HandlerFrameIsFirst(e, stack, i + 1);
    }
  }

  // The frame has a landing pad that does more than catch: it has no action, or some filter is not a
  // catch clause.
  ghost predicate CleansUp(f: FrameInfo) {
    f.Site? && f.pad != 0 && (f.filters == [] || exists k | 0 <= k < |f.filters| :: f.filters[k] <= 0)
  }

  // Whatever type table each frame has, the two phases walk the tables separately and agree: the frame
  // chosen by the search is installed at its landing pad with the position of the first clause that
  // catches, exactly when it has a landing pad; every younger frame is entered for cleanup, with selector
  // 0, exactly when it has something to clean up, and skipped otherwise.
  lemma PhasesAgree(e: Exception, stack: seq<FrameInfo>)
    ensures var h := HandlerFrame(e, stack);
            && h <= |stack|
            && (forall i | 0 <= i < h ::
                  CleanupVerdict(e, stack, i) == if CleansUp(stack[i]) then Install(stack[i].pad, 0) else Continue)
            && (h < |stack| ==>
                  && stack[h].Site?
                  && (CleanupVerdict(e, stack, h) == Continue <==> stack[h].pad == 0)
                  && (stack[h].pad != 0 ==>
                        && CleanupVerdict(e, stack, h).Install?
                        && var Install(pad, selector) := CleanupVerdict(e, stack, h);
                           && pad == stack[h].pad && 0 < selector <= |stack[h].filters|
                           && Catches(e, stack[h].clause, stack[h].filters[selector - 1])
                           && forall j | 0 <= j < selector - 1 :: !Catches(e, stack[h].clause, stack[h].filters[j])))
  {
    HandlerFrameIsFirst(e, stack, 0);
    var h := HandlerFrame(e, stack);
    if h < |stack| {
      FirstCatchIsFirst(e, stack[h].clause, stack[h].filters, 0);
    }
    forall i | 0 <= i < h
      ensures CleanupVerdict(e, stack, i) == if CleansUp(stack[i]) then Install(stack[i].pad, 0) else Continue
    {
      assert Search(e, stack[i]).Continue?;
      if stack[i].Site? {
        HasCleanupMeaning(stack[i].filters, 0);
      }
    }
  }

  // Nobody catches: the search runs off the stack, and asking for cleanup would select no clause.
  lemma UncaughtExactly(e: Exception, stack: seq<FrameInfo>)
    ensures HandlerFrame(e, stack) == |stack| <==>
            forall i, j | 0 <= i < |stack| && stack[i].Site? && 0 <= j < |stack[i].filters| ::
              !Catches(e, stack[i].clause, stack[i].filters[j])
  {
    HandlerFrameIsFirst(e, stack, 0);
    forall i | 0 <= i < |stack| && stack[i].Site?
      ensures Search(e, stack[i]).Continue?
              <==> forall j | 0 <= j < |stack[i].filters| :: !Catches(e, stack[i].clause, stack[i].filters[j])
    {
      FirstCatchIsFirst(e, stack[i].clause, stack[i].filters, 0);
    }
  }
}

/** partic_personality itself: byte cursors over the language-specific data area. */
module PersonalityCode {
  import opened Basics
  import opened Leb128
  import opened UnwindSpec

  const EXN_CLASS: nat := 0x5052544300000000
  const URC_HANDLER_FOUND: nat := 6
  const URC_INSTALL_CONTEXT: nat := 7
  const URC_CONTINUE_UNWIND: nat := 8

  datatype Cursor<+T> = Cursor(value: T, next: nat)

  // The exception tables of one frame, `addr` being where they lie in memory, and memory itself as
  // 64-bit words.
  datatype Tables = Tables(buf: seq<Byte>, addr: nat, mem: map<nat, nat>)

  function UlebAt(buf: seq<Byte>, p: nat): Option<Cursor<nat>> {
    var e := EndOf(buf, p);
    if e.None? || e.value - p > 10 then None else Some(Cursor(Unsigned(buf, p, e.value), e.value))
  }

  function SlebAt(buf: seq<Byte>, p: nat): Option<Cursor<int>> {
    var e := EndOf(buf, p);
    if e.None? || e.value - p > 10 then None else Some(Cursor(Signed(buf, p, e.value), e.value))
  }

  // An n-byte little-endian load.
  function Little(buf: seq<Byte>, p: nat, n: nat): nat
    requires p + n <= |buf|
    decreases n
  {
    if n == 0 then 0 else buf[p] + 256 * Little(buf, p + 1, n - 1)
  }

  // The plain formats of read_enc_val; an unknown one reads as 0 and consumes nothing.
  function RawEnc(buf: seq<Byte>, p: nat, format: nat): Option<Cursor<nat>> {
    if format == 0x01 then UlebAt(buf, p)
    else if format == 0x00 || format == 0x0c then
      if p + 8 <= |buf| then Some(Cursor(Little(buf, p, 8), p + 8)) else None
    else if format == 0x02 then
      if p + 2 <= |buf| then Some(Cursor(Little(buf, p, 2), p + 2)) else None
    else if format == 0x03 then
      if p + 4 <= |buf| then Some(Cursor(Little(buf, p, 4), p + 4)) else None
    else if format == 0x0b then
      if p + 4 <= |buf| then Some(Cursor(SignExtend(Little(buf, p, 4), 0x1_0000_0000), p + 4)) else None
    else if format == 0x0d then
      if p + 2 <= |buf| then Some(Cursor(SignExtend(Little(buf, p, 2), 0x1_0000), p + 2)) else None
    else None
  }

  // A narrower signed integer widened to 64 bits; `range` is 2 to the number of its bits.
  function SignExtend(v: nat, range: nat): nat {
    if v < range / 2 || range > TWO64 then v else v + TWO64 - range
  }

  predicate KnownFormat(format: nat) {
    format in {0x00, 0x01, 0x02, 0x03, 0x0b, 0x0c, 0x0d}
  }

  // A value read without touching memory.
  predicate Blank(enc: Byte) {
    enc == 0xff || !KnownFormat(enc % 16)
  }

  // read_enc_val: omitted values and unknown formats read as 0 and consume nothing.
  function ReadEnc(t: Tables, p: nat, enc: Byte): (r: Option<Cursor<nat>>)
    ensures r.Some? ==> p <= r.value.next
  {
    if Blank(enc) then Some(Cursor(0, p))
    else
      match RawEnc(t.buf, p, enc % 16)
      case None => None
      case Some(c) =>
        var v := if enc / 16 % 2 == 1 then (c.value + t.addr + p) % TWO64 else c.value;
        Some(Cursor(if enc >= 128 then At(t.mem, v) else v, c.next))
  }

  // ---------------------------------------------------------------- what the tables say

  datatype Header = Header(ttEnc: Byte, typeTable: nat, csEnc: Byte, csStart: nat, csEnd: nat)

  // The fixed start of the area. The type table ends where its entries are counted from.
  function ParseHeader(buf: seq<Byte>): Option<Header> {
    if |buf| == 0 then None
    else
      var p := if buf[0] == 0xff then 1 else 5;
      if p >= |buf| then None
      else
        var tt := if buf[p] == 0xff then Some(Cursor(0, p + 1)) else UlebAt(buf, p + 1);
        if tt.None? || tt.value.next >= |buf| then None
        else
          var cs := UlebAt(buf, tt.value.next + 1);
          if cs.None? then None
          else Some(Header(buf[p], tt.value.next + tt.value.value,
                           buf[tt.value.next], cs.value.next, cs.value.next + cs.value.value))
  }

  // The type a positive filter names: the entry that many places before the end of the type table,
  // cut to 32 bits.
  function TypeAt(t: Tables, h: Header, filter: nat): Option<nat> {
    var p := h.typeTable - 4 * filter;
    if Blank(h.ttEnc) then Some(0)
    else if p < 0 then None
    else
      match ReadEnc(t, p, h.ttEnc)
      case None => None
      case Some(c) => Some(c.value % 0x1_0000_0000)
  }

  // `clause` is what the type table says about these filters.
  ghost predicate TypesAre(t: Tables, h: Header, filters: seq<int>, clause: map<nat, nat>) {
    forall f: nat | f in filters && f > 0 :: TypeAt(t, h, f) == Some(At(clause, f))
  }

  datatype CallSite = CallSite(start: nat, len: nat, pad: nat, action: nat)

  function SiteAt(t: Tables, p: nat, enc: Byte): (r: Option<Cursor<CallSite>>)
    ensures r.Some? ==> p < r.value.next
  {
    var a := ReadEnc(t, p, enc);
    if a.None? then None
    else
      var b := ReadEnc(t, a.value.next, enc);
      if b.None? then None
      else
        var c := ReadEnc(t, b.value.next, enc);
        if c.None? then None
        else
          var d := UlebAt(t.buf, c.value.next);
          if d.None? then None
          else Some(Cursor(CallSite(a.value.value, b.value.value, c.value.value, d.value.value), d.value.next))
  }

  // The call-site table, record by record.
  function Sites(t: Tables, p: nat, end: nat, enc: Byte): Option<seq<CallSite>>
    decreases end - p
  {
    if p >= end then Some([])
    else
      match SiteAt(t, p, enc)
      case None => None
      case Some(c) =>
        match Sites(t, c.next, end, enc)
        case None => None
        case Some(rest) => Some([c.value] + rest)
  }

  predicate Covers(c: CallSite, off: nat) {
    c.start <= off < (c.start + c.len) % TWO64
  }

  function FirstCovering(sites: seq<CallSite>, off: nat): Option<CallSite> {
    if sites == [] then None
    else if Covers(sites[0], off) then Some(sites[0])
    else FirstCovering(sites[1..], off)
  }

  // From pos on the action table holds a chain with these filters. As in the code, the displacement
  // to the next record counts from the start of its record.
  predicate IsChain(buf: seq<Byte>, pos: int, filters: seq<int>)
    decreases |filters|
  {
    && filters != [] && pos >= 0
    && var f := SlebAt(buf, pos);
       && f.Some? && f.value.value == filters[0]
       && var n := SlebAt(buf, f.value.next);
          && n.Some?
          && if n.value.value == 0 then |filters| == 1
             else IsChain(buf, pos + n.value.value, filters[1..])
  }

  // The tables decode to `info` for the instruction at `off`.
  ghost predicate Describes(t: Tables, off: nat, info: FrameInfo) {
    var h := ParseHeader(t.buf);
    && h.Some?
    && var sites := Sites(t, h.value.csStart, h.value.csEnd, h.value.csEnc);
       && sites.Some?
       && match FirstCovering(sites.value, off)
          case None => info == NoSite
          case Some(c) =>
            && info.Site? && info.pad == c.pad
            && TypesAre(t, h.value, info.filters, info.clause)
            && if c.action == 0 then info.filters == []
               else IsChain(t.buf, h.value.csEnd + c.action - 1, info.filters)
  }

  // The vtables reached from vt by following parent pointers, up to and including the final 0.
  ghost predicate VtableChain(mem: map<nat, nat>, vt: nat, chain: seq<nat>)
    decreases |chain|
  {
    && chain != [] && chain[0] == vt
    && if vt == 0 then |chain| == 1 else VtableChain(mem, At(mem, vt), chain[1..])
  }

  // ---------------------------------------------------------------- the code

  // vtable_isa.
  method VtableIsA(mem: map<nat, nat>, objVt: nat, catchVt: nat, ghost chain: seq<nat>) returns (isA: bool)
    requires VtableChain(mem, objVt, chain)
    ensures isA <==> catchVt in chain
  {
    if objVt == catchVt {
      return true;
    }
    var vt := objVt;
    ghost var rest := chain;
    while vt != 0
      invariant VtableChain(mem, vt, rest) && vt != catchVt
      invariant catchVt in chain <==> catchVt in rest
      decreases |rest|
    {
      var parent := At(mem, vt);
      assert rest == [vt] + rest[1..];
      rest := rest[1..];
      if parent == catchVt {
        return true;
      }
      vt := parent;
    }
    isA := false;
  }

  // read_enc_val.
  method ReadEncVal(t: Tables, start: nat, enc: Byte) returns (v: nat, p: nat)
    requires ReadEnc(t, start, enc).Some?
    ensures Cursor(v, p) == ReadEnc(t, start, enc).value
  {
    v, p := 0, start;
    if enc == 0xff {
      return;
    }
    var indirect, pcrel, format := enc >= 0x80, enc / 0x10 % 2 == 1, enc % 0x10;
    if format == 0x00 || format == 0x0c {
      v, p := Little(t.buf, p, 8), p + 8;
    } else if format == 0x01 {
      v, p := ReadUleb128(t.buf, p);
    } else if format == 0x02 {
      v, p := Little(t.buf, p, 2), p + 2;
    } else if format == 0x03 {
      v, p := Little(t.buf, p, 4), p + 4;
    } else if format == 0x0b {
      v, p := SignExtend(Little(t.buf, p, 4), 0x1_0000_0000), p + 4;
    } else if format == 0x0d {
      v, p := SignExtend(Little(t.buf, p, 2), 0x1_0000), p + 2;
    } else {
      return;
    }
    if pcrel {
      v := (v + t.addr + start) % TWO64;
    }
    if indirect {
      v := At(t.mem, v);
    }
  }

  // The cursor steps over the start of the area.
  method ReadHeader(buf: seq<Byte>) returns (h: Header)
    requires ParseHeader(buf).Some?
    ensures h == ParseHeader(buf).value
  {
    var p := 0;
    var lpEnc := buf[p];
    p := p + 1;
    if lpEnc != 0xff {
      p := p + 4;
    }
    var ttEnc := buf[p];
    p := p + 1;
    var ttBase := 0;
    if ttEnc != 0xff {
      ttBase, p := ReadUleb128(buf, p);
    }
    var typeTable := p + ttBase;
    var csEnc := buf[p];
    p := p + 1;
    var csLen;
    csLen, p := ReadUleb128(buf, p);
    h := Header(ttEnc, typeTable, csEnc, p, p + csLen);
  }

  // The test both phases make on a record's filter, with the type from the frame's table. A blank
  // encoding reads nothing, wherever the entry would lie.
  method ClauseCatches(t: Tables, h: Header, e: Exception, exnVt: nat, filter: int, ghost clause: map<nat, nat>)
    returns (catches: bool)
    requires VtableChain(e.typeWord, exnVt, e.ancestors)
    requires filter > 0 ==> TypeAt(t, h, filter) == Some(At(clause, filter))
    ensures catches == Catches(e, clause, filter)
  {
    catches := false;
    if filter > 0 {
      var tp := h.typeTable - 4 * filter;
      var typeInfo := 0;
      if tp >= 0 {
        var end;
        typeInfo, end := ReadEncVal(t, tp, h.ttEnc);
      }
      var ti := typeInfo % 0x1_0000_0000;
      if ti == 0 {
        return true;
      }
      catches := VtableIsA(e.typeWord, exnVt, At(e.typeWord, ti), e.ancestors);
    }
  }

  // One call-site record.
  method ReadSite(t: Tables, start: nat, enc: Byte) returns (c: CallSite, p: nat)
    requires SiteAt(t, start, enc).Some?
    ensures Cursor(c, p) == SiteAt(t, start, enc).value
  {
    hide ReadEnc;
    var from, len, pad, action;
    from, p := ReadEncVal(t, start, enc);
    len, p := ReadEncVal(t, p, enc);
    pad, p := ReadEncVal(t, p, enc);
    action, p := ReadUleb128(t.buf, p);
    c := CallSite(from, len, pad, action);
  }

  // The call-site loop.
  method FindSite(t: Tables, h: Header, off: nat, ghost sites: seq<CallSite>) returns (site: Option<CallSite>)
    requires Sites(t, h.csStart, h.csEnd, h.csEnc) == Some(sites)
    ensures site == FirstCovering(sites, off)
  {
    var p := h.csStart;
    ghost var rest := sites;
    while p < h.csEnd
      invariant Sites(t, p, h.csEnd, h.csEnc) == Some(rest)
      invariant FirstCovering(rest, off) == FirstCovering(sites, off)
      decreases h.csEnd - p
    {
      ghost var at := SiteAt(t, p, h.csEnc).value;
      assert rest[1..] == Sites(t, at.next, h.csEnd, h.csEnc).value;
      var c;
      c, p := ReadSite(t, p, h.csEnc);
      if Covers(c, off) {
        return Some(c);
      }
      rest := rest[1..];
    }
    site := None;
  }

  // One action record.
  method ReadRecord(buf: seq<Byte>, act: nat) returns (filter: int, next: int)
    requires SlebAt(buf, act).Some? && SlebAt(buf, SlebAt(buf, act).value.next).Some?
    ensures filter == SlebAt(buf, act).value.value
    ensures next == SlebAt(buf, SlebAt(buf, act).value.next).value.value
  {
    var p;
    filter, p := ReadSleb128(buf, act);
    next, p := ReadSleb128(buf, p);
  }

  // The walk of the search phase.
  method AnyCatch(t: Tables, h: Header, e: Exception, exnVt: nat, start: nat,
                  ghost filters: seq<int>, ghost clause: map<nat, nat>) returns (found: bool)
    requires VtableChain(e.typeWord, exnVt, e.ancestors)
    requires IsChain(t.buf, start, filters) && TypesAre(t, h, filters, clause)
    ensures found <==> FirstCatch(e, clause, filters) > 0
  {
    hide TypeAt, VtableChain, Catches;
    var act := start;
    ghost var i := 0;
    while true
      invariant i < |filters| && IsChain(t.buf, act, filters[i..])
      invariant FirstCatch(e, clause, filters) == FirstCatch(e, clause, filters, i)
      decreases |filters| - i
    {
      var filter, next := ReadRecord(t.buf, act);
      var catches := ClauseCatches(t, h, e, exnVt, filter, clause);
      if catches {
        return true;
      }
      if next == 0 {
        break;
      }
      act := act + next;
      assert filters[i..][1..] == filters[i + 1..];
      i := i + 1;
    }
    found := false;
  }

  // The cleanup phase looks for a filter that is not a catch clause.
  method AnyCleanup(buf: seq<Byte>, start: nat, ghost filters: seq<int>) returns (found: bool)
    requires IsChain(buf, start, filters)
    ensures found <==> HasCleanup(filters)
  {
    var act := start;
    ghost var i := 0;
    while true
      invariant i < |filters| && IsChain(buf, act, filters[i..])
      invariant HasCleanup(filters) == HasCleanup(filters, i)
      decreases |filters| - i
    {
      var filter, next := ReadRecord(buf, act);
      if filter <= 0 {
        return true;
      }
      if next == 0 {
        break;
      }
      act := act + next;
      assert filters[i..][1..] == filters[i + 1..];
      i := i + 1;
    }
    found := false;
  }

  // The cleanup phase's own walk for the selector.
  method SelectorOf(t: Tables, h: Header, e: Exception, exnVt: nat, start: nat,
                    ghost filters: seq<int>, ghost clause: map<nat, nat>) returns (selector: nat)
    requires VtableChain(e.typeWord, exnVt, e.ancestors)
    requires IsChain(t.buf, start, filters) && TypesAre(t, h, filters, clause)
    ensures selector == FirstCatch(e, clause, filters)
  {
    hide TypeAt, VtableChain, Catches;
    selector := 0;
    var act, slot := start, 0;
    while true
      invariant selector == 0 && slot < |filters| && IsChain(t.buf, act, filters[slot..])
      invariant FirstCatch(e, clause, filters) == FirstCatch(e, clause, filters, slot)
      decreases |filters| - slot
    {
      var filter, next := ReadRecord(t.buf, act);
      slot := slot + 1;
      var catches := ClauseCatches(t, h, e, exnVt, filter, clause);
      if catches {
        selector := slot;
        break;
      }
      if next == 0 {
        break;
      }
      act := act + next;
      assert filters[slot - 1..][1..] == filters[slot..];
    }
  }

  datatype Context = Context(ip: nat, gr: map<nat, nat>)

  // The flag bits of _Unwind_Action.
  predicate InSearchPhase(actions: nat) {
    actions % 2 == 1
  }

  predicate InCleanupPhase(actions: nat) {
    actions / 2 % 2 == 1
  }

  predicate AtHandlerFrame(actions: nat) {
    actions / 4 % 2 == 1
  }

  function ReturnCode(v: Verdict): nat {
    match v
    case Continue => URC_CONTINUE_UNWIND
    case HandlerFound => URC_HANDLER_FOUND
    case Install(_, _) => URC_INSTALL_CONTEXT
  }

  // The registers for a verdict: the landing pad, the exception and the selector.
  function Entered(v: Verdict, region: nat, wrap: nat, r0: nat, r1: nat, ctx: Context): Context {
    if v.Install? then Context((region + v.pad) % TWO64, ctx.gr[r0 := wrap][r1 := v.selector]) else ctx
  }

  // What Describes says about a call site that was found.
  ghost predicate SiteIs(t: Tables, h: Header, c: CallSite, info: FrameInfo) {
    && info.Site? && info.pad == c.pad && TypesAre(t, h, info.filters, info.clause)
    && if c.action == 0 then info.filters == [] else IsChain(t.buf, h.csEnd + c.action - 1, info.filters)
  }

  method Locate(t: Tables, off: nat, ghost info: FrameInfo) returns (h: Header, site: Option<CallSite>)
    requires Describes(t, off, info)
    ensures site.None? ==> info == NoSite
    ensures site.Some? ==> SiteIs(t, h, site.value, info)
  {
    hide IsChain, TypesAre, ParseHeader, Sites, FirstCovering;
    h := ReadHeader(t.buf);
    site := FindSite(t, h, off, Sites(t, h.csStart, h.csEnd, h.csEnc).value);
  }

  method SearchPhase(t: Tables, h: Header, c: CallSite, e: Exception, exnVt: nat, ghost info: FrameInfo)
    returns (v: Verdict)
    requires VtableChain(e.typeWord, exnVt, e.ancestors) && SiteIs(t, h, c, info)
    ensures v == Search(e, info)
  {
    if c.action == 0 {
      return Continue;
    }
    var found := AnyCatch(t, h, e, exnVt, h.csEnd + c.action - 1, info.filters, info.clause);
    v := if found then HandlerFound else Continue;
  }

  method CleanupPhase(t: Tables, h: Header, c: CallSite, e: Exception, exnVt: nat, isHandler: bool,
                       ghost info: FrameInfo)
    returns (v: Verdict)
    requires VtableChain(e.typeWord, exnVt, e.ancestors) && SiteIs(t, h, c, info)
    ensures v == Cleanup(e, info, isHandler)
  {
    if c.pad == 0 {
      return Continue;
    }
    var hasCleanup := c.action == 0;
    if !isHandler && !hasCleanup {
      hasCleanup := AnyCleanup(t.buf, h.csEnd + c.action - 1, info.filters);
    }
    if !isHandler && !hasCleanup {
      return Continue;
    }
    var selector := 0;
    if c.action != 0 {
      selector := SelectorOf(t, h, e, exnVt, h.csEnd + c.action - 1, info.filters, info.clause);
    }
    v := Install(c.pad, selector);
  }

  // The verdict the flags ask for.
  function Asked(e: Exception, info: FrameInfo, actions: nat): Verdict {
    if InSearchPhase(actions) then Search(e, info)
    else if InCleanupPhase(actions) then Cleanup(e, info, AtHandlerFrame(actions))
    else Continue
  }

  method Decide(t: Tables, off: nat, actions: nat, e: Exception, exnVt: nat, ghost info: FrameInfo)
    returns (v: Verdict)
    requires VtableChain(e.typeWord, exnVt, e.ancestors) && Describes(t, off, info)
    ensures v == Asked(e, info, actions)
  {
    hide Describes, VtableChain, SiteIs;
    v := Continue;
    var h, site := Locate(t, off, info);
    if site.Some? {
      if InSearchPhase(actions) {
        v := SearchPhase(t, h, site.value, e, exnVt, info);
      } else if InCleanupPhase(actions) {
        v := CleanupPhase(t, h, site.value, e, exnVt, AtHandlerFrame(actions), info);
      }
    }
  }

  // The instruction looked up: the byte before the return address, counted from the start of the
  // function in 64-bit arithmetic.
  function Lookup(ip: nat, region: nat): nat {
    var off := (ip - region) % TWO64;
    if off > 0 then off - 1 else 0
  }

  // The byte before the return address is the one looked up: a call that ends a call site belongs to it.
  lemma LooksUpTheCall(c: CallSite, ip: nat, region: nat)
    requires region < ip < TWO64 && c.start + c.len < TWO64
    ensures Covers(c, Lookup(ip, region)) <==> c.start < ip - region <= c.start + c.len
  {
  }

  // What partic_personality returns and leaves in the context; r0 and r1 are the target's first two
  // argument registers.
  function Answer(version: nat, actions: nat, exceptionClass: nat, e: Exception, info: FrameInfo, wrap: nat,
                  region: nat, r0: nat, r1: nat, ctx: Context): (nat, Context)
  {
    var v := if version == 1 && exceptionClass == EXN_CLASS then Asked(e, info, actions) else Continue;
    (ReturnCode(v), Entered(v, region, wrap, r0, r1, ctx))
  }

  // Only the two registers and the instruction pointer are set.
  ghost predicate Resumes(ctx: Context, after: Context, ip: nat, r0: nat, wrap: nat, r1: nat, selector: nat) {
    && after.ip == ip && after.gr.Keys == ctx.gr.Keys + {r0, r1}
    && after.gr[r0] == wrap && after.gr[r1] == selector
    && forall r | r in ctx.gr && r != r0 && r != r1 :: after.gr[r] == ctx.gr[r]
  }

  // Some clause of the frame catches.
  ghost predicate SomeCatch(e: Exception, f: FrameInfo) {
    f.Site? && exists k | 0 <= k < |f.filters| :: Catches(e, f.clause, f.filters[k])
  }

  // `selector` is the position, from 1, of the first clause that catches, or 0 without one.
  ghost predicate Selects(e: Exception, f: FrameInfo, selector: nat)
    requires f.Site?
  {
    && selector <= |f.filters|
    && (forall k | 0 <= k < |f.filters| && (selector == 0 || k < selector - 1) :: !Catches(e, f.clause, f.filters[k]))
    && (selector > 0 ==> Catches(e, f.clause, f.filters[selector - 1]))
  }

  // Codes and registers for each way of being asked: search (bit 0 of the actions), cleanup (bit 1) of a
  // frame that handles the exception (bit 2) or does not.
  lemma AnswersExactly(actions: nat, e: Exception, info: FrameInfo, wrap: nat, region: nat, r0: nat, r1: nat,
                       ctx: Context)
    requires r0 != r1
    ensures var (rc, after) := Answer(1, actions, EXN_CLASS, e, info, wrap, region, r0, r1, ctx);
            if actions % 2 == 1 then
              after == ctx && rc == if SomeCatch(e, info) then 6 else 8
            else if actions % 4 == 2 && info.Site? && info.pad != 0 && (actions % 8 == 6 || CleansUp(info)) then
              && rc == 7
              && exists selector: nat :: Selects(e, info, selector)
                   && Resumes(ctx, after, (region + info.pad) % 0x1_0000_0000_0000_0000, r0, wrap, r1, selector)
            else
              rc == 8 && after == ctx
  {
    var (rc, after) := Answer(1, actions, EXN_CLASS, e, info, wrap, region, r0, r1, ctx);
    FlagBits(actions);
    if info.Site? {
      FirstCatchIsFirst(e, info.clause, info.filters, 0);
      HasCleanupMeaning(info.filters, 0);
      assert Selects(e, info, FirstCatch(e, info.clause, info.filters));
    }
  }

  lemma FlagBits(actions: nat)
    ensures InSearchPhase(actions) <==> actions % 2 == 1
    ensures !InSearchPhase(actions) ==> (InCleanupPhase(actions) <==> actions % 4 == 2)
    ensures !InSearchPhase(actions) && InCleanupPhase(actions) ==> (AtHandlerFrame(actions) <==> actions % 8 == 6)
  {
  }

  // Other versions and foreign exceptions are none of its business.
  lemma ForeignIsPassedOn(version: nat, actions: nat, exceptionClass: nat, e: Exception, info: FrameInfo, wrap: nat,
                          region: nat, r0: nat, r1: nat, ctx: Context)
    requires version != 1 || exceptionClass != 0x5052544300000000
    ensures Answer(version, actions, exceptionClass, e, info, wrap, region, r0, r1, ctx) == (8, ctx)
  {
  }

  // partic_personality.
  method Personality(version: nat, actions: nat, exceptionClass: nat, wrap: nat, exnVt: nat, e: Exception,
                     hasTables: bool, t: Tables, region: nat, ctx: Context, r0: nat, r1: nat,
                     ghost info: FrameInfo)
    returns (rc: nat, after: Context)
    requires VtableChain(e.typeWord, exnVt, e.ancestors)
    requires if hasTables then Describes(t, Lookup(ctx.ip, region), info) else info == NoSite
    ensures (rc, after) == Answer(version, actions, exceptionClass, e, info, wrap, region, r0, r1, ctx)
  {
    hide Describes, VtableChain;
    after, rc := ctx, URC_CONTINUE_UNWIND;
    if version != 1 || exceptionClass != EXN_CLASS || !hasTables {
      return;
    }
    var off := (ctx.ip - region) % TWO64;
    if off > 0 {
      off := off - 1;
    }
    var v := Decide(t, off, actions, e, exnVt, info);
    if v.HandlerFound? {
      rc := URC_HANDLER_FOUND;
    } else if v.Install? {
      after := Context((region + v.pad) % TWO64, ctx.gr[r0 := wrap][r1 := v.selector]);
      rc := URC_INSTALL_CONTEXT;
    }
  }
}
