/** The PS/2 event ring: an interrupt handler that may run between any two statements of the poll. */
module KeyRing {
  import opened Basics

  type Word16 = w: nat | w < 0x1_0000

  const SIZE: nat := 64
  const EV_KEY: Word16 := 1

  // value is 1 for a key going down, 0 for a key going up.
  datatype Event = Event(kind: Word16, code: Word16, value: nat)

  // The static state of the driver.
  datatype Ring = Ring(kinds: seq<Word16>, codes: seq<Word16>, values: seq<nat>, head: nat, tail: nat, e0: bool)

  // scancode_map and e0_map; a code of 0 stands for no key.
  datatype Extended = Extended(sc: Byte, code: Word16)
  datatype Keymap = Keymap(base: seq<Word16>, extended: seq<Extended>)

  predicate Shaped(r: Ring) {
    |r.kinds| == |r.codes| == |r.values| == SIZE && r.head < SIZE && r.tail < SIZE
  }

  predicate Mapped(m: Keymap) {
    |m.base| == 0x64
  }

  // ---------------------------------------------------------------- decoding

  // The first entry wins.
  function Lookup(extended: seq<Extended>, raw: Byte): Word16
    decreases |extended|
  {
    if extended == [] then 0
    else if extended[0].sc == raw then extended[0].code
    else Lookup(extended[1..], raw)
  }

  function Code(m: Keymap, e0: bool, raw: Byte): Word16
    requires Mapped(m)
  {
    if e0 then Lookup(m.extended, raw) else if raw < 0x64 then m.base[raw] else 0
  }

  // The event a scancode stands for, if any.
  function Decoded(m: Keymap, e0: bool, sc: Byte): Option<Event>
    requires Mapped(m)
  {
    if sc == 0xE0 || sc == 0xE1 then None
    else
      var code := Code(m, e0, sc % 0x80);
      if code == 0 then None else Some(Event(EV_KEY, code, if sc >= 0x80 then 0 else 1))
  }

  // The code the maps give a scancode without its top bit: the entry of the plain map, where there is one,
  // or the first entry of the extended map.
  ghost predicate Names(m: Keymap, e0: bool, raw: Byte, code: Word16)
    requires Mapped(m)
  {
    if e0 then
      || (exists i | 0 <= i < |m.extended| ::
            && m.extended[i].sc == raw && m.extended[i].code == code
            && forall j | 0 <= j < i :: m.extended[j].sc != raw)
      || (code == 0 && forall i | 0 <= i < |m.extended| :: m.extended[i].sc != raw)
    else
      code == if raw < 100 then m.base[raw] else 0
  }

  lemma {:induction false} FirstEntryWins(extended: seq<Extended>, raw: Byte)
    ensures var code := Lookup(extended, raw);
              || (exists i | 0 <= i < |extended| ::
                    && extended[i].sc == raw && extended[i].code == code
                    && forall j | 0 <= j < i :: extended[j].sc != raw)
              || (code == 0 && forall i | 0 <= i < |extended| :: extended[i].sc != raw)
    decreases |extended|
  {
    if extended != [] && extended[0].sc != raw {
      FirstEntryWins(extended[1..], raw);
      var code := Lookup(extended[1..], raw);
      if i :| 0 <= i < |extended[1..]| && extended[1..][i].sc == raw && extended[1..][i].code == code
              && forall j | 0 <= j < i :: extended[1..][j].sc != raw {
        assert extended[i + 1].sc == raw && extended[i + 1].code == code;
        forall j | 0 <= j < i + 1 ensures extended[j].sc != raw {
          assert j > 0 ==> extended[1..][j - 1].sc != raw;
        }
      } else {
        forall i | 0 <= i < |extended| ensures extended[i].sc != raw {
          assert i > 0 ==> extended[1..][i - 1].sc != raw;
        }
      }
    }
  }

  // A scancode below 0x80 is that key going down, value 1, the same with the top bit set the same key
  // going up, value 0; no code, no event. 0xE0 and 0xE1 are no keys.
  lemma DownAndUp(m: Keymap, e0: bool, sc: Byte)
    requires Mapped(m) && sc < 0x80
    ensures exists code ::
              && Names(m, e0, sc, code)
              && Decoded(m, e0, sc) == (if code == 0 then None else Some(Event(1, code, 1)))
              && (sc != 0x60 && sc != 0x61 ==>
                    Decoded(m, e0, sc + 0x80) == if code == 0 then None else Some(Event(1, code, 0)))
    ensures Decoded(m, e0, 0xE0) == None == Decoded(m, e0, 0xE1)
  {
    FirstEntryWins(m.extended, sc);
    assert Names(m, e0, sc, Code(m, e0, sc));
    assert (sc + 0x80) % 0x80 == sc;
  }

  function E0After(e0: bool, sc: Byte): bool {
    if sc == 0xE0 then true else if sc == 0xE1 then e0 else false
  }

  // ---------------------------------------------------------------- the ring

  function Next(i: nat): nat {
    (i + 1) % SIZE
  }

  predicate Full(r: Ring) {
    Next(r.head) == r.tail
  }

  // push_event.
  function Push(r: Ring, e: Event): Ring
    requires Shaped(r)
  {
    if Full(r) then r
    else r.(kinds := r.kinds[r.head := e.kind], codes := r.codes[r.head := e.code],
            values := r.values[r.head := e.value], head := Next(r.head))
  }

  // ps2kbd_irq; None when the controller has no byte.
  function Irq(m: Keymap, r: Ring, sc: Option<Byte>): (r': Ring)
    requires Mapped(m) && Shaped(r)
    ensures Shaped(r') && r'.tail == r.tail
  {
    if sc.None? then r
    else
      var d := Decoded(m, r.e0, sc.value);
      var r' := r.(e0 := E0After(r.e0, sc.value));
      if d.Some? then Push(r', d.value) else r'
  }

  function EventAt(r: Ring, i: nat): Event
    requires Shaped(r) && i < SIZE
  {
    Event(r.kinds[i], r.codes[i], r.values[i])
  }

  // ---------------------------------------------------------------- the poll, statement by statement

  // Where a poll is, with the locals it has read.
  datatype Poller =
    | Idle
    | Checked
    | HaveKind(kind: Word16)
    | HaveCode(kind: Word16, code: Word16)
    | HaveValue(event: Event)
    | Advanced(event: Event)

  // accepted: events put into the ring so far; polled: events returned so far.
  datatype State = State(ring: Ring, poller: Poller, accepted: seq<Event>, polled: seq<Event>)

  datatype Action = Interrupt(sc: Option<Byte>) | Statement

  function AfterIrq(m: Keymap, s: State, sc: Option<Byte>): State
    requires Mapped(m) && Shaped(s.ring)
  {
    var d := if sc.None? then None else Decoded(m, s.ring.e0, sc.value);
    s.(ring := Irq(m, s.ring, sc), accepted := if d.Some? && !Full(s.ring) then s.accepted + [d.value] else s.accepted)
  }

  function AfterStatement(s: State): State
    requires Shaped(s.ring)
  {
    var r := s.ring;
    match s.poller
    case Idle => if r.head == r.tail then s else s.(poller := Checked)
    case Checked => s.(poller := HaveKind(r.kinds[r.tail]))
    case HaveKind(kind) => s.(poller := HaveCode(kind, r.codes[r.tail]))
    case HaveCode(kind, code) => s.(poller := HaveValue(Event(kind, code, r.values[r.tail])))
    case HaveValue(event) => s.(poller := Advanced(event), ring := r.(tail := Next(r.tail)))
    case Advanced(event) => s.(poller := Idle, polled := s.polled + [event])
  }

  function Step(m: Keymap, s: State, a: Action): (s': State)
    requires Mapped(m) && Shaped(s.ring)
    ensures Shaped(s'.ring)
  {
    match a
    case Interrupt(sc) => AfterIrq(m, s, sc)
    case Statement => AfterStatement(s)
  }

  function Run(m: Keymap, s: State, actions: seq<Action>): (s': State)
    requires Mapped(m) && Shaped(s.ring)
    ensures Shaped(s'.ring)
    decreases |actions|
  {
    if actions == [] then s else Run(m, Step(m, s, actions[0]), actions[1..])
  }

  // ---------------------------------------------------------------- what every step keeps

  // Events taken out of the ring: polled, or in the hands of a poll that has moved the tail.
  function Taken(s: State): nat {
    |s.polled| + if s.poller.Advanced? then 1 else 0
  }

  // The events waiting in the ring, oldest first.
  function Pending(s: State): nat {
    if |s.accepted| >= Taken(s) then |s.accepted| - Taken(s) else 0
  }

  function Slot(tail: nat, i: nat): nat {
    (tail + i) % SIZE
  }

  // The ring holds exactly the accepted events not yet taken, in order.
  predicate Holds(s: State)
    requires Shaped(s.ring)
  {
    && Taken(s) <= |s.accepted| && Pending(s) < SIZE
    && s.ring.head == Slot(s.ring.tail, Pending(s))
    && forall i: nat | i < Pending(s) :: EventAt(s.ring, Slot(s.ring.tail, i)) == s.accepted[Taken(s) + i]
  }

  // What a poll has read so far belongs to the next event.
  predicate Reading(s: State) {
    s.poller != Idle ==>
      && |s.polled| < |s.accepted|
      && var e := s.accepted[|s.polled|];
         match s.poller
         case Idle => true
         case Checked => true
         case HaveKind(kind) => kind == e.kind
         case HaveCode(kind, code) => kind == e.kind && code == e.code
         case HaveValue(event) => event == e
         case Advanced(event) => event == e
  }

  predicate Inv(s: State) {
    && Shaped(s.ring) && Holds(s) && Reading(s)
    && s.polled <= s.accepted
  }

  // The full test of the code holds exactly when 63 events are pending.
  lemma FullExactly(s: State)
    requires Inv(s)
    ensures Full(s.ring) <==> Pending(s) == SIZE - 1
    ensures s.ring.head == s.ring.tail <==> Pending(s) == 0
  {
  }

  lemma PushHolds(s: State, e: Event)
    requires Inv(s) && !Full(s.ring)
    ensures Inv(s.(ring := Push(s.ring, e), accepted := s.accepted + [e]))
  {
    FullExactly(s);
    NextOfSlot(s.ring.tail, Pending(s));
    hide Slot, Next, EventAt, Full;
    var s' := s.(ring := Push(s.ring, e), accepted := s.accepted + [e]);
    PushedHead(s, e);
    forall i: nat | i < Pending(s') ensures EventAt(s'.ring, Slot(s'.ring.tail, i)) == s'.accepted[Taken(s') + i] {
      PushSlot(s, e, i);
    }
    assert Holds(s');
    assert s.polled <= s'.accepted;
  }

  lemma NextOfSlot(tail: nat, i: nat)
    ensures Next(Slot(tail, i)) == Slot(tail, i + 1)
  {
  }

  lemma PushedHead(s: State, e: Event)
    requires Shaped(s.ring) && !Full(s.ring)
    ensures Shaped(Push(s.ring, e)) && Push(s.ring, e).head == Next(s.ring.head) && Push(s.ring, e).tail == s.ring.tail
  {
  }

  // What the slots hold after a push.
  lemma PushSlot(s: State, e: Event, i: nat)
    requires Shaped(s.ring) && Holds(s) && !Full(s.ring) && i <= Pending(s) < SIZE - 1
    ensures EventAt(Push(s.ring, e), Slot(s.ring.tail, i)) == if i < Pending(s) then s.accepted[Taken(s) + i] else e
  {
    if i < Pending(s) {
      SlotsDiffer(s.ring.tail, i, Pending(s));
      assert EventAt(s.ring, Slot(s.ring.tail, i)) == s.accepted[Taken(s) + i];
    }
  }

  lemma SlotsDiffer(tail: nat, i: nat, j: nat)
    requires tail < SIZE && i < j < SIZE
    ensures Slot(tail, i) != Slot(tail, j)
  {
  }

  // An interrupt adds its event exactly when fewer than 63 are pending, and changes nothing a poll
  // in progress has read or will read.
  lemma IrqKeeps(m: Keymap, s: State, sc: Option<Byte>)
    requires Mapped(m) && Inv(s)
    ensures var s' := AfterIrq(m, s, sc);
            && Inv(s')
            && (var d := if sc.None? then None else Decoded(m, s.ring.e0, sc.value);
                s'.accepted == if d.Some? && Pending(s) < SIZE - 1 then s.accepted + [d.value] else s.accepted)
            && s'.polled == s.polled && s'.poller == s.poller && s'.ring.tail == s.ring.tail
  {
    hide Decoded;
    FullExactly(s);
    if sc.Some? {
      var d := Decoded(m, s.ring.e0, sc.value);
      var s1 := s.(ring := s.ring.(e0 := E0After(s.ring.e0, sc.value)));
      assert Inv(s1) by {
        forall i: nat | i < Pending(s1) ensures EventAt(s1.ring, Slot(s1.ring.tail, i)) == s1.accepted[Taken(s1) + i] {
          assert EventAt(s.ring, Slot(s.ring.tail, i)) == s.accepted[Taken(s) + i];
        }
      }
      if d.Some? && !Full(s.ring) {
        PushHolds(s1, d.value);
      }
    }
  }

  lemma AdvanceHolds(s: State)
    requires Inv(s) && s.poller.HaveValue?
    ensures Inv(AfterStatement(s))
  {
    var s' := AfterStatement(s);
    NextSlot(s.ring.tail, Pending(s'));
    forall i: nat | i < Pending(s') ensures EventAt(s'.ring, Slot(s'.ring.tail, i)) == s'.accepted[Taken(s') + i] {
      NextSlot(s.ring.tail, i);
      hide Slot, Next;
      assert EventAt(s.ring, Slot(s.ring.tail, i + 1)) == s.accepted[Taken(s) + (i + 1)];
    }
    hide Slot, Next;
    assert Holds(s');
  }

  lemma NextSlot(tail: nat, i: nat)
    ensures Slot(Next(tail), i) == Slot(tail, i + 1) && Next(tail) < SIZE
  {
  }

  // A statement of the poll accepts nothing; what it returns is the oldest event not yet polled.
  lemma StatementKeeps(s: State)
    requires Inv(s)
    ensures Inv(AfterStatement(s)) && AfterStatement(s).accepted == s.accepted
  {
    FullExactly(s);
    match s.poller
    case Idle =>
    case HaveValue(_) => AdvanceHolds(s);
    case Advanced(_) =>
    case _ => assert EventAt(s.ring, Slot(s.ring.tail, 0)) == s.accepted[Taken(s) + 0];
  }

  // ---------------------------------------------------------------- whole runs

  // After ps2kbd_init.
  predicate Initial(s: State) {
    && Shaped(s.ring) && s.ring.head == 0 && s.ring.tail == 0
    && s.poller == Idle && s.accepted == [] && s.polled == []
  }

  lemma {:induction false} RunKeeps(m: Keymap, s: State, actions: seq<Action>)
    requires Mapped(m) && Inv(s)
    ensures Inv(Run(m, s, actions)) && s.accepted <= Run(m, s, actions).accepted
    decreases |actions|
  {
    assert Shaped(s.ring);
    hide Inv, AfterIrq, AfterStatement;
    if actions != [] {
      StepKeeps(m, s, actions[0]);
      RunKeeps(m, Step(m, s, actions[0]), actions[1..]);
    }
  }

  lemma StepKeeps(m: Keymap, s: State, a: Action)
    requires Mapped(m) && Inv(s)
    ensures Inv(Step(m, s, a)) && s.accepted <= Step(m, s, a).accepted
  {
    hide Inv, AfterIrq, AfterStatement, Decoded;
    match a
    case Interrupt(sc) => IrqKeeps(m, s, sc);
    case Statement => StatementKeeps(s);
  }

  // With any interrupts anywhere, what is polled is the events accepted, in order, without a loss, a
  // repeat or a mixture of two; at most 63 are waiting.
  lemma PolledIsPrefixOfAccepted(m: Keymap, s: State, actions: seq<Action>)
    requires Mapped(m) && Initial(s)
    ensures var s' := Run(m, s, actions);
            s'.polled <= s'.accepted && |s'.accepted| <= |s'.polled| + SIZE
  {
    hide Run;
    RunKeeps(m, s, actions);
  }

  // The event one action stands for, as a sequence, and the prefix flag after it.
  function Typed(m: Keymap, e0: bool, a: Action): (es: seq<Event>)
    requires Mapped(m)
    ensures |es| <= 1
  {
    if a.Statement? || a.sc.None? then []
    else
      var d := Decoded(m, e0, a.sc.value);
      if d.Some? then [d.value] else []
  }

  function Flag(e0: bool, a: Action): bool {
    if a.Statement? || a.sc.None? then e0 else E0After(e0, a.sc.value)
  }

  // The events a stream of scancodes stands for.
  function Stream(m: Keymap, e0: bool, actions: seq<Action>): seq<Event>
    requires Mapped(m)
    decreases |actions|
  {
    if actions == [] then [] else Typed(m, e0, actions[0]) + Stream(m, Flag(e0, actions[0]), actions[1..])
  }

  // An event arrives while 63 are pending.
  predicate Lost(m: Keymap, s: State, a: Action)
    requires Mapped(m)
  {
    Typed(m, s.ring.e0, a) != [] && Pending(s) == SIZE - 1
  }

  function LostIn(m: Keymap, s: State, actions: seq<Action>): nat
    requires Mapped(m) && Shaped(s.ring)
    decreases |actions|
  {
    if actions == [] then 0
    else (if Lost(m, s, actions[0]) then 1 else 0) + LostIn(m, Step(m, s, actions[0]), actions[1..])
  }

  lemma StepAccepts(m: Keymap, s: State, a: Action)
    requires Mapped(m) && Inv(s)
    ensures Step(m, s, a).accepted == if Lost(m, s, a) then s.accepted else s.accepted + Typed(m, s.ring.e0, a)
    ensures Step(m, s, a).ring.e0 == Flag(s.ring.e0, a)
  {
    hide Decoded;
    match a
    case Interrupt(sc) => IrqKeeps(m, s, sc);
    case Statement => StatementKeeps(s);
  }

  // The events typed without those that arrive while 63 are pending.
  function Surviving(m: Keymap, s: State, actions: seq<Action>): seq<Event>
    requires Mapped(m) && Shaped(s.ring)
    decreases |actions|
  {
    if actions == [] then []
    else (if Lost(m, s, actions[0]) then [] else Typed(m, s.ring.e0, actions[0]))
         + Surviving(m, Step(m, s, actions[0]), actions[1..])
  }

  // Of the events typed, the ring accepts exactly those, in order; they are all but the lost ones.
  lemma {:induction false} AcceptedAreTheRest(m: Keymap, s: State, actions: seq<Action>)
    requires Mapped(m) && Inv(s)
    ensures Run(m, s, actions).accepted == s.accepted + Surviving(m, s, actions)
    ensures |Surviving(m, s, actions)| + LostIn(m, s, actions) == |Stream(m, s.ring.e0, actions)|
    decreases |actions|
  {
    assert Shaped(s.ring);
    if actions != [] {
      StepKeeps(m, s, actions[0]);
      StepAccepts(m, s, actions[0]);
      hide Inv, Step, Flag, Pending, Decoded;
      var s1 := Step(m, s, actions[0]);
      AcceptedAreTheRest(m, s1, actions[1..]);
      var kept := if Lost(m, s, actions[0]) then [] else Typed(m, s.ring.e0, actions[0]);
      assert s1.accepted == s.accepted + kept;
      Regroup(s.accepted, kept, Surviving(m, s1, actions[1..]));
    } else {
      assert s.accepted + [] == s.accepted;
    }
  }

  // With none lost it accepts exactly the decoded stream.
  lemma {:induction false} NothingLostAllAccepted(m: Keymap, s: State, actions: seq<Action>)
    requires Mapped(m) && Inv(s) && LostIn(m, s, actions) == 0
    ensures Run(m, s, actions).accepted == s.accepted + Stream(m, s.ring.e0, actions)
    decreases |actions|
  {
    assert Shaped(s.ring);
    if actions != [] {
      StepKeeps(m, s, actions[0]);
      StepAccepts(m, s, actions[0]);
      hide Inv, Step, Typed, Flag, Lost;
      var s1 := Step(m, s, actions[0]);
      NothingLostAllAccepted(m, s1, actions[1..]);
      Regroup(s.accepted, Typed(m, s.ring.e0, actions[0]), Stream(m, s1.ring.e0, actions[1..]));
    } else {
      assert s.accepted + [] == s.accepted;
    }
  }

  lemma Regroup(a: seq<Event>, b: seq<Event>, c: seq<Event>)
    ensures (a + b) + c == a + (b + c)
  {
  }

  // ---------------------------------------------------------------- the prefix byte

  function FlagAfter(e0: bool, scs: seq<Byte>): bool
    decreases |scs|
  {
    if scs == [] then e0 else E0After(FlagAfter(e0, scs[..|scs| - 1]), scs[|scs| - 1])
  }

  // A key is read as extended exactly when the last byte before it other than 0xE1 is 0xE0: a pause
  // prefix does not end an extended sequence.
  lemma {:induction false} ExtendedExactly(scs: seq<Byte>)
    ensures FlagAfter(false, scs) <==>
            exists j :: 0 <= j < |scs| && scs[j] == 0xE0 && forall k | j < k < |scs| :: scs[k] == 0xE1
    decreases |scs|
  {
    if scs != [] {
      var init, last := scs[..|scs| - 1], scs[|scs| - 1];
      ExtendedExactly(init);
      if last == 0xE1 && FlagAfter(false, init) {
        var j :| 0 <= j < |init| && init[j] == 0xE0 && forall k | j < k < |init| :: init[k] == 0xE1;
        assert scs[j] == 0xE0 && forall k | j < k < |scs| :: scs[k] == 0xE1;
      }
      if last == 0xE1 && exists j :: 0 <= j < |scs| && scs[j] == 0xE0 && forall k | j < k < |scs| :: scs[k] == 0xE1 {
        var j :| 0 <= j < |scs| && scs[j] == 0xE0 && forall k | j < k < |scs| :: scs[k] == 0xE1;
        assert init[j] == 0xE0;
      }
    }
  }

  // ---------------------------------------------------------------- what a poll returns

  // The eight bytes of an event, little endian.
  function Bytes(e: Event): seq<Byte> {
    [e.kind % 0x100, e.kind / 0x100 % 0x100, e.code % 0x100, e.code / 0x100 % 0x100,
     e.value % 0x100, e.value / 0x100 % 0x100, e.value / 0x1_0000 % 0x100, e.value / 0x100_0000 % 0x100]
  }

  function Two(low: nat, high: nat): nat {
    low + 0x100 * high
  }

  // Kind, code and value, in this order, least significant byte first.
  lemma BytesAreInOrder(e: Event)
    requires e.value < 0x1_0000_0000
    ensures var b := Bytes(e);
            && |b| == 8 && Two(b[0], b[1]) == e.kind && Two(b[2], b[3]) == e.code
            && Two(b[4], b[5]) + 0x1_0000 * Two(b[6], b[7]) == e.value
  {
    FourBytes(e.value);
  }

  lemma BytesDetermineWord(v: nat, w: nat)
    requires v < 0x1_0000_0000 && w < 0x1_0000_0000
    requires v % 0x100 == w % 0x100 && v / 0x100 % 0x100 == w / 0x100 % 0x100
    requires v / 0x1_0000 % 0x100 == w / 0x1_0000 % 0x100 && v / 0x100_0000 % 0x100 == w / 0x100_0000 % 0x100
    ensures v == w
  {
    FourBytes(v);
    FourBytes(w);
  }

  lemma BytesDetermineEvent(e: Event, f: Event)
    requires Bytes(e) == Bytes(f) && e.value < 0x1_0000_0000 && f.value < 0x1_0000_0000
    ensures e == f
  {
    var b, c := Bytes(e), Bytes(f);
    assert forall i | 0 <= i < 8 :: b[i] == c[i];
    BytesDetermineWord(e.kind, f.kind);
    BytesDetermineWord(e.code, f.code);
    BytesDetermineWord(e.value, f.value);
  }

  function Keys(scs: seq<Byte>): seq<Action> {
    seq(|scs|, (i: nat) requires i < |scs| => Interrupt(Some(scs[i])))
  }

  // The first k statements of a poll, each followed by its burst of interrupts.
  function Trail(bursts: seq<seq<Byte>>, k: nat): seq<Action>
    requires k <= |bursts|
    decreases k
  {
    if k == 0 then [] else Trail(bursts, k - 1) + [Statement] + Keys(bursts[k - 1])
  }

  // A poll with a burst of interrupts after each of its statements but the last.
  function Schedule(bursts: seq<seq<Byte>>): seq<Action> {
    Trail(bursts, |bursts|) + [Statement]
  }

  lemma {:induction false} RunInTwo(m: Keymap, s: State, first: seq<Action>, second: seq<Action>)
    requires Mapped(m) && Shaped(s.ring)
    ensures Run(m, s, first + second) == Run(m, Run(m, s, first), second)
    decreases |first|
  {
    hide AfterIrq, AfterStatement;
    if first == [] {
      assert first + second == second;
    } else {
      assert (first + second)[1..] == first[1..] + second;
      RunInTwo(m, Step(m, s, first[0]), first[1..], second);
    }
  }

  // The k-th stage of a poll that returns e.
  function Stage(k: nat, e: Event): Poller {
    if k == 0 then Idle
    else if k == 1 then Checked
    else if k == 2 then HaveKind(e.kind)
    else if k == 3 then HaveCode(e.kind, e.code)
    else if k == 4 then HaveValue(e)
    else Advanced(e)
  }

  // A poll k statements on its way, with the oldest event of s before it.
  ghost predicate Underway(m: Keymap, s: State, trail: seq<Action>, s': State, k: nat)
    requires Mapped(m) && Shaped(s.ring)
  {
    && Inv(s') && s' == Run(m, s, trail) && s'.polled == s.polled && s.accepted <= s'.accepted
    && |s.polled| < |s.accepted| && s'.poller == Stage(k, s.accepted[|s.polled|])
  }

  lemma StatementTaken(m: Keymap, s: State, trail: seq<Action>, s': State, k: nat)
    requires Mapped(m) && Shaped(s.ring) && Underway(m, s, trail, s', k) && k < 5
    requires k == 0 ==> Pending(s') > 0
    ensures Underway(m, s, trail + [Statement], AfterStatement(s'), k + 1)
    ensures AfterStatement(s').ring == if k == 4 then s'.ring.(tail := Next(s'.ring.tail)) else s'.ring
    ensures |s.polled| < |s.accepted|
    ensures 1 <= k < 4 ==> EventAt(s'.ring, s'.ring.tail) == s.accepted[|s.polled|]
  {
    hide Run;
    FullExactly(s');
    StatementKeeps(s');
    RunInTwo(m, s, trail, [Statement]);
    OneStep(m, s', Statement);
    if 1 <= k < 4 {
      assert EventAt(s'.ring, Slot(s'.ring.tail, 0)) == s'.accepted[Taken(s') + 0];
    }
  }

  lemma OneStep(m: Keymap, s: State, a: Action)
    requires Mapped(m) && Shaped(s.ring)
    ensures Run(m, s, [a]) == Step(m, s, a)
  {
  }

  lemma InterruptTaken(m: Keymap, s: State, trail: seq<Action>, s': State, k: nat, sc: Option<Byte>)
    requires Mapped(m) && Shaped(s.ring) && Underway(m, s, trail, s', k)
    ensures Underway(m, s, trail + [Interrupt(sc)], AfterIrq(m, s', sc), k)
    ensures AfterIrq(m, s', sc).ring == Irq(m, s'.ring, sc)
  {
    hide Run, Decoded;
    RunInTwo(m, s, trail, [Interrupt(sc)]);
    OneStep(m, s', Interrupt(sc));
    IrqKeeps(m, s', sc);
  }

  lemma Started(m: Keymap, s: State, bursts: seq<seq<Byte>>)
    requires Mapped(m) && Inv(s) && s.poller == Idle && Pending(s) > 0
    ensures Underway(m, s, Trail(bursts, 0), s, 0)
  {
  }

  lemma LastStatement(m: Keymap, s: State, trail: seq<Action>, s': State)
    requires Mapped(m) && Shaped(s.ring) && Underway(m, s, trail, s', 5)
    ensures var end := AfterStatement(s');
            && end == Run(m, s, trail + [Statement]) && Inv(end) && end.poller == Idle && end.ring == s'.ring
            && end.polled == s.polled + [s.accepted[|s.polled|]]
  {
    hide Run;
    StatementKeeps(s');
    RunInTwo(m, s, trail, [Statement]);
    OneStep(m, s', Statement);
  }
}

/** ps2kbd.c. */
module KeyboardDriver {
  import opened Basics
  import opened KeyRing

  class Ps2Kbd {
    const kinds: array<Word16>
    const codes: array<Word16>
    const values: array<nat>
    var head: nat
    var tail: nat
    var e0: bool

    ghost predicate Valid()
      reads this
    {
      && kinds.Length == codes.Length == values.Length == SIZE && head < SIZE && tail < SIZE
      && kinds != codes
    }

    ghost function View(): (r: Ring)
      requires Valid()
      reads this, kinds, codes, values
      ensures Shaped(r)
    {
      Ring(kinds[..], codes[..], values[..], head, tail, e0)
    }

    constructor ()
      ensures Valid() && fresh(kinds) && fresh(codes) && fresh(values)
      ensures head == 0 && tail == 0 && !e0
    {
      kinds := new Word16[SIZE](_ => 0);
      codes := new Word16[SIZE](_ => 0);
      values := new nat[SIZE](_ => 0);
      head, tail, e0 := 0, 0, false;
    }

    // push_event.
    method PushEvent(code: Word16, value: nat)
      requires Valid()
      modifies this`head, kinds, codes, values
      ensures Valid() && View() == Push(old(View()), Event(EV_KEY, code, value))
    {
      var next := (head + 1) % SIZE;
      if next == tail {
        return;
      }
      kinds[head] := EV_KEY;
      codes[head] := code;
      values[head] := value;
      head := next;
    }

    // ps2kbd_irq.
    method Irq(m: Keymap, sc: Option<Byte>)
      requires Valid() && Mapped(m)
      modifies this`head, this`e0, kinds, codes, values
      ensures Valid() && View() == KeyRing.Irq(m, old(View()), sc)
    {
      if sc.None? {
        return;
      }
      if sc.value == 0xE0 {
        e0 := true;
        return;
      }
      if sc.value == 0xE1 {
        return;
      }
      var raw := sc.value % 0x80;
      var value := if sc.value >= 0x80 then 0 else 1;
      var code: Word16 := 0;
      if e0 {
        var i := 0;
        while i < |m.extended|
          invariant i <= |m.extended| && code == 0
          invariant Lookup(m.extended, raw) == Lookup(m.extended[i..], raw)
        {
          if m.extended[i].sc == raw {
            code := m.extended[i].code;
            break;
          }
          i := i + 1;
        }
        e0 := false;
      } else if raw < 0x64 {
        code := m.base[raw];
      }
      if code != 0 {
        PushEvent(code, value);
      }
    }

    // The burst of interrupts after statement k of a poll.
    method Burst(m: Keymap, bursts: seq<seq<Byte>>, k: nat, ghost s: State, ghost now: State) returns (ghost s': State)
      requires Valid() && Mapped(m) && Shaped(s.ring) && k < |bursts| && now.ring == View()
      requires Underway(m, s, Trail(bursts, k) + [Statement], now, k + 1)
      modifies this`head, this`e0, kinds, codes, values
      ensures Valid() && Underway(m, s, Trail(bursts, k + 1), s', k + 1) && s'.ring == View()
    {
      hide Underway, KeyRing.Irq, Keys;
      s' := now;
      var scs := bursts[k];
      ghost var trail := Trail(bursts, k) + [Statement];
      var i := 0;
      KeysSoFar(scs, 0);
      assert trail + [] == trail;
      while i < |scs|
        invariant i <= |scs| && Valid() && s'.ring == View()
        invariant Underway(m, s, trail + Keys(scs[..i]), s', k + 1)
      {
        InterruptTaken(m, s, trail + Keys(scs[..i]), s', k + 1, Some(scs[i]));
        KeysSoFar(scs, i + 1);
        assert trail + Keys(scs[..i]) + [Interrupt(Some(scs[i]))] == trail + Keys(scs[..i + 1]);
        Irq(m, Some(scs[i]));
        s' := AfterIrq(m, s', Some(scs[i]));
        i := i + 1;
      }
      assert scs[..i] == scs;
    }

    // The statements of a poll that read the slot at the tail.
    method ReadEvent(m: Keymap, bursts: seq<seq<Byte>>, ghost s: State, ghost now: State)
      returns (kind: Word16, code: Word16, value: nat, ghost s': State)
      requires Valid() && Mapped(m) && Shaped(s.ring) && |bursts| == 5 && now.ring == View()
      requires Underway(m, s, Trail(bursts, 1), now, 1)
      modifies this`head, this`e0, kinds, codes, values
      ensures Valid() && Underway(m, s, Trail(bursts, 4), s', 4) && s'.ring == View()
      ensures |s.polled| < |s.accepted| && Event(kind, code, value) == s.accepted[|s.polled|]
    {
      hide Underway, AfterStatement, Trail;
      s' := now;
      StatementTaken(m, s, Trail(bursts, 1), s', 1);
      kind := kinds[tail];
      s' := AfterStatement(s');
      s' := Burst(m, bursts, 1, s, s');
      StatementTaken(m, s, Trail(bursts, 2), s', 2);
      code := codes[tail];
      s' := AfterStatement(s');
      s' := Burst(m, bursts, 2, s, s');
      StatementTaken(m, s, Trail(bursts, 3), s', 3);
      value := values[tail];
      s' := AfterStatement(s');
      s' := Burst(m, bursts, 3, s, s');
    }

    // ps2kbd_poll, with a burst of interrupts after each of its statements but the last. s is the
    // state of the protocol when it starts.
    method Poll(m: Keymap, bursts: seq<seq<Byte>>, ghost s: State) returns (got: bool, ev: seq<Byte>, ghost s': State)
      requires Valid() && Mapped(m) && |bursts| == 5 && Inv(s) && s.ring == View() && s.poller == Idle
      modifies this, kinds, codes, values
      ensures Valid() && s'.ring == View() && Inv(s') && s'.poller == Idle
      ensures got <==> Pending(s) > 0
      ensures !got ==> s' == s
      ensures got ==> s' == Run(m, s, Schedule(bursts))
      ensures got ==> |s.polled| < |s.accepted| && s'.polled == s.polled + [s.accepted[|s.polled|]]
                      && ev == Bytes(s.accepted[|s.polled|])
    {
      hide Inv, Underway, AfterStatement, Run, Trail, Bytes, Pending, Full;
      ev := [];
      s' := s;
      FullExactly(s);
      if head == tail {
        return false, ev, s';
      }
      Started(m, s, bursts);
      StatementTaken(m, s, Trail(bursts, 0), s', 0);
      s' := AfterStatement(s');
      s' := Burst(m, bursts, 0, s, s');
      var kind, code, value;
      kind, code, value, s' := ReadEvent(m, bursts, s, s');
      StatementTaken(m, s, Trail(bursts, 4), s', 4);
      tail := (tail + 1) % SIZE;
      s' := AfterStatement(s');
      s' := Burst(m, bursts, 4, s, s');
      LastStatement(m, s, Trail(bursts, 5), s');
      ev := Bytes(Event(kind, code, value));
      s' := AfterStatement(s');
      got := true;
    }
  }

  lemma KeysSoFar(scs: seq<Byte>, i: nat)
    requires i <= |scs|
    ensures i == 0 ==> Keys(scs[..i]) == []
    ensures i > 0 ==> Keys(scs[..i]) == Keys(scs[..i - 1]) + [Interrupt(Some(scs[i - 1]))]
  {
  }
}
