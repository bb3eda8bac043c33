/** The split virtqueue as driver and device share it (section 2.7 of VIRTIO 1.2). */
module SplitQueue {
  const WRAP16: nat := 0x1_0000
  const F_WRITE: nat := 2

  datatype Desc = Desc(addr: nat, len: nat, flags: nat, next: nat)

  // Descriptor table, both rings with their free-running 16-bit counters, the driver's own two
  // fields, and the memory that descriptors point into.
  datatype Queue = Queue(
    size: nat,
    desc: seq<Desc>,
    avail: seq<nat>, availIdx: nat,
    used: seq<nat>, usedIdx: nat,
    lastUsed: nat, freeDesc: nat,
    mem: map<nat, bv8>)
  {
    ghost predicate Shape() {
      && 0 < size && |desc| == |avail| == |used| == size
      && availIdx < WRAP16 && usedIdx < WRAP16 && lastUsed < WRAP16
    }
  }

  // The size divides 2^16: it is a power of two.
  predicate LegalSize(size: nat)
    requires size > 0
  {
    WRAP16 % size == 0
  }

  // A free-running count as its 16-bit counter shows it.
  function Word16(i: nat): (w: nat)
    ensures w < WRAP16
  {
    i % WRAP16
  }

  // The ring entry of a position.
  function Entry(i: nat, size: nat): (e: nat)
    requires size > 0
    ensures e < size
  {
    i % size
  }

  // virtq_alloc_desc: pops the chain threaded through the next fields.
  function PopDesc(q: Queue): Queue
    requires q.freeDesc < |q.desc|
  {
    q.(freeDesc := q.desc[q.freeDesc].next)
  }

  // virtq_fill_desc: the next field is zeroed with the rest.
  function Fill(q: Queue, d: nat, addr: nat, len: nat, flags: nat): Queue
    requires d < |q.desc|
  {
    q.(desc := q.desc[d := Desc(addr, len, flags, 0)])
  }

  // virtq_submit in its two stores: the ring entry, then the counter.
  function Offer(q: Queue, d: nat): Queue
    requires q.size > 0 && |q.avail| == q.size
  {
    q.(avail := q.avail[Entry(q.availIdx, q.size) := d])
  }

  function Announce(q: Queue): Queue {
    q.(availIdx := Word16(q.availIdx + 1))
  }

  function Submit(q: Queue, d: nat): Queue
    requires q.size > 0 && |q.avail| == q.size
  {
    Announce(Offer(q, d))
  }

  // virtq_get_used once the counters differ: the entry is read, its head becomes the free
  // descriptor, and the driver's counter moves on.
  function UsedHead(q: Queue): nat
    requires q.size > 0 && |q.used| == q.size
  {
    q.used[Entry(q.lastUsed, q.size)]
  }

  function Consume(q: Queue): Queue
    requires q.size > 0 && |q.used| == q.size
  {
    q.(freeDesc := UsedHead(q), lastUsed := Word16(q.lastUsed + 1))
  }

  // Taking a ring index modulo the queue size survives the wrap of the counter exactly when the size
  // divides 2^16, that is for the powers of two that VIRTIO requires.
  lemma IndexSurvivesWrapExactly(size: nat)
    requires size > 0
    ensures (forall i: nat :: Entry(Word16(i), size) == Entry(i, size)) <==> LegalSize(size)
  {
    if forall i: nat :: Entry(Word16(i), size) == Entry(i, size) {
      assert Entry(Word16(WRAP16), size) == Entry(WRAP16, size);
    }
    if LegalSize(size) {
      forall i: nat ensures Entry(Word16(i), size) == Entry(i, size) {
        EntryOfWord(i, size);
      }
    }
  }

  lemma WordSucc(i: nat)
    ensures Word16(Word16(i) + 1) == Word16(i + 1) && Word16(i) < WRAP16
  {
  }

  lemma WordsTell(i: nat, j: nat)
    requires i <= j < i + WRAP16
    ensures Word16(i) == Word16(j) <==> i == j
  {
  }

  lemma EntryOfWord(i: nat, size: nat)
    requires size > 0 && LegalSize(size)
    ensures Entry(Word16(i), size) == Entry(i, size)
  {
    var k, m := i / WRAP16, WRAP16 / size;
    assert i == k * WRAP16 + i % WRAP16 && WRAP16 == m * size;
    assert k * WRAP16 == (k * m) * size;
    ModAdd(i % WRAP16, k * m, size);
  }

  lemma {:induction false} ModAdd(r: nat, k: nat, size: nat)
    requires size > 0
    ensures (k * size + r) % size == r % size
  {
    if k > 0 {
      ModAdd(r, k - 1, size);
      assert (k * size + r) == ((k - 1) * size + r) + size;
      StepBack((k - 1) * size + r, size);
    }
  }

  lemma AtLeastOnce(k: int, size: nat)
    requires k >= 1
    ensures k * size >= size
  {
    assert k * size == (k - 1) * size + size;
    assert (k - 1) * size >= 0;
  }

  // Quotient and remainder are determined by what they add up to.
  lemma RemainderIsUnique(x: nat, q: int, r: nat, size: nat)
    requires size > 0 && r < size && x == q * size + r
    ensures x % size == r
  {
    var q', r' := x / size, x % size;
    assert x == q' * size + r';
    assert (q - q') * size == r' - r;
    assert (q' - q) * size == r - r';
    if q > q' {
      AtLeastOnce(q - q', size);
    } else if q < q' {
      AtLeastOnce(q' - q, size);
    }
  }

  lemma StepBack(x: nat, size: nat)
    requires size > 0
    ensures (x + size) % size == x % size
  {
    var q := x / size;
    assert x == q * size + x % size;
    assert x + size == (q + 1) * size + x % size;
    RemainderIsUnique(x + size, q + 1, x % size, size);
  }

  // Within `size` consecutive positions no two fall on the same ring entry.
  lemma RingEntriesDiffer(i: nat, j: nat, size: nat)
    requires i < j < i + size
    ensures Entry(i, size) != Entry(j, size)
  {
    var q, r, d := i / size, i % size, j - i;
    assert i == q * size + r;
    if r + d < size {
      RemainderIsUnique(j, q, r + d, size);
    } else {
      assert (q + 1) * size == q * size + size;
      RemainderIsUnique(j, q + 1, r + d - size, size);
    }
  }
}

/** The keyboard's event queue: the driver polls while the device takes, fills and returns buffers
  * at any moment in between. */
module InputProtocol {
  import opened SplitQueue

  const EVENT_SIZE: nat := 8
  const RING_SIZE: nat := 64

  type Event = seq<bv8>

  // Who may touch a descriptor and its buffer. Offered buffers carry their position in the history of
  // submissions; staged and returned ones theirs in the history of completions.
  datatype Owner = Offered(pos: nat) | Device | Staged(pos: nat) | Returned(pos: nat) | Driver

  // Where the driver stands in virtio_input_poll.
  datatype Pc =
    | Idle                             // between polls
    | Found                            // the counters were seen to differ
    | Copying(id: nat, got: seq<bv8>)  // copying the event out byte by byte
    | Filled(id: nat, got: seq<bv8>)   // descriptor rewritten
    | Posted(id: nat, got: seq<bv8>)   // ring entry written, counter not yet moved

  // `seen`, `held` and `staged` are the device's: its own counter, the buffers it has taken, and those
  // it has entered in the used ring without announcing them yet. The rest is history: all ids ever
  // submitted and completed, how many were taken and fetched, the events published and polled.
  datatype State = State(
    q: Queue, base: nat, pc: Pc,
    seen: nat, held: set<nat>, staged: seq<nat>,
    owner: seq<Owner>,
    submitted: seq<nat>, taken: nat,
    completed: seq<nat>, fetched: nat,
    events: seq<Event>, polled: seq<Event>)

  function SlotAddr(base: nat, d: nat): nat {
    base + EVENT_SIZE * d
  }

  // The slots lie side by side in the ring of the device structure.
  lemma SlotsSideBySide(base: nat, d: nat)
    requires d < RING_SIZE
    ensures base <= SlotAddr(base, d) && SlotAddr(base, d) + EVENT_SIZE <= base + RING_SIZE * EVENT_SIZE
    ensures SlotAddr(base, 0) == base && SlotAddr(base, d + 1) == SlotAddr(base, d) + EVENT_SIZE
    ensures RING_SIZE * EVENT_SIZE == 512
  {
  }

  function Byte(mem: map<nat, bv8>, addr: nat): bv8 {
    if addr in mem then mem[addr] else 0
  }

  // The event stored at an address.
  function EventAt(mem: map<nat, bv8>, addr: nat): (e: Event)
    ensures |e| == EVENT_SIZE
  {
    seq(EVENT_SIZE, (k: nat) => Byte(mem, addr + k))
  }

  // Byte k of an event is what was stored at offset k of its slot last, and storing there changes no
  // other byte.
  lemma StoreSetsByte(mem: map<nat, bv8>, addr: nat, k: nat, value: bv8)
    requires k < EVENT_SIZE
    ensures EventAt(mem[addr + k := value], addr) == EventAt(mem, addr)[k := value]
  {
    var e, f := EventAt(mem, addr), EventAt(mem[addr + k := value], addr);
    forall i | 0 <= i < EVENT_SIZE ensures f[i] == e[k := value][i] {
      assert f[i] == Byte(mem[addr + k := value], addr + i);
      assert e[i] == Byte(mem, addr + i);
    }
  }

  // ---------------------------------------------------------------- steps

  datatype Action =
    // driver
    | Check | Fetch | CopyByte | Refill | PutBack | Bump
    // device
    | Take | Store(d: nat, k: nat, value: bv8) | Return(d: nat) | Publish(n: nat)

  ghost predicate Hand(pc: Pc, d: nat) {
    (pc.Copying? || pc.Filled? || pc.Posted?) && pc.id == d
  }

  ghost predicate Typed(s: State) {
    && s.q.Shape() && s.q.size <= RING_SIZE && LegalSize(s.q.size)
    && |s.owner| == s.q.size && s.seen < WRAP16
    && (forall d | d in s.staged :: d < s.q.size)
    && (forall d | d in s.held :: d < s.q.size)
    && (forall d: nat | Hand(s.pc, d) :: d < s.q.size)
  }

  ghost predicate Enabled(s: State, a: Action)
    requires Typed(s)
  {
    match a
    case Check => s.pc.Idle?
    case Fetch => s.pc.Found? && UsedHead(s.q) < s.q.size
    case CopyByte => s.pc.Copying? && |s.pc.got| < EVENT_SIZE
    case Refill => s.pc.Copying? && |s.pc.got| == EVENT_SIZE
    case PutBack => s.pc.Filled?
    case Bump => s.pc.Posted?
    case Take => s.seen != s.q.availIdx && s.q.avail[Entry(s.seen, s.q.size)] < s.q.size
    case Store(d, k, _) => d in s.held && k < s.q.desc[d].len && s.q.desc[d].flags == F_WRITE
    case Return(d) => d in s.held
    case Publish(n) => 0 < n <= |s.staged|
  }

  // What moving the counter up to `end` makes of the staged buffers.
  function Announced(owner: seq<Owner>, end: nat): (r: seq<Owner>)
    ensures |r| == |owner|
  {
    seq(|owner|, (d: nat) requires d < |owner| =>
      if owner[d].Staged? && owner[d].pos < end then Returned(owner[d].pos) else owner[d])
  }

  function EventsOf(q: Queue, ids: seq<nat>): (es: seq<Event>)
    requires forall d | d in ids :: d < |q.desc|
    ensures |es| == |ids|
  {
    seq(|ids|, (i: nat) requires i < |ids| && ids[i] in ids => EventAt(q.mem, q.desc[ids[i]].addr))
  }

  ghost function Next(s: State, a: Action): State
    requires Typed(s) && Enabled(s, a)
  {
    match a
    case Check => if s.q.usedIdx == s.q.lastUsed then s else s.(pc := Found)
    case Fetch =>
      var id := UsedHead(s.q);
      s.(q := Consume(s.q), pc := Copying(id, []), owner := s.owner[id := Driver], fetched := s.fetched + 1)
    case CopyByte =>
      s.(pc := Copying(s.pc.id, s.pc.got + [Byte(s.q.mem, SlotAddr(s.base, s.pc.id) + |s.pc.got|)]))
    case Refill =>
      assert Hand(s.pc, s.pc.id);
      s.(q := Fill(s.q, s.pc.id, SlotAddr(s.base, s.pc.id), EVENT_SIZE, F_WRITE), pc := Filled(s.pc.id, s.pc.got))
    case PutBack => s.(q := Offer(s.q, s.pc.id), pc := Posted(s.pc.id, s.pc.got))
    case Bump =>
      assert Hand(s.pc, s.pc.id);
      s.(q := Announce(s.q), pc := Idle, polled := s.polled + [s.pc.got],
         owner := s.owner[s.pc.id := Offered(|s.submitted|)], submitted := s.submitted + [s.pc.id])
    case Take =>
      var d := s.q.avail[Entry(s.seen, s.q.size)];
      s.(seen := Word16(s.seen + 1), held := s.held + {d}, owner := s.owner[d := Device], taken := s.taken + 1)
    case Store(d, k, value) => s.(q := s.q.(mem := s.q.mem[s.q.desc[d].addr + k := value]))
    case Return(d) =>
      s.(q := s.q.(used := s.q.used[Entry(Word16(s.q.usedIdx + |s.staged|), s.q.size) := d]),
         held := s.held - {d}, staged := s.staged + [d],
         owner := s.owner[d := Staged(|s.completed| + |s.staged|)])
    case Publish(n) =>
      var ids := s.staged[..n];
      assert forall d | d in ids :: d in s.staged;
      s.(q := s.q.(usedIdx := Word16(s.q.usedIdx + n)), staged := s.staged[n..],
         owner := Announced(s.owner, |s.completed| + n), completed := s.completed + ids,
         events := s.events + EventsOf(s.q, ids))
  }

  // ---------------------------------------------------------------- invariant

  // One buffer is in the driver's hands while it serves an event.
  function InHand(pc: Pc): nat {
    if pc.Copying? || pc.Filled? || pc.Posted? then 1 else 0
  }

  // The 16-bit counters are the history's counts, and between polls every buffer is on offer, with
  // the device or unread: submissions are ahead of fetches by exactly the queue size.
  ghost predicate Counters(s: State) {
    && s.q.availIdx == Word16(|s.submitted|) && s.seen == Word16(s.taken)
    && s.q.usedIdx == Word16(|s.completed|) && s.q.lastUsed == Word16(s.fetched)
    && |s.submitted| + InHand(s.pc) == s.fetched + s.q.size
    && s.taken <= |s.submitted|
    && s.taken == |s.completed| + |s.held| + |s.staged|
    && s.fetched <= |s.completed|
    && (s.pc.Found? ==> s.fetched < |s.completed|)
  }

  // No ring entry still to be read has been overwritten.
  ghost predicate Rings(s: State)
    requires s.q.Shape()
  {
    && (forall i | s.taken <= i < |s.submitted| :: s.q.avail[Entry(i, s.q.size)] == s.submitted[i])
    && (forall i | s.fetched <= i < |s.completed| :: s.q.used[Entry(i, s.q.size)] == s.completed[i])
    && (forall i | 0 <= i < |s.staged| :: s.q.used[Entry(|s.completed| + i, s.q.size)] == s.staged[i])
    && (s.pc.Posted? ==> s.q.avail[Entry(|s.submitted|, s.q.size)] == s.pc.id)
  }

  ghost predicate OwnerOk(s: State, d: nat)
    requires d < |s.owner|
  {
    match s.owner[d]
    case Offered(i) => s.taken <= i < |s.submitted| && s.submitted[i] == d
    case Device => d in s.held
    case Staged(i) => |s.completed| <= i < |s.completed| + |s.staged| && s.staged[i - |s.completed|] == d
    case Returned(i) => s.fetched <= i < |s.completed| && s.completed[i] == d
    case Driver => Hand(s.pc, d)
  }

  // Every descriptor is in exactly one place, and each place holds what it says.
  ghost predicate Ownership(s: State) {
    && (forall d | 0 <= d < |s.owner| :: OwnerOk(s, d))
    && (forall i | s.taken <= i < |s.submitted| ::
          s.submitted[i] < |s.owner| && s.owner[s.submitted[i]] == Offered(i))
    && (forall i | s.fetched <= i < |s.completed| ::
          s.completed[i] < |s.owner| && s.owner[s.completed[i]] == Returned(i))
    && (forall d | d in s.held :: d < |s.owner| && s.owner[d] == Device)
    && (forall i | 0 <= i < |s.staged| ::
          s.staged[i] < |s.owner| && s.owner[s.staged[i]] == Staged(|s.completed| + i))
    && (forall d: nat | Hand(s.pc, d) :: d < |s.owner| && s.owner[d] == Driver)
  }

  // Descriptor d always points at slot d.
  ghost predicate Slots(s: State) {
    forall d | 0 <= d < |s.q.desc| :: s.q.desc[d] == Desc(SlotAddr(s.base, d), EVENT_SIZE, F_WRITE, 0)
  }

  // Published events lie untouched in their slots until they are read, and what has been polled is a
  // prefix of what was published.
  ghost predicate Data(s: State) {
    && |s.events| == |s.completed|
    && (forall i | s.fetched <= i < |s.completed| :: s.events[i] == EventAt(s.q.mem, SlotAddr(s.base, s.completed[i])))
    && |s.polled| + InHand(s.pc) == s.fetched <= |s.events|
    && s.polled == s.events[..|s.polled|]
    && (InHand(s.pc) == 1 ==>
          && |s.pc.got| <= EVENT_SIZE && (!s.pc.Copying? ==> |s.pc.got| == EVENT_SIZE)
          && |s.events[|s.polled|]| == EVENT_SIZE
          && s.pc.got == s.events[|s.polled|][..|s.pc.got|]
          && (s.pc.Copying? ==> s.events[|s.polled|] == EventAt(s.q.mem, SlotAddr(s.base, s.pc.id))))
  }

  ghost predicate Inv(s: State) {
    Typed(s) && Counters(s) && Rings(s) && Ownership(s) && Slots(s) && Data(s)
  }

  // ---------------------------------------------------------------- each step keeps it

  // Between |completed| - |fetched| and the queue size, at most.
  lemma Bounds(s: State)
    requires Typed(s) && Counters(s)
    ensures |s.completed| <= s.taken <= |s.submitted| <= s.fetched + s.q.size
    ensures InHand(s.pc) == 1 ==> |s.submitted| < s.fetched + s.q.size
    ensures |s.completed| + |s.staged| + |s.held| == s.taken
  {
  }

  // Comparing 16-bit counters decides whether anything is unread, although they wrap.
  lemma CountersTell(s: State)
    requires Typed(s) && Counters(s)
    ensures s.q.usedIdx == s.q.lastUsed <==> |s.completed| == s.fetched
    ensures s.seen == s.q.availIdx <==> s.taken == |s.submitted|
  {
    hide Word16, LegalSize;
    Bounds(s);
    WordsTell(s.fetched, |s.completed|);
    WordsTell(s.taken, |s.submitted|);
  }

  lemma CheckKeeps(s: State)
    requires Inv(s) && Enabled(s, Check)
    ensures Inv(Next(s, Check))
  {
    hide Entry, Word16, LegalSize;
    CountersTell(s);
    var t := Next(s, Check);
    forall d | 0 <= d < |t.owner| ensures OwnerOk(t, d) {
      assert OwnerOk(s, d);
    }
  }

  lemma FetchKeeps(s: State)
    requires Inv(s) && Enabled(s, Fetch)
    ensures Inv(Next(s, Fetch))
  {
    hide Entry, Word16, LegalSize, EventAt, SlotAddr;
    EntryOfWord(s.fetched, s.q.size);
    WordSucc(s.fetched);
    var id := s.completed[s.fetched];
    assert UsedHead(s.q) == id;
    assert s.owner[id] == Returned(s.fetched);
    var t := Next(s, Fetch);
    forall d | 0 <= d < |t.owner| ensures OwnerOk(t, d) {
      assert OwnerOk(s, d);
    }
  }

  lemma CopyKeeps(s: State)
    requires Inv(s) && Enabled(s, CopyByte)
    ensures Inv(Next(s, CopyByte))
  {
    hide Entry, Word16, LegalSize, SlotAddr;
    var t := Next(s, CopyByte);
    assert Hand(s.pc, s.pc.id);
    var k := |s.pc.got|;
    assert t.pc.got == s.events[|s.polled|][..k + 1];
    forall d | 0 <= d < |t.owner| ensures OwnerOk(t, d) {
      assert OwnerOk(s, d);
    }
  }

  lemma RefillKeeps(s: State)
    requires Inv(s) && Enabled(s, Refill)
    ensures Inv(Next(s, Refill))
  {
    hide Entry, Word16, LegalSize, EventAt, SlotAddr;
    var t := Next(s, Refill);
    assert Hand(s.pc, s.pc.id);
    forall d | 0 <= d < |t.owner| ensures OwnerOk(t, d) {
      assert OwnerOk(s, d);
    }
  }

  lemma PutBackKeeps(s: State)
    requires Inv(s) && Enabled(s, PutBack)
    ensures Inv(Next(s, PutBack))
  {
    hide Entry, Word16, LegalSize, EventAt, SlotAddr;
    var t := Next(s, PutBack);
    assert Hand(s.pc, s.pc.id);
    var n, A := s.q.size, |s.submitted|;
    EntryOfWord(A, n);
    forall i | s.taken <= i < A ensures Entry(i, n) != Entry(A, n) {
      RingEntriesDiffer(i, A, n);
    }
    forall d | 0 <= d < |t.owner| ensures OwnerOk(t, d) {
      assert OwnerOk(s, d);
    }
  }

  lemma BumpKeeps(s: State)
    requires Inv(s) && Enabled(s, Bump)
    ensures Inv(Next(s, Bump))
  {
    hide Entry, Word16, LegalSize, EventAt, SlotAddr;
    var t := Next(s, Bump);
    assert Hand(s.pc, s.pc.id);
    WordSucc(|s.submitted|);
    assert s.pc.got == s.events[|s.polled|];
    assert s.events[..|s.polled| + 1] == s.events[..|s.polled|] + [s.events[|s.polled|]];
    BumpOwnership(s, t);
    hide Ownership, OwnerOk;
    assert Typed(t);
    assert Counters(t);
    assert Rings(t);
    assert Slots(t);
    assert Data(t);
  }

  lemma BumpOwnership(s: State, t: State)
    requires Ownership(s) && s.pc.Posted? && s.pc.id < |s.owner| && s.taken <= |s.submitted|
    requires t.owner == s.owner[s.pc.id := Offered(|s.submitted|)] && t.submitted == s.submitted + [s.pc.id]
    requires t.pc == Idle && t.taken == s.taken && t.held == s.held && t.staged == s.staged
    requires t.completed == s.completed && t.fetched == s.fetched
    ensures Ownership(t)
  {
    assert Hand(s.pc, s.pc.id);
    forall d | 0 <= d < |t.owner| ensures OwnerOk(t, d) {
      assert OwnerOk(s, d);
    }
  }

  lemma TakeOwnership(s: State, t: State)
    requires Ownership(s) && s.taken < |s.submitted|
    requires s.submitted[s.taken] < |s.owner| && t.held == s.held + {s.submitted[s.taken]}
    requires t.owner == s.owner[s.submitted[s.taken] := Device] && t.taken == s.taken + 1
    requires t.pc == s.pc && t.staged == s.staged && t.submitted == s.submitted
    requires t.completed == s.completed && t.fetched == s.fetched
    ensures Ownership(t) && s.submitted[s.taken] !in s.held
  {
    assert s.owner[s.submitted[s.taken]] == Offered(s.taken);
    forall d | 0 <= d < |t.owner| ensures OwnerOk(t, d) {
      assert OwnerOk(s, d);
    }
  }

  lemma TakeKeeps(s: State)
    requires Inv(s) && Enabled(s, Take)
    ensures Inv(Next(s, Take))
  {
    hide Entry, Word16, LegalSize, EventAt, SlotAddr;
    var t := Next(s, Take);
    CountersTell(s);
    EntryOfWord(s.taken, s.q.size);
    WordSucc(s.taken);
    assert s.q.avail[Entry(s.taken, s.q.size)] == s.submitted[s.taken];
    TakeOwnership(s, t);
    hide Ownership, OwnerOk, Hand;
    assert Counters(t);
    assert Rings(t);
  }

  lemma StoreElsewhere(mem: map<nat, bv8>, a: nat, value: bv8, addr: nat)
    requires a < addr || a >= addr + EVENT_SIZE
    ensures EventAt(mem[a := value], addr) == EventAt(mem, addr)
  {
    var mem' := mem[a := value];
    forall k: nat | k < EVENT_SIZE ensures EventAt(mem', addr)[k] == EventAt(mem, addr)[k] {
      assert Byte(mem', addr + k) == Byte(mem, addr + k);
    }
  }

  // The device writes into buffers it holds; the slots of unread events, and the one being copied,
  // are elsewhere.
  lemma StoreKeeps(s: State, d: nat, k: nat, value: bv8)
    requires Inv(s) && Enabled(s, Store(d, k, value))
    ensures Inv(Next(s, Store(d, k, value)))
  {
    hide Entry, Word16, LegalSize;
    var t := Next(s, Store(d, k, value));
    forall e: nat | e != d ensures EventAt(t.q.mem, SlotAddr(s.base, e)) == EventAt(s.q.mem, SlotAddr(s.base, e)) {
      StoreElsewhere(s.q.mem, SlotAddr(s.base, d) + k, value, SlotAddr(s.base, e));
    }
    hide EventAt, SlotAddr;
    forall d | 0 <= d < |t.owner| ensures OwnerOk(t, d) {
      assert OwnerOk(s, d);
    }
  }

  lemma ReturnRings(s: State, d: nat)
    requires Typed(s) && Counters(s) && Rings(s) && Enabled(s, Return(d))
    ensures Rings(Next(s, Return(d)))
  {
    hide Entry, Word16, LegalSize;
    var n, U := s.q.size, |s.completed| + |s.staged|;
    assert |s.held| > 0;
    Bounds(s);
    WordSum(|s.completed|, |s.staged|);
    EntryOfWord(U, n);
    forall i | s.fetched <= i < U ensures Entry(i, n) != Entry(U, n) {
      RingEntriesDiffer(i, U, n);
    }
  }

  lemma ReturnKeeps(s: State, d: nat)
    requires Inv(s) && Enabled(s, Return(d))
    ensures Inv(Next(s, Return(d)))
  {
    hide Entry, Word16, LegalSize, EventAt, SlotAddr, Rings, Ownership, OwnerOk, Hand;
    var t := Next(s, Return(d));
    assert |s.held - {d}| == |s.held| - 1;
    ReturnRings(s, d);
    ReturnOwnership(s, t, d);
    assert Counters(t);
  }

  lemma ReturnOwnership(s: State, t: State, d: nat)
    requires Ownership(s) && d in s.held && d < |s.owner|
    requires t.owner == s.owner[d := Staged(|s.completed| + |s.staged|)]
    requires t.held == s.held - {d} && t.staged == s.staged + [d]
    requires t.pc == s.pc && t.submitted == s.submitted && t.taken == s.taken
    requires t.completed == s.completed && t.fetched == s.fetched
    ensures Ownership(t)
  {
    forall e | 0 <= e < |t.owner| ensures OwnerOk(t, e) {
      assert OwnerOk(s, e);
    }
  }

  // The entries announced are those of the first n staged buffers, in order.
  lemma PublishRings(s: State, n: nat)
    requires Typed(s) && Counters(s) && Rings(s) && Enabled(s, Publish(n))
    ensures Rings(Next(s, Publish(n)))
  {
    hide Entry, Word16, LegalSize;
    var t := Next(s, Publish(n));
    var U := |s.completed|;
    forall i | t.fetched <= i < |t.completed| ensures t.q.used[Entry(i, t.q.size)] == t.completed[i] {
      if i >= U {
        assert s.q.used[Entry(U + (i - U), s.q.size)] == s.staged[i - U];
      }
    }
    forall i | 0 <= i < |t.staged| ensures t.q.used[Entry(|t.completed| + i, t.q.size)] == t.staged[i] {
      assert s.q.used[Entry(U + (n + i), s.q.size)] == s.staged[n + i];
    }
  }

  lemma PublishKeeps(s: State, n: nat)
    requires Inv(s) && Enabled(s, Publish(n))
    ensures Inv(Next(s, Publish(n)))
  {
    hide Entry, Word16, LegalSize, EventAt, SlotAddr, Rings, Ownership, OwnerOk, Hand, EventsOf;
    var t := Next(s, Publish(n));
    WordSum(|s.completed|, n);
    PublishRings(s, n);
    PublishOwnership(s, t, n);
    PublishData(s, n);
    hide Data;
    assert Counters(t);
  }

  // The events announced lie in the slots of those buffers.
  lemma PublishData(s: State, n: nat)
    requires Typed(s) && Data(s) && Slots(s) && Enabled(s, Publish(n)) && s.fetched <= |s.completed|
    ensures Data(Next(s, Publish(n)))
  {
    hide Entry, Word16, LegalSize, EventAt, SlotAddr;
    var t := Next(s, Publish(n));
    assert s.events[..|s.polled|] == t.events[..|s.polled|];
    forall i | t.fetched <= i < |t.completed|
      ensures t.events[i] == EventAt(t.q.mem, SlotAddr(t.base, t.completed[i]))
    {
      if i >= |s.completed| {
        assert s.staged[i - |s.completed|] in s.staged;
      }
    }
  }

  lemma PublishOwnership(s: State, t: State, n: nat)
    requires Ownership(s) && n <= |s.staged| && t.owner == Announced(s.owner, |s.completed| + n)
    requires t.completed == s.completed + s.staged[..n] && t.staged == s.staged[n..]
    requires t.held == s.held && t.pc == s.pc && s.fetched <= |s.completed|
    requires t.submitted == s.submitted && t.taken == s.taken && t.fetched == s.fetched
    ensures Ownership(t)
  {
    var U := |s.completed|;
    forall d | 0 <= d < |t.owner| ensures OwnerOk(t, d) {
      assert OwnerOk(s, d);
    }
    forall i | t.fetched <= i < |t.completed|
      ensures t.completed[i] < |t.owner| && t.owner[t.completed[i]] == Returned(i)
    {
      if i >= U {
        assert s.owner[s.staged[i - U]] == Staged(U + (i - U));
      }
    }
    forall i | 0 <= i < |t.staged|
      ensures t.staged[i] < |t.owner| && t.owner[t.staged[i]] == Staged(|t.completed| + i)
    {
      assert s.owner[s.staged[n + i]] == Staged(U + (n + i));
    }
  }

  lemma NextKeeps(s: State, a: Action)
    requires Inv(s) && Enabled(s, a)
    ensures Inv(Next(s, a))
  {
    hide Inv, Enabled, Next;
    match a
    case Check => CheckKeeps(s);
    case Fetch => FetchKeeps(s);
    case CopyByte => CopyKeeps(s);
    case Refill => RefillKeeps(s);
    case PutBack => PutBackKeeps(s);
    case Bump => BumpKeeps(s);
    case Take => TakeKeeps(s);
    case Store(d, k, value) => StoreKeeps(s, d, k, value);
    case Return(d) => ReturnKeeps(s, d);
    case Publish(n) => PublishKeeps(s, n);
  }

  // ---------------------------------------------------------------- runs

  // After virtio_input_dev_init: every buffer offered once, in order.
  function Ready(base: nat, size: nat, used: seq<nat>, mem: map<nat, bv8>): Queue {
    Queue(size, seq(size, (d: nat) => Desc(SlotAddr(base, d), EVENT_SIZE, F_WRITE, 0)),
          seq(size, (d: nat) => d), size, used, 0, 0, 0, mem)
  }

  function Initial(base: nat, size: nat, used: seq<nat>, mem: map<nat, bv8>): State {
    State(Ready(base, size, used, mem), base, Idle, 0, {}, [],
          seq(size, (d: nat) => Offered(d)), seq(size, (d: nat) => d), 0, [], 0, [], [])
  }

  lemma InitialIsGood(base: nat, size: nat, used: seq<nat>, mem: map<nat, bv8>)
    requires 0 < size <= RING_SIZE && LegalSize(size) && |used| == size
    ensures Inv(Initial(base, size, used, mem))
  {
    hide LegalSize;
    forall i | 0 <= i < size ensures Entry(i, size) == i && Word16(size) == size {
      RemainderIsUnique(i, 0, i, size);
    }
  }

  // t is reachable from s by `run`, every action enabled when it is taken.
  ghost predicate Reaches(s: State, run: seq<Action>, t: State)
    decreases |run|
  {
    if run == [] then s == t
    else Typed(s) && Enabled(s, run[0]) && Reaches(Next(s, run[0]), run[1..], t)
  }

  lemma {:induction false} RunKeeps(s: State, run: seq<Action>, t: State)
    requires Inv(s) && Reaches(s, run, t)
    ensures Inv(t)
    decreases |run|
  {
    hide Inv, Enabled, Next, Typed;
    if run != [] {
      NextKeeps(s, run[0]);
      RunKeeps(Next(s, run[0]), run[1..], t);
    }
  }

  // Whatever the interleaving, through any number of counter wraps: the events polled are a prefix of
  // the events published, none lost, duplicated, reordered or torn.
  lemma PolledIsPrefixOfPublished(base: nat, size: nat, used: seq<nat>, mem: map<nat, bv8>, run: seq<Action>, t: State)
    requires 0 < size <= RING_SIZE && LegalSize(size) && |used| == size
    requires Reaches(Initial(base, size, used, mem), run, t)
    ensures t.polled <= t.events
  {
    InitialIsGood(base, size, used, mem);
    RunKeeps(Initial(base, size, used, mem), run, t);
  }

  lemma WhenIdle(t: State)
    requires Inv(t) && t.pc.Idle?
    ensures t.q.availIdx == Word16(t.q.lastUsed + t.q.size)
    ensures t.q.usedIdx == t.q.lastUsed <==> t.polled == t.events
    ensures (|t.submitted| - t.taken) + |t.held| + |t.staged| + (|t.completed| - t.fetched) == t.q.size
    ensures forall d | 0 <= d < t.q.size ::
              t.q.desc[d] == Desc(SlotAddr(t.base, d), EVENT_SIZE, F_WRITE, 0) && !t.owner[d].Driver?
  {
    hide Entry, Word16, LegalSize, Rings, EventAt, SlotAddr;
    CountersTell(t);
    WordSum(t.fetched, t.q.size);
    forall d | 0 <= d < t.q.size ensures !t.owner[d].Driver? {
      assert OwnerOk(t, d);
    }
  }

  // Between polls every buffer is on offer, with the device, or unread; avail.idx is ahead of the
  // driver's used counter by the queue size, modulo 2^16; and a poll reports "nothing" exactly when
  // every published event has been polled.
  lemma BetweenPolls(base: nat, size: nat, used: seq<nat>, mem: map<nat, bv8>, run: seq<Action>, t: State)
    requires 0 < size <= RING_SIZE && LegalSize(size) && |used| == size
    requires Reaches(Initial(base, size, used, mem), run, t)
    requires t.pc.Idle?
    ensures Inv(t) && t.q.size == size
    ensures t.q.availIdx == Word16(t.q.lastUsed + size)
    ensures t.q.usedIdx == t.q.lastUsed <==> t.polled == t.events
    ensures (|t.submitted| - t.taken) + |t.held| + |t.staged| + (|t.completed| - t.fetched) == size
    ensures forall d | 0 <= d < size ::
              t.q.desc[d] == Desc(SlotAddr(base, d), EVENT_SIZE, F_WRITE, 0) && !t.owner[d].Driver?
  {
    hide Counters, Rings, Ownership, Slots, Data, Reaches, Word16, LegalSize;
    InitialIsGood(base, size, used, mem);
    RunKeeps(Initial(base, size, used, mem), run, t);
    BaseIsKept(Initial(base, size, used, mem), run, t);
    WhenIdle(t);
  }

  lemma WordSum(i: nat, n: nat)
    ensures Word16(Word16(i) + n) == Word16(i + n)
  {
  }

  lemma {:induction false} BaseIsKept(s: State, run: seq<Action>, t: State)
    requires Reaches(s, run, t)
    ensures t.base == s.base && t.q.size == s.q.size
    decreases |run|
  {
    if run != [] {
      BaseIsKept(Next(s, run[0]), run[1..], t);
    }
  }

  // ---------------------------------------------------------------- one whole poll

  // virtio_input_poll on the queue alone, run without interruption.
  ghost function Polled(q: Queue, base: nat): Queue
    requires q.size > 0 && |q.used| == |q.desc| == |q.avail| == q.size && UsedHead(q) < q.size
  {
    var id := UsedHead(q);
    Submit(Fill(Consume(q), id, SlotAddr(base, id), EVENT_SIZE, F_WRITE), id)
  }

  ghost function CopySteps(n: nat): seq<Action> {
    seq(n, _ => CopyByte)
  }

  lemma {:induction false} CopyingRun(s: State, n: nat, t: State)
    requires Typed(s) && s.pc.Copying? && |s.pc.got| + n == EVENT_SIZE
    requires s.pc.got == EventAt(s.q.mem, SlotAddr(s.base, s.pc.id))[..|s.pc.got|]
    requires t == s.(pc := Copying(s.pc.id, EventAt(s.q.mem, SlotAddr(s.base, s.pc.id))))
    ensures Reaches(s, CopySteps(n), t)
    decreases n
  {
    hide LegalSize;
    var e := EventAt(s.q.mem, SlotAddr(s.base, s.pc.id));
    if n == 0 {
      assert e[..EVENT_SIZE] == e;
    } else {
      var m := Next(s, CopyByte);
      assert m.pc.got == e[..|s.pc.got| + 1];
      assert Hand(s.pc, s.pc.id);
      CopyingRun(m, n - 1, t);
      assert CopySteps(n)[1..] == CopySteps(n - 1);
    }
  }

  lemma {:induction false} ReachesJoins(s: State, r1: seq<Action>, m: State, r2: seq<Action>, t: State)
    requires Reaches(s, r1, m) && Reaches(m, r2, t)
    ensures Reaches(s, r1 + r2, t)
    decreases |r1|
  {
    if r1 == [] {
      assert r1 + r2 == r2;
    } else {
      ReachesJoins(Next(s, r1[0]), r1[1..], m, r2, t);
      assert (r1 + r2)[1..] == r1[1..] + r2;
    }
  }

  // The state after one uninterrupted poll that finds an event.
  ghost function AfterPoll(s: State): State
    requires Inv(s) && UsedHead(s.q) < s.q.size
  {
    var id := UsedHead(s.q);
    s.(q := Polled(s.q, s.base), owner := s.owner[id := Offered(|s.submitted|)], fetched := s.fetched + 1,
       submitted := s.submitted + [id], polled := s.polled + [EventAt(s.q.mem, SlotAddr(s.base, id))])
  }

  lemma UnreadHeadIsValid(s: State)
    requires Inv(s) && s.q.usedIdx != s.q.lastUsed
    ensures UsedHead(s.q) < s.q.size
  {
    hide LegalSize, Word16, Entry, Slots, Data;
    CountersTell(s);
    EntryOfWord(s.fetched, s.q.size);
    assert UsedHead(s.q) == s.completed[s.fetched];
  }

  ghost function Fetched(s: State): State
    requires Typed(s) && UsedHead(s.q) < s.q.size
  {
    var id := UsedHead(s.q);
    s.(q := Consume(s.q), pc := Copying(id, []), owner := s.owner[id := Driver], fetched := s.fetched + 1)
  }

  lemma PollStarts(s: State)
    requires Typed(s) && s.pc.Idle? && s.q.usedIdx != s.q.lastUsed && UsedHead(s.q) < s.q.size
    ensures Typed(Fetched(s)) && Reaches(s, [Check, Fetch], Fetched(s))
  {
    hide LegalSize, Word16, Entry;
    var s1 := Next(s, Check);
    assert [Check, Fetch][1..] == [Fetch] && [Fetch][1..] == [];
    assert Reaches(s1, [Fetch], Fetched(s));
  }

  ghost function Served(s: State): State
    requires Typed(s) && s.pc.Copying? && s.pc.id < s.q.size
  {
    var id := s.pc.id;
    s.(q := Submit(Fill(s.q, id, SlotAddr(s.base, id), EVENT_SIZE, F_WRITE), id), pc := Idle,
       polled := s.polled + [s.pc.got], owner := s.owner[id := Offered(|s.submitted|)], submitted := s.submitted + [id])
  }

  lemma PollEnds(s: State)
    requires Typed(s) && s.pc.Copying? && |s.pc.got| == EVENT_SIZE && s.pc.id < s.q.size
    ensures Reaches(s, [Refill, PutBack, Bump], Served(s))
  {
    hide LegalSize, Word16, Entry;
    var s1 := Next(s, Refill);
    assert Hand(s.pc, s.pc.id) && Hand(s1.pc, s.pc.id);
    var s2 := Next(s1, PutBack);
    assert Hand(s2.pc, s.pc.id);
    assert [Refill, PutBack, Bump][1..] == [PutBack, Bump] && [PutBack, Bump][1..] == [Bump] && [Bump][1..] == [];
    assert Reaches(s2, [Bump], Served(s));
    assert Reaches(s1, [PutBack, Bump], Served(s));
  }

  // Run without interruption, virtio_input_poll is a run of the protocol: the whole-call contract and
  // the interleaved steps describe the same driver.
  lemma PollIsARun(s: State)
    requires Inv(s) && s.pc.Idle? && s.q.usedIdx != s.q.lastUsed
    ensures UsedHead(s.q) < s.q.size
    ensures Reaches(s, [Check, Fetch] + CopySteps(EVENT_SIZE) + [Refill, PutBack, Bump], AfterPoll(s))
  {
    hide LegalSize, Word16, Entry, Counters, Rings, Slots, Data, Ownership, Reaches;
    UnreadHeadIsValid(s);
    PollStarts(s);
    var a := Fetched(s);
    var b := a.(pc := Copying(a.pc.id, EventAt(s.q.mem, SlotAddr(s.base, a.pc.id))));
    CopyingRun(a, EVENT_SIZE, b);
    assert Typed(b) by {
      assert Hand(a.pc, a.pc.id);
    }
    PollEnds(b);
    assert Served(b).owner == AfterPoll(s).owner;
    ReachesJoins(s, [Check, Fetch], a, CopySteps(EVENT_SIZE), b);
    ReachesJoins(s, [Check, Fetch] + CopySteps(EVENT_SIZE), b, [Refill, PutBack, Bump], Served(b));
  }
}
