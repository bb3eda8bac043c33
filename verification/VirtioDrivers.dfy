/** Commands to the GPU over one queue: two descriptors each, of which only the head comes back. */
module GpuCommands {
  import opened SplitQueue

  datatype Command = Command(phys: nat, size: nat, respPhys: nat, respSize: nat)

  // Between commands descriptor 0 heads the free chain and leads to descriptor 1, and nothing is
  // outstanding.
  ghost predicate CommandReady(q: Queue) {
    && q.Shape() && q.size >= 2
    && q.freeDesc == 0 && q.desc[0].next == 1
    && q.availIdx == q.usedIdx == q.lastUsed
  }

  // Two descriptors are at hand.
  ghost predicate TwoFree(q: Queue) {
    q.Shape() && q.freeDesc < q.size && q.desc[q.freeDesc].next < q.size
  }

  // The two descriptors the next command takes.
  ghost function FirstTaken(q: Queue): nat {
    q.freeDesc
  }

  ghost function SecondTaken(q: Queue): nat
    requires TwoFree(q)
  {
    q.desc[q.freeDesc].next
  }

  // send_cmd up to its wait loop: filling a descriptor clears its link, so the head is linked after
  // both are filled.
  ghost function Begin(q: Queue, c: Command): Queue
    requires TwoFree(q)
  {
    var d0 := FirstTaken(q);
    var q0 := Fill(PopDesc(q), d0, c.phys, c.size, 0);
    var d1 := SecondTaken(q);
    var q1 := Fill(q0.(freeDesc := q0.desc[d1].next), d1, c.respPhys, c.respSize, F_WRITE);
    Submit(q1.(desc := q1.desc[d0 := q1.desc[d0].(next := d1)]), d0)
  }

  // A chain of two descriptors: what the device reads from, then what it writes to, with flag 2.
  ghost predicate Carries(q: Queue, d: nat, c: Command) {
    && d < |q.desc| && q.desc[d].next < |q.desc|
    && q.desc[d] == Desc(c.phys, c.size, 0, q.desc[d].next)
    && q.desc[q.desc[d].next] == Desc(c.respPhys, c.respSize, 2, 0)
  }

  // The one new entry of the available ring heads the command, command buffer first; the counter is one
  // further, and every other entry of the ring and of the descriptor table is as before.
  lemma CommandIsOffered(q: Queue, c: Command)
    requires TwoFree(q) && FirstTaken(q) != SecondTaken(q)
    ensures var r, e := Begin(q, c), q.availIdx % q.size;
            && r.size == q.size == |r.avail| && r.availIdx == (q.availIdx + 1) % 0x1_0000
            && Carries(r, r.avail[e], c)
            && (forall i | 0 <= i < q.size && i != e :: r.avail[i] == q.avail[i])
            && (forall d | 0 <= d < q.size && d != r.avail[e] && d != r.desc[r.avail[e]].next :: r.desc[d] == q.desc[d])
            && r.used == q.used && r.usedIdx == q.usedIdx && r.lastUsed == q.lastUsed && r.mem == q.mem
  {
  }

  // The device answers the command outstanding: it returns the head it finds in the available ring.
  ghost function Answered(q: Queue): Queue
    requires q.size > 0 && |q.used| == |q.avail| == q.size
  {
    var head := q.avail[Entry(q.usedIdx, q.size)];
    q.(used := q.used[Entry(q.usedIdx, q.size) := head], usedIdx := Word16(q.usedIdx + 1))
  }

  ghost function Complete(q: Queue, c: Command): Queue
    requires TwoFree(q)
  {
    Consume(Answered(Begin(q, c)))
  }

  // What a command leaves behind: the links that virtq_fill_desc cleared are as they were, and the
  // free list, to which only the head came back, leads to both descriptors.
  lemma CommandComesBack(q: Queue, c: Command)
    requires CommandReady(q)
    ensures TwoFree(q) && FirstTaken(q) == 0 && SecondTaken(q) == 1
    ensures CommandReady(Complete(q, c)) && Complete(q, c).size == q.size
    ensures Complete(q, c).desc
            == q.desc[0 := Desc(c.phys, c.size, 0, 1)][1 := Desc(c.respPhys, c.respSize, F_WRITE, 0)]
    ensures Complete(q, c).desc[2..] == q.desc[2..]
    ensures Complete(q, c).avail == q.avail[q.availIdx % q.size := 0]
    ensures Complete(q, c).usedIdx == Word16(q.usedIdx + 1)
  {
    hide Word16;
  }

  // All the commands, each answered before its timeout.
  ghost function CompleteAll(q: Queue, cs: seq<Command>): Queue
    requires CommandReady(q)
    decreases |cs|
  {
    if cs == [] then q
    else
      CommandComesBack(q, cs[0]);
      CompleteAll(Complete(q, cs[0]), cs[1..])
  }

  lemma OneCommand(q: Queue, c: Command)
    requires CommandReady(q)
    ensures var q' := Complete(q, c);
            CommandReady(q') && q'.size == q.size && q'.desc[2..] == q.desc[2..] && q'.usedIdx == Word16(q.usedIdx + 1)
  {
    hide Word16, CommandReady, Complete;
    CommandComesBack(q, c);
  }

  // However many commands are sent, also past the wrap of the 16-bit counters, the next one takes
  // descriptors 0 and 1, and no other descriptor has changed: none leaks.
  lemma {:induction false} NoDescriptorLeaks(q: Queue, cs: seq<Command>)
    requires CommandReady(q)
    ensures var q' := CompleteAll(q, cs);
            && CommandReady(q') && q'.size == q.size && FirstTaken(q') == 0 && SecondTaken(q') == 1
            && q'.desc[2..] == q.desc[2..]
            && q'.usedIdx == Word16(q.usedIdx + |cs|)
    decreases |cs|
  {
    hide Word16;
    if cs != [] {
      hide Complete, CommandReady, TwoFree, FirstTaken, SecondTaken;
      OneCommand(q, cs[0]);
      NoDescriptorLeaks(Complete(q, cs[0]), cs[1..]);
      Counting(q.usedIdx, |cs| - 1);
    } else {
      Unmoved(q.usedIdx);
    }
  }

  lemma Unmoved(w: nat)
    requires w < WRAP16
    ensures Word16(w) == w
  {
  }

  lemma Counting(w: nat, k: nat)
    ensures Word16(Word16(w + 1) + k) == Word16(w + k + 1)
  {
  }
}

/** virtio_queue.c and its two users, updating the shared rings in place. */
module VirtioDrivers {
  import opened SplitQueue
  import opened InputProtocol
  import opened GpuCommands

  // virtq_t together with the memory its pointers lead to.
  class VirtQueue {
    const size: nat
    const desc: array<Desc>
    const avail: array<nat>
    const used: array<nat>
    var availIdx: nat
    var usedIdx: nat    // written by the device
    var lastUsed: nat
    var freeDesc: nat
    var mem: map<nat, bv8>

    ghost predicate Valid()
      reads this, desc, avail, used
    {
      && 0 < size < WRAP16 && desc.Length == avail.Length == used.Length == size
      && avail != used
      && availIdx < WRAP16 && usedIdx < WRAP16 && lastUsed < WRAP16
    }

    ghost function View(): Queue
      reads this, desc, avail, used
    {
      Queue(size, desc[..], avail[..], availIdx, used[..], usedIdx, lastUsed, freeDesc, mem)
    }

    // virtq_init on freshly mapped ring memory.
    constructor (size: nat, mem: map<nat, bv8>)
      requires 0 < size < WRAP16
      ensures Valid() && fresh(desc) && fresh(avail) && fresh(used) && this.size == size && this.mem == mem
      ensures desc[..] == Chain(size)
      ensures availIdx == usedIdx == lastUsed == freeDesc == 0
      ensures size >= 2 ==> CommandReady(View())
    {
      this.size, this.mem := size, mem;
      desc := new Desc[size](_ => Desc(0, 0, 0, 0));
      avail := new nat[size](_ => 0);
      used := new nat[size](_ => 0);
      lastUsed, freeDesc, availIdx, usedIdx := 0, 0, 0, 0;
      new;
      for i := 0 to size
        invariant Valid() && fresh(desc) && fresh(avail) && fresh(used) && this.mem == mem
        invariant lastUsed == freeDesc == availIdx == usedIdx == 0
        invariant forall k | 0 <= k < i :: desc[k] == Desc(0, 0, 0, k + 1)
      {
        desc[i] := Desc(0, 0, 0, i + 1);
      }
      desc[size - 1] := desc[size - 1].(next := 0);
      assert desc[..] == Chain(size);
    }

    method AllocDesc() returns (d: nat)
      requires Valid() && freeDesc < size
      modifies this`freeDesc
      ensures Valid() && d == old(freeDesc) && View() == PopDesc(old(View()))
    {
      d := freeDesc;
      freeDesc := desc[d].next;
    }

    method FillDesc(d: nat, phys: nat, len: nat, flags: nat)
      requires Valid() && d < size
      modifies desc
      ensures Valid() && View() == Fill(old(View()), d, phys, len, flags)
    {
      desc[d] := desc[d].(addr := phys);
      desc[d] := desc[d].(len := len);
      desc[d] := desc[d].(flags := flags);
      desc[d] := desc[d].(next := 0);
      assert desc[..] == old(desc[..])[d := Desc(phys, len, flags, 0)];
    }

    method SubmitDesc(d: nat)
      requires Valid()
      modifies this`availIdx, avail
      ensures Valid() && View() == Submit(old(View()), d)
    {
      avail[Entry(availIdx, size)] := d;
      availIdx := Word16(availIdx + 1);
      assert avail[..] == old(avail[..])[Entry(old(availIdx), size) := d];
    }

    method GetUsed() returns (id: int)
      requires Valid()
      modifies this`freeDesc, this`lastUsed
      ensures Valid()
      ensures old(usedIdx == lastUsed) ==> id == -1 && View() == old(View())
      ensures old(usedIdx != lastUsed) ==> id == old(UsedHead(View())) && View() == Consume(old(View()))
    {
      if usedIdx == lastUsed {
        return -1;
      }
      var head := used[Entry(lastUsed, size)];
      freeDesc := head;
      lastUsed := Word16(lastUsed + 1);
      id := head;
    }
  }

  // The free chain as virtq_init leaves it.
  ghost function Chain(size: nat): seq<Desc> {
    seq(size, (i: nat) => Desc(0, 0, 0, if i + 1 < size then i + 1 else 0))
  }

  // ---------------------------------------------------------------- virtio_input.c

  // eventq_fill: afterwards every slot is offered once, and the state is the initial one of the protocol.
  method FillEventQueue(q: VirtQueue, base: nat)
    requires q.Valid() && q.size <= RING_SIZE && q.desc[..] == Chain(q.size)
    requires q.availIdx == q.usedIdx == q.lastUsed == q.freeDesc == 0
    modifies q, q.desc, q.avail
    ensures q.Valid() && q.View() == Ready(base, q.size, old(q.used[..]), old(q.mem))
  {
    var n := q.size;
    for i := 0 to n
      invariant q.Valid() && unchanged(q.used) && q.mem == old(q.mem)
      invariant q.usedIdx == q.lastUsed == 0 && q.availIdx == i
      invariant q.freeDesc == if i < n then i else 0
      invariant forall k | 0 <= k < i :: q.desc[k] == Desc(SlotAddr(base, k), EVENT_SIZE, F_WRITE, 0) && q.avail[k] == k
      invariant forall k | i <= k < n :: q.desc[k] == Chain(n)[k]
    {
      RemainderIsUnique(i, 0, i, n);
      var d := q.AllocDesc();
      q.FillDesc(d, SlotAddr(base, i), EVENT_SIZE, F_WRITE);
      q.SubmitDesc(d);
    }
    assert q.desc[..] == Ready(base, n, q.used[..], q.mem).desc;
    assert q.avail[..] == Ready(base, n, q.used[..], q.mem).avail;
  }

  // virtio_input_poll with no device step in between.
  method Poll(q: VirtQueue, base: nat, evOut: array<bv8>) returns (some: bool)
    requires q.Valid() && (q.usedIdx != q.lastUsed ==> UsedHead(q.View()) < q.size)
    requires evOut.Length == EVENT_SIZE
    requires evOut as object !in {q.desc as object, q.avail as object, q.used as object}
    modifies q, q.desc, q.avail, evOut
    ensures q.Valid() && some == old(q.usedIdx != q.lastUsed)
    ensures !some ==> q.View() == old(q.View()) && evOut[..] == old(evOut[..])
    ensures some ==>
      && old(UsedHead(q.View())) < q.size
      && evOut[..] == EventAt(old(q.mem), SlotAddr(base, old(UsedHead(q.View()))))
      && q.View() == Polled(old(q.View()), base)
  {
    var id := q.GetUsed();
    if id < 0 {
      return false;
    }
    ghost var event := EventAt(q.mem, SlotAddr(base, id));
    for i := 0 to EVENT_SIZE
      invariant q.Valid() && q.View() == Consume(old(q.View()))
      invariant forall k | 0 <= k < i :: evOut[k] == event[k]
    {
      evOut[i] := Byte(q.mem, SlotAddr(base, id) + i);
    }
    assert evOut[..] == event;
    q.FillDesc(id, SlotAddr(base, id), EVENT_SIZE, F_WRITE);
    q.SubmitDesc(id);
    some := true;
  }

  // ---------------------------------------------------------------- virtio_gpu.c

  method DeviceAnswers(q: VirtQueue)
    requires q.Valid()
    modifies q`usedIdx, q.used
    ensures q.Valid() && q.View() == Answered(old(q.View()))
  {
    var head := q.avail[Entry(q.usedIdx, q.size)];
    q.used[Entry(q.usedIdx, q.size)] := head;
    q.usedIdx := Word16(q.usedIdx + 1);
    assert q.used[..] == old(q.used[..])[Entry(old(q.usedIdx), q.size) := head];
  }

  // send_cmd up to its wait loop.
  method BeginCommand(q: VirtQueue, c: Command) returns (d0: nat, d1: nat)
    requires q.Valid() && TwoFree(q.View())
    modifies q, q.desc, q.avail
    ensures q.Valid() && q.View() == Begin(old(q.View()), c)
    ensures d0 == FirstTaken(old(q.View())) && d1 == SecondTaken(old(q.View()))
  {
    d0 := q.AllocDesc();
    q.FillDesc(d0, c.phys, c.size, 0);
    d1 := q.AllocDesc();
    q.FillDesc(d1, c.respPhys, c.respSize, F_WRITE);
    ghost var before := q.desc[..];
    q.desc[d0] := q.desc[d0].(next := d1);
    assert q.desc[..] == before[d0 := before[d0].(next := d1)];
    q.SubmitDesc(d0);
  }

  // send_cmd, the device answering after `silent` fruitless rounds of its wait loop.
  method SendCommand(q: VirtQueue, c: Command, silent: nat) returns (d0: nat, d1: nat)
    requires q.Valid() && CommandReady(q.View())
    modifies q, q.desc, q.avail, q.used
    ensures q.Valid() && q.View() == Complete(old(q.View()), c)
    ensures CommandReady(q.View()) && d0 == 0 && d1 == 1
    ensures Carries(q.View(), q.avail[old(q.availIdx) % q.size], c)
    ensures forall i | 0 <= i < q.size && i != old(q.availIdx) % q.size :: q.avail[i] == old(q.avail[i])
  {
    CommandComesBack(q.View(), c);
    CommandIsOffered(q.View(), c);
    d0, d1 := BeginCommand(q, c);
    var id, round := -1, 0;
    while id < 0
      invariant q.Valid() && round <= silent + 1
      invariant if round <= silent then id == -1 && q.View() == Begin(old(q.View()), c)
                else id == d0 && q.View() == Complete(old(q.View()), c)
      decreases silent + 1 - round
    {
      if round == silent {
        DeviceAnswers(q);
      }
      id := q.GetUsed();
      round := round + 1;
    }
  }
}
