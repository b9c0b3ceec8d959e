/**
  The client's two threads over the real objects: one pass of the receive loop
  of command_get (bitmap, table and ring together), and disk_thread.
*/
module ClientThreads {
  import opened Wire
  import opened TransferClient
  import opened BlockFile
  import opened Transfer
  import TransferLiveness
  import Ring
  import ReceiveLoop

  class NetworkThread {
    const p: Params
    const session: ReceiveLoop.Session
    const ring: Ring.RingBuffer<Item>

    ghost predicate Valid()
      reads this, session, session.received, session.received.bits, session.table
      reads ring, ring.datagrams
    {
      && p.layout.blockSize >= 1
      && session.Valid() && session.cfg == Cfg(p)
      && ring.Valid() && ring.datagrams.Length == p.ringSize && ring.countReserved == 0
      && ring.datagrams as object != session.received.bits as object
      && ring.datagrams as object != session.table.slots as object
    }

    constructor (p: Params)
      requires ValidParams(p)
      ensures Valid() && this.p == p
      ensures session.View() == Init(p).client && Ring.Contents(ring.View()) == Init(p).ring
    {
      this.p := p;
      session := new ReceiveLoop.Session(Cfg(p));
      ring := new Ring.RingBuffer<Item>(p.ringSize);
    }

    /** ring_reserve, memcpy and ring_confirm, when the ring is known to have space. */
    method Enqueue(item: Item)
      requires ring.Valid() && ring.spaceReady && ring.countReserved == 0
      modifies ring, ring.datagrams
      ensures ring.Valid() && ring.countReserved == 0
      ensures Ring.Contents(ring.View()) == old(Ring.Contents(ring.View())) + [item]
    {
      var next := ring.ComputeNext();
      Ring.SlotIsMod(ring.baseData, ring.countData, ring.datagrams.Length);
      ring.TakeSlot(next);
      Ring.TakeContents(old(ring.View()), next);
      ring.FillSlot(next, item);
      ring.ConfirmReserved();
    }

    /** The ring changes, the session does not. */
    method EnqueueApart(item: Item)
      requires Valid() && ring.spaceReady
      modifies ring, ring.datagrams
      ensures Valid() && session.View() == old(session.View())
      ensures Ring.Contents(ring.View()) == old(Ring.Contents(ring.View())) + [item]
    {
      Enqueue(item);
    }

    /** The bitmap and the table decide; the ring is only asked whether it is full. */
    method Decide(d: Datagram) returns (enqueue: bool, requests: seq<Request>, done: bool, ghost o: Outcome)
      requires Valid()
      modifies session, session.received, session.received.bits, session.table, session.table.slots
      ensures Valid() && o == Outcome(session.View(), enqueue, requests, done)
      ensures session.table.slots == old(session.table.slots) || fresh(session.table.slots)
      ensures ring.View() == old(ring.View())
      ensures o == Receive(Cfg(p), old(session.View()), d.block, d.kind, |Ring.Contents(ring.View())| >= p.ringSize)
      ensures enqueue ==> ring.spaceReady
    {
      var full := ring.Full();
      enqueue, requests, done := session.ReceiveBlock(d.block, d.kind, full);
      o := Outcome(session.View(), enqueue, requests, done);
    }

    /** The pass up to the feedback. */
    method TakeIn(d: Datagram) returns (requests: seq<Request>, done: bool, ghost o: Outcome)
      requires Valid()
      modifies session, session.received, session.received.bits, session.table, session.table.slots
      modifies ring, ring.datagrams
      ensures Valid()
      ensures session.table.slots == old(session.table.slots) || fresh(session.table.slots)
      ensures o == Receive(Cfg(p), old(session.View()), d.block, d.kind,
                           |old(Ring.Contents(ring.View()))| >= p.ringSize)
      ensures session.View() == o.client && requests == o.requests && done == o.done
      ensures Ring.Contents(ring.View()) ==
              if o.enqueue then old(Ring.Contents(ring.View())) + [Item(d.block, d.payload)]
              else old(Ring.Contents(ring.View()))
    {
      var enqueue;
      enqueue, requests, done, o := Decide(d);
      if enqueue {
        EnqueueApart(Item(d.block, d.payload));
      }
    }

    /** Feedback at the end of a pass. */
    method SendFeedback(gate: Gate) returns (requests: seq<Request>)
      requires Valid()
      modifies session, session.table, session.table.slots
      ensures Valid()
      ensures (session.View(), requests) == Feedback(Cfg(p), old(session.View()), gate)
      ensures ring.View() == old(ring.View())
    {
      requests := [];
      if gate.Open? {
        requests := session.Repeat();
        requests := requests + [ErrorRate(gate.rate)];
      }
    }

    /**
      One pass over a datagram: the client's state, the requests it writes and
      the queue are those of the pass of the transition system.
    */
    method ReceivePass(d: Datagram, gate: Gate, ghost s: System) returns (requests: seq<Request>, done: bool)
      requires Valid()
      requires s.client == session.View() && s.ring == Ring.Contents(ring.View()) && s.phase == Receiving
      modifies session, session.received, session.received.bits, session.table, session.table.slots
      modifies ring, ring.datagrams
      ensures Valid()
      ensures var s' := Pass(p, s, d, gate);
              && session.View() == s'.client
              && Ring.Contents(ring.View()) == s'.ring
              && s.back + requests == s'.back
              && (done <==> s'.phase == Done)
    {
      ghost var o;
      requests, done, o := TakeIn(d);
      if !done {
        var more := SendFeedback(gate);
        requests := requests + more;
      }
    }
  }

  // ----- disk_thread -----------------------------------------------------------------

  /** The blocks of a queue written one after the other. */
  function WriteAll(l: Layout, file: seq<Byte>, items: seq<Item>): seq<Byte>
    requires l.blockSize >= 1
    decreases |items|
  {
    if items == [] then file
    else if items[0].block == 0 then file
    else WriteAll(l, AcceptBlock(l, file, items[0].block, items[0].payload), items[1..])
  }

  /** The items up to the first stop block. */
  function UpToStop(items: seq<Item>): (k: nat)
    ensures k <= |items|
    ensures k < |items| ==> items[k].block == 0
  {
    if items == [] || items[0].block == 0 then 0 else 1 + UpToStop(items[1..])
  }

  lemma DropOne(q: seq<Item>, k: nat)
    requires k < |q|
    ensures q[k..][1..] == q[k + 1..]
  {
  }

  /** Writing and popping the head of the ring, as the transition system does it. */
  lemma WriteAndPop(p: Params, s: System) returns (t: System)
    requires ValidParams(p) && s.ring != [] && s.ring[0].block != 0 && !s.disk.popping && !s.disk.stopped
    ensures IsRun(p, s, [DiskWrite, DiskPop], t)
    ensures t.ring == s.ring[1..] && !t.disk.popping && !t.disk.stopped
    ensures t.disk.file == AcceptBlock(p.layout, s.disk.file, s.ring[0].block, s.ring[0].payload)
    ensures t.disk.log == s.disk.log + [s.ring[0].block]
    ensures t == s.(ring := t.ring, disk := t.disk)
  {
    var s1 := Apply(p, s, DiskWrite);
    t := Apply(p, s1, DiskPop);
    assert IsRun(p, t, [DiskPop][1..], t);
    assert IsRun(p, s1, [DiskPop], t);
    assert [DiskWrite, DiskPop][1..] == [DiskPop];
  }

  /** What the disk thread does to a queue is a run of its steps in the transition system. */
  lemma {:induction false} DiskRuns(p: Params, s: System) returns (actions: seq<Action>, t: System)
    requires ValidParams(p) && !s.disk.popping && !s.disk.stopped
    ensures IsRun(p, s, actions, t) && t == s.(ring := t.ring, disk := t.disk)
    ensures t.disk.file == WriteAll(p.layout, s.disk.file, s.ring)
    ensures t.ring == s.ring[UpToStop(s.ring)..]
    ensures t.disk.stopped <==> UpToStop(s.ring) < |s.ring|
    decreases |s.ring|
  {
    if s.ring == [] {
      return [], s;
    }
    if s.ring[0].block == 0 {
      t := Apply(p, s, DiskWrite);
      assert IsRun(p, t, [DiskWrite][1..], t);
      return [DiskWrite], t;
    }
    var s1 := WriteAndPop(p, s);
    var rest;
    rest, t := DiskRuns(p, s1);
    TransferLiveness.RunReaches(p, s, [DiskWrite, DiskPop], s1, rest, t);
    actions := [DiskWrite, DiskPop] + rest;
  }

  class DiskThread {
    const l: Layout
    var file: seq<Byte>

    constructor (l: Layout)
      ensures this.l == l && file == []
    {
      this.l := l;
      file := [];
    }

    /** One turn: peek, accept, pop; the stop block stays where it is. */
    method WriteHead(ring: Ring.RingBuffer<Item>) returns (stopped: bool)
      requires l.blockSize >= 1 && ring.Valid() && ring.dataReady
      modifies this, ring
      ensures ring.Valid()
      ensures var q := old(Ring.Contents(ring.View()));
              && q != [] && (stopped <==> q[0].block == 0)
              && file == (if stopped then old(file) else AcceptBlock(l, old(file), q[0].block, q[0].payload))
              && Ring.Contents(ring.View()) == if stopped then q else q[1..]
    {
      var slot := ring.PeekHead();
      var item := ring.datagrams[slot];
      if item.block == 0 {
        return true;
      }
      file := AcceptBlock(l, file, item.block, item.payload);
      ring.PopHead();
      stopped := false;
    }

    /** Works until it sees the stop block, which stays in the ring, or would have to wait. */
    method Run(ring: Ring.RingBuffer<Item>) returns (stopped: bool)
      requires l.blockSize >= 1 && ring.Valid()
      modifies this, ring
      ensures ring.Valid()
      ensures var q := old(Ring.Contents(ring.View()));
              && file == WriteAll(l, old(file), q)
              && UpToStop(q) <= |q|
              && Ring.Contents(ring.View()) == q[UpToStop(q)..]
              && (stopped <==> UpToStop(q) < |q|)
    {
      ghost var q := Ring.Contents(ring.View());
      ghost var k, rest := 0, q;
      stopped := false;
      while ring.dataReady && !stopped
        invariant ring.Valid() && rest == Ring.Contents(ring.View())
        invariant 0 <= k <= |q| && rest == q[k..]
        invariant k + UpToStop(rest) == UpToStop(q)
        invariant WriteAll(l, file, rest) == WriteAll(l, old(file), q)
        invariant stopped ==> rest != [] && rest[0].block == 0
        decreases |rest|, !stopped
      {
        stopped := WriteHead(ring);
        if !stopped {
          DropOne(q, k);
          k, rest := k + 1, rest[1..];
        }
      }
    }
  }
}
