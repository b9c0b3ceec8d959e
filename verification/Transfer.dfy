/**
  A whole transfer as one transition system: server, lossy and reordering UDP
  channel, reliable back-channel, client network thread, ring buffer and disk
  thread. Safety over every run is proved here; TransferLiveness.dfy shows that
  every reachable state can still finish.
*/
module Transfer {
  import opened Wire
  import opened RetransmitTable
  import opened TransferClient
  import opened BlockFile
  import opened Progress

  datatype Params = Params(
    layout: Layout,
    limits: Limits,
    initialTableSize: nat,
    onWireEstimate: nat,
    ringSize: nat)

  ghost predicate ValidParams(p: Params) {
    && ValidLayout(p.layout)
    && p.limits.maxRequests >= 1
    && p.initialTableSize >= 1
    && p.ringSize >= 1
  }

  function Cfg(p: Params): Config
    requires p.layout.blockSize >= 1
  {
    Config(BlockCount(p.layout), p.limits, p.initialTableSize, p.onWireEstimate)
  }

  datatype Server = Server(block: nat, buffer: seq<Byte>, running: bool)

  /** A ring slot; block number 0 tells the disk thread to stop. */
  datatype Item = Item(block: nat, payload: seq<Byte>)

  const StopBlock: Item := Item(0, [])

  /** `popping`: the head of the ring is on disk and about to be popped. */
  datatype Disk = Disk(file: seq<Byte>, log: seq<nat>, popping: bool, stopped: bool)

  /** Where the client's network thread is. */
  datatype Phase = Receiving | Done | StopSent | Joining | Finished(lost: nat)

  datatype System = System(
    client: Client,
    phase: Phase,
    last: seq<Datagram>,      // the receive buffer: empty before the first datagram
    server: Server,
    net: seq<Datagram>,
    back: seq<Request>,
    ring: seq<Item>,
    disk: Disk)

  function Init(p: Params): System
    requires p.layout.blockSize >= 1
  {
    System(Initial(Cfg(p)), Receiving, [],
           Server(0, seq(p.layout.blockSize, _ => 0), true),
           [], [], [], Disk([], [], false, false))
  }

  /** The 350 ms feedback gate: closed, or open with the loss rate the client reports. */
  datatype Gate = Closed | Open(rate: nat)

  datatype Action =
    | ServerSend
    | ServerHandle
    | Deliver(i: nat, gate: Gate)
    | Duplicate(i: nat)
    | Lose(i: nat)
    | ReceiveError(gate: Gate)
    | DiskWrite
    | DiskPop
    | SendStop
    | QueueStop
    | Join

  ghost predicate Enabled(p: Params, s: System, a: Action) {
    match a
    case ServerSend => s.server.running
    case ServerHandle => s.server.running && s.back != []
    case Deliver(i, _) => s.phase == Receiving && i < |s.net|
    case Duplicate(i) => i < |s.net|
    case Lose(i) => i < |s.net|
    case ReceiveError(_) => s.phase == Receiving && s.last != []
    case DiskWrite => !s.disk.stopped && !s.disk.popping && s.ring != []
    case DiskPop => s.disk.popping && s.ring != []
    case SendStop => s.phase == Done
    case QueueStop => s.phase == StopSent && |s.ring| < p.ringSize
    case Join => s.phase == Joining && s.disk.stopped
  }

  // ----- the steps -----------------------------------------------------------------

  /** build_datagram and sendto. */
  function SendBlock(p: Params, s: System, b: nat, kind: BlockType): System
    requires 1 <= b
  {
    var payload := ReadBlock(p.layout, b, s.server.buffer);
    s.(server := s.server.(buffer := payload), net := s.net + [Datagram(b, kind, payload)])
  }

  function ServerSends(p: Params, s: System): System
    requires p.layout.blockSize >= 1 && BlockCount(p.layout) >= 1
  {
    var b := NextBlock(BlockCount(p.layout), s.server.block);
    SendBlock(p, s.(server := s.server.(block := b)), b, NextKind(BlockCount(p.layout), s.server.block))
  }

  /** One complete request at the server. A request for block 0 is never queued and has no effect here. */
  function ServerHandles(p: Params, s: System): System
    requires p.layout.blockSize >= 1 && s.back != []
  {
    var s1 := s.(back := s.back[1..]);
    match s.back[0]
    case Retransmit(b) => if b == 0 then s1 else SendBlock(p, s1, b, Retransmission)
    case Restart(b) => s1.(server := s.server.(block := RestartAt(BlockCount(p.layout), s.server.block, b)))
    case Stop => s1.(server := s.server.(running := false))
    case ErrorRate(_) => s1
  }

  /** Feedback at the end of a pass of the receive loop. */
  function Feedback(cfg: Config, c: Client, gate: Gate): (Client, seq<Request>) {
    match gate
    case Closed => (c, [])
    case Open(rate) => var (c', reqs) := RepeatRetransmit(cfg, c); (c', reqs + [ErrorRate(rate)])
  }

  /** A pass with its feedback; leaving the loop skips it. */
  function Conclude(cfg: Config, o: Outcome, gate: Gate): Outcome {
    if o.done then o
    else
      var (c, reqs) := Feedback(cfg, o.client, gate);
      o.(client := c, requests := o.requests + reqs)
  }

  /** One pass of the receive loop over the datagram d. */
  function Pass(p: Params, s: System, d: Datagram, gate: Gate): System
    requires p.layout.blockSize >= 1
  {
    var o := Conclude(Cfg(p), Receive(Cfg(p), s.client, d.block, d.kind, |s.ring| >= p.ringSize), gate);
    s.(client := o.client,
       phase := if o.done then Done else s.phase,
       last := [d],
       back := s.back + o.requests,
       ring := if o.enqueue then s.ring + [Item(d.block, d.payload)] else s.ring)
  }

  /** A failed receive repeats the requests and then processes the buffer again. */
  function FailedPass(p: Params, s: System, gate: Gate): System
    requires p.layout.blockSize >= 1 && s.last != []
  {
    var (c, reqs) := RepeatRetransmit(Cfg(p), s.client);
    Pass(p, s.(client := c, back := s.back + reqs), s.last[0], gate)
  }

  function Without<T>(s: seq<T>, i: nat): seq<T>
    requires i < |s|
  {
    s[..i] + s[i + 1..]
  }

  /** disk_thread: accept the head of the ring; it stays there until the pop. */
  function WriteHead(p: Params, s: System): System
    requires p.layout.blockSize >= 1 && s.ring != []
  {
    var Item(b, payload) := s.ring[0];
    if b == 0 then s.(disk := s.disk.(stopped := true))
    else s.(disk := s.disk.(file := AcceptBlock(p.layout, s.disk.file, b, payload),
                            log := s.disk.log + [b], popping := true))
  }

  ghost function Apply(p: Params, s: System, a: Action): System
    requires ValidParams(p) && Enabled(p, s, a)
  {
    LastBlockEnds(p.layout);
    match a
    case ServerSend => ServerSends(p, s)
    case ServerHandle => ServerHandles(p, s)
    case Deliver(i, gate) => Pass(p, s.(net := Without(s.net, i)), s.net[i], gate)
    case Duplicate(i) => s.(net := s.net + [s.net[i]])
    case Lose(i) => s.(net := Without(s.net, i))
    case ReceiveError(gate) => FailedPass(p, s, gate)
    case DiskWrite => WriteHead(p, s)
    case DiskPop => s.(ring := s.ring[1..], disk := s.disk.(popping := false))
    case SendStop => s.(back := s.back + [Stop], phase := StopSent)
    case QueueStop => s.(ring := s.ring + [StopBlock], phase := Joining)
    case Join => s.(phase := Finished(|AllBlocks(BlockCount(p.layout)) - s.client.received.blocks|))
  }

  // ----- the invariant -----------------------------------------------------------------

  ghost predicate GoodDatagram(p: Params, d: Datagram)
    requires ValidLayout(p.layout)
  {
    Sendable(Cfg(p), d.block, d.kind) && Carries(p.layout, d.block, d.payload)
  }

  /** Every datagram holds the bytes of its block. */
  ghost predicate ChannelInv(p: Params, server: Server, net: seq<Datagram>, last: seq<Datagram>)
    requires ValidLayout(p.layout)
  {
    && (forall d :: d in net ==> GoodDatagram(p, d))
    && (forall d :: d in last ==> GoodDatagram(p, d))
    && server.block <= BlockCount(p.layout)
    && |server.buffer| == p.layout.blockSize
  }

  /**
    Before the end the server runs and every request queued for it is acceptable;
    afterwards it runs only while the stop request is still on its way.
  */
  ghost predicate BackInv(p: Params, client: Client, phase: Phase, running: bool, back: seq<Request>)
    requires ValidLayout(p.layout)
  {
    && (forall r :: r in back ==> r == Stop || BackOk(Cfg(p), client, r))
    && (phase in {Receiving, Done} ==> running && Stop !in back)
    && (phase !in {Receiving, Done} && running ==> Stop in back)
  }

  ghost predicate ClientInv(p: Params, client: Client, phase: Phase)
    requires ValidLayout(p.layout)
  {
    && TransferClient.Inv(Cfg(p), client)
    && (phase != Receiving ==> client.received.blocks == AllBlocks(BlockCount(p.layout)))
  }

  /** The block numbers in a ring, the stop block left out. */
  function Blocks(ring: seq<Item>): seq<nat> {
    if ring == [] then []
    else (if ring[0].block != 0 then [ring[0].block] else []) + Blocks(ring[1..])
  }

  /** Queued and not yet on disk. */
  function Pending(ring: seq<Item>, disk: Disk): seq<Item> {
    if disk.popping && ring != [] then ring[1..] else ring
  }

  /** Blocks on disk in the order of writing, then the blocks queued behind them. */
  function History(ring: seq<Item>, disk: Disk): seq<nat> {
    disk.log + Blocks(Pending(ring, disk))
  }

  /** Conservation: the marked blocks are the history's, each exactly once. */
  ghost predicate Conserved(history: seq<nat>, marked: set<nat>) {
    multiset(history) == multiset(marked)
  }

  ghost predicate RingInv(p: Params, ring: seq<Item>, disk: Disk, phase: Phase)
    requires ValidLayout(p.layout)
  {
    var stopQueued := phase.Joining? || phase.Finished?;
    && |ring| <= p.ringSize
    && (forall i :: 0 <= i < |ring| && ring[i].block != 0 ==> Carries(p.layout, ring[i].block, ring[i].payload))
    && (forall i :: 0 <= i < |ring| && ring[i].block == 0 ==> i == |ring| - 1 && stopQueued)
    && (stopQueued ==> ring != [] && ring[|ring| - 1].block == 0)
    && (disk.popping ==> ring != [] && ring[0].block != 0)
    && (disk.stopped ==> |ring| == 1 && ring[0].block == 0 && !disk.popping)
    && (phase.Finished? ==> disk.stopped && phase.lost == 0)
  }

  /** Each block written is in its place and the file has not outgrown the source. */
  ghost predicate DiskInv(p: Params, disk: Disk)
    requires ValidLayout(p.layout)
  {
    && |disk.file| <= |p.layout.source|
    && forall b :: b in disk.log ==> 1 <= b <= BlockCount(p.layout) && HasBlock(p.layout, disk.file, b)
  }

  ghost predicate Inv(p: Params, s: System) {
    && ValidParams(p)
    && ChannelInv(p, s.server, s.net, s.last)
    && BackInv(p, s.client, s.phase, s.server.running, s.back)
    && ClientInv(p, s.client, s.phase)
    && Conserved(History(s.ring, s.disk), s.client.received.blocks)
    && RingInv(p, s.ring, s.disk, s.phase)
    && DiskInv(p, s.disk)
  }

  // ----- every step keeps the invariant ---------------------------------------------------

  lemma InitInv(p: Params)
    requires ValidParams(p)
    ensures Inv(p, Init(p))
  {
    LastBlockEnds(p.layout);
    InitialInv(Cfg(p));
  }

  /** A request stays acceptable while the client receives more. */
  lemma BackStaysOk(p: Params, c: Client, c': Client, back: seq<Request>)
    requires ValidLayout(p.layout)
    requires c.received.blocks <= c'.received.blocks
    requires forall r :: r in back ==> r == Stop || BackOk(Cfg(p), c, r)
    ensures forall r :: r in back ==> r == Stop || BackOk(Cfg(p), c', r)
  {
  }

  lemma SendInv(p: Params, s: System, b: nat, kind: BlockType)
    requires ValidLayout(p.layout) && ChannelInv(p, s.server, s.net, s.last) && Sendable(Cfg(p), b, kind)
    ensures var s' := SendBlock(p, s, b, kind); ChannelInv(p, s'.server, s'.net, s'.last)
  {
    ReadBlockCarries(p.layout, b, s.server.buffer);
  }

  lemma ServerSendInv(p: Params, s: System)
    requires Inv(p, s) && Enabled(p, s, ServerSend)
    ensures Inv(p, Apply(p, s, ServerSend))
  {
    LastBlockEnds(p.layout);
    var b := NextBlock(BlockCount(p.layout), s.server.block);
    SendInv(p, s.(server := s.server.(block := b)), b, NextKind(BlockCount(p.layout), s.server.block));
  }

  lemma ServerHandleInv(p: Params, s: System)
    requires Inv(p, s) && Enabled(p, s, ServerHandle)
    ensures Inv(p, Apply(p, s, ServerHandle))
  {
    var r := s.back[0];
    assert r == Stop || BackOk(Cfg(p), s.client, r);
    assert forall q :: q in s.back[1..] ==> q in s.back;
    if r.Retransmit? {
      SendInv(p, s.(back := s.back[1..]), r.block, Retransmission);
    }
  }

  /** The channel may drop or repeat what is in flight. */
  lemma ChannelStepInv(p: Params, s: System, net: seq<Datagram>)
    requires Inv(p, s)
    requires forall d :: d in net ==> d in s.net
    ensures Inv(p, s.(net := net))
  {
  }

  lemma {:induction false} BlocksSnoc(ring: seq<Item>, i: Item)
    ensures Blocks(ring + [i]) == Blocks(ring) + (if i.block != 0 then [i.block] else [])
  {
    if ring == [] {
      assert ring + [i] == [i];
    } else {
      assert (ring + [i])[1..] == ring[1..] + [i];
      BlocksSnoc(ring[1..], i);
    }
  }

  lemma HistorySnoc(ring: seq<Item>, disk: Disk, i: Item)
    requires disk.popping ==> ring != []
    ensures History(ring + [i], disk) == History(ring, disk) + (if i.block != 0 then [i.block] else [])
  {
    assert Pending(ring + [i], disk) == Pending(ring, disk) + [i];
    BlocksSnoc(Pending(ring, disk), i);
  }

  /** Queueing a block that was missing keeps conservation. */
  lemma ConservedSnoc(history: seq<nat>, marked: set<nat>, b: nat)
    requires Conserved(history, marked) && b !in marked
    ensures Conserved(history + [b], marked + {b})
  {
    assert multiset(marked + {b}) == multiset(marked) + multiset{b};
  }

  lemma FeedbackInv(p: Params, c: Client, gate: Gate)
    requires ValidParams(p) && TransferClient.Inv(Cfg(p), c)
    ensures var (c', reqs) := Feedback(Cfg(p), c, gate);
            && TransferClient.Inv(Cfg(p), c')
            && c'.received == c.received
            && forall r :: r in reqs ==> BackOk(Cfg(p), c, r)
  {
    LastBlockEnds(p.layout);
    RepeatRetransmitInv(Cfg(p), c);
    if gate.Open? {
      var reqs := RepeatRetransmit(Cfg(p), c).1;
      forall r | r in reqs ensures BackOk(Cfg(p), c, r) {
        assert GoodRequest(Cfg(p), c, r);
      }
    }
  }

  /** Everything a pass writes to the back-channel stays acceptable. */
  lemma PassRequests(p: Params, c0: Client, c: Client, running: bool, back: seq<Request>, reqs: seq<Request>)
    requires ValidLayout(p.layout)
    requires BackInv(p, c0, Receiving, running, back)
    requires c0.received.blocks <= c.received.blocks
    requires forall r :: r in reqs ==> BackOk(Cfg(p), c, r)
    ensures BackInv(p, c, Receiving, running, back + reqs)
    ensures BackInv(p, c, Done, running, back + reqs)
  {
    BackStaysOk(p, c0, c, back);
    forall r | r in back + reqs ensures r == Stop || BackOk(Cfg(p), c, r) {
      assert r in back || r in reqs;
    }
    assert forall r :: r in reqs ==> r != Stop;
  }

  /** What a pass does to the client, and what it writes. */
  lemma ConcludeInv(p: Params, c: Client, d: Datagram, full: bool, gate: Gate)
    requires ValidParams(p) && GoodDatagram(p, d) && TransferClient.Inv(Cfg(p), c)
    ensures var o := Conclude(Cfg(p), Receive(Cfg(p), c, d.block, d.kind, full), gate);
            && TransferClient.Inv(Cfg(p), o.client)
            && (o.enqueue <==> !full && d.block !in c.received.blocks)
            && o.client.received.blocks == c.received.blocks + (if o.enqueue then {d.block} else {})
            && (forall r :: r in o.requests ==> BackOk(Cfg(p), o.client, r))
            && (o.done ==> o.client.received.blocks == AllBlocks(BlockCount(p.layout)))
  {
    LastBlockEnds(p.layout);
    ReceiveInv(Cfg(p), c, d.block, d.kind, full);
    var o := Receive(Cfg(p), c, d.block, d.kind, full);
    FeedbackInv(p, o.client, gate);
    var o' := Conclude(Cfg(p), o, gate);
    forall r | r in o'.requests ensures BackOk(Cfg(p), o'.client, r) {
      assert r in o.requests ==> GoodRequest(Cfg(p), o.client, r);
    }
  }

  lemma PassInv(p: Params, s: System, d: Datagram, gate: Gate)
    requires Inv(p, s) && s.phase == Receiving && GoodDatagram(p, d)
    ensures Inv(p, Pass(p, s, d, gate))
  {
    var full := |s.ring| >= p.ringSize;
    ConcludeInv(p, s.client, d, full, gate);
    var o := Conclude(Cfg(p), Receive(Cfg(p), s.client, d.block, d.kind, full), gate);
    PassRequests(p, s.client, o.client, s.server.running, s.back, o.requests);
    if o.enqueue {
      EnqueueKeepsHistory(s.ring, s.disk, s.client.received.blocks, Item(d.block, d.payload));
      EnqueueKeepsRing(p, s.ring, s.disk, Item(d.block, d.payload));
    } else {
      assert o.client.received.blocks == s.client.received.blocks;
    }
    assert RingInv(p, s.ring, s.disk, Done);
  }

  lemma EnqueueKeepsHistory(ring: seq<Item>, disk: Disk, marked: set<nat>, i: Item)
    requires disk.popping ==> ring != []
    requires Conserved(History(ring, disk), marked) && i.block != 0 && i.block !in marked
    ensures Conserved(History(ring + [i], disk), marked + {i.block})
  {
    HistorySnoc(ring, disk, i);
    ConservedSnoc(History(ring, disk), marked, i.block);
  }

  lemma EnqueueKeepsRing(p: Params, ring: seq<Item>, disk: Disk, i: Item)
    requires ValidLayout(p.layout) && RingInv(p, ring, disk, Receiving) && |ring| < p.ringSize
    requires i.block != 0 && Carries(p.layout, i.block, i.payload)
    ensures RingInv(p, ring + [i], disk, Receiving) && RingInv(p, ring + [i], disk, Done)
  {
  }

  lemma FailedPassInv(p: Params, s: System, gate: Gate)
    requires Inv(p, s) && s.phase == Receiving && s.last != []
    ensures Inv(p, FailedPass(p, s, gate))
  {
    LastBlockEnds(p.layout);
    var (c, reqs) := RepeatRetransmit(Cfg(p), s.client);
    RepeatRetransmitInv(Cfg(p), s.client);
    forall r | r in reqs ensures BackOk(Cfg(p), s.client, r) {
      assert GoodRequest(Cfg(p), s.client, r);
    }
    BackStaysOk(p, s.client, c, s.back + reqs);
    assert GoodDatagram(p, s.last[0]);
    PassInv(p, s.(client := c, back := s.back + reqs), s.last[0], gate);
  }

  /** The disk side of writing a block that carries its bytes. */
  lemma WriteKeepsDisk(p: Params, s: System)
    requires ValidLayout(p.layout) && DiskInv(p, s.disk) && s.ring != []
    requires s.ring[0].block != 0 ==> Carries(p.layout, s.ring[0].block, s.ring[0].payload)
    ensures DiskInv(p, WriteHead(p, s).disk)
  {
    var Item(b, payload) := s.ring[0];
    if b != 0 {
      var disk' := WriteHead(p, s).disk;
      AcceptBlockPlaces(p.layout, s.disk.file, b, payload, b);
      forall x | x in disk'.log ensures 1 <= x <= BlockCount(p.layout) && HasBlock(p.layout, disk'.file, x) {
        AcceptBlockPlaces(p.layout, s.disk.file, b, payload, if x in s.disk.log then x else b);
      }
    }
  }

  /** Writing the head of the ring moves it from queued to on disk. */
  lemma WriteKeepsHistory(p: Params, s: System)
    requires p.layout.blockSize >= 1 && s.ring != [] && !s.disk.popping
    ensures var s' := WriteHead(p, s); History(s'.ring, s'.disk) == History(s.ring, s.disk)
  {
  }

  lemma DiskWriteInv(p: Params, s: System)
    requires Inv(p, s) && Enabled(p, s, DiskWrite)
    ensures Inv(p, Apply(p, s, DiskWrite))
  {
    WriteKeepsHistory(p, s);
    WriteKeepsDisk(p, s);
  }

  lemma DiskPopInv(p: Params, s: System)
    requires Inv(p, s) && Enabled(p, s, DiskPop)
    ensures Inv(p, Apply(p, s, DiskPop))
  {
    assert History(s.ring[1..], s.disk.(popping := false)) == History(s.ring, s.disk);
  }

  lemma SendStopInv(p: Params, s: System)
    requires Inv(p, s) && Enabled(p, s, SendStop)
    ensures Inv(p, Apply(p, s, SendStop))
  {
  }

  lemma QueueStopKeepsRing(p: Params, ring: seq<Item>, disk: Disk)
    requires ValidLayout(p.layout) && RingInv(p, ring, disk, StopSent) && |ring| < p.ringSize
    ensures RingInv(p, ring + [StopBlock], disk, Joining)
  {
  }

  lemma QueueStopInv(p: Params, s: System)
    requires Inv(p, s) && Enabled(p, s, QueueStop)
    ensures Inv(p, Apply(p, s, QueueStop))
  {
    HistorySnoc(s.ring, s.disk, StopBlock);
    QueueStopKeepsRing(p, s.ring, s.disk);
    assert History(s.ring + [StopBlock], s.disk) == History(s.ring, s.disk);
  }

  lemma JoinInv(p: Params, s: System)
    requires Inv(p, s) && Enabled(p, s, Join)
    ensures Inv(p, Apply(p, s, Join))
  {
    assert AllBlocks(BlockCount(p.layout)) - s.client.received.blocks == {};
  }

  /** The invariant is kept by every step of every thread and of the channel. */
  lemma StepInv(p: Params, s: System, a: Action)
    requires Inv(p, s) && Enabled(p, s, a)
    ensures Inv(p, Apply(p, s, a))
  {
    match a
    case ServerSend => ServerSendInv(p, s);
    case ServerHandle => ServerHandleInv(p, s);
    case Deliver(i, gate) =>
      ChannelStepInv(p, s, Without(s.net, i));
      PassInv(p, s.(net := Without(s.net, i)), s.net[i], gate);
    case Duplicate(i) => ChannelStepInv(p, s, s.net + [s.net[i]]);
    case Lose(i) => ChannelStepInv(p, s, Without(s.net, i));
    case ReceiveError(gate) => FailedPassInv(p, s, gate);
    case DiskWrite => DiskWriteInv(p, s);
    case DiskPop => DiskPopInv(p, s);
    case SendStop => SendStopInv(p, s);
    case QueueStop => QueueStopInv(p, s);
    case Join => JoinInv(p, s);
  }

  // ----- runs --------------------------------------------------------------------------------

  ghost predicate IsRun(p: Params, s: System, actions: seq<Action>, t: System)
    requires ValidParams(p)
    decreases |actions|
  {
    if actions == [] then s == t
    else Enabled(p, s, actions[0]) && IsRun(p, Apply(p, s, actions[0]), actions[1..], t)
  }

  ghost predicate Reachable(p: Params, t: System)
    requires ValidParams(p)
  {
    exists actions :: IsRun(p, Init(p), actions, t)
  }

  lemma {:induction false} RunInv(p: Params, s: System, actions: seq<Action>, t: System)
    requires Inv(p, s) && IsRun(p, s, actions, t)
    ensures Inv(p, t)
    decreases |actions|
  {
    if actions != [] {
      StepInv(p, s, actions[0]);
      RunInv(p, Apply(p, s, actions[0]), actions[1..], t);
    }
  }

  lemma ReachableInv(p: Params, t: System)
    requires ValidParams(p) && Reachable(p, t)
    ensures Inv(p, t)
  {
    InitInv(p);
    var actions :| IsRun(p, Init(p), actions, t);
    RunInv(p, Init(p), actions, t);
  }

  // ----- what holds in every reachable state -----------------------------------------------------

  /**
    End-to-end safety. When the client has left the loop and the disk thread has
    consumed the stop block, the output is the source, byte for byte, each block
    was written exactly once and nothing counts as lost.
  */
  lemma FinishedOutputIsSource(p: Params, t: System)
    requires ValidParams(p) && Reachable(p, t) && t.phase.Finished?
    ensures t.disk.file == p.layout.source
    ensures multiset(t.disk.log) == multiset(AllBlocks(BlockCount(p.layout)))
    ensures t.phase.lost == 0
  {
    ReachableInv(p, t);
    assert Blocks(t.ring[1..]) == [];
    assert History(t.ring, t.disk) == t.disk.log;
    forall b | 1 <= b <= BlockCount(p.layout) ensures HasBlock(p.layout, t.disk.file, b) {
      assert b in multiset(t.disk.log);
    }
    AllBlocksGiveSource(p.layout, t.disk.file);
  }

  /** Conservation and the countdown, at every moment of every run. */
  lemma AlwaysConserved(p: Params, t: System)
    requires ValidParams(p) && Reachable(p, t)
    ensures multiset(t.disk.log) + multiset(Blocks(Pending(t.ring, t.disk))) == multiset(t.client.received.blocks)
    ensures t.client.blocksLeft == |AllBlocks(BlockCount(p.layout)) - t.client.received.blocks|
    ensures !t.client.oops
  {
    ReachableInv(p, t);
    var missing := AllBlocks(BlockCount(p.layout)) - t.client.received.blocks;
    assert missing + t.client.received.blocks == AllBlocks(BlockCount(p.layout));
    assert missing !! t.client.received.blocks;
  }

  /** Nothing is forgotten, at every moment of every run. */
  lemma NothingForgotten(p: Params, t: System, b: nat)
    requires ValidParams(p) && Reachable(p, t)
    requires 1 <= b < t.client.nextBlock && !t.client.overflowed
    ensures b in t.client.received.blocks || b in t.client.table.entries
  {
    ReachableInv(p, t);
  }

  /** A restart never skips a missing block, and the server never rejects it. */
  lemma RestartIsSafe(p: Params, t: System, b: nat)
    requires ValidParams(p) && Reachable(p, t) && Restart(b) in t.back
    ensures forall m :: 1 <= m <= BlockCount(p.layout) && m !in t.client.received.blocks ==> b <= m
    ensures RestartAt(BlockCount(p.layout), t.server.block, b) == b
  {
    ReachableInv(p, t);
    assert BackOk(Cfg(p), t.client, Restart(b));
  }

  /** The table never outgrows the doubling cap and, in the sorting build, stays in order. */
  lemma TableStaysBounded(p: Params, t: System)
    requires ValidParams(p) && Reachable(p, t)
    ensures |t.client.table.entries| <= t.client.table.size <= Max(p.initialTableSize, 64 * p.limits.maxRequests)
    ensures p.limits.sorting ==> StrictlyIncreasing(t.client.table.entries)
  {
    ReachableInv(p, t);
  }
}
