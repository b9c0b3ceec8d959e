/**
  The bound on the request buffer is sharp: with a smaller one, every file of at
  least two blocks has a reachable state from which no run at all, whatever the
  channel and the threads do, leaves the receive loop.
*/
module DeadStates {
  import opened Wire
  import opened RetransmitTable
  import opened TransferClient
  import opened BlockFile
  import opened Progress
  import opened Transfer
  import opened TransferLiveness

  // ----- once there, always there ---------------------------------------------------------

  ghost predicate StuckWire(cfg: Config, net: seq<Datagram>) {
    forall d :: d in net ==> StuckArrival(cfg, d.block, d.kind)
  }

  ghost predicate StuckBack(cfg: Config, back: seq<Request>) {
    forall r :: r in back ==> r.ErrorRate? || (r.Restart? && r.block + 1 == cfg.blockCount)
  }

  /** The block before the last is missing, not in flight, not asked for, and behind the server. */
  ghost predicate Stuck(p: Params, s: System)
    requires ValidParams(p)
  {
    var cfg := Cfg(p);
    && s.phase == Receiving
    && cfg.blockCount >= 2
    && StuckClient(cfg, s.client)
    && StuckWire(cfg, s.net) && StuckWire(cfg, s.last)
    && cfg.blockCount - 1 <= s.server.block <= cfg.blockCount
    && StuckBack(cfg, s.back)
  }

  lemma StuckPass(p: Params, s: System, d: Datagram, gate: Gate)
    requires ValidParams(p) && !EnoughRequests(Cfg(p)) && Stuck(p, s) && StuckArrival(Cfg(p), d.block, d.kind)
    ensures Stuck(p, Pass(p, s, d, gate))
  {
    LastBlockEnds(p.layout);
    var cfg, full := Cfg(p), |s.ring| >= p.ringSize;
    StuckReceive(cfg, s.client, d.block, d.kind, full);
    var o := Receive(cfg, s.client, d.block, d.kind, full);
    StuckRepeat(cfg, o.client);
    var o' := Conclude(cfg, o, gate);
    assert o'.client == o.client && !o'.done;
    forall r | r in s.back + o'.requests ensures r.ErrorRate? || (r.Restart? && r.block + 1 == cfg.blockCount) {
      assert r in s.back || r in o'.requests;
    }
  }

  lemma StuckServer(p: Params, s: System, a: Action)
    requires ValidParams(p) && Stuck(p, s) && Enabled(p, s, a) && (a.ServerSend? || a.ServerHandle?)
    ensures Stuck(p, Apply(p, s, a))
  {
    LastBlockEnds(p.layout);
    if a.ServerHandle? {
      assert s.back[0] in s.back;
      assert forall r :: r in s.back[1..] ==> r in s.back;
    }
  }

  lemma StuckStep(p: Params, s: System, a: Action)
    requires ValidParams(p) && !EnoughRequests(Cfg(p)) && Stuck(p, s) && Enabled(p, s, a)
    ensures Stuck(p, Apply(p, s, a))
  {
    match a
    case ServerSend => StuckServer(p, s, a);
    case ServerHandle => StuckServer(p, s, a);
    case Deliver(i, gate) =>
      assert StuckWire(Cfg(p), Without(s.net, i));
      StuckPass(p, s.(net := Without(s.net, i)), s.net[i], gate);
    case Duplicate(i) => assert StuckWire(Cfg(p), s.net + [s.net[i]]);
    case Lose(i) => assert StuckWire(Cfg(p), Without(s.net, i));
    case ReceiveError(gate) =>
      LastBlockEnds(p.layout);
      StuckRepeat(Cfg(p), s.client);
      assert s.back + [] == s.back;
      StuckPass(p, s, s.last[0], gate);
    case DiskWrite =>
    case DiskPop =>
  }

  lemma {:induction false} StuckForever(p: Params, s: System, actions: seq<Action>, t: System)
    requires ValidParams(p) && !EnoughRequests(Cfg(p)) && Stuck(p, s) && IsRun(p, s, actions, t)
    ensures Stuck(p, t)
    decreases |actions|
  {
    if actions != [] {
      StuckStep(p, s, actions[0]);
      StuckForever(p, Apply(p, s, actions[0]), actions[1..], t);
    }
  }

  // ----- and it can be reached -------------------------------------------------------------

  /** The client of a transfer of which the first k blocks arrived in order. */
  ghost predicate InOrder(cfg: Config, c: Client, k: nat) {
    && c.received == Received(cfg.blockCount, AllBlocks(k))
    && c.gaplessTo == k && c.nextBlock == k + 1
    && c.table.entries == [] && !c.restartPending
  }

  /** The k-th original arrives. */
  lemma NextInOrder(cfg: Config, c: Client, k: nat)
    requires InOrder(cfg, c, k) && k + 1 < cfg.blockCount && CountsAgree(cfg, c)
    ensures var o := Receive(cfg, c, k + 1, Original, false);
            !o.done && o.requests == [] && InOrder(cfg, o.client, k + 1)
  {
    assert c.received.blocks + {k + 1} == AllBlocks(k + 1);
    NoneLeftMeansAll(cfg, c);
    assert k + 1 in AllBlocks(cfg.blockCount);
    var c1 := MarkReceived(c, k + 1);
    assert AdvanceGapless(c1) == AdvanceGapless(c1.(gaplessTo := k + 1));
  }

  ghost predicate Arrived(p: Params, s: System, k: nat)
    requires ValidParams(p)
  {
    var cfg := Cfg(p);
    && Transfer.Inv(p, s) && Idle(s) && s.phase == Receiving
    && s.net == [] && s.back == [] && s.server.block == k
    && InOrder(cfg, s.client, k)
    && (s.last == [] || (|s.last| == 1 && s.last[0].block == k >= 1 && s.last[0].kind == Original))
  }

  lemma {:induction false} FirstBlocks(p: Params, k: nat) returns (s: System)
    requires ValidParams(p) && k < BlockCount(p.layout)
    ensures Reachable(p, s) && Arrived(p, s, k)
    decreases k
  {
    LastBlockEnds(p.layout);
    if k == 0 {
      s := Init(p);
      InitInv(p);
      assert IsRun(p, s, [], s);
    } else {
      var s1 := FirstBlocks(p, k - 1);
      var actions;
      actions, s := RoundRun(p, s1);
      NextInOrder(Cfg(p), s1.client, k - 1);
      StaysReachable(p, s1, actions, s);
    }
  }

  /** The block before the last is sent and lost. */
  function SentAndLost(p: Params, s: System): System
    requires p.layout.blockSize >= 1 && BlockCount(p.layout) >= 1
  {
    ServerSends(p, s).(net := [])
  }

  lemma LostIsStuck(p: Params, s: System)
    requires ValidParams(p) && BlockCount(p.layout) >= 2 && Arrived(p, s, BlockCount(p.layout) - 2)
    ensures Stuck(p, SentAndLost(p, s))
  {
  }

  lemma LoseNext(p: Params, s: System)
    requires Transfer.Inv(p, s) && s.phase == Receiving && s.net == [] && Reachable(p, s)
    ensures BlockCount(p.layout) >= 1 && Reachable(p, SentAndLost(p, s))
  {
    LastBlockEnds(p.layout);
    ServerRuns(p, s);
    var t, lost := ServerSends(p, s), SentAndLost(p, s);
    OneStep(p, s, ServerSend);
    StaysReachable(p, s, [ServerSend], t);
    assert Without(t.net, 0) == [];
    assert IsRun(p, lost, [Lose(0)][1..], lost);
    StaysReachable(p, t, [Lose(0)], lost);
  }

  /** A dead state, for every buffer that is too small. */
  lemma TooFewRequestsHang(p: Params) returns (s: System)
    requires ValidParams(p) && !EnoughRequests(Cfg(p))
    ensures Reachable(p, s)
    ensures forall actions, t :: IsRun(p, s, actions, t) ==> t.phase == Receiving
  {
    LastBlockEnds(p.layout);
    var s0 := FirstBlocks(p, BlockCount(p.layout) - 2);
    LoseNext(p, s0);
    LostIsStuck(p, s0);
    s := SentAndLost(p, s0);
    forall actions, t | IsRun(p, s, actions, t) ensures t.phase == Receiving {
      StuckForever(p, s, actions, t);
    }
  }

  /** Every reachable state can still finish exactly when the request buffer is large enough. */
  lemma NoDeadStatesIff(p: Params)
    requires ValidParams(p)
    ensures (forall s :: Reachable(p, s) ==> CanFinish(p, s)) <==> EnoughRequests(Cfg(p))
  {
    if EnoughRequests(Cfg(p)) {
      forall s | Reachable(p, s) ensures CanFinish(p, s) {
        CanAlwaysFinish(p, s);
      }
    } else {
      var s := TooFewRequestsHang(p);
      if CanFinish(p, s) {
        var xs, m, ys, t :| CalmRun(p, s, xs, m) && CalmRun(p, m, ys, t) && t.phase.Finished?;
        RunReaches(p, s, xs, m, ys, t);
      }
    }
  }
}
