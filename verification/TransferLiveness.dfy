/**
  No dead states in the whole system: from every reachable state there is a run
  without any loss, duplication or receive error that ends with the source on
  disk. The rounds of Progress.dfy are carried out by the system's own steps.
*/
module TransferLiveness {
  import opened Wire
  import opened TransferClient
  import opened BlockFile
  import opened Progress
  import opened Transfer

  /** Steps of a channel that delivers: nothing is lost or repeated, and the feedback gate stays closed. */
  ghost predicate Calm(a: Action) {
    match a
    case Duplicate(_) => false
    case Lose(_) => false
    case ReceiveError(_) => false
    case Deliver(_, gate) => gate == Closed
    case _ => true
  }

  ghost predicate CalmRun(p: Params, s: System, actions: seq<Action>, t: System)
    requires ValidParams(p)
  {
    IsRun(p, s, actions, t) && forall a :: a in actions ==> Calm(a)
  }

  lemma RunCons(p: Params, s: System, a: Action, rest: seq<Action>, t: System)
    requires ValidParams(p) && Enabled(p, s, a) && IsRun(p, Apply(p, s, a), rest, t)
    ensures IsRun(p, s, [a] + rest, t)
  {
    assert ([a] + rest)[1..] == rest;
  }

  lemma ConsAppend<T>(xs: seq<T>, ys: seq<T>)
    requires xs != []
    ensures [xs[0]] + (xs[1..] + ys) == xs + ys
  {
  }

  lemma {:induction false} RunReaches(p: Params, s: System, xs: seq<Action>, t: System, ys: seq<Action>, u: System)
    requires ValidParams(p) && IsRun(p, s, xs, t) && IsRun(p, t, ys, u)
    ensures IsRun(p, s, xs + ys, u)
    decreases |xs|
  {
    if xs == [] {
      assert xs + ys == ys;
    } else {
      RunReaches(p, Apply(p, s, xs[0]), xs[1..], t, ys, u);
      RunCons(p, s, xs[0], xs[1..] + ys, u);
      ConsAppend(xs, ys);
    }
  }

  /** One run, then another. */
  lemma Then(p: Params, s: System, xs: seq<Action>, t: System, ys: seq<Action>, u: System)
    returns (actions: seq<Action>)
    requires ValidParams(p) && CalmRun(p, s, xs, t) && CalmRun(p, t, ys, u)
    ensures CalmRun(p, s, actions, u)
  {
    RunConcat(p, s, xs, t, ys, u);
    actions := xs + ys;
  }

  lemma RunConcat(p: Params, s: System, xs: seq<Action>, t: System, ys: seq<Action>, u: System)
    requires ValidParams(p) && CalmRun(p, s, xs, t) && CalmRun(p, t, ys, u)
    ensures CalmRun(p, s, xs + ys, u)
  {
    RunReaches(p, s, xs, t, ys, u);
  }

  lemma OneStep(p: Params, s: System, a: Action)
    requires ValidParams(p) && Enabled(p, s, a) && Calm(a)
    ensures CalmRun(p, s, [a], Apply(p, s, a))
  {
    assert IsRun(p, Apply(p, s, a), [a][1..], Apply(p, s, a));
  }

  /** Everything but the ring and the disk. */
  ghost predicate SameFront(s: System, t: System) {
    t == s.(ring := t.ring, disk := t.disk)
  }

  ghost predicate Idle(s: System) {
    !s.disk.popping && (s.ring == [] || s.disk.stopped)
  }

  /** The disk thread works off the ring. */
  lemma {:induction false} DrainRing(p: Params, s: System) returns (actions: seq<Action>, t: System)
    requires Transfer.Inv(p, s)
    ensures CalmRun(p, s, actions, t) && Transfer.Inv(p, t)
    ensures SameFront(s, t) && Idle(t)
    decreases |s.ring|, !s.disk.popping, !s.disk.stopped
  {
    if Idle(s) {
      return [], s;
    }
    var a := if s.disk.popping then DiskPop else DiskWrite;
    var s1 := Apply(p, s, a);
    StepInv(p, s, a);
    OneStep(p, s, a);
    actions, t := DrainRing(p, s1);
    RunConcat(p, s, [a], s1, actions, t);
    actions := [a] + actions;
  }

  // ----- one round ------------------------------------------------------------------

  function View(s: System): Core {
    Core(s.client, s.server.block, s.back, s.phase != Receiving)
  }

  /** A datagram that has just been sent is delivered. */
  lemma DeliverNewest(p: Params, s: System) returns (t: System)
    requires Transfer.Inv(p, s) && s.phase == Receiving && s.net != []
    ensures Transfer.Inv(p, t) && CalmRun(p, s, [Deliver(|s.net| - 1, Closed)], t)
    ensures var i := |s.net| - 1;
            t == Pass(p, s.(net := s.net[..i]), s.net[i], Closed)
  {
    var i := |s.net| - 1;
    var a := Deliver(i, Closed);
    t := Apply(p, s, a);
    StepInv(p, s, a);
    OneStep(p, s, a);
    assert Without(s.net, i) == s.net[..i];
  }

  lemma TakeStep(p: Params, s: System, a: Action)
    requires Transfer.Inv(p, s) && Enabled(p, s, a) && Calm(a)
    ensures Transfer.Inv(p, Apply(p, s, a)) && CalmRun(p, s, [a], Apply(p, s, a))
  {
    StepInv(p, s, a);
    OneStep(p, s, a);
  }

  lemma ServerRuns(p: Params, s: System)
    requires Transfer.Inv(p, s) && s.phase == Receiving
    ensures s.server.running && Stop !in s.back
  {
  }

  function ServerAction(s: System): Action {
    if s.back == [] then ServerSend else ServerHandle
  }

  lemma ServerTurnShape(p: Params, s: System)
    requires ValidParams(p) && Enabled(p, s, ServerAction(s))
    ensures var t := Apply(p, s, ServerAction(s));
            && t == s.(server := t.server, net := t.net, back := t.back)
            && (s.back == [] ==> BlockCount(p.layout) >= 1 && t == ServerSends(p, s))
            && (s.back != [] ==> t == ServerHandles(p, s))
  {
    LastBlockEnds(p.layout);
  }

  /** The server's part of a round. */
  lemma ServerTurn(p: Params, s: System) returns (t: System)
    requires Transfer.Inv(p, s) && s.phase == Receiving
    ensures CalmRun(p, s, [ServerAction(s)], t) && Transfer.Inv(p, t)
    ensures t == s.(server := t.server, net := t.net, back := t.back)
    ensures s.back == [] ==> BlockCount(p.layout) >= 1 && t == ServerSends(p, s)
    ensures s.back != [] ==> t == ServerHandles(p, s)
  {
    ServerRuns(p, s);
    TakeStep(p, s, ServerAction(s));
    ServerTurnShape(p, s);
    t := Apply(p, s, ServerAction(s));
  }

  /** What a pass over a drained ring shows of the outcome. */
  lemma PassView(p: Params, s: System, d: Datagram)
    requires ValidParams(p) && |s.ring| < p.ringSize && s.phase == Receiving
    ensures var o := Receive(Cfg(p), s.client, d.block, d.kind, false);
            View(Pass(p, s, d, Closed)) == Core(o.client, s.server.block, s.back + o.requests, o.done)
  {
    var o := Receive(Cfg(p), s.client, d.block, d.kind, false);
    assert o.requests + [] == o.requests;
  }

  /** The newest datagram is delivered and the disk thread works off the ring. */
  lemma DeliverAndDrain(p: Params, s: System) returns (actions: seq<Action>, t: System)
    requires Transfer.Inv(p, s) && |s.ring| < p.ringSize && s.phase == Receiving && s.net != []
    ensures CalmRun(p, s, actions, t) && Transfer.Inv(p, t) && Idle(t) && t.phase in {Receiving, Done}
    ensures var i := |s.net| - 1;
            && t.net == s.net[..i] && t.last == [s.net[i]]
            && View(t) == View(Pass(p, s.(net := s.net[..i]), s.net[i], Closed))
  {
    var i := |s.net| - 1;
    var s1 := DeliverNewest(p, s);
    var more;
    more, t := DrainRing(p, s1);
    actions := Then(p, s, [Deliver(i, Closed)], s1, more, t);
  }

  /** A round of the core is a calm run of the system that leaves what else is in flight alone. */
  lemma RoundRun(p: Params, s: System) returns (actions: seq<Action>, t: System)
    requires Transfer.Inv(p, s) && Idle(s) && s.phase == Receiving
    ensures CalmRun(p, s, actions, t) && Transfer.Inv(p, t) && Idle(t)
    ensures View(t) == Round(Cfg(p), View(s)) && t.net == s.net
    ensures s.back == [] ==>
              && |t.last| == 1 && t.last[0].block == t.server.block
              && t.last[0].kind == NextKind(BlockCount(p.layout), s.server.block)
    ensures t.phase in {Receiving, Done}
  {
    LastBlockEnds(p.layout);
    var s1 := ServerTurn(p, s);
    if s.back == [] || s.back[0].Retransmit? {
      assert s.back != [] ==> BackOk(Cfg(p), s.client, s.back[0]);
      var i := |s1.net| - 1;
      assert s1.net[..i] == s.net;
      PassView(p, s1.(net := s.net), s1.net[i]);
      var more;
      more, t := DeliverAndDrain(p, s1);
      actions := Then(p, s, [ServerAction(s)], s1, more, t);
    } else {
      ServerRuns(p, s);
      assert s.back[0] in s.back;
      actions, t := [ServerAction(s)], s1;
    }
  }

  /** Everything in flight is delivered, unless the loop is left before. */
  lemma {:induction false} DeliverAll(p: Params, s: System) returns (actions: seq<Action>, t: System)
    requires Transfer.Inv(p, s) && Idle(s) && s.phase == Receiving
    ensures CalmRun(p, s, actions, t) && Transfer.Inv(p, t) && Idle(t)
    ensures t.phase == Done || (t.phase == Receiving && t.net == [])
    decreases |s.net|
  {
    if s.net == [] {
      return [], s;
    }
    var xs, s1 := DeliverAndDrain(p, s);
    if s1.phase == Done {
      return xs, s1;
    }
    var ys;
    ys, t := DeliverAll(p, s1);
    actions := Then(p, s, xs, s1, ys, t);
  }

  lemma OneRoundLess(cfg: Config, k: Core, k': Core, n: nat)
    requires Rounds(cfg, k, n).done && !k.done && k' == Round(cfg, k)
    ensures n > 0 && Rounds(cfg, k', n - 1).done
  {
  }

  lemma OneRound(p: Params, s: System, n: nat) returns (actions: seq<Action>, t: System)
    requires Transfer.Inv(p, s) && Idle(s) && s.phase == Receiving
    requires Rounds(Cfg(p), View(s), n).done
    ensures CalmRun(p, s, actions, t) && Transfer.Inv(p, t) && Idle(t) && t.phase in {Receiving, Done}
    ensures n > 0 && Rounds(Cfg(p), View(t), n - 1).done && t.net == s.net
  {
    actions, t := RoundRun(p, s);
    OneRoundLess(Cfg(p), View(s), View(t), n);
  }

  /** When so many rounds end the core's transfer, a calm run ends the system's. */
  lemma {:induction false} RoundsRun(p: Params, s: System, n: nat) returns (actions: seq<Action>, t: System)
    requires Transfer.Inv(p, s) && Idle(s) && s.phase in {Receiving, Done}
    requires Rounds(Cfg(p), View(s), n).done
    ensures CalmRun(p, s, actions, t) && Transfer.Inv(p, t) && t.phase == Done && t.net == s.net
    decreases n
  {
    if s.phase == Done {
      actions, t := [], s;
    } else {
      var xs, s1 := OneRound(p, s, n);
      var ys;
      ys, t := RoundsRun(p, s1, n - 1);
      actions := Then(p, s, xs, s1, ys, t);
    }
  }

  // ----- to the end -------------------------------------------------------------------

  lemma ViewInv(p: Params, s: System)
    requires Transfer.Inv(p, s) && s.phase in {Receiving, Done}
    ensures CoreInv(Cfg(p), View(s))
  {
  }

  /** The receive loop can always be left. */
  lemma LeaveLoop(p: Params, s: System) returns (actions: seq<Action>, t: System)
    requires Transfer.Inv(p, s) && EnoughRequests(Cfg(p)) && Idle(s) && s.phase == Receiving
    ensures CalmRun(p, s, actions, t) && Transfer.Inv(p, t) && t.phase == Done && t.net == s.net
  {
    ViewInv(p, s);
    var n := Finishes(Cfg(p), View(s));
    actions, t := RoundsRun(p, s, n);
  }

  /** Behind the loop: stop request, stop block, disk thread, join. */
  lemma {:induction false} CleanUp(p: Params, s: System) returns (actions: seq<Action>, t: System)
    requires Transfer.Inv(p, s) && s.phase != Receiving
    ensures CalmRun(p, s, actions, t) && Transfer.Inv(p, t) && t.phase.Finished? && t.net == s.net
    decreases match s.phase case Done => 3 case StopSent => 2 case Joining => 1 case _ => 0
  {
    if s.phase.Finished? {
      return [], s;
    }
    var xs, s1 := DrainRing(p, s);
    var a := match s.phase case Done => SendStop case StopSent => QueueStop case _ => Join;
    var s2 := Apply(p, s1, a);
    StepInv(p, s1, a);
    OneStep(p, s1, a);
    var ys, s3 := CleanUp(p, s2);
    RunConcat(p, s1, [a], s2, ys, s3);
    RunConcat(p, s, xs, s1, [a] + ys, s3);
    return xs + ([a] + ys), s3;
  }

  /** Everything in flight is delivered until the loop is left. */
  lemma Settle(p: Params, s: System) returns (actions: seq<Action>, t: System)
    requires Transfer.Inv(p, s)
    ensures CalmRun(p, s, actions, t) && Transfer.Inv(p, t)
    ensures t.phase == Receiving ==> t.net == [] && Idle(t)
  {
    if s.phase != Receiving {
      return [], s;
    }
    var xs, s1 := DrainRing(p, s);
    var ys;
    ys, t := DeliverAll(p, s1);
    actions := Then(p, s, xs, s1, ys, t);
  }

  lemma FinishFrom(p: Params, s: System) returns (actions: seq<Action>, t: System)
    requires Transfer.Inv(p, s) && EnoughRequests(Cfg(p)) && (s.phase == Receiving ==> Idle(s))
    ensures CalmRun(p, s, actions, t) && t.phase.Finished? && t.net == s.net
  {
    if s.phase != Receiving {
      actions, t := CleanUp(p, s);
    } else {
      var xs, s1 := LeaveLoop(p, s);
      var ys;
      ys, t := CleanUp(p, s1);
      actions := Then(p, s, xs, s1, ys, t);
    }
  }

  /** Once the stop request is on its way, the server takes up what is queued and then stops. */
  lemma {:induction false} ServerStops(p: Params, s: System) returns (actions: seq<Action>, t: System)
    requires Transfer.Inv(p, s) && s.phase !in {Receiving, Done}
    ensures CalmRun(p, s, actions, t) && Transfer.Inv(p, t)
    ensures !t.server.running && t == s.(server := t.server, net := t.net, back := t.back)
    ensures !Enabled(p, t, ServerSend)
    decreases |s.back|
  {
    if !s.server.running {
      return [], s;
    }
    TakeStep(p, s, ServerHandle);
    var s1 := Apply(p, s, ServerHandle);
    HandleShape(p, s);
    var rest;
    rest, t := ServerStops(p, s1);
    actions := Then(p, s, [ServerHandle], s1, rest, t);
  }

  lemma HandleShape(p: Params, s: System)
    requires ValidParams(p) && Enabled(p, s, ServerHandle)
    ensures var t := Apply(p, s, ServerHandle);
            t == s.(server := t.server, net := t.net, back := t.back) && |t.back| == |s.back| - 1
  {
  }

  lemma StaysReachable(p: Params, s: System, actions: seq<Action>, t: System)
    requires ValidParams(p) && Reachable(p, s) && IsRun(p, s, actions, t)
    ensures Reachable(p, t)
  {
    var before :| IsRun(p, Init(p), before, s);
    RunReaches(p, Init(p), before, s, actions, t);
  }

  /**
    A calm run ends with the whole source on disk. It first comes to a state m with
    nothing in flight, or behind the loop; from there on every datagram is
    delivered as soon as it is sent.
  */
  ghost predicate CanFinish(p: Params, s: System)
    requires ValidParams(p)
  {
    exists xs, m, ys, t ::
      && CalmRun(p, s, xs, m) && CalmRun(p, m, ys, t)
      && (m.phase == Receiving ==> m.net == [] && t.net == [])
      && t.phase.Finished? && t.disk.file == p.layout.source
  }

  /** No dead states, whatever was lost, repeated or reordered before. */
  lemma CanAlwaysFinish(p: Params, s: System)
    requires ValidParams(p) && EnoughRequests(Cfg(p)) && Reachable(p, s)
    ensures CanFinish(p, s)
  {
    ReachableInv(p, s);
    var xs, m := Settle(p, s);
    var ys, t := FinishFrom(p, m);
    StaysReachable(p, s, xs, m);
    StaysReachable(p, m, ys, t);
    FinishedOutputIsSource(p, t);
  }
}
