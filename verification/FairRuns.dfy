/**
  Every fair run leaves the receive loop. Once the channel has settled, the server
  takes up requests before it sends, each datagram arrives before the next turn of
  the server, no feedback is due and the disk thread runs whenever it likes: such a
  run cannot go on for ever and is never blocked.
*/
module FairRuns {
  import opened Wire
  import opened TransferClient
  import opened BlockFile
  import opened Progress
  import opened Transfer
  import opened TransferLiveness

  ghost predicate Prompt(p: Params, s: System, a: Action) {
    match a
    case ServerSend => s.net == [] && s.back == []
    case ServerHandle => s.net == []
    case Deliver(i, gate) => gate == Closed && |s.net| == 1 && |s.ring| < p.ringSize
    case DiskWrite => true
    case DiskPop => true
    case _ => false
  }

  /** Prompt steps inside the receive loop; the last one may leave it. */
  ghost predicate PromptRun(p: Params, s: System, actions: seq<Action>, t: System)
    requires ValidParams(p)
    decreases |actions|
  {
    if actions == [] then s == t
    else
      && s.phase == Receiving && Prompt(p, s, actions[0]) && Enabled(p, s, actions[0])
      && PromptRun(p, Apply(p, s, actions[0]), actions[1..], t)
  }

  /** The core as it is when the datagram in flight, if any, has arrived. */
  function Ahead(p: Params, s: System): Core
    requires p.layout.blockSize >= 1
  {
    if s.phase != Receiving || s.net == [] then View(s)
    else
      var o := Receive(Cfg(p), s.client, s.net[0].block, s.net[0].kind, false);
      Core(o.client, s.server.block, s.back + o.requests, o.done)
  }

  /** What is left to do: rounds, datagrams in flight, blocks in the ring. */
  function Work(s: System, rounds: nat): int {
    4 * rounds + 3 * |s.net| + 2 * |s.ring| - (if s.disk.popping then 1 else 0)
  }

  ghost predicate Settled(p: Params, s: System, rounds: nat) {
    && Transfer.Inv(p, s) && |s.net| <= 1
    && Rounds(Cfg(p), Ahead(p, s), rounds).done
  }

  lemma ServerGetsAhead(p: Params, s: System, a: Action)
    requires Transfer.Inv(p, s) && s.phase == Receiving && (a.ServerSend? || a.ServerHandle?)
    requires Prompt(p, s, a) && Enabled(p, s, a)
    ensures var t := Apply(p, s, a);
            && t == s.(server := t.server, net := t.net, back := t.back) && |t.net| <= 1
            && Ahead(p, t) == Round(Cfg(p), View(s))
  {
    assert a == ServerAction(s);
    ServerTurnShape(p, s);
    if s.back == [] {
      var o := Receive(Cfg(p), s.client, NextBlock(BlockCount(p.layout), s.server.block),
                       NextKind(BlockCount(p.layout), s.server.block), false);
      assert [] + o.requests == o.requests;
    } else {
      assert s.back[0] in s.back;
      assert s.back[0] == Stop || BackOk(Cfg(p), s.client, s.back[0]);
    }
  }

  lemma ServerStep(p: Params, s: System, a: Action, t: System, rounds: nat)
    requires Settled(p, s, rounds) && s.phase == Receiving && (a.ServerSend? || a.ServerHandle?)
    requires Prompt(p, s, a) && Enabled(p, s, a) && t == Apply(p, s, a)
    ensures rounds > 0 && Settled(p, t, rounds - 1) && Work(t, rounds - 1) < Work(s, rounds)
  {
    StepInv(p, s, a);
    ServerGetsAhead(p, s, a);
    OneRoundLess(Cfg(p), View(s), Ahead(p, t), rounds);
  }

  lemma DeliverGetsAhead(p: Params, s: System, a: Action)
    requires ValidParams(p) && s.phase == Receiving && a.Deliver? && Prompt(p, s, a) && Enabled(p, s, a)
    ensures var t := Apply(p, s, a);
            && t.net == [] && |t.ring| <= |s.ring| + 1 && t.disk == s.disk
            && Ahead(p, t) == Ahead(p, s)
  {
    assert Without(s.net, 0) == [];
    PassView(p, s.(net := []), s.net[0]);
  }

  lemma DeliverStep(p: Params, s: System, a: Action, t: System, rounds: nat)
    requires Settled(p, s, rounds) && s.phase == Receiving && a.Deliver?
    requires Prompt(p, s, a) && Enabled(p, s, a) && t == Apply(p, s, a)
    ensures Settled(p, t, rounds) && Work(t, rounds) < Work(s, rounds)
  {
    StepInv(p, s, a);
    DeliverGetsAhead(p, s, a);
  }

  lemma DiskStep(p: Params, s: System, a: Action, t: System, rounds: nat)
    requires Settled(p, s, rounds) && s.phase == Receiving && (a.DiskWrite? || a.DiskPop?)
    requires Enabled(p, s, a) && t == Apply(p, s, a)
    ensures Settled(p, t, rounds) && Work(t, rounds) < Work(s, rounds)
  {
    StepInv(p, s, a);
    if a.DiskWrite? {
      assert s.ring[0].block != 0;
    }
  }

  lemma ClientStep(p: Params, s: System, a: Action, t: System, rounds: nat)
    requires Settled(p, s, rounds) && s.phase == Receiving && !a.ServerSend? && !a.ServerHandle?
    requires Prompt(p, s, a) && Enabled(p, s, a) && t == Apply(p, s, a)
    ensures Settled(p, t, rounds) && Work(t, rounds) < Work(s, rounds)
  {
    if a.Deliver? {
      DeliverStep(p, s, a, t, rounds);
    } else {
      DiskStep(p, s, a, t, rounds);
    }
  }

  /** Each step leaves less to do. */
  lemma PromptStep(p: Params, s: System, a: Action, t: System, rounds: nat) returns (rounds': nat)
    requires Settled(p, s, rounds) && s.phase == Receiving
    requires Prompt(p, s, a) && Enabled(p, s, a) && t == Apply(p, s, a)
    ensures Settled(p, t, rounds') && Work(t, rounds') < Work(s, rounds)
  {
    rounds' := if a.ServerSend? || a.ServerHandle? then rounds - 1 else rounds;
    if a.ServerSend? || a.ServerHandle? {
      ServerStep(p, s, a, t, rounds);
    } else {
      ClientStep(p, s, a, t, rounds);
    }
  }

  lemma WorkIsNat(p: Params, s: System, rounds: nat)
    requires Settled(p, s, rounds)
    ensures Work(s, rounds) >= 0
  {
    assert s.disk.popping ==> s.ring != [];
  }

  lemma FirstStep(p: Params, s: System, actions: seq<Action>, t: System) returns (s1: System)
    requires ValidParams(p) && actions != [] && PromptRun(p, s, actions, t)
    ensures s.phase == Receiving && Prompt(p, s, actions[0]) && Enabled(p, s, actions[0])
    ensures s1 == Apply(p, s, actions[0]) && PromptRun(p, s1, actions[1..], t)
  {
    s1 := Apply(p, s, actions[0]);
  }

  lemma {:induction false} PromptRunIsShort(p: Params, s: System, actions: seq<Action>, t: System, rounds: nat)
    returns (rounds': nat)
    requires ValidParams(p) && Settled(p, s, rounds) && PromptRun(p, s, actions, t)
    ensures Settled(p, t, rounds') && |actions| + Work(t, rounds') <= Work(s, rounds)
    decreases |actions|
  {
    if actions == [] {
      rounds' := rounds;
    } else {
      var s1 := FirstStep(p, s, actions, t);
      var rounds1 := PromptStep(p, s, actions[0], s1, rounds);
      rounds' := PromptRunIsShort(p, s1, actions[1..], t, rounds1);
    }
  }

  ghost predicate CanGoOn(p: Params, s: System)
    requires ValidParams(p)
  {
    s.phase == Receiving && exists a :: Prompt(p, s, a) && Enabled(p, s, a)
  }

  /** Inside the loop some prompt step is always possible. */
  lemma NeverBlocked(p: Params, s: System)
    requires Transfer.Inv(p, s) && |s.net| <= 1 && s.phase == Receiving
    ensures CanGoOn(p, s)
  {
    ServerRuns(p, s);
    if s.net == [] {
      assert Prompt(p, s, ServerAction(s)) && Enabled(p, s, ServerAction(s));
    } else if |s.ring| < p.ringSize {
      assert Prompt(p, s, Deliver(0, Closed)) && Enabled(p, s, Deliver(0, Closed));
    } else {
      var a := if s.disk.popping then DiskPop else DiskWrite;
      assert Prompt(p, s, a) && Enabled(p, s, a);
    }
  }

  /**
    From every reachable state of the loop with nothing in flight there is a length
    that no prompt run exceeds, and a prompt run that cannot go on has left the loop.
  */
  lemma FairRunsFinish(p: Params, s: System) returns (bound: nat)
    requires ValidParams(p) && EnoughRequests(Cfg(p)) && Reachable(p, s)
    requires s.phase == Receiving && s.net == []
    ensures forall actions, t :: PromptRun(p, s, actions, t) ==> |actions| <= bound
    ensures forall actions, t :: PromptRun(p, s, actions, t) && !CanGoOn(p, t) ==> t.phase != Receiving
  {
    ReachableInv(p, s);
    ViewInv(p, s);
    var rounds := Finishes(Cfg(p), View(s));
    assert Settled(p, s, rounds);
    bound := 4 * rounds + 2 * |s.ring|;
    forall actions, t | PromptRun(p, s, actions, t)
      ensures |actions| <= bound && (!CanGoOn(p, t) ==> t.phase != Receiving)
    {
      var rounds' := PromptRunIsShort(p, s, actions, t, rounds);
      WorkIsNat(p, t, rounds');
      if t.phase == Receiving {
        NeverBlocked(p, t);
      }
    }
  }
}
