/**
  What one pass of the receive loop does to each field of the client, told by the
  fields alone: which arrivals are ignored, which are kept without being acted on
  because of a restart, what the others queue, and what is asked for at the end.
*/
module ReceiveLaws {
  import opened Wire
  import opened RetransmitTable
  import opened TransferClient
  import opened Progress
  import BlockFile
  import Transfer

  // ----- queueing a gap ---------------------------------------------------------------

  /** A table that refuses requests stays as it is. */
  lemma {:induction false} SaturatedStays(cfg: Config, c: Client, lo: nat, hi: nat)
    requires Saturated(cfg.limits, c.table)
    ensures RequestRange(cfg, c, lo, hi).table == c.table
    decreases hi - lo
  {
    if lo < hi {
      SaturatedStays(cfg, RequestRetransmit(cfg, c, lo), lo + 1, hi);
    }
  }

  /** What a run of requests keeps, and what a drop means. */
  lemma {:induction false} RangeFrame(cfg: Config, c: Client, lo: nat, hi: nat)
    ensures var c' := RequestRange(cfg, c, lo, hi);
            && SameButTable(c, c')
            && (c.overflowed ==> c'.overflowed)
            && (c'.overflowed && !c.overflowed ==> Saturated(cfg.limits, c'.table))
    decreases hi - lo
  {
    if lo < hi {
      var c1 := RequestRetransmit(cfg, c, lo);
      RangeFrame(cfg, c1, lo + 1, hi);
      if Saturated(cfg.limits, c1.table) {
        SaturatedStays(cfg, c1, lo + 1, hi);
      }
    }
  }

  /** Old entries stay, missing blocks of the range come in unless dropped, and nothing else does. */
  lemma {:induction false} RangeMember(cfg: Config, c: Client, lo: nat, hi: nat, x: nat)
    ensures var c' := RequestRange(cfg, c, lo, hi);
            && (x in c.table.entries ==> x in c'.table.entries)
            && (lo <= x < hi && !Got(c.received, x) ==> x in c'.table.entries || c'.overflowed)
            && (x in c'.table.entries ==> x in c.table.entries || (lo <= x < hi && !Got(c.received, x)))
    decreases hi - lo
  {
    if lo < hi {
      var c1 := RequestRetransmit(cfg, c, lo);
      AddMembers(cfg.limits, c.table, lo, x);
      RangeFrame(cfg, c1, lo + 1, hi);
      RangeMember(cfg, c1, lo + 1, hi, x);
    }
  }

  ghost predicate AllAtLeast(s: seq<nat>, lo: nat) {
    forall i :: 0 <= i < |s| ==> s[i] >= lo
  }

  /** The plain build appends a run in ascending order. */
  lemma {:induction false} RangeAppends(cfg: Config, c: Client, lo: nat, hi: nat) returns (run: seq<nat>)
    requires !cfg.limits.sorting
    ensures RequestRange(cfg, c, lo, hi).table.entries == c.table.entries + run
    ensures StrictlyIncreasing(run) && AllAtLeast(run, lo)
    decreases hi - lo
  {
    run := [];
    if lo < hi {
      var c1 := RequestRetransmit(cfg, c, lo);
      run := RangeAppends(cfg, c1, lo + 1, hi);
      if c1.table.entries != c.table.entries {
        ConsKeepsOrder(lo, run);
        run := [lo] + run;
      }
    }
  }

  /** The whole effect of queueing the gap lo..hi-1 on the table and on the record of drops. */
  ghost predicate Queued(
      cfg: Config, received: Received, table: Table, table': Table, overflowed: bool, overflowed': bool, lo: nat, hi: nat)
  {
    && (overflowed ==> overflowed')
    && (overflowed' && !overflowed ==> Saturated(cfg.limits, table'))
    && (forall x :: x in table.entries ==> x in table'.entries)
    && (forall x :: lo <= x < hi && !Got(received, x) ==> x in table'.entries || overflowed')
    && (forall x :: x in table'.entries ==> x in table.entries || (lo <= x < hi && !Got(received, x)))
    && (!cfg.limits.sorting ==>
          table.entries <= table'.entries && StrictlyIncreasing(table'.entries[|table.entries|..]))
  }

  lemma RangeQueues(cfg: Config, c: Client, lo: nat, hi: nat)
    ensures var t := RequestRange(cfg, c, lo, hi);
            SameButTable(c, t) && Queued(cfg, c.received, c.table, t.table, c.overflowed, t.overflowed, lo, hi)
  {
    var t := RequestRange(cfg, c, lo, hi);
    RangeFrame(cfg, c, lo, hi);
    forall x: nat ensures x in c.table.entries ==> x in t.table.entries
                  ensures lo <= x < hi && !Got(c.received, x) ==> x in t.table.entries || t.overflowed
                  ensures x in t.table.entries ==> x in c.table.entries || (lo <= x < hi && !Got(c.received, x))
    {
      RangeMember(cfg, c, lo, hi, x);
    }
    if !cfg.limits.sorting {
      var run := RangeAppends(cfg, c, lo, hi);
      assert (c.table.entries + run)[|c.table.entries|..] == run;
    }
  }

  lemma GapLaw(cfg: Config, c: Client, b: nat)
    ensures var t := QueueMissing(cfg, c, b);
            SameButTable(c, t) && Queued(cfg, c.received, c.table, t.table, c.overflowed, t.overflowed, c.nextBlock, b)
  {
    RangeQueues(cfg, c, c.nextBlock, b);
  }

  // ----- the gapless index ----------------------------------------------------------------

  /** The index passes received blocks only and stops in front of a missing one or at the end. */
  ghost predicate Advanced(received: Received, from: nat, to: nat) {
    && from <= to && (from < to ==> to <= received.count)
    && (forall x :: from < x <= to ==> Got(received, x))
    && (to < received.count ==> !Got(received, to + 1))
  }

  lemma {:induction false} AdvanceLaw(c: Client)
    ensures var t := AdvanceGapless(c);
            t == c.(gaplessTo := t.gaplessTo) && Advanced(c.received, c.gaplessTo, t.gaplessTo)
    decreases c.received.count - c.gaplessTo
  {
    if Got(c.received, c.gaplessTo + 1) && c.gaplessTo < c.received.count {
      AdvanceLaw(c.(gaplessTo := c.gaplessTo + 1));
    }
  }

  /** Only an original moves the head, and a restart is over once the head has come to the end of its table. */
  lemma MoveLaw(c: Client, b: nat, kind: BlockType)
    ensures var t := MoveIndices(c, b, kind);
            && Advanced(c.received, c.gaplessTo, t.gaplessTo)
            && t.nextBlock == (if kind == Original then b + 1 else c.nextBlock)
            && t.restartPending == (c.restartPending && t.nextBlock < c.restartLast)
            && t == c.(gaplessTo := t.gaplessTo, nextBlock := t.nextBlock, restartPending := t.restartPending)
  {
    AdvanceLaw(c);
  }

  // ----- one arrival ------------------------------------------------------------------------

  /** An arrival marks its own block, if that is missing, and counts it off. */
  ghost predicate Marked(c: Client, t: Client, b: nat) {
    && t.received == c.received.(blocks := t.received.blocks)
    && t.received.blocks == c.received.blocks + (if Got(c.received, b) then {} else {b})
    && t.blocksLeft == (if Got(c.received, b) || c.blocksLeft == 0 then c.blocksLeft else c.blocksLeft - 1)
  }

  /** With a full ring, or for a known block outside a restart, nothing happens; a terminate block is never ignored. */
  lemma IgnoredArrival(cfg: Config, c: Client, b: nat, kind: BlockType, ringFull: bool)
    requires ringFull || (Got(c.received, b) && kind != Terminate && !c.restartPending)
    ensures Receive(cfg, c, b, kind, ringFull) == Outcome(c, false, [], false)
  {
  }

  /** While a restart is pending, what was down the wire before it is marked and nothing else. */
  lemma FilteredArrival(cfg: Config, c: Client, b: nat, kind: BlockType)
    requires c.restartPending && kind != Terminate && c.restartLast < b <= c.restartWireClear
    ensures var o := Receive(cfg, c, b, kind, false);
            && o.enqueue == !Got(c.received, b) && o.requests == [] && !o.done
            && Marked(c, o.client, b)
            && o.client == c.(received := o.client.received, blocksLeft := o.client.blocksLeft, oops := o.client.oops)
  {
  }

  /**
    Every other block that does not end the transmission: the gap in front of it is
    queued, only an original moves the head, and a restart is over as soon as the
    head has come to the end of the table it was asked with.
  */
  lemma ActedOnArrival(cfg: Config, c: Client, b: nat, kind: BlockType)
    requires kind != Terminate && (!Got(c.received, b) || c.restartPending)
    requires !c.restartPending || b <= c.restartLast || c.restartWireClear < b
    ensures var o := Receive(cfg, c, b, kind, false);
            var t := o.client;
            && o.enqueue == !Got(c.received, b) && o.requests == [] && !o.done
            && Marked(c, t, b)
            && Queued(cfg, t.received, c.table, t.table, c.overflowed, t.overflowed, c.nextBlock, b)
            && t.nextBlock == (if kind == Original then b + 1 else c.nextBlock)
            && Advanced(t.received, c.gaplessTo, t.gaplessTo)
            && t.restartPending == (c.restartPending && t.nextBlock < c.restartLast)
            && t.restartLast == c.restartLast && t.restartWireClear == c.restartWireClear
  {
    var m := if Got(c.received, b) then c else MarkReceived(c, b);
    ActLaw(cfg, m, b, kind);
  }

  lemma ActLaw(cfg: Config, c: Client, b: nat, kind: BlockType)
    ensures var t := MoveIndices(QueueMissing(cfg, c, b), b, kind);
            && Queued(cfg, c.received, c.table, t.table, c.overflowed, t.overflowed, c.nextBlock, b)
            && t.nextBlock == (if kind == Original then b + 1 else c.nextBlock)
            && Advanced(c.received, c.gaplessTo, t.gaplessTo)
            && t.restartPending == (c.restartPending && t.nextBlock < c.restartLast)
            && t == c.(table := t.table, overflowed := t.overflowed, gaplessTo := t.gaplessTo,
                       nextBlock := t.nextBlock, restartPending := t.restartPending)
  {
    GapLaw(cfg, c, b);
    MoveLaw(QueueMissing(cfg, c, b), b, kind);
  }

  // ----- asking again ---------------------------------------------------------------------------

  /** Each missing block of the table is asked for once, in the order of the table, and stays in it. */
  ghost predicate Repeated(c: Client, t: Client, reqs: seq<Request>) {
    && t == c.(table := t.table) && t.table.size == c.table.size
    && (forall x :: x in c.table.entries && x != 0 && !Got(c.received, x) ==> Retransmit(x) in reqs)
    && |reqs| == |t.table.entries|
    && forall i :: 0 <= i < |reqs| ==>
         && reqs[i] == Retransmit(t.table.entries[i])
         && t.table.entries[i] in c.table.entries && !Got(c.received, t.table.entries[i])
  }

  /**
    One restart goes out: the table is emptied, its last entry and what may be on the
    wire behind it are remembered, and the head moves back behind the gapless section.
  */
  ghost predicate Restarted(cfg: Config, c: Client, t: Client, reqs: seq<Request>) {
    && c.table.entries != []
    && var last := c.table.entries[|c.table.entries| - 1];
       && reqs == [Restart(t.nextBlock)]
       && t.nextBlock == (if c.gaplessTo < cfg.blockCount then c.gaplessTo + 1 else cfg.blockCount)
       && t.restartWireClear <= cfg.blockCount
       && (last + cfg.onWireEstimate < U32 ==>
             t.restartWireClear == last + cfg.onWireEstimate ||
             (t.restartWireClear == cfg.blockCount < last + cfg.onWireEstimate))
       && t.table.entries == [] && t.table.size == c.table.size
       && t == c.(nextBlock := t.nextBlock, restartPending := true, restartLast := last,
                  restartWireClear := t.restartWireClear, table := t.table, overflowed := false)
  }

  /** The restart goes out exactly when the wanted blocks fill the request buffer. */
  ghost predicate AskedAgain(cfg: Config, c: Client, t: Client, reqs: seq<Request>) {
    if |Wanted(c.table.entries, c.received)| < cfg.limits.maxRequests then Repeated(c, t, reqs)
    else Restarted(cfg, c, t, reqs)
  }

  lemma AsksForAll(cfg: Config, c: Client)
    requires |Wanted(c.table.entries, c.received)| < cfg.limits.maxRequests
    ensures var (t, reqs) := RepeatRetransmit(cfg, c); Repeated(c, t, reqs)
  {
    var (t, reqs) := RepeatRetransmit(cfg, c);
    forall x | x in c.table.entries && x != 0 && !Got(c.received, x) ensures Retransmit(x) in reqs {
      WantedMembers(c.table.entries, c.received, x);
      var i :| 0 <= i < |t.table.entries| && t.table.entries[i] == x;
      assert reqs[i] == Retransmit(x);
    }
    forall i | 0 <= i < |reqs|
      ensures t.table.entries[i] in c.table.entries && !Got(c.received, t.table.entries[i])
    {
      WantedMembers(c.table.entries, c.received, t.table.entries[i]);
    }
  }

  lemma RestartLaw(cfg: Config, c: Client)
    requires 1 <= cfg.limits.maxRequests <= |Wanted(c.table.entries, c.received)|
    ensures var (t, reqs) := RepeatRetransmit(cfg, c); Restarted(cfg, c, t, reqs)
  {
    WantedLength(c.table.entries, c.received);
  }

  /** Whatever the table holds, what is missing of it is asked for, or the transfer restarts. */
  lemma AsksOrRestarts(cfg: Config, c: Client)
    requires cfg.limits.maxRequests >= 1
    ensures var (t, reqs) := RepeatRetransmit(cfg, c); AskedAgain(cfg, c, t, reqs)
  {
    if |Wanted(c.table.entries, c.received)| < cfg.limits.maxRequests {
      AsksForAll(cfg, c);
    } else {
      RestartLaw(cfg, c);
    }
  }

  // ----- the end of the transmission ----------------------------------------------------------

  /**
    The terminate block ends the loop exactly when nothing is missing any more.
    Otherwise everything missing in front of it is asked for, or the transfer
    restarts behind the gapless section, or the table was full.
  */
  lemma TerminateArrival(cfg: Config, c: Client)
    requires ValidConfig(cfg) && Inv(cfg, c)
    ensures var o := Receive(cfg, c, cfg.blockCount, Terminate, false);
            var t := o.client;
            && Marked(c, t, cfg.blockCount)
            && Advanced(t.received, c.gaplessTo, t.gaplessTo)
            && (o.done <==> t.received.blocks == AllBlocks(cfg.blockCount))
            && (o.done ==> o.requests == [] && t.nextBlock == c.nextBlock)
            && (!o.done ==>
                  || (o.requests == [Restart(t.nextBlock)] && t.nextBlock == t.gaplessTo + 1 && t.restartPending)
                  || t.overflowed
                  || (t.nextBlock == c.nextBlock &&
                      forall x :: 1 <= x < cfg.blockCount && x !in t.received.blocks ==> Retransmit(x) in o.requests))
  {
    EndsLoop(cfg, c);
    var e := BeforeSweep(cfg, c);
    BeforeSweepInv(cfg, c);
    NoneLeftMeansAll(cfg, e);
    if e.blocksLeft != 0 {
      SweepLaw(cfg, e);
    }
  }

  lemma EndsLoop(cfg: Config, c: Client)
    requires ValidConfig(cfg) && Inv(cfg, c)
    ensures var o := Receive(cfg, c, cfg.blockCount, Terminate, false);
            var e := BeforeSweep(cfg, c);
            && Marked(c, e, cfg.blockCount) && e.nextBlock == c.nextBlock
            && Advanced(e.received, c.gaplessTo, e.gaplessTo)
            && o.done == (e.blocksLeft == 0)
            && (o.client, o.requests) == if o.done then (e, []) else Sweep(cfg, e)
  {
    var m := if Got(c.received, cfg.blockCount) then c else MarkReceived(c, cfg.blockCount);
    ActLaw(cfg, m, cfg.blockCount, Terminate);
  }

  lemma SweepLaw(cfg: Config, c: Client)
    requires ValidConfig(cfg) && Inv(cfg, c) && cfg.blockCount in c.received.blocks && c.blocksLeft != 0
    requires c.gaplessTo + 1 < cfg.blockCount && c.gaplessTo + 1 !in c.received.blocks
    ensures var (t, reqs) := Sweep(cfg, c);
            && t.received == c.received && t.blocksLeft == c.blocksLeft && t.gaplessTo == c.gaplessTo
            && (|| (reqs == [Restart(t.nextBlock)] && t.nextBlock == t.gaplessTo + 1 && t.restartPending)
                || t.overflowed
                || (t.nextBlock == c.nextBlock &&
                    forall x :: 1 <= x < cfg.blockCount && x !in c.received.blocks ==> Retransmit(x) in reqs))
  {
    var c0 := c.(overflowed := false);
    var c1 := RequestRange(cfg, c0, c.gaplessTo + 1, cfg.blockCount);
    RangeQueues(cfg, c0, c.gaplessTo + 1, cfg.blockCount);
    if |Wanted(c1.table.entries, c1.received)| < cfg.limits.maxRequests {
      AsksForAll(cfg, c1);
    } else {
      RestartLaw(cfg, c1);
    }
  }

  // ----- feedback and failed receives --------------------------------------------------------------

  /**
    A pass of the whole client with its feedback: after the arrival has been taken in
    the requests are repeated, or the transfer restarts, and the loss rate that was
    given is reported last. A pass without feedback, or one that leaves the loop, adds
    nothing to the arrival's own requests.
  */
  lemma PassLaw(p: Transfer.Params, s: Transfer.System, d: Datagram, gate: Transfer.Gate)
    requires p.layout.blockSize >= 1 && p.limits.maxRequests >= 1
    ensures var cfg := Transfer.Cfg(p);
            var o := Receive(cfg, s.client, d.block, d.kind, |s.ring| >= p.ringSize);
            var t := Transfer.Pass(p, s, d, gate);
            && t.phase == (if o.done then Transfer.Done else s.phase) && t.last == [d]
            && t.ring == s.ring + (if o.enqueue then [Transfer.Item(d.block, d.payload)] else [])
            && t.server == s.server && t.net == s.net && t.disk == s.disk
            && if o.done || gate == Transfer.Closed then t.client == o.client && t.back == s.back + o.requests
               else exists reqs ::
                 && AskedAgain(cfg, o.client, t.client, reqs)
                 && t.back == s.back + (o.requests + (reqs + [ErrorRate(gate.rate)]))
  {
    var o := Receive(Transfer.Cfg(p), s.client, d.block, d.kind, |s.ring| >= p.ringSize);
    AsksOrRestarts(Transfer.Cfg(p), o.client);
    assert s.ring + [] == s.ring;
    if o.done || gate == Transfer.Closed {
      assert o.requests + [] == o.requests;
    } else {
      var (c, reqs) := RepeatRetransmit(Transfer.Cfg(p), o.client);
      assert AskedAgain(Transfer.Cfg(p), o.client, c, reqs);
    }
  }

  /** A failed receive asks again, or restarts, before it takes the old datagram for a new one. */
  lemma FailedPassAsks(p: Transfer.Params, s: Transfer.System, gate: Transfer.Gate)
    requires p.layout.blockSize >= 1 && p.limits.maxRequests >= 1 && s.last != []
    ensures exists c, reqs ::
              && AskedAgain(Transfer.Cfg(p), s.client, c, reqs)
              && Transfer.FailedPass(p, s, gate) ==
                 Transfer.Pass(p, s.(client := c, back := s.back + reqs), s.last[0], gate)
  {
    AsksOrRestarts(Transfer.Cfg(p), s.client);
    var (c, reqs) := RepeatRetransmit(Transfer.Cfg(p), s.client);
    assert AskedAgain(Transfer.Cfg(p), s.client, c, reqs);
  }

  // ----- a repeated block --------------------------------------------------------------------------

  lemma RepeatedArrival(cfg: Config, c: Client, b: nat)
    requires ValidConfig(cfg) && Inv(cfg, c) && 1 <= b <= cfg.blockCount
    ensures var o := Receive(cfg, c, b, Retransmission, false);
            && o.client.received.blocks == c.received.blocks + {b} && o.client.nextBlock == c.nextBlock
            && o.requests == [] && !o.done
            && (forall x :: x in c.table.entries ==> x in o.client.table.entries)
  {
    if Got(c.received, b) && !c.restartPending {
      IgnoredArrival(cfg, c, b, Retransmission, false);
    } else if c.restartPending && c.restartLast < b <= c.restartWireClear {
      FilteredArrival(cfg, c, b, Retransmission);
    } else {
      ActedOnArrival(cfg, c, b, Retransmission);
    }
  }

  /**
    A request for a block, served and delivered: the block is received, and neither
    the counter of the server nor the head of the client moves.
  */
  lemma RepeatIsServed(p: Transfer.Params, s: Transfer.System, b: nat)
    requires Transfer.Inv(p, s) && s.phase == Transfer.Receiving && |s.ring| < p.ringSize
    requires s.back != [] && s.back[0] == Retransmit(b)
    ensures Transfer.Enabled(p, s, Transfer.ServerHandle)
    ensures var s1 := Transfer.Apply(p, s, Transfer.ServerHandle);
            && s1.net != [] && s1.phase == Transfer.Receiving
            && var t := Transfer.Apply(p, s1, Transfer.Deliver(|s1.net| - 1, Transfer.Closed));
               && t.client.received.blocks == s.client.received.blocks + {b}
               && t.client.nextBlock == s.client.nextBlock && t.server.block == s.server.block
               && t.net == s.net && t.back == s.back[1..] && t.phase == Transfer.Receiving
  {
    assert s.back[0] in s.back;
    BlockFile.LastBlockEnds(p.layout);
    RepeatedArrival(Transfer.Cfg(p), s.client, b);
    var s1 := Transfer.Apply(p, s, Transfer.ServerHandle);
    assert Transfer.Without(s1.net, |s.net|) == s.net;
  }
}
