/**
  No dead states: from every state the invariant allows, the protocol finishes
  once the channel stops losing datagrams.

  `Core` is the part of the system that decides this: the client, the server's
  block counter and the back-channel. One round is one turn of the server loop
  with its datagram, if any, delivered at once.
*/
module Progress {
  import opened Wire
  import opened RetransmitTable
  import opened TransferClient

  datatype Core = Core(client: Client, block: nat, back: seq<Request>, done: bool)

  function NextBlock(count: nat, block: nat): nat {
    Min(block + 1, count)
  }

  function NextKind(count: nat, block: nat): BlockType {
    if NextBlock(count, block) == count then Terminate else Original
  }

  /** ttp_accept_retransmit's range check; the counter after a restart request. */
  function RestartAt(count: nat, block: nat, b: nat): nat {
    if b == 0 || b > count then block else b
  }

  /** One turn of the server loop, its datagram delivered at once. */
  function Round(cfg: Config, k: Core): Core {
    if k.done then k
    else if k.back == [] then
      var b := NextBlock(cfg.blockCount, k.block);
      var o := Receive(cfg, k.client, b, NextKind(cfg.blockCount, k.block), false);
      Core(o.client, b, o.requests, o.done)
    else
      match k.back[0]
      case Retransmit(b) =>
        var o := Receive(cfg, k.client, b, Retransmission, false);
        Core(o.client, k.block, k.back[1..] + o.requests, o.done)
      case Restart(b) => Core(k.client, RestartAt(cfg.blockCount, k.block, b), k.back[1..], false)
      case Stop => Core(k.client, k.block, k.back[1..], false)
      case ErrorRate(_) => Core(k.client, k.block, k.back[1..], false)
  }

  function Rounds(cfg: Config, k: Core, n: nat): Core
    decreases n
  {
    if n == 0 then k else Rounds(cfg, Round(cfg, k), n - 1)
  }

  /** A request that arrived at the server stays acceptable while the client fills up. */
  ghost predicate BackOk(cfg: Config, c: Client, r: Request) {
    match r
    case Retransmit(b) => 1 <= b < cfg.blockCount
    case Restart(b) =>
      && 1 <= b <= cfg.blockCount
      && forall m :: 1 <= m <= cfg.blockCount && m !in c.received.blocks ==> b <= m
    case Stop => false
    case ErrorRate(_) => true
  }

  ghost predicate CoreInv(cfg: Config, k: Core) {
    && Inv(cfg, k.client)
    && k.block <= cfg.blockCount
    && forall r :: r in k.back ==> BackOk(cfg, k.client, r)
  }

  /**
    What progress needs of the request buffer: it must stay short of full when
    one block is missing, and the plain build may hold that block twice. A single
    block is never asked for.
  */
  ghost predicate EnoughRequests(cfg: Config) {
    ValidConfig(cfg) && (cfg.blockCount == 1 || cfg.limits.maxRequests >= if cfg.limits.sorting then 2 else 3)
  }

  lemma {:induction false} RoundsAdd(cfg: Config, k: Core, m: nat, n: nat)
    ensures Rounds(cfg, k, m + n) == Rounds(cfg, Rounds(cfg, k, m), n)
    decreases m
  {
    if m > 0 {
      RoundsAdd(cfg, Round(cfg, k), m - 1, n);
    }
  }

  // ----- runs of requests --------------------------------------------------------

  lemma {:induction false} RangeGrows(cfg: Config, c: Client, lo: nat, hi: nat)
    ensures |c.table.entries| <= |RequestRange(cfg, c, lo, hi).table.entries|
    decreases hi - lo
  {
    if lo < hi {
      InsertSortedLength(c.table.entries, lo);
      RangeGrows(cfg, RequestRetransmit(cfg, c, lo), lo + 1, hi);
    }
  }

  /** Only missing blocks of the range are added. */
  lemma {:induction false} RangeAddsMissing(cfg: Config, c: Client, lo: nat, hi: nat, x: nat)
    requires x in RequestRange(cfg, c, lo, hi).table.entries
    ensures x in c.table.entries || (lo <= x < hi && x !in c.received.blocks)
    decreases hi - lo
  {
    if lo < hi {
      var c1 := RequestRetransmit(cfg, c, lo);
      RangeAddsMissing(cfg, c1, lo + 1, hi, x);
      if !Got(c.received, lo) {
        AddMembers(cfg.limits, c.table, lo, x);
      }
    }
  }

  /** If nothing but x can be missing in the range, the run is a single request for x. */
  lemma {:induction false} RangeOfOne(cfg: Config, c: Client, lo: nat, hi: nat, x: nat)
    requires forall y :: lo <= y < hi && y != x ==> Got(c.received, y)
    ensures RequestRange(cfg, c, lo, hi) == if lo <= x < hi then RequestRetransmit(cfg, c, x) else c
    decreases hi - lo
  {
    if lo < hi {
      RangeOfOne(cfg, RequestRetransmit(cfg, c, lo), lo + 1, hi, x);
    }
  }

  // ----- one round -----------------------------------------------------------------

  lemma NextSendable(cfg: Config, k: Core)
    requires ValidConfig(cfg) && k.block <= cfg.blockCount
    ensures Sendable(cfg, NextBlock(cfg.blockCount, k.block), NextKind(cfg.blockCount, k.block))
  {
  }

  lemma SendRoundInv(cfg: Config, k: Core)
    requires ValidConfig(cfg) && CoreInv(cfg, k) && !k.done && k.back == []
    ensures var k' := Round(cfg, k);
            CoreInv(cfg, k') && k.client.received.blocks <= k'.client.received.blocks
  {
    NextSendable(cfg, k);
    ReceiveInv(cfg, k.client, NextBlock(cfg.blockCount, k.block), NextKind(cfg.blockCount, k.block), false);
  }

  lemma BackStays(cfg: Config, c: Client, c': Client, back: seq<Request>)
    requires c.received.blocks <= c'.received.blocks
    requires forall r :: r in back ==> BackOk(cfg, c, r)
    ensures forall r :: r in back ==> BackOk(cfg, c', r)
  {
  }

  /** The head of the queue is taken off; a retransmission arrives. */
  lemma HandleRoundInv(cfg: Config, k: Core)
    requires ValidConfig(cfg) && CoreInv(cfg, k) && !k.done && k.back != []
    ensures var k' := Round(cfg, k);
            && CoreInv(cfg, k') && !k'.done
            && k.client.received.blocks <= k'.client.received.blocks
            && k'.back == k.back[1..]
            && (k.back[0].Retransmit? ==> k.back[0].block in k'.client.received.blocks)
  {
    var r := k.back[0];
    var k' := Round(cfg, k);
    assert BackOk(cfg, k.client, r);
    assert forall q :: q in k.back[1..] ==> q in k.back;
    if r.Retransmit? {
      ReceiveInv(cfg, k.client, r.block, Retransmission, false);
    }
    BackStays(cfg, k.client, k'.client, k.back[1..]);
  }

  /** Rounds keep the invariant and never lose a received block. */
  lemma RoundInv(cfg: Config, k: Core)
    requires ValidConfig(cfg) && CoreInv(cfg, k)
    ensures var k' := Round(cfg, k);
            CoreInv(cfg, k') && k.client.received.blocks <= k'.client.received.blocks
  {
    if !k.done {
      if k.back == [] {
        SendRoundInv(cfg, k);
      } else {
        HandleRoundInv(cfg, k);
      }
    }
  }

  /** The blocks a queue asks to be sent again. */
  ghost predicate AllReceived(back: seq<Request>, c: Client) {
    forall r :: r in back && r.Retransmit? ==> r.block in c.received.blocks
  }

  lemma AllReceivedCons(back: seq<Request>, c: Client, c': Client)
    requires back != [] && AllReceived(back[1..], c')
    requires c.received.blocks <= c'.received.blocks
    requires back[0].Retransmit? ==> back[0].block in c.received.blocks
    ensures AllReceived(back, c')
  {
    assert forall q :: q in back ==> q == back[0] || q in back[1..];
  }

  /** The server works off the back-channel; every retransmission it sends arrives. */
  lemma {:induction false} DrainBack(cfg: Config, k: Core) returns (n: nat)
    requires ValidConfig(cfg) && CoreInv(cfg, k) && !k.done
    ensures var k' := Rounds(cfg, k, n);
            && CoreInv(cfg, k') && !k'.done && k'.back == []
            && k.client.received.blocks <= k'.client.received.blocks
            && AllReceived(k.back, k'.client)
    ensures k.back == [] ==> n == 0
    decreases |k.back|
  {
    n := 0;
    if k.back != [] {
      var k1 := Round(cfg, k);
      HandleRoundInv(cfg, k);
      n := DrainBack(cfg, k1);
      AllReceivedCons(k.back, k1.client, Rounds(cfg, k1, n).client);
      n := n + 1;
    }
  }

  /** With the back-channel empty, the server reaches the block before the last. */
  lemma {:induction false} ReachLast(cfg: Config, k: Core) returns (n: nat)
    requires ValidConfig(cfg) && CoreInv(cfg, k) && !k.done && k.back == []
    ensures var k' := Rounds(cfg, k, n);
            && CoreInv(cfg, k') && !k'.done && k'.back == []
            && NextKind(cfg.blockCount, k'.block) == Terminate
            && k.client.received.blocks <= k'.client.received.blocks
    decreases cfg.blockCount - k.block
  {
    n := 0;
    if NextKind(cfg.blockCount, k.block) != Terminate {
      RoundInv(cfg, k);
      n := ReachLast(cfg, Round(cfg, k));
      n := n + 1;
    }
  }

  // ----- the terminate block -----------------------------------------------------------

  /** How a terminate block that does not end the transfer leaves the system. */
  ghost predicate AsksAgain(cfg: Config, k: Core) {
    exists r :: r in k.back && r.Retransmit? && 1 <= r.block <= cfg.blockCount && r.block !in k.client.received.blocks
  }

  ghost predicate Restarts(cfg: Config, k: Core) {
    var x := k.client.gaplessTo + 1;
    && x < cfg.blockCount && x !in k.client.received.blocks
    && k.back == [Restart(x)]
    && k.client.table.entries == [] && k.client.nextBlock == x
  }

  ghost predicate TableCleared(k: Core) {
    k.back == [] && k.client.table.entries == []
  }

  /** The client just before the sweep of a terminate round. */
  function BeforeSweep(cfg: Config, c: Client): Client {
    var c1 := if Got(c.received, cfg.blockCount) then c else MarkReceived(c, cfg.blockCount);
    MoveIndices(QueueMissing(cfg, c1, cfg.blockCount), cfg.blockCount, Terminate)
  }

  lemma BeforeSweepInv(cfg: Config, c: Client)
    requires ValidConfig(cfg) && Inv(cfg, c)
    ensures var c' := BeforeSweep(cfg, c);
            && Inv(cfg, c')
            && c'.received.blocks == c.received.blocks + {cfg.blockCount}
            && (c'.gaplessTo < cfg.blockCount ==> c'.gaplessTo + 1 !in c'.received.blocks)
            && (c'.blocksLeft != 0 ==> c'.gaplessTo + 1 < cfg.blockCount)
  {
    var b := cfg.blockCount;
    var c1 := if Got(c.received, b) then c else MarkReceived(c, b);
    if !Got(c.received, b) {
      MarkReceivedInv(cfg, c, b);
    }
    if b > c1.nextBlock {
      RequestRangeInv(cfg, c1, c1.nextBlock, b);
    }
    MoveIndicesInv(cfg, QueueMissing(cfg, c1, b), b, Terminate);
    var c' := BeforeSweep(cfg, c);
    NoneLeftMeansAll(cfg, c');
    if c'.gaplessTo == b {
      assert c'.received.blocks == AllBlocks(b);
    }
  }

  /** A terminate round, unfolded. */
  lemma TerminateRoundIs(cfg: Config, k: Core)
    requires ValidConfig(cfg) && Inv(cfg, k.client) && !k.done && k.back == []
    requires NextKind(cfg.blockCount, k.block) == Terminate
    ensures var c := BeforeSweep(cfg, k.client);
            Round(cfg, k) ==
            if c.blocksLeft == 0 then Core(c, cfg.blockCount, [], true)
            else Core(Sweep(cfg, c).0, cfg.blockCount, Sweep(cfg, c).1, false)
  {
  }

  /** Every entry is a block that is still missing. */
  ghost predicate OnlyMissing(c: Client) {
    forall y :: y in c.table.entries ==> y != 0 && !Got(c.received, y)
  }

  lemma {:induction false} RangeKeepsOnlyMissing(cfg: Config, c: Client, lo: nat, hi: nat)
    requires OnlyMissing(c) && 1 <= lo
    ensures OnlyMissing(RequestRange(cfg, c, lo, hi))
    ensures RequestRange(cfg, c, lo, hi).received == c.received
    decreases hi - lo
  {
    if lo < hi {
      var c1 := RequestRetransmit(cfg, c, lo);
      if !Got(c.received, lo) {
        forall y | y in c1.table.entries ensures y in c.table.entries || y == lo {
          AddMembers(cfg.limits, c.table, lo, y);
        }
      }
      RangeKeepsOnlyMissing(cfg, c1, lo + 1, hi);
    }
  }

  /** A run that starts at a missing block leaves a non-empty table. */
  lemma RangeFromMissing(cfg: Config, c: Client, lo: nat, hi: nat)
    requires cfg.limits.maxRequests >= 1 && lo < hi && !Got(c.received, lo)
    ensures RequestRange(cfg, c, lo, hi).table.entries != []
  {
    InsertSortedMembers(c.table.entries, lo, lo);
    RangeGrows(cfg, RequestRetransmit(cfg, c, lo), lo + 1, hi);
  }

  /** From an empty table, what a terminate block queues before the sweep is missing. */
  lemma BeforeSweepOnlyMissing(cfg: Config, c: Client)
    requires ValidConfig(cfg) && Inv(cfg, c) && c.table.entries == []
    ensures OnlyMissing(BeforeSweep(cfg, c))
  {
    var b := cfg.blockCount;
    var m := if Got(c.received, b) then c else MarkReceived(c, b);
    if m.nextBlock < b {
      RangeKeepsOnlyMissing(cfg, m, m.nextBlock, b);
    }
    AdvanceGaplessKeeps(QueueMissing(cfg, m, b));
  }

  /** What a sweep asks about: the table behind its run of requests. */
  lemma SweepTable(cfg: Config, c: Client)
    requires ValidConfig(cfg) && Inv(cfg, c)
    requires c.gaplessTo + 1 < cfg.blockCount && !Got(c.received, c.gaplessTo + 1)
    ensures var c0 := c.(overflowed := false);
            var c1 := RequestRange(cfg, c0, c.gaplessTo + 1, cfg.blockCount);
            && SameButTable(c0, c1) && TableInRange(cfg, c1)
            && (OnlyMissing(c) ==> Wanted(c1.table.entries, c1.received) != [])
  {
    var x := c.gaplessTo + 1;
    var c0 := c.(overflowed := false);
    var c1 := RequestRange(cfg, c0, x, cfg.blockCount);
    RequestRangeInv(cfg, c0, x, cfg.blockCount);
    RangeFromMissing(cfg, c0, x, cfg.blockCount);
    if OnlyMissing(c) {
      RangeKeepsOnlyMissing(cfg, c0, x, cfg.blockCount);
      WantedAll(c1.table.entries, c1.received);
    }
  }

  /** The three ways a sweep with blocks missing can end. */
  lemma SweepOutcome(cfg: Config, c: Client)
    requires ValidConfig(cfg) && Inv(cfg, c)
    requires c.gaplessTo + 1 < cfg.blockCount && !Got(c.received, c.gaplessTo + 1)
    ensures var (c', reqs) := Sweep(cfg, c);
            var k' := Core(c', cfg.blockCount, reqs, false);
            && (AsksAgain(cfg, k') || Restarts(cfg, k') || TableCleared(k'))
            && (OnlyMissing(c) ==> AsksAgain(cfg, k') || Restarts(cfg, k'))
  {
    SweepTable(cfg, c);
    RepeatOutcome(cfg, RequestRange(cfg, c.(overflowed := false), c.gaplessTo + 1, cfg.blockCount));
  }

  lemma RepeatOutcome(cfg: Config, c: Client)
    requires ValidConfig(cfg) && c.gaplessTo + 1 < cfg.blockCount && !Got(c.received, c.gaplessTo + 1)
    requires TableInRange(cfg, c) && c.received.count == cfg.blockCount
    ensures var (c', reqs) := RepeatRetransmit(cfg, c);
            var k' := Core(c', cfg.blockCount, reqs, false);
            && (AsksAgain(cfg, k') || Restarts(cfg, k') || TableCleared(k'))
            && (Wanted(c.table.entries, c.received) != [] ==> AsksAgain(cfg, k') || Restarts(cfg, k'))
  {
    var w := Wanted(c.table.entries, c.received);
    if 0 < |w| < cfg.limits.maxRequests {
      assert w[0] in w;
      WantedMembers(c.table.entries, c.received, w[0]);
      assert Requests(w)[0] == Retransmit(w[0]);
      assert Requests(w)[0] in Requests(w);
    }
  }

  lemma {:induction false} AdvanceGaplessKeeps(c: Client)
    ensures AdvanceGapless(c) == c.(gaplessTo := AdvanceGapless(c).gaplessTo)
    decreases c.received.count - c.gaplessTo
  {
    if Got(c.received, c.gaplessTo + 1) && c.gaplessTo < c.received.count {
      AdvanceGaplessKeeps(c.(gaplessTo := c.gaplessTo + 1));
    }
  }

  /**
    A terminate round ends the transfer, or asks for missing blocks, or
    restarts, or empties a table full of stale entries; the last cannot happen
    when the table was empty before.
  */
  lemma TerminateRound(cfg: Config, k: Core)
    requires ValidConfig(cfg) && CoreInv(cfg, k) && !k.done && k.back == []
    requires NextKind(cfg.blockCount, k.block) == Terminate
    ensures var k' := Round(cfg, k);
            && CoreInv(cfg, k') && k'.block == cfg.blockCount
            && k.client.received.blocks <= k'.client.received.blocks
            && (k'.done || AsksAgain(cfg, k') || Restarts(cfg, k') || TableCleared(k'))
            && (k.client.table.entries == [] ==> k'.done || AsksAgain(cfg, k') || Restarts(cfg, k'))
  {
    RoundInv(cfg, k);
    TerminateRoundIs(cfg, k);
    BeforeSweepInv(cfg, k.client);
    var c := BeforeSweep(cfg, k.client);
    if c.blocksLeft != 0 {
      if k.client.table.entries == [] {
        BeforeSweepOnlyMissing(cfg, k.client);
      }
      SweepOutcome(cfg, c);
    }
  }

  // ----- after a restart -----------------------------------------------------------------

  /** A request adds at most one copy of its block, and at least one to an empty table. */
  lemma OneMoreEntry(cfg: Config, c: Client, x: nat)
    requires cfg.limits.maxRequests >= 1
    requires forall y :: y in c.table.entries ==> y == x
    ensures var e := RequestRetransmit(cfg, c, x).table.entries;
            && |c.table.entries| <= |e| <= |c.table.entries| + 1
            && (forall y :: y in e ==> y == x)
            && (!Got(c.received, x) ==> e != [])
            && (cfg.limits.sorting && |c.table.entries| <= 1 ==> |e| <= 1)
  {
    InsertSortedLength(c.table.entries, x);
    if c.table.entries != [] {
      assert c.table.entries[0] in c.table.entries;
    }
    var e := RequestRetransmit(cfg, c, x).table.entries;
    forall y | y in e ensures y == x {
      AddMembers(cfg.limits, c.table, x, y);
    }
    InsertSortedMembers(c.table.entries, x, x);
  }

  /**
    The lap after a restart at x: the server starts behind x, so among the
    blocks up to `upto` x alone stays missing, and the fresh table holds at most
    one copy of it.
  */
  ghost predicate Repairing(c: Client, upto: nat, x: nat) {
    && 1 <= x <= upto
    && x !in c.received.blocks
    && (forall y :: 1 <= y <= upto && y != x ==> y in c.received.blocks)
    && (forall y :: y in c.table.entries ==> y == x)
    && |c.table.entries| <= 1
    && c.nextBlock >= x && (c.table.entries != [] ==> c.nextBlock > x)
  }

  /** Queueing the gap in front of block b requests x at most once more, and only if it was not queued. */
  lemma RepairingQueue(cfg: Config, c: Client, b: nat, x: nat)
    requires cfg.limits.maxRequests >= 1
    requires x < b && Repairing(c, b - 1, x)
    ensures var q := QueueMissing(cfg, c, b);
            && SameButTable(c, q)
            && (forall y :: y in q.table.entries ==> y == x)
            && |q.table.entries| <= 1
  {
    if b > c.nextBlock {
      RangeOfOne(cfg, c, c.nextBlock, b, x);
      OneMoreEntry(cfg, c, x);
    }
  }

  /** The next original keeps the lap's picture, whichever branch it takes. */
  lemma RepairingReceive(cfg: Config, c: Client, b: nat, x: nat)
    requires cfg.limits.maxRequests >= 1 && c.received.count == cfg.blockCount
    requires x < b <= cfg.blockCount && Repairing(c, b - 1, x)
    ensures Repairing(Receive(cfg, c, b, Original, false).client, b, x)
  {
    var c1 := if Got(c.received, b) then c else MarkReceived(c, b);
    RepairingQueue(cfg, c1, b, x);
    AdvanceGaplessKeeps(QueueMissing(cfg, c1, b));
  }

  lemma RepairRound(cfg: Config, k: Core, x: nat)
    requires ValidConfig(cfg) && CoreInv(cfg, k) && !k.done && k.back == []
    requires k.block + 1 < cfg.blockCount && Repairing(k.client, k.block, x)
    ensures var k' := Round(cfg, k);
            && CoreInv(cfg, k') && !k'.done && k'.back == []
            && k'.block == k.block + 1 && Repairing(k'.client, k'.block, x)
  {
    SendRoundInv(cfg, k);
    RepairingReceive(cfg, k.client, k.block + 1, x);
  }

  /** After a restart at x, the originals behind it repair everything else. */
  lemma {:induction false} RepairLap(cfg: Config, k: Core, x: nat) returns (n: nat)
    requires ValidConfig(cfg) && CoreInv(cfg, k) && !k.done && k.back == []
    requires k.block < cfg.blockCount && Repairing(k.client, k.block, x)
    ensures var k' := Rounds(cfg, k, n);
            && CoreInv(cfg, k') && !k'.done && k'.back == []
            && k'.block + 1 == cfg.blockCount && Repairing(k'.client, k'.block, x)
    decreases cfg.blockCount - k.block
  {
    n := 0;
    if k.block + 1 < cfg.blockCount {
      RepairRound(cfg, k, x);
      n := RepairLap(cfg, Round(cfg, k), x);
      n := n + 1;
    }
  }

  /** At the end of the lap the sweep asks for x, at most twice, which still fits one buffer. */
  lemma RepairSweep(cfg: Config, c: Client, x: nat)
    requires EnoughRequests(cfg) && Inv(cfg, c)
    requires x < cfg.blockCount && Repairing(c, cfg.blockCount - 1, x)
    ensures var c0 := BeforeSweep(cfg, c);
            && c0.blocksLeft != 0
            && AllBlocks(cfg.blockCount) - {x} <= c0.received.blocks
            && Retransmit(x) in Sweep(cfg, c0).1
            && forall r :: r in Sweep(cfg, c0).1 ==> r == Retransmit(x)
  {
    var b := cfg.blockCount;
    var m := if Got(c.received, b) then c else MarkReceived(c, b);
    RepairingQueue(cfg, m, b, x);
    AdvanceGaplessKeeps(QueueMissing(cfg, m, b));
    BeforeSweepInv(cfg, c);
    var c0 := BeforeSweep(cfg, c);
    NoneLeftMeansAll(cfg, c0);
    LoneSweep(cfg, c0, x);
  }

  lemma LoneSweep(cfg: Config, c: Client, x: nat)
    requires EnoughRequests(cfg) && c.received.count == cfg.blockCount
    requires c.gaplessTo + 1 == x < cfg.blockCount && x !in c.received.blocks
    requires forall y :: 1 <= y <= cfg.blockCount && y != x ==> y in c.received.blocks
    requires (forall y :: y in c.table.entries ==> y == x) && |c.table.entries| <= 1
    ensures Retransmit(x) in Sweep(cfg, c).1
    ensures forall r :: r in Sweep(cfg, c).1 ==> r == Retransmit(x)
  {
    var c0 := c.(overflowed := false);
    RangeOfOne(cfg, c0, x, cfg.blockCount, x);
    OneMoreEntry(cfg, c0, x);
    var c1 := RequestRetransmit(cfg, c0, x);
    WantedAll(c1.table.entries, c1.received);
    var w := c1.table.entries;
    assert w[0] in w;
    assert Requests(w)[0] == Retransmit(x);
    forall r | r in Requests(w) ensures r == Retransmit(x) {
      var i :| 0 <= i < |w| && Requests(w)[i] == r;
      assert w[i] in w;
    }
  }

  // ----- the theorem -------------------------------------------------------------------------

  /** With every block received, the next terminate block ends the transfer. */
  lemma FinishComplete(cfg: Config, k: Core) returns (n: nat)
    requires ValidConfig(cfg) && CoreInv(cfg, k) && !k.done && k.back == []
    requires k.client.received.blocks == AllBlocks(cfg.blockCount)
    ensures Rounds(cfg, k, n).done
  {
    n := ReachLast(cfg, k);
    var k1 := Rounds(cfg, k, n);
    assert k1.client.received.blocks == AllBlocks(cfg.blockCount);
    TerminateRoundIs(cfg, k1);
    BeforeSweepInv(cfg, k1.client);
    NoneLeftMeansAll(cfg, BeforeSweep(cfg, k1.client));
    assert Rounds(cfg, k1, 1) == Round(cfg, k1);
    RoundsAdd(cfg, k, n, 1);
    n := n + 1;
  }

  lemma LastArrived(cfg: Config, c: Client, back: seq<Request>, c': Client, x: nat)
    requires CountsAgree(cfg, c') && c.received.blocks <= c'.received.blocks
    requires AllBlocks(cfg.blockCount) - {x} <= c.received.blocks
    requires Retransmit(x) in back && AllReceived(back, c')
    ensures c'.received.blocks == AllBlocks(cfg.blockCount)
  {
  }

  /** One block is missing and has been asked for: it arrives. */
  lemma FinishLast(cfg: Config, k: Core, x: nat) returns (n: nat)
    requires ValidConfig(cfg) && CoreInv(cfg, k) && !k.done
    requires AllBlocks(cfg.blockCount) - {x} <= k.client.received.blocks
    requires Retransmit(x) in k.back
    ensures Rounds(cfg, k, n).done
  {
    var m := DrainBack(cfg, k);
    var k1 := Rounds(cfg, k, m);
    LastArrived(cfg, k.client, k.back, k1.client, x);
    n := FinishComplete(cfg, k1);
    n := DoneAfter(cfg, k, m, n);
  }

  lemma DoneAfter(cfg: Config, k: Core, m: nat, n: nat) returns (total: nat)
    requires Rounds(cfg, Rounds(cfg, k, m), n).done
    ensures Rounds(cfg, k, total).done
  {
    RoundsAdd(cfg, k, m, n);
    total := m + n;
  }

  /** The server takes up a restart request. */
  lemma TakeRestart(cfg: Config, k: Core)
    requires ValidConfig(cfg) && CoreInv(cfg, k) && !k.done && Restarts(cfg, k)
    ensures var x := k.client.gaplessTo + 1;
            var k' := Round(cfg, k);
            CoreInv(cfg, k') && !k'.done && k'.back == [] && k'.block == x && Repairing(k'.client, x, x)
  {
    RoundInv(cfg, k);
  }

  /** The terminate block that ends the repair lap asks for x alone. */
  lemma EndRepairLap(cfg: Config, k: Core, x: nat)
    requires EnoughRequests(cfg) && CoreInv(cfg, k) && !k.done && k.back == []
    requires k.block + 1 == cfg.blockCount && Repairing(k.client, k.block, x)
    ensures var k' := Round(cfg, k);
            && CoreInv(cfg, k') && !k'.done && k'.block == cfg.blockCount
            && AllBlocks(cfg.blockCount) - {x} <= k'.client.received.blocks
            && Retransmit(x) in k'.back
  {
    RoundInv(cfg, k);
    TerminateRoundIs(cfg, k);
    RepairSweep(cfg, k.client, x);
    BeforeSweepInv(cfg, k.client);
    SweepInv(cfg, BeforeSweep(cfg, k.client));
  }

  lemma FinishRepair(cfg: Config, k: Core, x: nat) returns (n: nat)
    requires EnoughRequests(cfg) && CoreInv(cfg, k) && !k.done && k.back == []
    requires k.block + 1 == cfg.blockCount && Repairing(k.client, k.block, x)
    ensures Rounds(cfg, k, n).done
  {
    EndRepairLap(cfg, k, x);
    n := FinishLast(cfg, Round(cfg, k), x);
    n := n + 1;
  }

  lemma RepairAfterRestart(cfg: Config, k: Core) returns (n: nat)
    requires ValidConfig(cfg) && CoreInv(cfg, k) && !k.done && Restarts(cfg, k)
    ensures var k' := Rounds(cfg, k, n);
            && CoreInv(cfg, k') && !k'.done && k'.back == []
            && k'.block + 1 == cfg.blockCount && Repairing(k'.client, k'.block, k.client.gaplessTo + 1)
  {
    TakeRestart(cfg, k);
    n := RepairLap(cfg, Round(cfg, k), k.client.gaplessTo + 1);
    n := n + 1;
  }

  /** A restart leads to the end. */
  lemma FinishRestart(cfg: Config, k: Core) returns (n: nat)
    requires EnoughRequests(cfg) && CoreInv(cfg, k) && !k.done && Restarts(cfg, k)
    ensures Rounds(cfg, k, n).done
  {
    var m := RepairAfterRestart(cfg, k);
    n := FinishRepair(cfg, Rounds(cfg, k, m), k.client.gaplessTo + 1);
    n := DoneAfter(cfg, k, m, n);
  }

  lemma MissingShrinks(cfg: Config, c: Client, c': Client)
    requires CountsAgree(cfg, c) && CountsAgree(cfg, c')
    requires c.received.blocks <= c'.received.blocks
    ensures c'.blocksLeft <= c.blocksLeft
    ensures c.received.blocks != c'.received.blocks ==> c'.blocksLeft < c.blocksLeft
  {
    SubsetSize(c.received.blocks, c'.received.blocks);
  }

  /** The states a lap, from one terminate block to the next, can end in. */
  ghost predicate LapEnd(cfg: Config, k: Core) {
    CoreInv(cfg, k) && (k.done || AsksAgain(cfg, k) || Restarts(cfg, k))
  }

  /** The server sends up to the last block and the client handles the terminate block. */
  lemma LastLeg(cfg: Config, k: Core) returns (n: nat)
    requires ValidConfig(cfg) && CoreInv(cfg, k) && !k.done && k.back == []
    ensures var k' := Rounds(cfg, k, n);
            && (LapEnd(cfg, k') || (CoreInv(cfg, k') && !k'.done && k'.block == cfg.blockCount && TableCleared(k')))
            && k'.client.blocksLeft <= k.client.blocksLeft
  {
    var m := ReachLast(cfg, k);
    var k1 := Rounds(cfg, k, m);
    TerminateRound(cfg, k1);
    MissingShrinks(cfg, k.client, Round(cfg, k1).client);
    assert Rounds(cfg, k1, 1) == Round(cfg, k1);
    RoundsAdd(cfg, k, m, 1);
    n := m + 1;
  }

  /** One lap: work off the queue first. */
  lemma Lap(cfg: Config, k: Core) returns (n: nat)
    requires ValidConfig(cfg) && CoreInv(cfg, k) && !k.done
    ensures var k' := Rounds(cfg, k, n);
            && (LapEnd(cfg, k') || (CoreInv(cfg, k') && !k'.done && k'.block == cfg.blockCount && TableCleared(k')))
            && k'.client.blocksLeft <= k.client.blocksLeft
  {
    var m := DrainBack(cfg, k);
    var k1 := Rounds(cfg, k, m);
    MissingShrinks(cfg, k.client, k1.client);
    n := LastLeg(cfg, k1);
    RoundsAdd(cfg, k, m, n);
    n := m + n;
  }

  /** At most one more terminate block is needed after a stale table was cleared. */
  lemma LapToEnd(cfg: Config, k: Core) returns (n: nat)
    requires ValidConfig(cfg) && CoreInv(cfg, k) && !k.done
    ensures LapEnd(cfg, Rounds(cfg, k, n))
    ensures Rounds(cfg, k, n).client.blocksLeft <= k.client.blocksLeft
  {
    n := Lap(cfg, k);
    var k1 := Rounds(cfg, k, n);
    if !LapEnd(cfg, k1) {
      TerminateRound(cfg, k1);
      MissingShrinks(cfg, k1.client, Round(cfg, k1).client);
      assert Rounds(cfg, k1, 1) == Round(cfg, k1);
      RoundsAdd(cfg, k, n, 1);
      n := n + 1;
    }
  }

  /**
    From any state of the invariant, some number of rounds ends the transfer.
    Each lap either asks for at least one missing block, and the next drain
    brings it, or restarts, after which two more laps suffice.
  */
  lemma {:induction false} Finishes(cfg: Config, k: Core) returns (n: nat)
    requires EnoughRequests(cfg) && CoreInv(cfg, k)
    ensures Rounds(cfg, k, n).done
    decreases k.client.blocksLeft, 1
  {
    if k.done {
      n := 0;
    } else {
      var m := LapToEnd(cfg, k);
      n := FinishesFromLapEnd(cfg, Rounds(cfg, k, m));
      n := DoneAfter(cfg, k, m, n);
    }
  }

  lemma {:induction false} FinishesFromLapEnd(cfg: Config, k: Core) returns (n: nat)
    requires EnoughRequests(cfg) && LapEnd(cfg, k)
    ensures Rounds(cfg, k, n).done
    decreases k.client.blocksLeft, 0
  {
    if k.done {
      n := 0;
    } else if Restarts(cfg, k) {
      n := FinishRestart(cfg, k);
    } else {
      var m := DrainBack(cfg, k);
      var k1 := Rounds(cfg, k, m);
      MissingShrinks(cfg, k.client, k1.client);
      n := Finishes(cfg, k1);
      n := DoneAfter(cfg, k, m, n);
    }
  }

  // ----- and the bound is sharp -----------------------------------------------------------

  /** The block before the last was lost, everything in front of it received, and the table is empty. */
  ghost predicate StuckClient(cfg: Config, c: Client) {
    var x := cfg.blockCount - 1;
    && x >= 1
    && CountsAgree(cfg, c)
    && x !in c.received.blocks && (forall y :: 1 <= y < x ==> y in c.received.blocks)
    && c.gaplessTo == x - 1 && c.nextBlock == x
    && c.table.entries == [] && 1 <= c.table.size
  }

  /** What can still arrive: the terminate block, and the block in front of the lost one. */
  ghost predicate StuckArrival(cfg: Config, b: nat, kind: BlockType) {
    (b == cfg.blockCount && kind == Terminate) || (b + 2 == cfg.blockCount && b >= 1 && kind == Original)
  }

  lemma StuckRepeat(cfg: Config, c: Client)
    requires ValidConfig(cfg) && StuckClient(cfg, c)
    ensures RepeatRetransmit(cfg, c) == (c, [])
  {
    assert Requests([]) == [];
  }

  /** A sweep over a table that holds the lost block alone fills too small a buffer: the client restarts. */
  lemma StuckSweep(cfg: Config, c: Client)
    requires ValidConfig(cfg) && !EnoughRequests(cfg)
    requires StuckClient(cfg, c.(table := c.table.(entries := []))) && cfg.blockCount in c.received.blocks
    requires c.table.entries == [c.nextBlock]
    ensures var (c', reqs) := Sweep(cfg, c);
            reqs == [Restart(cfg.blockCount - 1)] && StuckClient(cfg, c')
  {
    var x := c.nextBlock;
    var c0 := c.(overflowed := false);
    RangeOfOne(cfg, c0, x, cfg.blockCount, x);
    var c1 := RequestRetransmit(cfg, c0, x);
    OneMoreEntry(cfg, c0, x);
    assert cfg.limits.sorting ==> InsertSorted([x], x) == [x];
    assert !cfg.limits.sorting ==> |c1.table.entries| == 2;
    forall y | y in c1.table.entries ensures y != 0 && !Got(c1.received, y) {
    }
    WantedAll(c1.table.entries, c1.received);
  }

  lemma StuckMark(cfg: Config, c: Client)
    requires ValidConfig(cfg) && StuckClient(cfg, c)
    ensures var m := if Got(c.received, cfg.blockCount) then c else MarkReceived(c, cfg.blockCount);
            StuckClient(cfg, m) && cfg.blockCount in m.received.blocks && m.blocksLeft != 0
  {
    var n := cfg.blockCount;
    var m := if Got(c.received, n) then c else MarkReceived(c, n);
    assert n - 1 in AllBlocks(n) && n in AllBlocks(n);
    NoneLeftMeansAll(cfg, c);
    NoneLeftMeansAll(cfg, m);
  }

  lemma StuckTerminate(cfg: Config, c: Client)
    requires ValidConfig(cfg) && !EnoughRequests(cfg) && StuckClient(cfg, c) && cfg.blockCount in c.received.blocks
    requires c.blocksLeft != 0
    ensures var (c', reqs, done) := Act(cfg, c, cfg.blockCount, Terminate);
            !done && reqs == [Restart(cfg.blockCount - 1)] && StuckClient(cfg, c')
  {
    var n := cfg.blockCount;
    RangeOfOne(cfg, c, n - 1, n, n - 1);
    var q := QueueMissing(cfg, c, n);
    assert q.table.entries == [n - 1];
    StuckSweep(cfg, MoveIndices(q, n, Terminate));
  }

  /** Whatever still arrives, the client stays where it is. */
  lemma StuckReceive(cfg: Config, c: Client, b: nat, kind: BlockType, full: bool)
    requires ValidConfig(cfg) && !EnoughRequests(cfg) && StuckClient(cfg, c) && StuckArrival(cfg, b, kind)
    ensures var o := Receive(cfg, c, b, kind, full);
            && !o.done && StuckClient(cfg, o.client)
            && forall r :: r in o.requests ==> r == Restart(cfg.blockCount - 1)
  {
    if kind == Terminate && !full {
      StuckMark(cfg, c);
      StuckTerminate(cfg, if Got(c.received, b) then c else MarkReceived(c, b));
    }
  }
}
