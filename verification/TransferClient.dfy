/**
  The client's transfer control logic as a function from state to state: what
  the body of the receive loop in client/command.c, ttp_request_retransmit and
  ttp_repeat_retransmit in client/protocol.c do in lossless mode.

  ReceiveLoop.dfy proves that the array-based code computes exactly these
  functions; this module proves what they keep.
*/
module TransferClient {
  import opened Wire
  import opened RetransmitTable

  datatype Config = Config(
    blockCount: nat,
    limits: Limits,
    initialTableSize: nat,
    onWireEstimate: nat)

  /**
    `overflowed` and `oops` are history variables that no branch reads:
    `overflowed` is set when a saturated table drops a request and cleared by a
    restart and at the start of a terminate sweep; `oops` is set when the
    "Negative-going blocks_left" branch runs.
  */
  datatype Client = Client(
    received: Received,
    blocksLeft: nat,
    nextBlock: nat,
    gaplessTo: nat,
    table: Table,
    restartPending: bool,
    restartLast: nat,
    restartWireClear: nat,
    overflowed: bool,
    oops: bool)

  const U32: nat := 0x1_0000_0000

  function Initial(cfg: Config): Client {
    Client(Received(cfg.blockCount, {}), cfg.blockCount, 1, 0,
           Table([], cfg.initialTableSize), false, 0, 0, false, false)
  }

  // ----- the steps of the loop body -------------------------------------------

  /** Set the block's bit and count it off. */
  function MarkReceived(c: Client, b: nat): Client {
    var r := c.received.(blocks := c.received.blocks + {b});
    if c.blocksLeft > 0 then c.(received := r, blocksLeft := c.blocksLeft - 1)
    else c.(received := r, oops := true)
  }

  function RequestRetransmit(cfg: Config, c: Client, b: nat): Client {
    if Got(c.received, b) then c
    else c.(table := Add(cfg.limits, c.table, b),
            overflowed := c.overflowed || Saturated(cfg.limits, c.table))
  }

  /** Request every block of lo..hi-1, in order. */
  function RequestRange(cfg: Config, c: Client, lo: nat, hi: nat): Client
    decreases hi - lo
  {
    if lo >= hi then c
    else RequestRange(cfg, RequestRetransmit(cfg, c, lo), lo + 1, hi)
  }

  /** Advance the index of the gapless section. */
  function AdvanceGapless(c: Client): Client
    decreases c.received.count - c.gaplessTo
  {
    if Got(c.received, c.gaplessTo + 1) && c.gaplessTo < c.received.count
    then AdvanceGapless(c.(gaplessTo := c.gaplessTo + 1))
    else c
  }

  function Requests(blocks: seq<nat>): seq<Request> {
    seq(|blocks|, i requires 0 <= i < |blocks| => Retransmit(blocks[i]))
  }

  /**
    Compact the table and ask again for what is left of it, or, when at least
    MAX_RETRANSMISSION_BUFFER blocks are still wanted, restart the transfer.
    The block sum is a 32-bit unsigned one.
  */
  function RepeatRetransmit(cfg: Config, c: Client): (Client, seq<Request>) {
    var w := Wanted(c.table.entries, c.received);
    if |w| >= cfg.limits.maxRequests then
      var block := Min(cfg.blockCount, c.gaplessTo + 1);
      var last := if c.table.entries == [] then 0 else c.table.entries[|c.table.entries| - 1];
      (c.(restartPending := true,
          restartLast := last,
          restartWireClear := Min(cfg.blockCount, (last + cfg.onWireEstimate) % U32),
          table := c.table.(entries := []),
          nextBlock := block,
          overflowed := false),
       [Restart(block)])
    else
      (c.(table := c.table.(entries := w)), Requests(w))
  }

  /** `enqueue`: the datagram went into the ring. `done`: the loop was left. */
  datatype Outcome = Outcome(client: Client, enqueue: bool, requests: seq<Request>, done: bool)

  /** Blocks still down the wire from before a restart are kept but not acted on. */
  predicate SkippedByRestart(c: Client, b: nat, kind: BlockType) {
    c.restartPending && kind != Terminate && c.restartLast < b <= c.restartWireClear
  }

  function QueueMissing(cfg: Config, c: Client, b: nat): Client {
    if b > c.nextBlock then RequestRange(cfg, c, c.nextBlock, b) else c
  }

  /** After the gap has been queued: move the three indices. */
  function MoveIndices(c: Client, b: nat, kind: BlockType): Client {
    var c1 := AdvanceGapless(c);
    var c2 := if kind == Original then c1.(nextBlock := b + 1) else c1;
    if c2.restartPending && c2.nextBlock >= c2.restartLast then c2.(restartPending := false) else c2
  }

  /** The end of the transmission with blocks missing: sweep, then ask again. */
  function Sweep(cfg: Config, c: Client): (Client, seq<Request>) {
    RepeatRetransmit(cfg, RequestRange(cfg, c.(overflowed := false), c.gaplessTo + 1, cfg.blockCount))
  }

  /** The part of the loop body behind the restart filter. */
  function Act(cfg: Config, c: Client, b: nat, kind: BlockType): (Client, seq<Request>, bool) {
    var c2 := MoveIndices(QueueMissing(cfg, c, b), b, kind);
    if kind != Terminate then (c2, [], false)
    else if c2.blocksLeft == 0 then (c2, [], true)
    else var (c3, reqs) := Sweep(cfg, c2); (c3, reqs, false)
  }

  /** One pass of the receive loop, up to the feedback at its end. */
  function Receive(cfg: Config, c: Client, b: nat, kind: BlockType, ringFull: bool): Outcome {
    if ringFull || (Got(c.received, b) && kind != Terminate && !c.restartPending) then
      Outcome(c, false, [], false)
    else
      var isNew := !Got(c.received, b);
      var c1 := if isNew then MarkReceived(c, b) else c;
      if SkippedByRestart(c1, b, kind) then
        Outcome(c1, isNew, [], false)
      else
        var (c2, reqs, done) := Act(cfg, c1, b, kind);
        Outcome(c2, isNew, reqs, done)
  }

  // ----- the invariant --------------------------------------------------------

  ghost predicate ValidConfig(cfg: Config) {
    && cfg.blockCount >= 1
    && cfg.limits.maxRequests >= 1
    && cfg.initialTableSize >= 1
  }

  /** Blocks are numbered 1..count. */
  ghost function AllBlocks(count: nat): (s: set<nat>)
    ensures forall b :: b in s <==> 1 <= b <= count
    ensures |s| == count
  {
    if count == 0 then {} else AllBlocks(count - 1) + {count}
  }

  /** Bitmap and countdown agree. */
  ghost predicate CountsAgree(cfg: Config, c: Client) {
    && c.received.count == cfg.blockCount
    && c.received.blocks <= AllBlocks(cfg.blockCount)
    && c.blocksLeft == cfg.blockCount - |c.received.blocks|
    && !c.oops
  }

  /** Everything up to the gapless index has been received. */
  ghost predicate PrefixReceived(cfg: Config, c: Client) {
    && c.gaplessTo <= cfg.blockCount
    && forall b :: 1 <= b <= c.gaplessTo ==> b in c.received.blocks
  }

  ghost predicate TableInRange(cfg: Config, c: Client) {
    && ValidTable(cfg.limits, cfg.initialTableSize, c.table)
    && forall b :: b in c.table.entries ==> 1 <= b < cfg.blockCount
  }

  /** A missing block below `bound` is in the table, unless the cap dropped a request. */
  ghost predicate RememberedBelow(c: Client, bound: nat) {
    c.overflowed ||
    forall b :: 1 <= b < bound && b !in c.received.blocks ==> b in c.table.entries
  }

  ghost predicate Inv(cfg: Config, c: Client) {
    && CountsAgree(cfg, c)
    && PrefixReceived(cfg, c)
    && TableInRange(cfg, c)
    && 1 <= c.nextBlock <= cfg.blockCount
    && RememberedBelow(c, c.nextBlock)
  }

  /** What the server can send: originals stop before the last block, which terminates. */
  ghost predicate Sendable(cfg: Config, b: nat, kind: BlockType) {
    && 1 <= b <= cfg.blockCount
    && (kind == Original ==> b < cfg.blockCount)
    && (kind == Terminate ==> b == cfg.blockCount)
  }

  /** Requests the server accepts: a block of the file, never past the first missing one for a restart. */
  ghost predicate GoodRequest(cfg: Config, c: Client, r: Request) {
    match r
    case Retransmit(b) => 1 <= b < cfg.blockCount && b !in c.received.blocks
    case Restart(b) =>
      && 1 <= b <= cfg.blockCount
      && forall m :: 1 <= m <= cfg.blockCount && m !in c.received.blocks ==> b <= m
    case Stop => false
    case ErrorRate(_) => false
  }

  // ----- cardinality of block sets ---------------------------------------------

  lemma {:induction false} SubsetSize(s: set<nat>, t: set<nat>)
    requires s <= t
    ensures |s| <= |t|
    ensures |s| == |t| ==> s == t
    decreases s
  {
    if s != {} {
      var x :| x in s;
      SubsetSize(s - {x}, t - {x});
    }
  }

  /** The countdown is zero exactly when nothing is missing. */
  lemma NoneLeftMeansAll(cfg: Config, c: Client)
    requires CountsAgree(cfg, c)
    ensures c.blocksLeft == 0 <==> c.received.blocks == AllBlocks(cfg.blockCount)
  {
    SubsetSize(c.received.blocks, AllBlocks(cfg.blockCount));
  }

  // ----- each step keeps the invariant -------------------------------------------

  lemma InitialInv(cfg: Config)
    requires ValidConfig(cfg)
    ensures Inv(cfg, Initial(cfg))
    ensures !Initial(cfg).overflowed && !Initial(cfg).restartPending
  {
  }

  /** Marking a block that was missing never runs into the "Negative-going" branch. */
  lemma MarkReceivedInv(cfg: Config, c: Client, b: nat)
    requires Inv(cfg, c) && 1 <= b <= cfg.blockCount && !Got(c.received, b)
    ensures Inv(cfg, MarkReceived(c, b))
    ensures c.blocksLeft > 0
  {
    NoneLeftMeansAll(cfg, c);
    assert b in AllBlocks(cfg.blockCount);
  }

  /** What a run of requests leaves alone. */
  ghost predicate SameButTable(c: Client, c': Client) {
    c' == c.(table := c'.table, overflowed := c'.overflowed)
  }

  lemma RequestRetransmitInv(cfg: Config, c: Client, b: nat)
    requires ValidConfig(cfg)
    requires CountsAgree(cfg, c) && TableInRange(cfg, c)
    requires 1 <= b < cfg.blockCount
    requires RememberedBelow(c, b)
    ensures var c' := RequestRetransmit(cfg, c, b);
            SameButTable(c, c') && TableInRange(cfg, c') && RememberedBelow(c', b + 1)
  {
    var c' := RequestRetransmit(cfg, c, b);
    if !Got(c.received, b) {
      AddKeepsValid(cfg.limits, cfg.initialTableSize, c.table, b);
      forall x ensures x in c'.table.entries <==> x in c.table.entries || (x == b && !Saturated(cfg.limits, c.table)) {
        AddMembers(cfg.limits, c.table, b, x);
      }
    }
  }

  lemma {:induction false} RequestRangeInv(cfg: Config, c: Client, lo: nat, hi: nat)
    requires ValidConfig(cfg)
    requires CountsAgree(cfg, c) && TableInRange(cfg, c)
    requires 1 <= lo && hi <= cfg.blockCount
    requires RememberedBelow(c, lo)
    ensures var c' := RequestRange(cfg, c, lo, hi);
            SameButTable(c, c') && TableInRange(cfg, c') &&
            RememberedBelow(c', lo) && RememberedBelow(c', hi)
    decreases hi - lo
  {
    if lo < hi {
      RequestRetransmitInv(cfg, c, lo);
      RequestRangeInv(cfg, RequestRetransmit(cfg, c, lo), lo + 1, hi);
    }
  }

  lemma {:induction false} AdvanceGaplessInv(cfg: Config, c: Client)
    requires c.received.count == cfg.blockCount && PrefixReceived(cfg, c)
    ensures var c' := AdvanceGapless(c);
            && c' == c.(gaplessTo := c'.gaplessTo)
            && PrefixReceived(cfg, c')
            && c.gaplessTo <= c'.gaplessTo
            && (c'.gaplessTo < cfg.blockCount ==> c'.gaplessTo + 1 !in c.received.blocks)
    decreases cfg.blockCount - c.gaplessTo
  {
    if Got(c.received, c.gaplessTo + 1) && c.gaplessTo < cfg.blockCount {
      AdvanceGaplessInv(cfg, c.(gaplessTo := c.gaplessTo + 1));
    }
  }

  /** Compaction or restart: the invariant is kept and only good requests go out. */
  lemma RepeatRetransmitInv(cfg: Config, c: Client)
    requires ValidConfig(cfg) && Inv(cfg, c)
    ensures var (c', reqs) := RepeatRetransmit(cfg, c);
            && Inv(cfg, c')
            && c'.received == c.received && c'.blocksLeft == c.blocksLeft
            && c'.gaplessTo == c.gaplessTo
            && forall r :: r in reqs ==> GoodRequest(cfg, c, r)
  {
    var w := Wanted(c.table.entries, c.received);
    forall x ensures x in w <==> x in c.table.entries && x != 0 && !Got(c.received, x) {
      WantedMembers(c.table.entries, c.received, x);
    }
    WantedLength(c.table.entries, c.received);
    forall r | r in Requests(w) ensures r.Retransmit? && r.block in w {
    }
    if cfg.limits.sorting {
      WantedKeepsOrder(c.table.entries, c.received);
    }
  }

  lemma MoveIndicesInv(cfg: Config, c: Client, b: nat, kind: BlockType)
    requires ValidConfig(cfg) && Inv(cfg, c) && Sendable(cfg, b, kind)
    requires b in c.received.blocks
    requires RememberedBelow(c, b)
    ensures var c' := MoveIndices(c, b, kind);
            && Inv(cfg, c')
            && c'.received == c.received && c'.blocksLeft == c.blocksLeft && c'.table == c.table
            && (c'.gaplessTo < cfg.blockCount ==> c'.gaplessTo + 1 !in c.received.blocks)
  {
    AdvanceGaplessInv(cfg, c);
  }

  /** The terminate sweep remembers every missing block, or says that it could not. */
  lemma SweepInv(cfg: Config, c: Client)
    requires ValidConfig(cfg) && Inv(cfg, c)
    requires cfg.blockCount in c.received.blocks
    ensures var (c', reqs) := Sweep(cfg, c);
            && Inv(cfg, c')
            && c'.received == c.received && c'.blocksLeft == c.blocksLeft
            && c'.gaplessTo == c.gaplessTo
            && forall r :: r in reqs ==> GoodRequest(cfg, c, r)
  {
    var c0 := c.(overflowed := false);
    RequestRangeInv(cfg, c0, c.gaplessTo + 1, cfg.blockCount);
    var c1 := RequestRange(cfg, c0, c.gaplessTo + 1, cfg.blockCount);
    RepeatRetransmitInv(cfg, c1);
  }

  lemma ActInv(cfg: Config, c: Client, b: nat, kind: BlockType)
    requires ValidConfig(cfg) && Inv(cfg, c) && Sendable(cfg, b, kind)
    requires b in c.received.blocks
    ensures var (c', reqs, done) := Act(cfg, c, b, kind);
            && Inv(cfg, c')
            && c'.received == c.received
            && (forall r :: r in reqs ==> GoodRequest(cfg, c', r))
            && (done ==> c'.received.blocks == AllBlocks(cfg.blockCount))
  {
    if b > c.nextBlock {
      RequestRangeInv(cfg, c, c.nextBlock, b);
    }
    var c1 := QueueMissing(cfg, c, b);
    MoveIndicesInv(cfg, c1, b, kind);
    var c2 := MoveIndices(c1, b, kind);
    NoneLeftMeansAll(cfg, c2);
    if kind == Terminate && c2.blocksLeft != 0 {
      SweepInv(cfg, c2);
    }
  }

  /**
    One pass of the receive loop keeps the invariant; the block is queued
    exactly when it was missing and the ring had room; and the loop is left
    only when every block has been received.
  */
  lemma ReceiveInv(cfg: Config, c: Client, b: nat, kind: BlockType, ringFull: bool)
    requires ValidConfig(cfg) && Inv(cfg, c) && Sendable(cfg, b, kind)
    ensures var o := Receive(cfg, c, b, kind, ringFull);
            && Inv(cfg, o.client)
            && (o.enqueue <==> !ringFull && b !in c.received.blocks)
            && o.client.received.blocks == c.received.blocks + (if o.enqueue then {b} else {})
            && (forall r :: r in o.requests ==> GoodRequest(cfg, o.client, r))
            && (o.done ==> o.client.received.blocks == AllBlocks(cfg.blockCount))
  {
    if !(ringFull || (Got(c.received, b) && kind != Terminate && !c.restartPending)) {
      var isNew := !Got(c.received, b);
      var c1 := if isNew then MarkReceived(c, b) else c;
      if isNew {
        MarkReceivedInv(cfg, c, b);
      }
      if !SkippedByRestart(c1, b, kind) {
        ActInv(cfg, c1, b, kind);
      }
    }
  }

  // ----- the edges the protocol leaves open ----------------------------------------

  /** An empty file: the first datagram already runs into the "Negative-going" branch. */
  lemma EmptyFileGoesNegative(cfg: Config, ringFull: bool)
    requires cfg.blockCount == 0
    ensures Receive(cfg, Initial(cfg), 0, Terminate, ringFull).client.oops <==> !ringFull
  {
  }

  /**
    A first receive that fails leaves the zeroed buffer to be processed: block 0,
    which the disk thread takes for the stop block, is queued and counted off
    although nothing has arrived. (Type 0 is neither original nor terminate.)
  */
  lemma FailedFirstReceive(cfg: Config)
    requires ValidConfig(cfg)
    ensures var o := Receive(cfg, Initial(cfg), 0, Retransmission, false);
            && o.enqueue
            && o.client.blocksLeft == cfg.blockCount - 1
            && AllBlocks(cfg.blockCount) !! o.client.received.blocks
  {
    AdvanceGaplessInv(cfg, MarkReceived(Initial(cfg), 0));
  }
}
