/**
  The client's receive loop as it runs: a bitmap of bytes, a growable array of
  requests compacted in place, and the counters. Every method is proved to
  compute the function of the same name in TransferClient or RetransmitTable.
*/
module ReceiveLoop {
  import opened Wire
  import opened RetransmitTable
  import opened TransferClient

  // ----- the received bitfield --------------------------------------------------

  function Mask(i: nat): bv8
    requires i < 8
  {
    (1 as bv8) << i
  }

  predicate Bit(bytes: seq<bv8>, b: nat)
    requires b / 8 < |bytes|
  {
    bytes[b / 8] & Mask(b % 8) != 0
  }

  lemma MaskValue(i: nat)
    requires i < 8
    ensures Mask(i) == [1, 2, 4, 8, 16, 32, 64, 128][i]
  {
  }

  lemma SetBit(x: bv8, i: nat, j: nat)
    requires i < 8 && j < 8
    ensures (x | Mask(i)) & Mask(j) != 0 <==> i == j || x & Mask(j) != 0
  {
    MaskValue(i);
    MaskValue(j);
  }

  /** Or-ing one bit into its byte changes the answer for that block alone. */
  lemma MarkOne(bytes: seq<bv8>, b: nat, x: nat)
    requires b / 8 < |bytes| && x / 8 < |bytes|
    ensures Bit(bytes[b / 8 := bytes[b / 8] | Mask(b % 8)], x) <==> x == b || Bit(bytes, x)
  {
    if x / 8 == b / 8 {
      SetBit(bytes[b / 8], b % 8, x % 8);
    }
  }

  /** Where the gapless section that reaches to `from` ends. */
  function GaplessEnd(received: Received, from: nat): nat
    decreases received.count - from
  {
    if Got(received, from + 1) && from < received.count then GaplessEnd(received, from + 1) else from
  }

  lemma {:induction false} GaplessEndIs(c: Client)
    ensures AdvanceGapless(c) == c.(gaplessTo := GaplessEnd(c.received, c.gaplessTo))
    decreases c.received.count - c.gaplessTo
  {
    if Got(c.received, c.gaplessTo + 1) && c.gaplessTo < c.received.count {
      GaplessEndIs(c.(gaplessTo := c.gaplessTo + 1));
    }
  }

  class Bitmap {
    const count: nat
    const bits: array<bv8>
    ghost var marked: set<nat>

    ghost predicate Valid()
      reads this, bits
    {
      && bits.Length == count / 8 + 2
      && (forall b :: b in marked ==> b <= count)
      && forall b: nat :: b <= count ==> (Bit(bits[..], b) <==> b in marked)
    }

    ghost function View(): Received
      reads this
    {
      Received(count, marked)
    }

    constructor (count: nat)
      ensures Valid() && fresh(bits) && View() == Received(count, {})
    {
      this.count := count;
      bits := new bv8[count / 8 + 2](_ => 0);
      marked := {};
      new;
      forall b: nat | b <= count ensures !Bit(bits[..], b) {
        assert bits[b / 8] == 0 && (0 as bv8) & Mask(b % 8) == 0;
      }
    }

    /** got_block */
    method GotBlock(b: nat) returns (got: bool)
      requires Valid()
      ensures got == Got(View(), b)
    {
      if b > count {
        return true;
      }
      got := bits[b / 8] & Mask(b % 8) != 0;
      assert got == Bit(bits[..], b);
    }

    method Mark(b: nat)
      requires Valid() && b <= count
      modifies this, bits
      ensures Valid() && marked == old(marked) + {b}
    {
      ghost var before := bits[..];
      bits[b / 8] := bits[b / 8] | Mask(b % 8);
      marked := marked + {b};
      assert bits[..] == before[b / 8 := before[b / 8] | Mask(b % 8)];
      forall x: nat | x <= count ensures Bit(bits[..], x) <==> x in marked {
        MarkOne(before, b, x);
      }
    }

    /** The loop that advances the gapless index. */
    method EndOfGapless(from: nat) returns (to: nat)
      requires Valid()
      ensures to == GaplessEnd(View(), from)
    {
      to := from;
      var got := GotBlock(to + 1);
      while got && to < count
        invariant got == Got(View(), to + 1)
        invariant GaplessEnd(View(), to) == GaplessEnd(View(), from)
        decreases count - to
      {
        to := to + 1;
        got := GotBlock(to + 1);
      }
    }

    /** The final loss count. */
    method CountLost() returns (lost: nat)
      requires Valid()
      ensures lost == |AllBlocks(count) - marked|
    {
      lost := 0;
      ghost var missing: set<nat> := {};
      var block: nat := 1;
      while block <= count
        invariant 1 <= block <= count + 1 && lost == |missing|
        invariant forall x :: x in missing <==> 1 <= x < block && x !in marked
      {
        var got := GotBlock(block);
        if !got {
          lost := lost + 1;
          missing := missing + {block};
        }
        block := block + 1;
      }
      assert missing == AllBlocks(count) - marked;
    }
  }

  // ----- the retransmission table -------------------------------------------------

  lemma ScanStep(s: seq<nat>, entry: nat, received: Received)
    requires entry < |s|
    ensures Wanted(s[..entry + 1], received) ==
            Wanted(s[..entry], received) +
            (if s[entry] != 0 && !Got(received, s[entry]) then [s[entry]] else [])
  {
    WantedConcat(s[..entry], [s[entry]], received);
    assert s[..entry + 1] == s[..entry] + [s[entry]];
  }

  lemma RequestsSnoc(w: seq<nat>, b: nat)
    ensures Requests(w + [b]) == Requests(w) + [Retransmit(b)]
  {
  }

  /** A scan that stopped at `entry` has seen a prefix of the wanted entries. */
  lemma ScanResult(s: seq<nat>, entry: nat, received: Received)
    requires entry <= |s|
    ensures |Wanted(s[..entry], received)| <= |Wanted(s, received)|
    ensures entry == |s| ==> Wanted(s[..entry], received) == Wanted(s, received)
  {
    WantedConcat(s[..entry], s[entry..], received);
    assert s[..entry] + s[entry..] == s;
  }

  class RequestTable {
    const limits: Limits
    var slots: array<nat>
    var indexMax: nat

    ghost predicate Valid()
      reads this
    {
      limits.maxRequests >= 1 && indexMax <= slots.Length && 1 <= slots.Length
    }

    ghost function View(): Table
      requires Valid()
      reads this, slots
    {
      Table(slots[..indexMax], slots.Length)
    }

    constructor (limits: Limits, initialSize: nat)
      requires limits.maxRequests >= 1 && initialSize >= 1
      ensures Valid() && fresh(slots) && this.limits == limits && View() == Table([], initialSize)
    {
      this.limits := limits;
      slots := new nat[initialSize](_ => 0);
      indexMax := 0;
    }

    /** Double the allocation, keeping the slots in use. */
    method Grow()
      requires Valid()
      modifies `slots
      ensures Valid() && fresh(slots) && slots.Length == 2 * old(slots.Length)
      ensures slots[..indexMax] == old(slots[..indexMax])
    {
      var bigger := new nat[2 * slots.Length](_ => 0);
      for i := 0 to slots.Length
        invariant slots == old(slots)
        invariant bigger[..i] == slots[..i]
      {
        bigger[i] := slots[i];
      }
      assert bigger[..indexMax] == bigger[..slots.Length][..indexMax];
      slots := bigger;
    }

    /** Shift the slots from `at` up by one and put `b` there. */
    method ShiftIn(b: nat, at: nat)
      requires Valid() && at < indexMax < slots.Length
      modifies slots, `indexMax
      ensures Valid() && indexMax == old(indexMax) + 1
      ensures slots[..indexMax] == old(slots[..at] + [b] + slots[at..indexMax])
    {
      var idx, ins := at, b;
      while idx <= indexMax
        invariant indexMax == old(indexMax) && at <= idx <= indexMax + 1
        invariant forall k :: 0 <= k < at ==> slots[k] == old(slots[k])
        invariant at < idx ==> slots[at] == b
        invariant forall k :: at < k < idx ==> slots[k] == old(slots[k - 1])
        invariant forall k :: idx <= k < slots.Length ==> slots[k] == old(slots[k])
        invariant ins == if idx == at then b else old(slots[idx - 1])
      {
        var up := slots[idx];
        slots[idx] := ins;
        idx := idx + 1;
        ins := up;
      }
      indexMax := indexMax + 1;
    }

    /** Insertion into the ordered table; also the stand-alone insert of insertsorttest.c. */
    method InsertInOrder(b: nat)
      requires Valid() && indexMax < slots.Length
      modifies slots, `indexMax
      ensures Valid()
      ensures slots[..indexMax] == InsertSorted(old(slots[..indexMax]), b)
    {
      ghost var s := slots[..indexMax];
      var idx: nat := 0;
      while idx < indexMax && slots[idx] < b
        invariant slots[..] == old(slots[..]) && indexMax == old(indexMax) && idx <= indexMax
        invariant forall k :: 0 <= k < idx ==> s[k] < b
      {
        idx := idx + 1;
      }
      InsertSortedAt(s, b, idx);
      if idx == indexMax {
        slots[indexMax] := b;
        indexMax := indexMax + 1;
      } else if slots[idx] != b {
        ShiftIn(b, idx);
      }
    }

    /** The request for a block that is still wanted; `dropped` when the cap refuses it. */
    method Request(b: nat) returns (ghost dropped: bool)
      requires Valid()
      modifies this, slots
      ensures Valid() && (slots == old(slots) || fresh(slots))
      ensures View() == Add(limits, old(View()), b)
      ensures dropped == Saturated(limits, old(View()))
    {
      dropped := false;
      if indexMax >= slots.Length {
        if indexMax >= 32 * limits.maxRequests {
          dropped := true;
          return;
        }
        Grow();
      }
      if !limits.sorting {
        slots[indexMax] := b;
        indexMax := indexMax + 1;
      } else {
        InsertInOrder(b);
      }
    }

    /** Move a wanted entry down to the compacted part; leave any other. */
    method Keep(received: Bitmap, count: nat, entry: nat) returns (kept: bool)
      requires Valid() && received.Valid() && slots as object != received.bits as object
      requires count <= entry < indexMax
      modifies slots
      ensures received.Valid()
      ensures var b := old(slots[entry]);
              && kept == (b != 0 && !Got(received.View(), b))
              && slots[..if kept then count + 1 else count] == old(slots[..count]) + (if kept then [b] else [])
      ensures forall k :: (if kept then count + 1 else count) <= k < indexMax ==> slots[k] == old(slots[k])
    {
      var got := received.GotBlock(slots[entry]);
      kept := slots[entry] != 0 && !got;
      if kept {
        slots[count] := slots[entry];
      }
    }

    /** The compacting loop: `entry` is where it stopped, at the end or because the request buffer was full. */
    method CompactLoop(received: Bitmap) returns (retransmission: seq<Wire.Request>, count: nat, entry: nat)
      requires Valid() && received.Valid() && slots as object != received.bits as object
      modifies slots
      ensures received.Valid() && count <= entry <= indexMax && count <= limits.maxRequests
      ensures entry == indexMax || count == limits.maxRequests
      ensures slots[..count] == Wanted(old(slots[..indexMax])[..entry], received.View())
      ensures retransmission == Requests(slots[..count])
      ensures count == limits.maxRequests ==> slots[indexMax - 1] == old(slots[indexMax - 1])
    {
      ghost var s, r := slots[..indexMax], received.View();
      retransmission, count, entry := [], 0, 0;
      while entry < indexMax && count < limits.maxRequests
        invariant count <= entry <= indexMax && count <= limits.maxRequests
        invariant received.Valid()
        invariant slots[..count] == Wanted(s[..entry], r) && retransmission == Requests(slots[..count])
        invariant forall k :: count <= k < indexMax ==> slots[k] == s[k]
        invariant 0 < count == entry ==> slots[count - 1] == s[count - 1]
      {
        var block := slots[entry];
        ScanStep(s, entry, r);
        RequestsSnoc(slots[..count], block);
        var kept := Keep(received, count, entry);
        if kept {
          retransmission := retransmission + [Retransmit(block)];
          count := count + 1;
        }
        entry := entry + 1;
      }
    }

    /**
      Discard received blocks in place and prepare the requests. Stops early
      when the request buffer is full; the last live slot is then untouched.
    */
    method Compact(received: Bitmap) returns (retransmission: seq<Wire.Request>, count: nat)
      requires Valid() && received.Valid()
      requires slots as object != received.bits as object
      modifies slots
      ensures Valid() && received.Valid()
      ensures count <= limits.maxRequests && count <= indexMax
      ensures var w := Wanted(old(slots[..indexMax]), received.View());
              if |w| >= limits.maxRequests then
                count == limits.maxRequests && slots[indexMax - 1] == old(slots[indexMax - 1])
              else
                count == |w| && slots[..count] == w && retransmission == Requests(w)
    {
      var entry;
      retransmission, count, entry := CompactLoop(received);
      ScanResult(old(slots[..indexMax]), entry, received.View());
    }
  }

  // ----- the session ------------------------------------------------------------

  lemma SweepIs(cfg: Config, c: Client, queued: Client)
    requires queued == RequestRange(cfg, c.(overflowed := false), c.gaplessTo + 1, cfg.blockCount)
    ensures Sweep(cfg, c) == RepeatRetransmit(cfg, queued)
  {
  }

  class Session {
    const cfg: Config
    const received: Bitmap
    const table: RequestTable
    var blocksLeft: nat
    var nextBlock: nat
    var gaplessToBlock: nat
    var restartPending: bool
    var restartLastIdx: nat
    var restartWireClearIdx: nat
    ghost var overflowed: bool
    ghost var oops: bool

    ghost predicate Valid()
      reads this, received, received.bits, table
    {
      && received.Valid() && received.count == cfg.blockCount
      && table.Valid() && table.limits == cfg.limits
      && table.slots as object != received.bits as object
    }

    ghost function View(): Client
      requires Valid()
      reads this, received, received.bits, table, table.slots
    {
      Client(received.View(), blocksLeft, nextBlock, gaplessToBlock, table.View(),
             restartPending, restartLastIdx, restartWireClearIdx, overflowed, oops)
    }

    constructor (cfg: Config)
      requires cfg.limits.maxRequests >= 1 && cfg.initialTableSize >= 1
      ensures this.cfg == cfg && Valid() && View() == Initial(cfg)
      ensures fresh(received) && fresh(received.bits) && fresh(table) && fresh(table.slots)
    {
      this.cfg := cfg;
      received := new Bitmap(cfg.blockCount);
      table := new RequestTable(cfg.limits, cfg.initialTableSize);
      blocksLeft := cfg.blockCount;
      nextBlock := 1;
      gaplessToBlock := 0;
      restartPending := false;
      restartLastIdx := 0;
      restartWireClearIdx := 0;
      overflowed := false;
      oops := false;
    }

    method MarkBlock(b: nat)
      requires Valid() && b <= cfg.blockCount
      modifies received, received.bits, `blocksLeft, `oops
      ensures Valid() && View() == MarkReceived(old(View()), b)
    {
      received.Mark(b);
      if blocksLeft > 0 {
        blocksLeft := blocksLeft - 1;
      } else {
        oops := true;
      }
    }

    /** ttp_request_retransmit */
    method Request(b: nat)
      requires Valid()
      modifies table, table.slots, `overflowed
      ensures Valid() && (table.slots == old(table.slots) || fresh(table.slots))
      ensures View() == RequestRetransmit(cfg, old(View()), b)
    {
      var got := received.GotBlock(b);
      if !got {
        ghost var dropped := table.Request(b);
        overflowed := overflowed || dropped;
      }
    }

    method RequestAll(lo: nat, hi: nat)
      requires Valid()
      modifies table, table.slots, `overflowed
      ensures Valid() && (table.slots == old(table.slots) || fresh(table.slots))
      ensures View() == RequestRange(cfg, old(View()), lo, hi)
    {
      var block: nat := lo;
      while block < hi
        invariant Valid() && (table.slots == old(table.slots) || fresh(table.slots))
        invariant RequestRange(cfg, View(), block, hi) == RequestRange(cfg, old(View()), lo, hi)
      {
        Request(block);
        block := block + 1;
      }
    }

    /** ttp_repeat_retransmit: returns the requests written to the server. */
    method Repeat() returns (requests: seq<Wire.Request>)
      requires Valid()
      modifies table, table.slots, this
      ensures Valid() && table.slots == old(table.slots)
      ensures (View(), requests) == RepeatRetransmit(cfg, old(View()))
    {
      var retransmission, count := table.Compact(received);
      if count >= cfg.limits.maxRequests {
        var block := Min(cfg.blockCount, gaplessToBlock + 1);
        requests := [Restart(block)];
        restartPending := true;
        restartLastIdx := table.slots[table.indexMax - 1];
        restartWireClearIdx := Min(cfg.blockCount, (restartLastIdx + cfg.onWireEstimate) % U32);
        table.indexMax := 0;
        nextBlock := block;
        overflowed := false;
      } else {
        table.indexMax := count;
        requests := retransmission;
      }
    }

    method Advance()
      requires Valid()
      modifies `gaplessToBlock
      ensures Valid() && View() == AdvanceGapless(old(View()))
    {
      GaplessEndIs(View());
      gaplessToBlock := received.EndOfGapless(gaplessToBlock);
    }

    method Move(b: nat, kind: BlockType)
      requires Valid()
      modifies `gaplessToBlock, `nextBlock, `restartPending
      ensures Valid() && View() == MoveIndices(old(View()), b, kind)
    {
      Advance();
      if kind == Original {
        nextBlock := b + 1;
      }
      if restartPending && nextBlock >= restartLastIdx {
        restartPending := false;
      }
    }

    /** The run of requests of a sweep. */
    method QueueTail()
      requires Valid()
      modifies table, table.slots, `overflowed
      ensures Valid() && (table.slots == old(table.slots) || fresh(table.slots))
      ensures View() ==
              RequestRange(cfg, old(View()).(overflowed := false), old(View()).gaplessTo + 1, cfg.blockCount)
    {
      overflowed := false;
      assert View() == old(View()).(overflowed := false);
      RequestAll(gaplessToBlock + 1, cfg.blockCount);
    }

    method SweepMissing() returns (requests: seq<Wire.Request>)
      requires Valid()
      modifies table, table.slots, this
      ensures Valid() && (table.slots == old(table.slots) || fresh(table.slots))
      ensures (View(), requests) == Sweep(cfg, old(View()))
    {
      ghost var c := View();
      QueueTail();
      SweepIs(cfg, c, View());
      requests := Repeat();
    }

    method QueueGap(b: nat)
      requires Valid()
      modifies table, table.slots, `overflowed
      ensures Valid() && (table.slots == old(table.slots) || fresh(table.slots))
      ensures View() == QueueMissing(cfg, old(View()), b)
    {
      if b > nextBlock {
        RequestAll(nextBlock, b);
      }
    }

    /** The loop body behind the restart filter. */
    method Handle(b: nat, kind: BlockType) returns (requests: seq<Wire.Request>, done: bool)
      requires Valid()
      modifies table, table.slots, this
      ensures Valid() && (table.slots == old(table.slots) || fresh(table.slots))
      ensures (View(), requests, done) == Act(cfg, old(View()), b, kind)
    {
      requests, done := [], false;
      QueueGap(b);
      Move(b, kind);
      if kind == Terminate {
        if blocksLeft == 0 {
          return requests, true;
        }
        requests := SweepMissing();
      }
    }

    /** One datagram. The caller puts it into the ring when `enqueue` is set. */
    method ReceiveBlock(b: nat, kind: BlockType, ringFull: bool)
      returns (enqueue: bool, requests: seq<Wire.Request>, done: bool)
      requires Valid()
      modifies received, received.bits, table, table.slots, this
      ensures Valid() && (table.slots == old(table.slots) || fresh(table.slots))
      ensures Outcome(View(), enqueue, requests, done) == Receive(cfg, old(View()), b, kind, ringFull)
    {
      enqueue, requests, done := false, [], false;
      var got := received.GotBlock(b);
      if !ringFull && (!got || kind == Terminate || restartPending) {
        if !got {
          enqueue := true;
          MarkBlock(b);
        }
        if restartPending && kind != Terminate && b > restartLastIdx && b <= restartWireClearIdx {
          return;
        }
        requests, done := Handle(b, kind);
      }
    }
  }
}
