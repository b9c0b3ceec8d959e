/**
  The client's retransmission table: the growable array of block numbers that
  the client still wants, as values.

  A table is its live part (the first `index_max` slots) together with the
  number of slots allocated. Both builds of the source are covered: the plain
  one appends, the one compiled with RETX_REQBLOCK_SORTING inserts in order and
  discards duplicates.
*/
module RetransmitTable {

  /** Compile-time limits: MAX_RETRANSMISSION_BUFFER and RETX_REQBLOCK_SORTING. */
  datatype Limits = Limits(maxRequests: nat, sorting: bool)

  datatype Table = Table(entries: seq<nat>, size: nat)

  ghost predicate StrictlyIncreasing(s: seq<nat>) {
    forall i, j :: 0 <= i < j < |s| ==> s[i] < s[j]
  }

  /** Largest table the doubling rule can ever allocate. */
  function SizeCap(lim: Limits, initialSize: nat): nat {
    if initialSize < 64 * lim.maxRequests then 64 * lim.maxRequests else initialSize
  }

  /** No slot is free and the table may not grow any more: the request is dropped. */
  predicate Saturated(lim: Limits, t: Table) {
    |t.entries| >= t.size && |t.entries| >= 32 * lim.maxRequests
  }

  ghost predicate ValidTable(lim: Limits, initialSize: nat, t: Table) {
    && 1 <= t.size <= SizeCap(lim, initialSize)
    && |t.entries| <= t.size
    && (lim.sorting ==> StrictlyIncreasing(t.entries))
  }

  // ----- adding one request -------------------------------------------------

  function InsertSorted(s: seq<nat>, b: nat): seq<nat> {
    if s == [] then [b]
    else if s[0] < b then [s[0]] + InsertSorted(s[1..], b)
    else if s[0] == b then s
    else [b] + s
  }

  /** The slots after one request for a block that is still wanted. */
  function Add(lim: Limits, t: Table, b: nat): Table {
    if Saturated(lim, t) then t
    else Table(if lim.sorting then InsertSorted(t.entries, b) else t.entries + [b],
               if |t.entries| >= t.size then 2 * t.size else t.size)
  }

  lemma {:induction false} InsertSortedMembers(s: seq<nat>, b: nat, x: nat)
    ensures x in InsertSorted(s, b) <==> x in s || x == b
  {
    if s != [] {
      assert s == [s[0]] + s[1..];
      if s[0] < b {
        InsertSortedMembers(s[1..], b, x);
      }
    }
  }

  lemma ConsKeepsOrder(a: nat, s: seq<nat>)
    requires StrictlyIncreasing(s)
    requires forall x :: x in s ==> a < x
    ensures StrictlyIncreasing([a] + s)
  {
    forall i, j | 0 <= i < j < |[a] + s| ensures ([a] + s)[i] < ([a] + s)[j] {
      assert s[j - 1] in s;
    }
  }

  lemma {:induction false} InsertSortedKeepsOrder(s: seq<nat>, b: nat)
    requires StrictlyIncreasing(s)
    ensures StrictlyIncreasing(InsertSorted(s, b))
    ensures |InsertSorted(s, b)| == |s| + (if b in s then 0 else 1)
  {
    if s != [] {
      assert s == [s[0]] + s[1..];
      if s[0] < b {
        var r := InsertSorted(s[1..], b);
        InsertSortedKeepsOrder(s[1..], b);
        forall x | x in r ensures s[0] < x {
          InsertSortedMembers(s[1..], b, x);
        }
        ConsKeepsOrder(s[0], r);
      } else if b < s[0] {
        assert b !in s;
      }
    }
  }

  /** Length of an insertion, whether or not the table is in order. */
  lemma {:induction false} InsertSortedLength(s: seq<nat>, b: nat)
    ensures |s| <= |InsertSorted(s, b)| <= |s| + 1
  {
    if s != [] && s[0] < b {
      InsertSortedLength(s[1..], b);
    }
  }

  /** The insertion point found by the linear scan determines the result. */
  lemma {:induction false} InsertSortedAt(s: seq<nat>, b: nat, idx: nat)
    requires idx <= |s|
    requires forall k :: 0 <= k < idx ==> s[k] < b
    requires idx < |s| ==> s[idx] >= b
    ensures InsertSorted(s, b) ==
            if idx < |s| && s[idx] == b then s else s[..idx] + [b] + s[idx..]
  {
    if idx > 0 {
      InsertSortedAt(s[1..], b, idx - 1);
      assert s == [s[0]] + s[1..];
      assert s[..idx] == [s[0]] + s[1..][..idx - 1];
      assert s[idx..] == s[1..][idx - 1..];
    }
  }

  /** A request adds exactly its block, unless the table is saturated. */
  lemma AddMembers(lim: Limits, t: Table, b: nat, x: nat)
    ensures x in Add(lim, t, b).entries <==>
            x in t.entries || (x == b && !Saturated(lim, t))
  {
    InsertSortedMembers(t.entries, b, x);
  }

  /** A new block is dropped exactly when no slot is free and 32 times the request buffer is in use. */
  lemma DroppedIff(lim: Limits, t: Table, b: nat)
    requires b !in t.entries
    ensures b !in Add(lim, t, b).entries <==> |t.entries| >= t.size && |t.entries| >= 32 * lim.maxRequests
    ensures b in Add(lim, t, b).entries ==> Add(lim, t, b).size == if |t.entries| < t.size then t.size else 2 * t.size
  {
    AddMembers(lim, t, b, b);
  }

  /** Table correctness is kept by every request, including the doubling step. */
  lemma AddKeepsValid(lim: Limits, initialSize: nat, t: Table, b: nat)
    requires lim.maxRequests >= 1 && ValidTable(lim, initialSize, t)
    ensures ValidTable(lim, initialSize, Add(lim, t, b))
    ensures |t.entries| <= |Add(lim, t, b).entries| <= |t.entries| + 1
  {
    InsertSortedLength(t.entries, b);
    if lim.sorting {
      InsertSortedKeepsOrder(t.entries, b);
    }
  }

  // ----- compaction ---------------------------------------------------------

  /** The received bitmap: blocks 1..count exist, `blocks` are the marked ones. */
  datatype Received = Received(count: nat, blocks: set<nat>)

  /** A block number past the end counts as received. */
  predicate Got(received: Received, b: nat) {
    b > received.count || b in received.blocks
  }

  /** The nonzero entries that have not been received, in their old order. */
  function Wanted(s: seq<nat>, received: Received): seq<nat> {
    if s == [] then []
    else (if s[0] != 0 && !Got(received, s[0]) then [s[0]] else []) + Wanted(s[1..], received)
  }

  lemma {:induction false} WantedMembers(s: seq<nat>, received: Received, x: nat)
    ensures x in Wanted(s, received) <==> x in s && x != 0 && !Got(received, x)
  {
    if s != [] {
      assert s == [s[0]] + s[1..];
      WantedMembers(s[1..], received, x);
    }
  }

  lemma {:induction false} WantedKeepsOrder(s: seq<nat>, received: Received)
    requires StrictlyIncreasing(s)
    ensures StrictlyIncreasing(Wanted(s, received))
  {
    if s != [] {
      assert s == [s[0]] + s[1..];
      var r := Wanted(s[1..], received);
      WantedKeepsOrder(s[1..], received);
      forall x | x in r ensures s[0] < x {
        WantedMembers(s[1..], received, x);
      }
      ConsKeepsOrder(s[0], r);
    }
  }

  lemma {:induction false} WantedLength(s: seq<nat>, received: Received)
    ensures |Wanted(s, received)| <= |s|
  {
    if s != [] {
      WantedLength(s[1..], received);
    }
  }

  lemma {:induction false} WantedConcat(s: seq<nat>, t: seq<nat>, received: Received)
    ensures Wanted(s + t, received) == Wanted(s, received) + Wanted(t, received)
  {
    if s == [] {
      assert s + t == t;
    } else {
      assert (s + t)[1..] == s[1..] + t;
      WantedConcat(s[1..], t, received);
    }
  }

  /** Entries that are all wanted survive compaction untouched. */
  lemma {:induction false} WantedAll(s: seq<nat>, received: Received)
    requires forall x :: x in s ==> x != 0 && !Got(received, x)
    ensures Wanted(s, received) == s
  {
    if s != [] {
      assert s[0] in s && s == [s[0]] + s[1..];
      assert forall x :: x in s[1..] ==> x in s;
      WantedAll(s[1..], received);
    }
  }
}
