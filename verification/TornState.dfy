/**
  What a state file that was cut off does to a download: exactly the harmful cuts
  let it report completion although bytes are missing.
*/
module TornState {
  import opened Wire
  import opened SegmentedDownload
  import opened ResumeState

  /** Every cursor is as far as it gets. */
  ghost predicate AllFetched(size: nat, segs: seq<Segment>, conns: seq<Conn>) {
    |conns| == |segs| && forall i :: 0 <= i < |conns| ==> conns[i].current == End(size, segs[i])
  }

  /** A running download whose total counts `extra` bytes that its cursors have not passed. */
  ghost predicate Counted(size: nat, segs: seq<Segment>, d: Download, extra: int) {
    && Chained(size, segs)
    && ConnsInv(size, segs, d.conns)
    && d.bytesDone == FetchedFrom(segs, d.conns, 0) + extra
  }

  ghost predicate Left(size: nat, segs: seq<Segment>, conns: seq<Conn>, i: nat)
    requires |conns| == |segs| && i < |segs|
  {
    conns[i].current < End(size, segs[i])
  }

  /** Every connection with something left to fetch is open. */
  ghost predicate Serving(size: nat, segs: seq<Segment>, conns: seq<Conn>) {
    |conns| == |segs| && forall i: nat :: i < |conns| && Left(size, segs, conns, i) ==> conns[i].enabled
  }

  lemma {:induction false} AllFetchedSum(size: nat, segs: seq<Segment>, conns: seq<Conn>, i: nat)
    requires Chained(size, segs) && AllFetched(size, segs, conns) && i < |segs|
    ensures FetchedFrom(segs, conns, i) == Max(0, size - segs[i].start)
    decreases |segs| - i
  {
    if i + 1 < |segs| {
      AllFetchedSum(size, segs, conns, i + 1);
      assert segs[i].start <= segs[i].last + 1 && segs[i + 1].start == segs[i].last + 1;
    } else {
      assert FetchedFrom(segs, conns, i + 1) == 0;
    }
  }

  /** While the sum is short, some cursor is. */
  lemma SomeLeft(size: nat, segs: seq<Segment>, conns: seq<Conn>) returns (i: nat)
    requires Chained(size, segs) && ConnsInv(size, segs, conns) && FetchedFrom(segs, conns, 0) < size
    ensures i < |conns| && Left(size, segs, conns, i)
  {
    if AllFetched(size, segs, conns) {
      AllFetchedSum(size, segs, conns, 0);
      assert false;
    }
    i :| 0 <= i < |conns| && conns[i].current != End(size, segs[i]);
    assert CursorInv(size, segs[i], conns[i]);
  }

  // ----- a run that trusts the total ---------------------------------------------------------

  /** The setup threads from connection k on end, successfully. */
  lemma {:induction false} SetUpAll(source: seq<Byte>, segs: seq<Segment>, d: Download, extra: int, k: nat)
    returns (actions: seq<Action>, t: Download)
    requires Counted(|source|, segs, d, extra) && d.ready == Running && k <= |d.conns|
    requires forall i: nat :: i < |d.conns| && Left(|source|, segs, d.conns, i) ==>
               d.conns[i].enabled || (k <= i && d.conns[i].inSetup)
    ensures IsRun(source, d, actions, t)
    ensures Counted(|source|, segs, t, extra) && t.ready == Running && t.bytesDone == d.bytesDone
    ensures Serving(|source|, segs, t.conns)
    decreases |d.conns| - k
  {
    if k == |d.conns| {
      return [], d;
    }
    var d1 := SetupDone(d, k, true);
    assert CursorInv(|source|, segs[k], d.conns[k]);
    FetchedUpdate(segs, d.conns, k, d1.conns[k], 0);
    assert d1.conns == d.conns[k := d1.conns[k]];
    forall i: nat | i < |d1.conns| && Left(|source|, segs, d1.conns, i)
      ensures d1.conns[i].enabled || (k + 1 <= i && d1.conns[i].inSetup)
    {
      assert Left(|source|, segs, d.conns, i);
    }
    var rest;
    rest, t := SetUpAll(source, segs, d1, extra, k + 1);
    RunCons(source, d, Setup(k, true), rest, t);
    actions := [Setup(k, true)] + rest;
  }

  function OneByte(n: nat, i: nat): seq<Event> {
    seq(n, k => if k == i then Readable(1) else Quiet)
  }

  function Never(n: nat): seq<bool> { seq(n, _ => false) }

  /** A pass in which only connection i has something to read, if anyone. */
  lemma {:induction false} OnlyOne(source: seq<Byte>, d: Download, i: nat, k: nat)
    requires d.ready == Running && i <= |d.conns|
    requires i < |d.conns| ==>
               && Handle(source, d, i, Readable(1)).ready == Running
               && |Handle(source, d, i, Readable(1)).conns| == |d.conns|
    ensures HandleFrom(source, d, OneByte(|d.conns|, i), k) ==
            if k <= i < |d.conns| then Handle(source, d, i, Readable(1)) else d
    decreases |d.conns| - k
  {
    if k < |d.conns| {
      if k == i {
        NoneBehindOne(source, Handle(source, d, i, Readable(1)), i, k + 1);
      } else {
        OnlyOne(source, d, i, k + 1);
      }
    }
  }

  lemma {:induction false} NoneBehindOne(source: seq<Byte>, d: Download, i: nat, k: nat)
    requires d.ready == Running && i < k
    ensures HandleFrom(source, d, OneByte(|d.conns|, i), k) == d
    decreases |d.conns| - k
  {
    if k < |d.conns| {
      NoneBehindOne(source, d, i, k + 1);
    }
  }

  /** What the checks at the end of a call leave alone. */
  lemma CheckAllKeeps(size: nat, segs: seq<Segment>, conns: seq<Conn>)
    requires ConnsInv(size, segs, conns) && Serving(size, segs, conns)
    ensures var conns' := CheckAll(conns, Never(|conns|));
            && ConnsInv(size, segs, conns') && Serving(size, segs, conns')
            && FetchedFrom(segs, conns', 0) == FetchedFrom(segs, conns, 0)
  {
    var conns' := CheckAll(conns, Never(|conns|));
    FetchedSame(segs, conns, conns', 0);
    forall i | 0 <= i < |conns| ensures CursorInv(size, segs[i], conns'[i]) {
      assert CursorInv(size, segs[i], conns[i]);
    }
    forall i: nat | i < |conns| && Left(size, segs, conns', i) ensures conns'[i].enabled {
      assert Left(size, segs, conns, i);
    }
  }

  /** A read of one byte that the connection still wants and the server still has. */
  lemma ByteRead(source: seq<Byte>, d: Download, i: nat)
    requires i < |d.conns| && d.conns[i].enabled && d.ready == Running
    requires var c := d.conns[i]; 0 <= c.position == c.current <= c.last && c.current < |source|
    ensures var c, t := d.conns[i], Handle(source, d, i, Readable(1));
            t == d.(conns := d.conns[i := c.(current := c.current + 1, position := c.position + 1)],
                    file := t.file, bytesDone := d.bytesDone + 1)
  {
    assert |Received(source, d.conns[i], 1)| == 1;
  }

  /** One byte through an open connection. */
  lemma ReadByte(source: seq<Byte>, segs: seq<Segment>, d: Download, extra: int, i: nat)
    requires Counted(|source|, segs, d, extra) && d.ready == Running && Serving(|source|, segs, d.conns)
    requires i < |d.conns| && Left(|source|, segs, d.conns, i)
    ensures var t := Handle(source, d, i, Readable(1));
            && Counted(|source|, segs, t, extra) && Serving(|source|, segs, t.conns)
            && t.ready == Running && |t.conns| == |d.conns| && t.bytesDone == d.bytesDone + 1
  {
    var t := Handle(source, d, i, Readable(1));
    var c := d.conns[i];
    assert CursorInv(|source|, segs[i], c) && c.enabled;
    ChainGrows(|source|, segs, 0, i);
    ByteRead(source, d, i);
    FetchedUpdate(segs, d.conns, i, t.conns[i], 0);
    forall k: nat | k < |t.conns| && Left(|source|, segs, t.conns, k) ensures t.conns[k].enabled {
      assert Left(|source|, segs, d.conns, k);
    }
  }

  /** One call: connection i reads a byte, or, with i behind the last, nobody does. */
  lemma OneCall(source: seq<Byte>, segs: seq<Segment>, d: Download, extra: int, i: nat) returns (t: Download)
    requires Counted(|source|, segs, d, extra) && d.ready == Running && Serving(|source|, segs, d.conns)
    requires i <= |d.conns| && (i < |d.conns| ==> Left(|source|, segs, d.conns, i))
    ensures IsRun(source, d, [Call(OneByte(|d.conns|, i), Never(|d.conns|))], t)
    ensures Counted(|source|, segs, t, extra) && Serving(|source|, segs, t.conns)
    ensures t.bytesDone == if i < |d.conns| then d.bytesDone + 1 else d.bytesDone
    ensures t.ready == if t.bytesDone == |source| then Complete else Running
  {
    var n := |d.conns|;
    var d1 := if i < n then Handle(source, d, i, Readable(1)) else d;
    if i < n {
      ReadByte(source, segs, d, extra, i);
    }
    OnlyOne(source, d, i, 0);
    CheckAllKeeps(|source|, segs, d1.conns);
    t := Pass(source, d, OneByte(n, i), Never(n));
    assert IsRun(source, t, [Call(OneByte(n, i), Never(n))][1..], t);
  }

  /** Byte after byte, until the total says that everything is there. */
  lemma {:induction false} FetchUntilTotal(source: seq<Byte>, segs: seq<Segment>, d: Download, extra: int)
    returns (actions: seq<Action>, t: Download)
    requires Counted(|source|, segs, d, extra) && d.ready == Running && Serving(|source|, segs, d.conns)
    requires extra >= 0 && d.bytesDone <= |source|
    ensures IsRun(source, d, actions, t)
    ensures t.ready == Complete && Counted(|source|, segs, t, extra) && t.bytesDone == |source|
    decreases |source| - d.bytesDone
  {
    var i := |d.conns|;
    if d.bytesDone < |source| {
      i := SomeLeft(|source|, segs, d.conns);
    }
    var call := Call(OneByte(|d.conns|, i), Never(|d.conns|));
    var d1 := OneCall(source, segs, d, extra, i);
    if d1.ready == Complete {
      return [call], d1;
    }
    var rest;
    rest, t := FetchUntilTotal(source, segs, d1, extra);
    RunConcat(source, d, [call], d1, rest, t);
    actions := [call] + rest;
  }

  // ----- exactly the harmful cuts -----------------------------------------------------------------

  /** A resumed download counts the bytes behind the cursors that are missing from the file. */
  lemma ResumeCounts(source: seq<Byte>, segs: seq<Segment>, d: Download, later: Download, r: Download, known: nat)
    requires Inv(source, segs, d) && Inv(source, segs, later) && Advances(source, d, later)
    requires KnownCursors(segs, d, r, known) && known <= |segs|
    requires r.file == later.file && r.bytesDone == d.bytesDone
    ensures Counted(|source|, segs, r, FetchedFrom(segs, d.conns, known)) && r.bytesDone <= |source|
    ensures forall i: nat :: i < |r.conns| && Left(|source|, segs, r.conns, i) ==> r.conns[i].inSetup
  {
    RestoredFile(source, segs, d, later, r, known);
    RestoredSum(segs, d, r, known, 0);
    TotalBound(source, segs, d);
  }

  lemma TotalBound(source: seq<Byte>, segs: seq<Segment>, d: Download)
    requires Inv(source, segs, d)
    ensures d.bytesDone <= |source|
  {
    FetchedBound(|source|, segs, d.conns, 0);
  }

  /** The runs of a download report completion only when everything was fetched. */
  ghost predicate Honest(source: seq<Byte>, segs: seq<Segment>, r: Download) {
    forall actions, t :: IsRun(source, r, actions, t) && t.ready == Complete ==> AllFetched(|source|, segs, t.conns)
  }

  lemma InvIsHonest(source: seq<Byte>, segs: seq<Segment>, r: Download)
    requires Inv(source, segs, r) && r.ready == Running
    ensures Honest(source, segs, r)
  {
    forall actions, t | IsRun(source, r, actions, t) && t.ready == Complete
      ensures AllFetched(|source|, segs, t.conns)
    {
      RunInv(source, segs, r, actions, t);
      FetchedBound(|source|, segs, t.conns, 0);
    }
  }

  lemma RunFromKnown(source: seq<Byte>, segs: seq<Segment>, d: Download, later: Download, r: Download, known: nat)
    returns (actions: seq<Action>, t: Download)
    requires Inv(source, segs, d) && Inv(source, segs, later) && Advances(source, d, later)
    requires KnownCursors(segs, d, r, known) && known <= |segs| && FetchedFrom(segs, d.conns, known) > 0
    requires r.file == later.file && r.bytesDone == d.bytesDone && r.ready == Running
    ensures IsRun(source, r, actions, t)
    ensures t.ready == Complete && !AllFetched(|source|, segs, t.conns)
  {
    ResumeCounts(source, segs, d, later, r, known);
    actions, t := RunByTotal(source, segs, r, FetchedFrom(segs, d.conns, known));
  }

  /** From a total that counts too much to a completion that comes too early. */
  lemma RunByTotal(source: seq<Byte>, segs: seq<Segment>, r: Download, extra: int)
    returns (actions: seq<Action>, t: Download)
    requires Counted(|source|, segs, r, extra) && extra > 0 && r.ready == Running && r.bytesDone <= |source|
    requires forall i: nat :: i < |r.conns| && Left(|source|, segs, r.conns, i) ==> r.conns[i].inSetup
    ensures IsRun(source, r, actions, t)
    ensures t.ready == Complete && !AllFetched(|source|, segs, t.conns)
  {
    var xs, r1 := SetUpAll(source, segs, r, extra, 0);
    var ys;
    ys, t := FetchUntilTotal(source, segs, r1, extra);
    actions := Joined(source, r, xs, r1, ys, t);
    NotAllFetched(|source|, segs, t, extra);
  }

  lemma Joined(source: seq<Byte>, d: Download, xs: seq<Action>, m: Download, ys: seq<Action>, t: Download)
    returns (actions: seq<Action>)
    requires IsRun(source, d, xs, m) && IsRun(source, m, ys, t)
    ensures IsRun(source, d, actions, t)
  {
    RunConcat(source, d, xs, m, ys, t);
    actions := xs + ys;
  }

  lemma NotAllFetched(size: nat, segs: seq<Segment>, t: Download, extra: int)
    requires Counted(size, segs, t, extra) && extra > 0 && t.bytesDone == size
    ensures !AllFetched(size, segs, t.conns)
  {
    if AllFetched(size, segs, t.conns) {
      AllFetchedSum(size, segs, t.conns, 0);
    }
  }

  /** With a missing cursor that had moved, some run reports completion with bytes missing. */
  lemma KnownIsNotHonest(source: seq<Byte>, segs: seq<Segment>, d: Download, later: Download, r: Download, known: nat)
    requires Inv(source, segs, d) && Inv(source, segs, later) && Advances(source, d, later)
    requires KnownCursors(segs, d, r, known) && known <= |segs| && FetchedFrom(segs, d.conns, known) != 0
    requires r.file == later.file && r.bytesDone == d.bytesDone && r.ready == Running
    ensures !Honest(source, segs, r)
  {
    NothingFetchedBehind(|source|, segs, d.conns, known);
    var actions, t := RunFromKnown(source, segs, d, later, r, known);
  }

  /** A cut is harmless exactly when no run of the resumed download reports completion too early. */
  lemma HarmlessIff(source: seq<Byte>, n: nat, configured: nat, d: Download, later: Download, words: nat)
    requires n >= 1 && configured >= 1 && |d.conns| == n && words <= n + 2
    requires Inv(source, Divide(|source|, n), d) && Inv(source, Divide(|source|, n), later)
    requires Advances(source, d, later)
    ensures Honest(source, Divide(|source|, if words == 0 then configured else n),
                   ResumeCut(|source|, configured, d, words, later.file)) <==>
            Harmless(|source|, n, d, words)
  {
    var r := ResumeCut(|source|, configured, d, words, later.file);
    if Harmless(|source|, n, d, words) {
      TornStateIff(source, n, configured, d, later, words);
      InvIsHonest(source, Divide(|source|, if words == 0 then configured else n), r);
    } else {
      ResumeKnows(|source|, n, configured, d, later.file, words);
      KnownIsNotHonest(source, Divide(|source|, n), d, later, r, words - 2);
    }
  }

  // ----- an input -------------------------------------------------------------------------------------

  lemma TwoForFour()
    ensures Divide(4, 2) == [Segment(0, 1), Segment(2, 3)]
  {
    assert Start(2, 1) == 2;
  }

  /** Two connections for four bytes: the second has fetched one byte. */
  function OneFetched(b: Byte): Download {
    Download([Conn(0, 1, false, true, 0), Conn(3, 3, true, false, 3)], [0, 0, b], 1, Running)
  }

  /** A call in which the second connection reads one byte. */
  lemma FirstCall(source: seq<Byte>, d: Download)
    requires |source| == 4
    requires d == Download([Conn(0, 1, false, true, 0), Conn(2, 3, true, false, 2)], [], 0, Running)
    ensures Pass(source, d, [Quiet, Readable(1)], [false, false]) == OneFetched(source[2])
  {
    var events := [Quiet, Readable(1)];
    var d1 := Handle(source, d, 1, Readable(1));
    assert Received(source, d.conns[1], 1) == [source[2]];
    assert d1.conns == OneFetched(source[2]).conns && d1.file == [0, 0, source[2]];
    assert HandleFrom(source, d1, events, 2) == d1;
    assert HandleFrom(source, d, events, 1) == d1 && HandleFrom(source, d, events, 0) == d1;
    assert CheckAll(d1.conns, [false, false]) == d1.conns;
  }

  lemma OneFetchedIsReached(source: seq<Byte>)
    requires |source| == 4
    ensures IsRun(source, Fresh(Divide(4, 2), []),
                  [Setup(1, true), Call([Quiet, Readable(1)], [false, false])], OneFetched(source[2]))
  {
    TwoForFour();
    var d0 := Fresh(Divide(4, 2), []);
    assert d0.conns == [Conn(0, 1, false, true, 0), Conn(2, 3, false, true, 0)];
    var d1 := SetupDone(d0, 1, true);
    assert d1.conns == [Conn(0, 1, false, true, 0), Conn(2, 3, true, false, 2)];
    FirstCall(source, d1);
    var call := Call([Quiet, Readable(1)], [false, false]);
    assert IsRun(source, OneFetched(source[2]), [call][1..], OneFetched(source[2]));
    RunCons(source, d0, Setup(1, true), [call], OneFetched(source[2]));
    assert [Setup(1, true)] + [call] == [Setup(1, true), call];
  }

  function BothOpen(b: Byte): Download {
    Download([Conn(0, 1, true, false, 0), Conn(2, 3, true, false, 2)], [0, 0, b], 1, Running)
  }

  function ThreeBytes(source: seq<Byte>): Download
    requires |source| == 4
  {
    Download([Conn(2, 1, true, false, 2), Conn(3, 3, true, false, 3)], source[..3], 4, Complete)
  }

  /** The first connection reads its two bytes, the second the one that is on disk already. */
  lemma LastCall(source: seq<Byte>)
    requires |source| == 4
    ensures Pass(source, BothOpen(source[2]), [Readable(2), Readable(1)], [false, false]) == ThreeBytes(source)
  {
    var d, events := BothOpen(source[2]), [Readable(2), Readable(1)];
    var d1 := Handle(source, d, 0, Readable(2));
    assert Received(source, d.conns[0], 2) == source[..2];
    assert d1.conns == [Conn(2, 1, true, false, 2), Conn(2, 3, true, false, 2)] && d1.file == source[..3];
    var d2 := Handle(source, d1, 1, Readable(1));
    assert Received(source, d1.conns[1], 1) == [source[2]];
    assert d2.conns == ThreeBytes(source).conns && d2.file == source[..3];
    assert HandleFrom(source, d2, events, 2) == d2;
    assert HandleFrom(source, d1, events, 1) == d2 && HandleFrom(source, d, events, 0) == d2;
    assert CheckAll(d2.conns, [false, false]) == d2.conns;
  }

  /**
    Its state file, cut after three words, holds [2, 1, 0]. The download resumed
    from it reports completion with three bytes in the file.
  */
  lemma TornStateInput(source: seq<Byte>, configured: nat)
    requires |source| == 4 && configured >= 1
    ensures Save(OneFetched(source[2]))[..3] == [2, 1, 0]
    ensures IsRun(source, Resume(4, configured, [2, 1, 0], OneFetched(source[2]).file),
                  [Setup(0, true), Setup(1, true), Call([Readable(2), Readable(1)], [false, false])],
                  ThreeBytes(source))
    ensures ThreeBytes(source).ready == Complete && ThreeBytes(source).file == source[..3] != source
  {
    SavedWords(OneFetched(source[2]));
    var call := Call([Readable(2), Readable(1)], [false, false]);
    LastCall(source);
    assert IsRun(source, ThreeBytes(source), [call][1..], ThreeBytes(source));
    BothSetUp(source, configured);
    assert [Setup(0, true), Setup(1, true), call] == [Setup(0, true), Setup(1, true)] + [call];
    RunConcat(source, Resume(4, configured, [2, 1, 0], OneFetched(source[2]).file), [Setup(0, true), Setup(1, true)],
              BothOpen(source[2]), [call], ThreeBytes(source));
  }

  lemma BothSetUp(source: seq<Byte>, configured: nat)
    requires |source| == 4 && configured >= 1
    ensures IsRun(source, Resume(4, configured, [2, 1, 0], [0, 0, source[2]]),
                  [Setup(0, true), Setup(1, true)], BothOpen(source[2]))
  {
    TwoForFour();
    var r := Resume(4, configured, [2, 1, 0], [0, 0, source[2]]);
    assert r.conns == [Conn(0, 1, false, true, 0), Conn(2, 3, false, true, 0)];
    var r1 := SetupDone(r, 0, true);
    assert SetupDone(r1, 1, true).conns == BothOpen(source[2]).conns;
    assert [Setup(0, true), Setup(1, true)][1..] == [Setup(1, true)] && [Setup(1, true)][1..] == [];
  }
}
