/**
  What becomes of a connection that was cut off: what one call of axel_do does to
  each connection, told by its fields, and exactly when a download can still be
  completed.
*/
module Reconnect {
  import opened Wire
  import opened SegmentedDownload
  import opened TornState

  // ----- the handling of one connection ---------------------------------------------------

  /** A handled connection looks at nothing but itself and touches no other. */
  lemma HandleIsLocal(source: seq<Byte>, d: Download, d': Download, i: nat, e: Event)
    requires i < |d.conns| == |d'.conns| && d.conns[i] == d'.conns[i]
    ensures |Handle(source, d, i, e).conns| == |d.conns|
    ensures Handle(source, d, i, e).conns[i] == Handle(source, d', i, e).conns[i]
    ensures forall k :: 0 <= k < |d.conns| && k != i ==> Handle(source, d, i, e).conns[k] == d.conns[k]
  {
  }

  /** The first loop of a call handles each connection once, by its own event. */
  lemma {:induction false} HandledOnce(source: seq<Byte>, d: Download, events: seq<Event>, k: nat, i: nat)
    requires |events| == |d.conns| && i < |d.conns|
    ensures |HandleFrom(source, d, events, k).conns| == |d.conns|
    ensures HandleFrom(source, d, events, k).ready != Failed ==>
              HandleFrom(source, d, events, k).conns[i] ==
              if k <= i then Handle(source, d, i, events[i]).conns[i] else d.conns[i]
    decreases |events| - k
  {
    if k < |d.conns| {
      var d1 := Handle(source, d, k, events[k]);
      HandleIsLocal(source, d, d, k, events[k]);
      if d1.ready != Failed {
        HandledOnce(source, d1, events, k + 1, i);
        if k < i {
          HandleIsLocal(source, d, d1, i, events[i]);
        }
      }
    }
  }

  /** The bytes a read takes: what the server still has, as far as the segment wants it. */
  function Taken(size: nat, c: Conn, length: nat): int {
    Max(0, Min(length, Min(size - c.current, c.last + 1 - c.current)))
  }

  /**
    What an event does to an open connection. An error, a time-out or the end of the
    stream closes it; a read moves the cursor by every byte that is there and
    wanted, and closes the connection exactly when there was none or one too many.
  */
  lemma HandleLaw(source: seq<Byte>, segs: seq<Segment>, d: Download, i: nat, e: Event)
    requires Inv(source, segs, d) && i < |d.conns| && d.conns[i].enabled && d.ready == Running
    ensures var c := d.conns[i];
            var d' := Handle(source, d, i, e);
            var t := d'.conns[i];
            && t.last == c.last && t.inSetup == c.inSetup
            && match e
               case Quiet => t == c && d'.file == d.file
               case Readable(length) =>
                 && t.current == c.current + Taken(|source|, c, length)
                 && (t.enabled <==> 0 < Min(length, |source| - c.current) <= c.last + 1 - c.current)
                 && Fetched(source, d'.file, c.current, t.current)
                 && d'.bytesDone == d.bytesDone + t.current - c.current
               case _ => !t.enabled && t.current == c.current && d'.file == d.file
  {
    if e.Readable? {
      var c, t := d.conns[i], HandleRead(source, d, i, e.length).conns[i];
      ReadMoves(source, segs, d, i, e.length);
      HandleReadInv(source, segs, d, i, e.length);
      assert CursorInv(|source|, segs[i], c);
      ChainGrows(|source|, segs, 0, i);
      ReadTakes(source, d, i, e.length);
      assert Fetched(source, HandleRead(source, d, i, e.length).file, segs[i].start, t.current);
    }
  }

  lemma ReadTakes(source: seq<Byte>, d: Download, i: nat, length: nat)
    requires i < |d.conns| && d.conns[i].enabled
    requires var c := d.conns[i]; 0 <= c.position == c.current <= c.last + 1
    ensures var c := d.conns[i];
            var t := HandleRead(source, d, i, length).conns[i];
            && t.current == c.current + Taken(|source|, c, length)
            && (t.enabled <==> 0 < Min(length, |source| - c.current) <= c.last + 1 - c.current)
            && t.last == c.last && t.inSetup == c.inSetup
  {
    var c := d.conns[i];
    assert |Received(source, c, length)| == Max(0, Min(length, |source| - c.current));
  }

  /**
    A read on a connection whose cursor is beyond its segment fails the download and
    moves nothing; the run invariant excludes it.
  */
  lemma OverrunFails(source: seq<Byte>, d: Download, i: nat, length: nat)
    requires i < |d.conns| && d.conns[i].enabled && d.conns[i].last + 1 < d.conns[i].current
    requires 0 < length && 0 <= d.conns[i].position < |source|
    ensures var d' := Handle(source, d, i, Readable(length));
            && d'.ready == Failed && d'.file == d.file && d'.bytesDone == d.bytesDone
            && d'.conns[i].current == d.conns[i].current && !d'.conns[i].enabled
  {
    assert |Received(source, d.conns[i], length)| > 0;
  }

  // ----- one call -------------------------------------------------------------------------------

  /**
    Every connection behind a call of axel_do. One that was down, with more than one
    byte left, is in setup again, and stays there until its setup thread is late; one
    that was cut off in this very call is set up at once. Nothing else touches the
    flags.
  */
  lemma CallLaw(source: seq<Byte>, d: Download, events: seq<Event>, late: seq<bool>, i: nat)
    requires |events| == |late| == |d.conns| && d.ready == Running && i < |d.conns|
    requires Pass(source, d, events, late).ready != Failed
    ensures |Pass(source, d, events, late).conns| == |d.conns|
    ensures var c, t := d.conns[i], Pass(source, d, events, late).conns[i];
            && (!c.enabled ==> t == c.(inSetup := t.inSetup))
            && (!c.enabled && !c.inSetup && c.current < c.last ==> t.inSetup)
            && (!c.enabled && c.inSetup && c.current < c.last ==> (t.inSetup <==> !late[i]))
            && (!c.enabled && c.current >= c.last ==> t.inSetup == c.inSetup)
            && (t.enabled ==> c.enabled && t.inSetup == c.inSetup)
            && (c.enabled && !t.enabled && !c.inSetup ==> (t.inSetup <==> t.current < t.last))
            && (c.enabled ==> t.(inSetup := c.inSetup) == Handle(source, d, i, events[i]).conns[i])
  {
    HandledOnce(source, d, events, 0, i);
    HandleStaysRunning(source, d, events, 0);
    HandleFlags(source, d, i, events[i]);
  }

  lemma HandleFlags(source: seq<Byte>, d: Download, i: nat, e: Event)
    requires i < |d.conns|
    ensures var c, t := d.conns[i], Handle(source, d, i, e).conns[i];
            t.inSetup == c.inSetup && (t.enabled ==> c.enabled) && (!c.enabled ==> t == c)
  {
  }

  lemma {:induction false} HandleStaysRunning(source: seq<Byte>, d: Download, events: seq<Event>, k: nat)
    requires |events| == |d.conns| && d.ready == Running
    ensures HandleFrom(source, d, events, k).ready in {Running, Failed}
    decreases |events| - k
  {
    if k < |d.conns| {
      HandleIsLocal(source, d, d, k, events[k]);
      if Handle(source, d, k, events[k]).ready == Running {
        HandleStaysRunning(source, Handle(source, d, k, events[k]), events, k + 1);
      }
    }
  }

  /** The end of a setup thread: an open connection asks for the bytes from its cursor on; either way the setup is over. */
  lemma SetupLaw(d: Download, i: nat, ok: bool)
    requires i < |d.conns| && d.conns[i].inSetup
    ensures var c, t := d.conns[i], SetupDone(d, i, ok).conns[i];
            && !t.inSetup && t.current == c.current && t.last == c.last
            && (t.enabled <==> ok || c.enabled) && (ok ==> t.position == t.current)
    ensures forall k :: 0 <= k < |d.conns| && k != i ==> SetupDone(d, i, ok).conns[k] == d.conns[k]
  {
  }

  // ----- exactly when a download can be completed ---------------------------------------------------

  /** A connection that is down and has one byte left: the comparison of the check is strict. */
  predicate OneByteDown(size: nat, c: Conn) {
    !c.enabled && !c.inSetup && c.current == c.last && c.current < size
  }

  predicate Stranded(size: nat, conns: seq<Conn>) {
    exists i: nat :: i < |conns| && OneByteDown(size, conns[i])
  }

  ghost predicate CanComplete(source: seq<Byte>, d: Download) {
    exists actions, t :: IsRun(source, d, actions, t) && t.ready == Complete
  }

  lemma StrandedStep(source: seq<Byte>, d: Download, a: Action, i: nat)
    requires Enabled(d, a) && i < |d.conns| && OneByteDown(|source|, d.conns[i])
    requires Apply(source, d, a).ready != Failed
    ensures var d' := Apply(source, d, a); i < |d'.conns| && d'.conns[i] == d.conns[i]
  {
    match a
    case Call(events, late) => CallLaw(source, d, events, late, i);
    case Handling(k, e) => HandleIsLocal(source, d, d, k, e);
    case _ =>
  }

  /** It stays as it is in every run. */
  lemma {:induction false} StrandedRun(
      source: seq<Byte>, segs: seq<Segment>, d: Download, actions: seq<Action>, t: Download, i: nat)
    requires Inv(source, segs, d) && d.ready != Failed && IsRun(source, d, actions, t)
    requires i < |d.conns| && OneByteDown(|source|, d.conns[i])
    ensures i < |t.conns| && t.conns[i] == d.conns[i]
    decreases |actions|
  {
    if actions != [] {
      StepInv(source, segs, d, actions[0]);
      StrandedStep(source, d, actions[0], i);
      StrandedRun(source, segs, Apply(source, d, actions[0]), actions[1..], t, i);
    }
  }

  /** A byte in front of the end of its segment is missing, so the download is not complete. */
  lemma StrandedIsShort(source: seq<Byte>, segs: seq<Segment>, d: Download, i: nat)
    requires Inv(source, segs, d) && i < |d.conns| && OneByteDown(|source|, d.conns[i])
    ensures d.ready != Complete
  {
    assert CursorInv(|source|, segs[i], d.conns[i]);
    if d.ready == Complete {
      FetchedBound(|source|, segs, d.conns, 0);
    }
  }

  lemma NobodyReads(source: seq<Byte>, d: Download)
    requires d.ready == Running
    ensures HandleFrom(source, d, OneByte(|d.conns|, |d.conns|), 0) == d
  {
    OnlyOne(source, d, |d.conns|, 0);
  }

  /** One call in which nobody reads anything: afterwards everything left is open or being set up. */
  lemma QuietCall(source: seq<Byte>, segs: seq<Segment>, d: Download) returns (call: Action, t: Download)
    requires Inv(source, segs, d) && d.ready == Running && !Stranded(|source|, d.conns)
    ensures IsRun(source, d, [call], t)
    ensures Inv(source, segs, t) && t.ready in {Running, Complete}
    ensures forall i: nat :: i < |t.conns| && Left(|source|, segs, t.conns, i) ==>
              t.conns[i].enabled || t.conns[i].inSetup
  {
    var n := |d.conns|;
    var events, late := OneByte(n, n), Never(n);
    call := Call(events, late);
    t := Pass(source, d, events, late);
    StepInv(source, segs, d, call);
    NobodyReads(source, d);
    forall i: nat | i < n && Left(|source|, segs, t.conns, i) ensures t.conns[i].enabled || t.conns[i].inSetup {
      assert CursorInv(|source|, segs[i], d.conns[i]) && !OneByteDown(|source|, d.conns[i]);
    }
    assert IsRun(source, t, [call][1..], t);
  }

  lemma CompletesFrom(source: seq<Byte>, segs: seq<Segment>, d: Download)
    requires Inv(source, segs, d) && d.ready == Running
    requires forall i: nat :: i < |d.conns| && Left(|source|, segs, d.conns, i) ==>
               d.conns[i].enabled || d.conns[i].inSetup
    ensures CanComplete(source, d)
  {
    TotalBound(source, segs, d);
    var xs, m := SetUpAll(source, segs, d, 0, 0);
    var ys, t := FetchUntilTotal(source, segs, m, 0);
    RunConcat(source, d, xs, m, ys, t);
  }

  lemma CanCompleteAfter(source: seq<Byte>, d: Download, xs: seq<Action>, m: Download)
    requires IsRun(source, d, xs, m) && CanComplete(source, m)
    ensures CanComplete(source, d)
  {
    var ys, t :| IsRun(source, m, ys, t) && t.ready == Complete;
    RunConcat(source, d, xs, m, ys, t);
  }

  lemma NotStrandedCompletes(source: seq<Byte>, segs: seq<Segment>, d: Download)
    requires Inv(source, segs, d) && d.ready == Running && !Stranded(|source|, d.conns)
    ensures CanComplete(source, d)
  {
    var call, m := QuietCall(source, segs, d);
    if m.ready == Complete {
      assert IsRun(source, m, [], m);
    } else {
      CompletesFrom(source, segs, m);
    }
    CanCompleteAfter(source, d, [call], m);
  }

  /**
    From a state that any run has reached, some run completes the download exactly
    when no connection is down with one byte left.
  */
  lemma CanCompleteIff(source: seq<Byte>, n: nat, file: seq<Byte>, actions: seq<Action>, d: Download)
    requires n >= 1 && IsRun(source, Fresh(Divide(|source|, n), file), actions, d)
    ensures CanComplete(source, d) <==> !Stranded(|source|, d.conns)
  {
    var segs := Divide(|source|, n);
    DivideChained(|source|, n);
    FreshInv(source, segs, file);
    RunInv(source, segs, Fresh(segs, file), actions, d);
    if Stranded(|source|, d.conns) {
      var i: nat :| i < |d.conns| && OneByteDown(|source|, d.conns[i]);
      forall ys, t | IsRun(source, d, ys, t) ensures t.ready != Complete {
        RunInv(source, segs, d, ys, t);
        StrandedRun(source, segs, d, ys, t, i);
        StrandedIsShort(source, segs, t, i);
      }
    } else if d.ready == Complete {
      assert IsRun(source, d, [], d);
    } else {
      NotStrandedCompletes(source, segs, d);
    }
  }

  // ----- an input ----------------------------------------------------------------------------------

  /** One connection for two bytes, closed after the first byte. */
  function ClosedEarly(b: Byte): Download {
    Download([Conn(1, 1, false, false, 1)], [b], 1, Running)
  }

  /** A download of two bytes that is closed after one never completes. */
  lemma OneByteLeftInput(source: seq<Byte>)
    requires |source| == 2
    ensures IsRun(source, Fresh(Divide(2, 1), []),
                  [Setup(0, true), Handling(0, Readable(1)), Handling(0, Closed)], ClosedEarly(source[0]))
    ensures !CanComplete(source, ClosedEarly(source[0]))
  {
    var d0 := Fresh(Divide(2, 1), []);
    assert d0.conns == [Conn(0, 1, false, true, 0)];
    var d1 := SetupDone(d0, 0, true);
    assert d1.conns == [Conn(0, 1, true, false, 0)];
    assert Received(source, d1.conns[0], 1) == [source[0]];
    var d2 := Handle(source, d1, 0, Readable(1));
    assert d2.conns == [Conn(1, 1, true, false, 1)] && d2.file == [source[0]];
    var d3 := Handle(source, d2, 0, Closed);
    assert d3 == ClosedEarly(source[0]);
    assert IsRun(source, d3, [], d3);
    RunCons(source, d2, Handling(0, Closed), [], d3);
    RunCons(source, d1, Handling(0, Readable(1)), [Handling(0, Closed)], d3);
    RunCons(source, d0, Setup(0, true), [Handling(0, Readable(1)), Handling(0, Closed)], d3);
    assert [Setup(0, true)] + ([Handling(0, Readable(1))] + [Handling(0, Closed)]) ==
           [Setup(0, true), Handling(0, Readable(1)), Handling(0, Closed)];
    assert OneByteDown(2, d3.conns[0]);
    CanCompleteIff(source, 1, [], [Setup(0, true), Handling(0, Readable(1)), Handling(0, Closed)], d3);
  }
}
