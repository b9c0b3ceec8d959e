/**
  The mirror speed test and the ranking of its results (test04 search.c).

  Worker threads report at any time between two scans of the scheduler;
  cancelling a worker takes effect at once and thread creation succeeds.
*/
module MirrorSearch {

  const ACTIVE: int := -1
  const ERROR: int := -2
  const DONE: int := -3

  /** `started`: speed_start_time is nonzero, that is, the entry has not been counted yet. */
  datatype Entry = Entry(speed: int, started: bool)

  datatype Status = Idle | Busy | Usable | Useless

  /** Where an entry stands in the scheduler's accounting. */
  function StatusOf(e: Entry): Status {
    if e.speed == 0 then Idle
    else if e.speed == ACTIVE || e.speed == ERROR || (e.speed > 0 && e.started) then Busy
    else if e.speed > 0 then Usable
    else Useless
  }

  function Count(es: seq<Entry>, status: Status): nat {
    if es == [] then 0 else (if StatusOf(es[0]) == status then 1 else 0) + Count(es[1..], status)
  }

  function Bit(b: bool): int { if b then 1 else 0 }

  lemma {:induction false} CountUpdate(es: seq<Entry>, i: nat, e: Entry, status: Status)
    requires i < |es|
    ensures Count(es[i := e], status) ==
            Count(es, status) + Bit(StatusOf(e) == status) - Bit(StatusOf(es[i]) == status)
  {
    if i == 0 {
      assert es[0 := e][1..] == es[1..];
    } else {
      assert es[i := e][1..] == es[1..][i - 1 := e];
      CountUpdate(es[1..], i - 1, e, status);
    }
  }

  lemma {:induction false} CountsAddUp(es: seq<Entry>)
    ensures Count(es, Idle) + Count(es, Busy) + Count(es, Usable) + Count(es, Useless) == |es|
  {
    if es != [] {
      CountsAddUp(es[1..]);
    }
  }

  lemma {:induction false} CountZero(es: seq<Entry>, status: Status)
    requires Count(es, status) == 0
    ensures forall i :: 0 <= i < |es| ==> StatusOf(es[i]) != status
  {
    if es != [] {
      CountZero(es[1..], status);
    }
  }

  lemma {:induction false} CountSnoc(es: seq<Entry>, e: Entry, status: Status)
    ensures Count(es + [e], status) == Count(es, status) + Bit(StatusOf(e) == status)
  {
    if es == [] {
      assert es + [e] == [e];
    } else {
      assert (es + [e])[1..] == es[1..] + [e];
      CountSnoc(es[1..], e, status);
    }
  }

  lemma {:induction false} SameIdle(es: seq<Entry>, es': seq<Entry>)
    requires |es| == |es'| && forall i :: 0 <= i < |es| ==> es[i].speed == es'[i].speed
    ensures Count(es, Idle) == Count(es', Idle)
  {
    if es != [] {
      SameIdle(es[1..], es'[1..]);
    }
  }

  /** Speeds that a finished search calls usable. */
  function Positives(speeds: seq<int>): nat {
    if speeds == [] then 0 else (if speeds[0] > 0 then 1 else 0) + Positives(speeds[1..])
  }

  function Speeds(es: seq<Entry>): seq<int> {
    seq(|es|, i requires 0 <= i < |es| => es[i].speed)
  }

  lemma {:induction false} UsableArePositive(es: seq<Entry>)
    requires forall i :: 0 <= i < |es| ==> StatusOf(es[i]) in {Usable, Useless}
    ensures Positives(Speeds(es)) == Count(es, Usable)
  {
    if es != [] {
      UsableArePositive(es[1..]);
      assert Speeds(es)[1..] == Speeds(es[1..]);
    }
  }

  // ----- search_getspeeds -----------------------------------------------------------------

  datatype Report = Report(entry: nat, ok: bool, speed: nat)

  /**
    One scan: the time-outs that have expired, and the workers that report while
    it goes on; those of reports[k] do so before entry k is looked at.
  */
  datatype Turn = Turn(reports: seq<seq<Report>>, expired: set<nat>)

  /** What the scheduler does to an entry; the entry itself when there is nothing to do. */
  function After(e: Entry, canStart: bool, late: bool): Entry {
    if canStart && e.speed == 0 then Entry(ACTIVE, true)
    else if e.speed == ACTIVE && late then e.(speed := DONE)
    else if e.speed > 0 && e.started then e.(started := false)
    else if e.speed == ERROR then e.(speed := DONE)
    else e
  }

  /** What a worker's report does: it counts only while the worker is active. */
  function Told(es: seq<Entry>, r: Report): seq<Entry> {
    if r.entry < |es| && es[r.entry].speed == ACTIVE && es[r.entry].started
    then es[r.entry := es[r.entry].(speed := if r.ok then 1 + r.speed else ERROR)]
    else es
  }

  function ToldAll(es: seq<Entry>, rs: seq<Report>): (r: seq<Entry>)
    ensures |r| == |es|
    decreases |rs|
  {
    if rs == [] then es else ToldAll(Told(es, rs[0]), rs[1..])
  }

  function Batch(reports: seq<seq<Report>>, k: nat): seq<Report> {
    if k < |reports| then reports[k] else []
  }

  /** The entries as they are when entry k is looked at. */
  function Seen(es: seq<Entry>, reports: seq<seq<Report>>, k: nat): (r: seq<Entry>)
    ensures |r| == |es|
  {
    ToldAll(if k == 0 then es else Seen(es, reports, k - 1), Batch(reports, k))
  }

  /** The scheduler looks at entry k and goes on. */
  predicate Passed(es: seq<Entry>, t: Turn, running: int, threads: nat, k: nat)
    requires k < |es|
  {
    var e := Seen(es, t.reports, k)[k];
    After(e, running < threads, k in t.expired) == e
  }

  // ----- what reports and looks amount to ---------------------------------------------------

  /** The first report for a worker that is active decides its entry; later ones find it decided. */
  lemma {:induction false} FirstReportDecides(es: seq<Entry>, rs: seq<Report>, i: nat, j: nat)
    requires i < |es| && es[i] == Entry(ACTIVE, true)
    requires j < |rs| && rs[j].entry == i && forall k :: 0 <= k < j ==> rs[k].entry != i
    ensures ToldAll(es, rs)[i] == Entry(if rs[j].ok then 1 + rs[j].speed else ERROR, true)
    decreases |rs|
  {
    if j == 0 {
      Unheard(Told(es, rs[0]), rs[1..], i);
    } else {
      FirstReportDecides(Told(es, rs[0]), rs[1..], i, j - 1);
    }
  }

  /** Reports change nothing for an entry without an active worker, or without a report of its own. */
  lemma {:induction false} Unheard(es: seq<Entry>, rs: seq<Report>, i: nat)
    requires i < |es|
    requires es[i].speed != ACTIVE || !es[i].started || forall r :: r in rs ==> r.entry != i
    ensures ToldAll(es, rs)[i] == es[i]
    decreases |rs|
  {
    if rs != [] {
      assert rs[0] in rs && forall r :: r in rs[1..] ==> r in rs;
      Unheard(Told(es, rs[0]), rs[1..], i);
    }
  }

  /**
    The scheduler passes over an entry exactly when it is accounted for, or its
    worker is still at work in time, or it is idle and every thread is in use.
  */
  lemma PassedIff(es: seq<Entry>, t: Turn, running: int, threads: nat, k: nat)
    requires k < |es|
    ensures var e := Seen(es, t.reports, k)[k];
            Passed(es, t, running, threads, k) <==>
            match StatusOf(e)
            case Idle => running >= threads
            case Busy => e.speed == ACTIVE && k !in t.expired
            case _ => true
  {
  }

  /** Otherwise an idle entry gets a worker, and a busy one is accounted for: with its speed, or as done. */
  lemma HandledEntry(e: Entry, canStart: bool, late: bool)
    requires After(e, canStart, late) != e
    ensures var e' := After(e, canStart, late);
            match StatusOf(e)
            case Idle => e' == Entry(ACTIVE, true)
            case Busy =>
              if e.speed > 0 then StatusOf(e') == Usable && e'.speed == e.speed
              else StatusOf(e') == Useless && e'.speed == DONE
            case _ => false
  {
  }

  // ----- where a speed comes from -----------------------------------------------------------------

  ghost predicate Reported(turns: seq<Turn>, r: Report) {
    exists t, k :: 0 <= t < |turns| && 0 <= k < |turns[t].reports| && r in turns[t].reports[k]
  }

  ghost predicate FailureReported(turns: seq<Turn>, i: nat) {
    exists v: nat :: Reported(turns, Report(i, false, v))
  }

  ghost predicate Expired(turns: seq<Turn>, i: nat) {
    exists t :: 0 <= t < |turns| && i in turns[t].expired
  }

  /** What can have become of entry i, which had the initial speed. */
  ghost predicate Explained(turns: seq<Turn>, i: nat, initial: int, speed: int) {
    if initial != 0 then speed == initial
    else
      || speed == 0 || speed == ACTIVE
      || (speed > 0 && Reported(turns, Report(i, true, speed - 1)))
      || (speed == ERROR && FailureReported(turns, i))
      || (speed == DONE && (FailureReported(turns, i) || Expired(turns, i)))
  }

  ghost predicate AllExplained(turns: seq<Turn>, initial: seq<int>, es: seq<Entry>) {
    && |es| == |initial|
    && forall i :: 0 <= i < |es| ==> initial[i] >= 0 && Explained(turns, i, initial[i], es[i].speed)
  }

  lemma ToldExplained(turns: seq<Turn>, initial: seq<int>, es: seq<Entry>, r: Report)
    requires AllExplained(turns, initial, es) && Reported(turns, r)
    ensures AllExplained(turns, initial, Told(es, r))
  {
    if r.entry < |es| && es[r.entry].speed == ACTIVE {
      assert !r.ok ==> Reported(turns, Report(r.entry, false, r.speed));
    }
  }

  lemma {:induction false} ToldAllExplained(turns: seq<Turn>, initial: seq<int>, es: seq<Entry>, rs: seq<Report>)
    requires AllExplained(turns, initial, es) && forall r :: r in rs ==> Reported(turns, r)
    ensures AllExplained(turns, initial, ToldAll(es, rs))
    decreases |rs|
  {
    if rs != [] {
      assert rs[0] in rs && forall r :: r in rs[1..] ==> r in rs;
      ToldExplained(turns, initial, es, rs[0]);
      ToldAllExplained(turns, initial, Told(es, rs[0]), rs[1..]);
    }
  }

  lemma {:induction false} SeenExplained(turns: seq<Turn>, initial: seq<int>, es: seq<Entry>, t: nat, k: nat)
    requires AllExplained(turns, initial, es) && t < |turns|
    ensures AllExplained(turns, initial, Seen(es, turns[t].reports, k))
  {
    if k > 0 {
      SeenExplained(turns, initial, es, t, k - 1);
    }
    ToldAllExplained(turns, initial, if k == 0 then es else Seen(es, turns[t].reports, k - 1),
                     Batch(turns[t].reports, k));
  }

  /** A scan that acts on entry i, or on none, starting from es and ending with es'. */
  lemma ScanExplained(
      turns: seq<Turn>, initial: seq<int>, es: seq<Entry>, es': seq<Entry>, t: nat, i: nat, canStart: bool)
    requires AllExplained(turns, initial, es) && t < |turns| && i <= |es| == |es'|
    requires 0 < i == |es| ==> es' == Seen(es, turns[t].reports, i - 1)
    requires i < |es| ==>
               var seen := Seen(es, turns[t].reports, i);
               es' == seen[i := After(seen[i], canStart, i in turns[t].expired)]
    ensures AllExplained(turns, initial, es')
  {
    if i < |es| {
      SeenExplained(turns, initial, es, t, i);
      AfterExplained(turns, initial, Seen(es, turns[t].reports, i), t, i, canStart);
    } else if i > 0 {
      SeenExplained(turns, initial, es, t, i - 1);
    }
  }

  lemma AfterExplained(turns: seq<Turn>, initial: seq<int>, es: seq<Entry>, t: nat, i: nat, canStart: bool)
    requires AllExplained(turns, initial, es) && t < |turns| && i < |es|
    ensures AllExplained(turns, initial, es[i := After(es[i], canStart, i in turns[t].expired)])
  {
  }

  class Search {
    const threads: nat
    const results: array<Entry>
    var running: int
    var done: int
    var correct: int

    ghost predicate Accounted()
      reads this, results
    {
      && running == Count(results[..], Busy)
      && correct == Count(results[..], Usable)
      && done == Count(results[..], Usable) + Count(results[..], Useless)
    }

    ghost predicate Valid()
      reads this, results
    {
      Accounted() && running <= threads
    }

    constructor (threads: nat, speeds: seq<nat>)
      ensures this.threads == threads && fresh(results) && results.Length == |speeds|
      ensures forall i :: 0 <= i < |speeds| ==> results[i].speed == speeds[i]
    {
      this.threads := threads;
      results := new Entry[|speeds|](i requires 0 <= i < |speeds| => Entry(speeds[i], true));
      running, done, correct := 0, 0, 0;
    }

    /** The first loop: entries that already have a speed are counted. */
    method CountKnown()
      requires forall i :: 0 <= i < results.Length ==> results[i].speed >= 0
      modifies this, results
      ensures Valid()
      ensures running == 0 && forall i :: 0 <= i < results.Length ==> results[i].speed == old(results[i].speed)
    {
      running, done, correct := 0, 0, 0;
      for i := 0 to results.Length
        invariant running == 0 == Count(results[..i], Busy)
        invariant correct == done == Count(results[..i], Usable)
        invariant Count(results[..i], Useless) == 0
        invariant forall k :: 0 <= k < results.Length ==> results[k].speed == old(results[k].speed)
      {
        if results[i].speed != 0 {
          results[i] := results[i].(started := false);
          done := done + 1;
          if results[i].speed > 0 {
            correct := correct + 1;
          }
        }
        assert results[..i + 1] == results[..i] + [results[i]];
        CountSnoc(results[..i], results[i], Busy);
        CountSnoc(results[..i], results[i], Usable);
        CountSnoc(results[..i], results[i], Useless);
      }
      assert results[..results.Length] == results[..];
    }

    /** Store an entry and move the accounts by the given amounts. */
    method Set(i: nat, e: Entry, dRunning: int, dDone: int, dCorrect: int)
      requires Valid() && i < results.Length
      requires dRunning == Bit(StatusOf(e) == Busy) - Bit(StatusOf(results[i]) == Busy)
      requires dCorrect == Bit(StatusOf(e) == Usable) - Bit(StatusOf(results[i]) == Usable)
      requires dDone == dCorrect + Bit(StatusOf(e) == Useless) - Bit(StatusOf(results[i]) == Useless)
      requires running + dRunning <= threads
      modifies this, results
      ensures Valid() && results[..] == old(results[..])[i := e]
      ensures running == old(running) + dRunning && done == old(done) + dDone
    {
      ghost var before := results[..];
      CountUpdate(before, i, e, Busy);
      CountUpdate(before, i, e, Usable);
      CountUpdate(before, i, e, Useless);
      results[i] := e;
      assert results[..] == before[i := e];
      running := running + dRunning;
      done := done + dDone;
      correct := correct + dCorrect;
    }

    /** search_speedtest ends: a speed of at least 1, or an error. */
    method Worker(r: Report)
      requires Valid()
      modifies this, results
      ensures Valid() && results[..] == Told(old(results[..]), r)
      ensures running == old(running) && done == old(done)
    {
      if r.entry < results.Length && results[r.entry].speed == ACTIVE && results[r.entry].started {
        Set(r.entry, results[r.entry].(speed := if r.ok then 1 + r.speed else ERROR), 0, 0, 0);
      }
    }

    method Workers(rs: seq<Report>)
      requires Valid()
      modifies this, results
      ensures Valid() && results[..] == ToldAll(old(results[..]), rs)
      ensures running == old(running) && done == old(done)
    {
      for i := 0 to |rs|
        invariant Valid() && running == old(running) && done == old(done)
        invariant ToldAll(results[..], rs[i..]) == ToldAll(old(results[..]), rs)
      {
        assert rs[i..][1..] == rs[i + 1..];
        Worker(rs[i]);
      }
    }

    /** Handle an entry if there is something to do. */
    method Act(i: nat, late: bool) returns (acted: bool)
      requires Valid() && i < results.Length
      modifies this, results
      ensures Valid()
      ensures var e := old(results[i]);
              var e' := After(e, old(running) < threads, late);
              acted == (e' != e) && results[..] == old(results[..])[i := e']
      ensures running + 2 * done == old(running + 2 * done) + (if acted then 1 else 0)
      ensures !acted ==> running == old(running)
    {
      acted := true;
      var e := results[i];
      if running < threads && e.speed == 0 {
        Set(i, Entry(ACTIVE, true), 1, 0, 0);
      } else if e.speed == ACTIVE && late {
        Set(i, e.(speed := DONE), -1, 1, 0);
      } else if e.speed > 0 && e.started {
        Set(i, e.(started := false), -1, 1, 1);
      } else if e.speed == ERROR {
        Set(i, e.(speed := DONE), -1, 1, 0);
      } else {
        acted := false;
        assert results[..] == old(results[..])[i := e];
      }
    }

    /** The reports in front of entry i, then the entry itself; `start` are the entries the scan began with. */
    method Look(i: nat, t: Turn, ghost start: seq<Entry>) returns (acted: bool)
      requires Valid() && i < results.Length == |start|
      requires results[..] == if i == 0 then start else Seen(start, t.reports, i - 1)
      modifies this, results
      ensures Valid() && acted == !Passed(start, t, old(running), threads, i)
      ensures !acted ==> running == old(running)
      ensures running + 2 * done == old(running + 2 * done) + (if acted then 1 else 0)
      ensures var es := Seen(start, t.reports, i);
              results[..] == if acted then es[i := After(es[i], old(running) < threads, i in t.expired)] else es
    {
      Workers(Batch(t.reports, i));
      ghost var es := Seen(start, t.reports, i);
      assert results[..] == es && results[i] == es[i] && es[i := es[i]] == es;
      acted := Act(i, i in t.expired);
    }

    /** One turn of the while loop: the first entry seen with something to do is handled, and no other. */
    method Scan(t: Turn) returns (i: nat)
      requires Valid()
      modifies this, results
      ensures Valid() && i <= results.Length
      ensures running + 2 * done == old(running + 2 * done) + (if i < results.Length then 1 else 0)
      ensures forall k :: 0 <= k < i ==> Passed(old(results[..]), t, old(running), threads, k)
      ensures 0 < i == results.Length ==> results[..] == Seen(old(results[..]), t.reports, i - 1)
      ensures i < results.Length ==>
                && !Passed(old(results[..]), t, old(running), threads, i)
                && var es := Seen(old(results[..]), t.reports, i);
                   results[..] == es[i := After(es[i], old(running) < threads, i in t.expired)]
    {
      i := 0;
      ghost var start := results[..];
      while i < results.Length
        invariant Valid() && i <= results.Length && running == old(running) && done == old(done)
        invariant results[..] == if i == 0 then start else Seen(start, t.reports, i - 1)
        invariant forall k :: 0 <= k < i ==> Passed(start, t, running, threads, k)
      {
        var acted := Look(i, t, start);
        if acted {
          return;
        }
        i := i + 1;
      }
    }

    /**
      search_getspeeds against any interleaving of reports and time-outs; it may
      still be waiting at the end. `acts` counts the scans that found something to
      do: two for each entry to be measured, and the search is finished.
    */
    method GetSpeeds(turns: seq<Turn>) returns (finished: bool, acts: nat)
      requires forall i :: 0 <= i < results.Length ==> results[i].speed >= 0
      modifies this, results
      ensures Valid()
      ensures Count(results[..], Idle) + running + done == results.Length
      ensures finished ==> correct == Positives(Speeds(results[..]))
      ensures finished ==> forall i :: 0 <= i < results.Length ==> results[i].speed != 0
      ensures forall i :: 0 <= i < results.Length && old(results[i].speed) > 0 ==>
                results[i].speed == old(results[i].speed)
      ensures finished ==> forall i :: 0 <= i < results.Length && old(results[i].speed) == 0 ==>
                if results[i].speed > 0 then Reported(turns, Report(i, true, results[i].speed - 1))
                else results[i].speed == DONE && (FailureReported(turns, i) || Expired(turns, i))
      ensures acts <= 2 * old(Count(results[..], Idle))
      ensures finished <==> acts == 2 * old(Count(results[..], Idle))
    {
      ghost var idle := Count(results[..], Idle);
      ghost var before := results[..];
      CountKnown();
      SameIdle(before, results[..]);
      CountsAddUp(results[..]);
      acts := 0;
      var t := 0;
      while done < results.Length && t < |turns|
        invariant Valid() && t <= |turns|
        invariant running + 2 * done == acts + 2 * (results.Length - idle)
        invariant AllExplained(turns, Speeds(before), results[..])
        decreases |turns| - t
      {
        ghost var start := results[..];
        ghost var canStart := running < threads;
        var i := Scan(turns[t]);
        ScanExplained(turns, Speeds(before), start, results[..], t, i, canStart);
        if i < results.Length {
          acts := acts + 1;
        }
        t := t + 1;
      }
      finished := done >= results.Length;
      CountsAddUp(results[..]);
      if finished {
        CountZero(results[..], Idle);
        CountZero(results[..], Busy);
        assert forall i :: 0 <= i < results.Length ==> StatusOf(results[..][i]) in {Usable, Useless};
        UsableArePositive(results[..]);
      }
    }
  }

  // ----- the ranking -----------------------------------------------------------------------

  /** search_sortlist_qsort on two speeds. */
  function Compare(a: int, b: int): int {
    if a < 0 && b > 0 then 1
    else if a > 0 && b < 0 then -1
    else if a < b then -1
    else if a > b then 1 else 0
  }

  /** The comparison is the other way round for the arguments the other way round, and 0 for equal speeds only. */
  lemma CompareTurns(a: int, b: int)
    ensures Compare(a, b) == -Compare(b, a) && (Compare(a, b) == 0 <==> a == b)
    ensures a > 0 && b < 0 ==> Compare(a, b) < 0
    ensures (a > 0) == (b > 0) && a < b ==> Compare(a, b) < 0
  {
  }

  ghost predicate OrderOn(s: seq<int>) {
    forall a, b, c :: a in s && b in s && c in s && Compare(a, b) <= 0 && Compare(b, c) <= 0 ==> Compare(a, c) <= 0
  }

  /** The comparator is transitive on a list exactly when it does not hold a zero beside both signs. */
  lemma OrderOnIff(s: seq<int>)
    ensures OrderOn(s) <==> !(0 in s && (exists n :: n in s && n < 0) && (exists p :: p in s && p > 0))
  {
    if 0 in s && (exists n :: n in s && n < 0) && (exists p :: p in s && p > 0) {
      var n :| n in s && n < 0;
      var p :| p in s && p > 0;
      assert Compare(n, 0) <= 0 && Compare(0, p) <= 0 && Compare(n, p) > 0;
    }
  }

  /** What qsort guarantees for neighbours. */
  ghost predicate Ranked(t: seq<int>) {
    forall i :: 0 <= i < |t| - 1 ==> Compare(t[i], t[i + 1]) <= 0
  }

  lemma {:induction false} RankedPairs(t: seq<int>, i: nat, j: nat)
    requires Ranked(t) && 0 !in t && i < j < |t|
    ensures Compare(t[i], t[j]) <= 0
    decreases j - i
  {
    if i + 1 < j {
      RankedPairs(t, i, j - 1);
      assert Compare(t[j - 1], t[j - 1 + 1]) <= 0;
      assert t[i] in t && t[j - 1] in t && t[j] in t;
    }
  }

  lemma {:induction false} PositivesConcat(s: seq<int>, t: seq<int>)
    ensures Positives(s + t) == Positives(s) + Positives(t)
  {
    if s == [] {
      assert s + t == t;
    } else {
      assert (s + t)[1..] == s[1..] + t;
      PositivesConcat(s[1..], t);
    }
  }

  lemma RemoveFromMultiset(a: seq<int>, x: int, b: seq<int>)
    ensures multiset(a + b) == multiset(a + ([x] + b)) - multiset{x}
  {
  }

  lemma RemoveFromPositives(a: seq<int>, x: int, b: seq<int>)
    ensures Positives(a + ([x] + b)) == Positives(a + b) + Bit(x > 0)
  {
    PositivesConcat(a, [x] + b);
    PositivesConcat([x], b);
    PositivesConcat(a, b);
    assert Positives([x]) == Bit(x > 0);
  }

  lemma SplitAt(t: seq<int>, j: nat)
    requires j < |t|
    ensures t == t[..j] + ([t[j]] + t[j + 1..])
  {
  }

  /** Sorting does not change how many speeds are positive. */
  lemma {:induction false} PositivesOfPermutation(s: seq<int>, t: seq<int>)
    requires multiset(s) == multiset(t)
    ensures Positives(s) == Positives(t)
    decreases |s|
  {
    if s == [] {
      assert |multiset(t)| == 0;
    } else {
      assert s[0] in multiset(t);
      var j :| 0 <= j < |t| && t[j] == s[0];
      var x, a, b := s[0], t[..j], t[j + 1..];
      SplitAt(t, j);
      RemoveFromMultiset(a, x, b);
      RemoveFromPositives(a, x, b);
      assert s == [x] + s[1..];
      PositivesOfPermutation(s[1..], a + b);
    }
  }

  lemma {:induction false} PositivesOfPrefix(t: seq<int>, k: nat)
    requires k <= |t|
    requires forall i :: 0 <= i < k ==> t[i] > 0
    requires forall i :: k <= i < |t| ==> t[i] < 0
    ensures Positives(t) == k
  {
    if t != [] {
      PositivesOfPrefix(t[1..], if k == 0 then 0 else k - 1);
    }
  }

  /** Behind a useless entry there are only useless ones. */
  lemma {:induction false} SignSplit(t: seq<int>, k: nat) returns (m: nat)
    requires Ranked(t) && 0 !in t && k <= |t|
    requires forall i :: 0 <= i < k ==> t[i] > 0
    ensures m <= |t|
    ensures forall i :: 0 <= i < m ==> t[i] > 0
    ensures forall i :: m <= i < |t| ==> t[i] < 0
    decreases |t| - k
  {
    if k < |t| && t[k] > 0 {
      m := SignSplit(t, k + 1);
    } else {
      m := k;
      forall i | m <= i < |t| ensures t[i] < 0 {
        assert t[i] in t;
        if m < i {
          RankedPairs(t, m, i);
        }
      }
    }
  }

  /**
    After a finished search, any arrangement qsort may produce has the usable
    mirrors first, fastest measure ascending, and exactly `correct` of them.
  */
  lemma UsableFirst(speeds: seq<int>, t: seq<int>)
    requires 0 !in speeds
    requires multiset(t) == multiset(speeds) && Ranked(t)
    ensures Positives(speeds) <= |t|
    ensures forall i :: 0 <= i < |t| ==> (t[i] > 0 <==> i < Positives(speeds))
    ensures forall i, j :: 0 <= i < j < Positives(speeds) ==> t[i] <= t[j]
  {
    forall x | x in t ensures x != 0 {
      assert x in multiset(t);
    }
    PositivesOfPermutation(speeds, t);
    var m := SignSplit(t, 0);
    PositivesOfPrefix(t, m);
    forall i, j | 0 <= i < j < m ensures t[i] <= t[j] {
      RankedPairs(t, i, j);
    }
  }
}
