/**
  Crash and resume (save_state and axel_open in test04 axel.c): the state file
  holds the number of connections, the byte total and one cursor per connection.
  A download with its state file is a transition system of its own, in which the
  program may save, be cut off while saving, crash and be started again, any
  number of times.
*/
module ResumeState {
  import opened Wire
  import opened SegmentedDownload

  /** save_state: one word per write. */
  function Save(d: Download): seq<int> {
    [|d.conns|, d.bytesDone] + Cursors(d.conns)
  }

  function Cursors(conns: seq<Conn>): seq<int> {
    seq(|conns|, i requires 0 <= i < |conns| => conns[i].current)
  }

  /**
    axel_open, when `words` can be read from the state file: divide anew for the
    stored number of connections, then overwrite the total and as many cursors as
    there are. If not even the first word can be read, the configured number
    stays and everything starts from scratch, as without a state file. axel_start
    follows.
  */
  function Resume(size: nat, configured: nat, words: seq<int>, file: seq<Byte>): Download
    requires configured >= 1 && (words != [] ==> words[0] >= 1)
  {
    var conns := Divided(Divide(size, if words == [] then configured else words[0]));
    var restored := seq(|conns|, i requires 0 <= i < |conns| =>
      if 2 + i < |words| then conns[i].(current := words[2 + i]) else conns[i]);
    Download(Launch(restored), file, if |words| >= 2 then words[1] else 0, Running)
  }

  /** The cursors of d up to `known`, the segment starts behind it. */
  ghost predicate KnownCursors(segs: seq<Segment>, d: Download, r: Download, known: nat) {
    && |r.conns| == |segs| == |d.conns|
    && forall i :: 0 <= i < |segs| ==>
         r.conns[i].current == (if i < known then d.conns[i].current else segs[i].start) &&
         r.conns[i].last == segs[i].last && !r.conns[i].enabled &&
         (r.conns[i].inSetup <==> r.conns[i].current <= r.conns[i].last)
  }

  /** A cursor that an earlier moment had reached is still covered by a later file. */
  lemma RestoredFile(source: seq<Byte>, segs: seq<Segment>, d: Download, later: Download, r: Download, known: nat)
    requires Inv(source, segs, d) && Inv(source, segs, later) && Advances(source, d, later)
    requires KnownCursors(segs, d, r, known) && r.file == later.file
    ensures ConnsInv(|source|, segs, r.conns) && FileInv(source, segs, r.conns, r.file)
  {
    forall i | 0 <= i < |segs|
      ensures CursorInv(|source|, segs[i], r.conns[i])
      ensures Fetched(source, r.file, segs[i].start, r.conns[i].current)
    {
      assert CursorInv(|source|, segs[i], d.conns[i]);
      assert Fetched(source, later.file, segs[i].start, later.conns[i].current);
    }
  }

  /** The sum over restored cursors is the sum over the known part. */
  lemma {:induction false} RestoredSum(segs: seq<Segment>, d: Download, r: Download, known: nat, k: nat)
    requires KnownCursors(segs, d, r, known)
    ensures FetchedFrom(segs, r.conns, k) ==
            FetchedFrom(segs, d.conns, k) - FetchedFrom(segs, d.conns, if k > known then k else known)
    decreases |segs| - k
  {
    if k < |segs| {
      RestoredSum(segs, d, r, known, k + 1);
    }
  }

  lemma SavedWords(d: Download)
    ensures |Save(d)| == |d.conns| + 2 && Save(d)[0] == |d.conns| && Save(d)[1] == d.bytesDone
    ensures forall i :: 0 <= i < |d.conns| ==> Save(d)[2 + i] == d.conns[i].current
  {
  }

  /** Started again with the first words of a state file. */
  function ResumeCut(size: nat, configured: nat, d: Download, words: nat, file: seq<Byte>): Download
    requires configured >= 1 && |d.conns| >= 1 && words <= |d.conns| + 2
  {
    SavedWords(d);
    Resume(size, configured, Save(d)[..words], file)
  }

  function Known(words: nat): nat { if words >= 2 then words - 2 else 0 }

  lemma ResumeKnows(size: nat, n: nat, configured: nat, d: Download, file: seq<Byte>, words: nat)
    requires n >= 1 && configured >= 1 && |d.conns| == n && 1 <= words <= n + 2
    ensures var r := ResumeCut(size, configured, d, words, file);
            && KnownCursors(Divide(size, n), d, r, Known(words))
            && r.file == file && r.ready == Running
            && r.bytesDone == if words >= 2 then d.bytesDone else 0
  {
    SavedWords(d);
    var segs, read := Divide(size, n), Save(d)[..words];
    var r := ResumeCut(size, configured, d, words, file);
    forall i | 0 <= i < n
      ensures r.conns[i].current == (if i < Known(words) then d.conns[i].current else segs[i].start)
      ensures r.conns[i].last == segs[i].last && !r.conns[i].enabled
      ensures r.conns[i].inSetup <==> r.conns[i].current <= r.conns[i].last
    {
      assert i < Known(words) ==> read[2 + i] == Save(d)[2 + i];
    }
  }

  lemma ResumeEmpty(size: nat, configured: nat, file: seq<Byte>)
    requires configured >= 1
    ensures Resume(size, configured, [], file) == Fresh(Divide(size, configured), file)
  {
    var r, anew := Resume(size, configured, [], file), Fresh(Divide(size, configured), file);
    forall i | 0 <= i < configured ensures r.conns[i] == anew.conns[i] {
    }
    assert r.conns == anew.conns;
  }

  // ----- one crash ---------------------------------------------------------------------

  /**
    The file is truncated and then written word by word, so save_state can leave
    only its first words. Harmless: at most the number of connections made it, or
    the connections whose cursors are missing had fetched nothing.
  */
  predicate Harmless(size: nat, n: nat, d: Download, words: nat)
    requires n >= 1 && |d.conns| == n
  {
    words <= 1 || FetchedFrom(Divide(size, n), d.conns, words - 2) == 0
  }

  /** Exactly the harmless state files re-establish the run invariant. */
  lemma TornStateIff(source: seq<Byte>, n: nat, configured: nat, d: Download, later: Download, words: nat)
    requires n >= 1 && configured >= 1 && |d.conns| == n && words <= n + 2
    requires Inv(source, Divide(|source|, n), d) && Inv(source, Divide(|source|, n), later)
    requires Advances(source, d, later)
    ensures Inv(source, Divide(|source|, if words == 0 then configured else n),
                ResumeCut(|source|, configured, d, words, later.file)) <==>
            Harmless(|source|, n, d, words)
  {
    if words == 0 {
      ResumeEmpty(|source|, configured, later.file);
      assert Save(d)[..0] == [];
      DivideChained(|source|, configured);
      FreshInv(source, Divide(|source|, configured), later.file);
    } else {
      var segs := Divide(|source|, n);
      ResumeKnows(|source|, n, configured, d, later.file, words);
      var r := ResumeCut(|source|, configured, d, words, later.file);
      RestoredFile(source, segs, d, later, r, Known(words));
      RestoredSum(segs, d, r, Known(words), 0);
    }
  }

  lemma NoneBehind(segs: seq<Segment>, d: Download)
    requires |segs| == |d.conns|
    ensures FetchedFrom(segs, d.conns, |segs|) == 0
  {
  }

  /**
    A complete state file written at any moment of the download restores the
    cursors and the total and re-establishes the run invariant, even though the
    output file may hold bytes fetched after it was written.
  */
  lemma ResumeRestores(source: seq<Byte>, n: nat, configured: nat, d: Download, later: Download)
    requires n >= 1 && configured >= 1 && |d.conns| == n
    requires Inv(source, Divide(|source|, n), d) && Inv(source, Divide(|source|, n), later)
    requires Advances(source, d, later)
    ensures Save(d) != [] && Save(d)[0] == n
    ensures var r := Resume(|source|, configured, Save(d), later.file);
            && Inv(source, Divide(|source|, n), r)
            && Cursors(r.conns) == Cursors(d.conns) && r.bytesDone == d.bytesDone
  {
    WholeSave(d);
    NoneBehind(Divide(|source|, n), d);
    TornStateIff(source, n, configured, d, later, n + 2);
    ResumeKnows(|source|, n, configured, d, later.file, n + 2);
    SameCursors(Divide(|source|, n), d, Resume(|source|, configured, Save(d), later.file));
  }

  lemma WholeSave(d: Download)
    ensures |Save(d)| == |d.conns| + 2 && Save(d)[..|d.conns| + 2] == Save(d)
  {
    SavedWords(d);
  }

  lemma SameCursors(segs: seq<Segment>, d: Download, r: Download)
    requires KnownCursors(segs, d, r, |segs|)
    ensures Cursors(r.conns) == Cursors(d.conns)
  {
  }

  // ----- any number of crashes ------------------------------------------------------------

  /** A download of n connections, and the words in its state file; none also when there is no file. */
  datatype World = World(n: nat, d: Download, saved: seq<int>)

  /**
    SaveFirst(words): save_state writes so many words before it ends or is cut
    off. StartAgain: the program ends, for whatever reason, and is started again with
    a configured number of connections.
  */
  datatype Incident = Work(a: Action) | SaveFirst(words: nat) | StartAgain(configured: nat)

  ghost predicate CanHappen(source: seq<Byte>, w: World, e: Incident) {
    match e
    case Work(a) => SegmentedDownload.Enabled(w.d, a)
    case SaveFirst(words) =>
      w.n >= 1 && |w.d.conns| == w.n && words <= w.n + 2 && Harmless(|source|, w.n, w.d, words)
    case StartAgain(configured) => configured >= 1 && (w.saved != [] ==> w.saved[0] >= 1)
  }

  ghost function Happen(source: seq<Byte>, w: World, e: Incident): World
    requires CanHappen(source, w, e)
  {
    match e
    case Work(a) => w.(d := SegmentedDownload.Apply(source, w.d, a))
    case SaveFirst(words) =>
      SavedWords(w.d);
      w.(saved := Save(w.d)[..words])
    case StartAgain(configured) =>
      World(if w.saved == [] then configured else w.saved[0],
            Resume(|source|, configured, w.saved, w.d.file), w.saved)
  }

  /** The state file was written, as far as it goes, at a moment d0 that the download has not fallen behind. */
  ghost predicate WrittenAt(source: seq<Byte>, w: World, d0: Download, words: nat)
    requires w.n >= 1
  {
    && |d0.conns| == w.n && 1 <= words <= w.n + 2 && |Save(d0)| == w.n + 2
    && w.saved == Save(d0)[..words]
    && Inv(source, Divide(|source|, w.n), d0)
    && Advances(source, d0, w.d)
    && Harmless(|source|, w.n, d0, words)
  }

  ghost predicate WorldInv(source: seq<Byte>, file: seq<Byte>, w: World) {
    && w.n >= 1
    && Inv(source, Divide(|source|, w.n), w.d)
    && w.d.ready != Failed
    && Tail(w.d.file, |source|) == Tail(file, |source|)
    && (w.saved == [] || exists d0, words :: WrittenAt(source, w, d0, words))
  }

  lemma WorkInv(source: seq<Byte>, file: seq<Byte>, w: World, a: Action)
    requires WorldInv(source, file, w) && CanHappen(source, w, Work(a))
    ensures WorldInv(source, file, Happen(source, w, Work(a)))
  {
    StepInv(source, Divide(|source|, w.n), w.d, a);
    var w' := Happen(source, w, Work(a));
    if w.saved != [] {
      var d0, words :| WrittenAt(source, w, d0, words);
      assert WrittenAt(source, w', d0, words);
    }
  }

  lemma SaveInv(source: seq<Byte>, file: seq<Byte>, w: World, words: nat)
    requires WorldInv(source, file, w) && CanHappen(source, w, SaveFirst(words))
    ensures WorldInv(source, file, Happen(source, w, SaveFirst(words)))
  {
    SavedWords(w.d);
    var w' := Happen(source, w, SaveFirst(words));
    if words > 0 {
      assert WrittenAt(source, w', w.d, words);
    }
  }

  lemma {:induction false} NothingFetchedBehind(size: nat, segs: seq<Segment>, conns: seq<Conn>, k: nat)
    requires ConnsInv(size, segs, conns)
    ensures FetchedFrom(segs, conns, k) >= 0
    ensures FetchedFrom(segs, conns, k) == 0 ==> forall i :: k <= i < |conns| ==> conns[i].current == segs[i].start
    decreases |conns| - k
  {
    if k < |conns| {
      assert CursorInv(size, segs[k], conns[k]);
      NothingFetchedBehind(size, segs, conns, k + 1);
    }
  }

  /** The resumed download has not fallen behind the moment of its state file. */
  lemma ResumeAdvances(source: seq<Byte>, w: World, configured: nat, d0: Download, words: nat)
    requires w.n >= 1 && configured >= 1 && WrittenAt(source, w, d0, words) && words >= 2
    ensures w.saved != [] && w.saved[0] == w.n
    ensures Advances(source, d0, Resume(|source|, configured, w.saved, w.d.file))
  {
    ResumeKnows(|source|, w.n, configured, d0, w.d.file, words);
    NothingFetchedBehind(|source|, Divide(|source|, w.n), d0.conns, words - 2);
  }

  lemma StartAgainInv(source: seq<Byte>, file: seq<Byte>, w: World, configured: nat)
    requires WorldInv(source, file, w) && configured >= 1
    ensures CanHappen(source, w, StartAgain(configured))
    ensures WorldInv(source, file, Happen(source, w, StartAgain(configured)))
  {
    if w.saved == [] {
      ResumeEmpty(|source|, configured, w.d.file);
      DivideChained(|source|, configured);
      FreshInv(source, Divide(|source|, configured), w.d.file);
    } else {
      var d0, words :| WrittenAt(source, w, d0, words);
      TornStateIff(source, w.n, configured, d0, w.d, words);
      ResumeKnows(|source|, w.n, configured, d0, w.d.file, words);
      var w' := Happen(source, w, StartAgain(configured));
      if words >= 2 {
        ResumeAdvances(source, w, configured, d0, words);
        assert WrittenAt(source, w', d0, words);
      } else {
        FirstWordAgain(source, w', d0);
      }
    }
  }

  /** Of a state file with the first word alone any moment will do. */
  lemma FirstWordAgain(source: seq<Byte>, w: World, d0: Download)
    requires w.n >= 1 && |d0.conns| == |w.d.conns| == w.n && w.saved == Save(d0)[..1]
    requires Inv(source, Divide(|source|, w.n), w.d)
    ensures WrittenAt(source, w, w.d, 1)
  {
    SavedWords(d0);
    SavedWords(w.d);
    assert w.saved == [w.n] == Save(w.d)[..1];
  }

  ghost predicate IsHistory(source: seq<Byte>, w: World, events: seq<Incident>, t: World)
    decreases |events|
  {
    if events == [] then w == t
    else CanHappen(source, w, events[0]) && IsHistory(source, Happen(source, w, events[0]), events[1..], t)
  }

  lemma {:induction false} HistoryInv(source: seq<Byte>, file: seq<Byte>, w: World, events: seq<Incident>, t: World)
    requires WorldInv(source, file, w) && IsHistory(source, w, events, t)
    ensures WorldInv(source, file, t)
    decreases |events|
  {
    if events != [] {
      match events[0] {
        case Work(a) => WorkInv(source, file, w, a);
        case SaveFirst(words) => SaveInv(source, file, w, words);
        case StartAgain(configured) => StartAgainInv(source, file, w, configured);
      }
      HistoryInv(source, file, Happen(source, w, events[0]), events[1..], t);
    }
  }

  /**
    However often a download is saved, cut off while saving (harmlessly), crashed
    and resumed, with any number of connections each time: when it reports
    completion, the file is right.
  */
  lemma CrashAndResume(source: seq<Byte>, n: nat, file: seq<Byte>, events: seq<Incident>, t: World)
    requires n >= 1
    requires IsHistory(source, World(n, Fresh(Divide(|source|, n), file), []), events, t)
    ensures t.d.ready != Failed
    ensures t.d.ready == Complete ==> t.d.file == source + Tail(file, |source|)
  {
    DivideChained(|source|, n);
    FreshInv(source, Divide(|source|, n), file);
    HistoryInv(source, file, World(n, Fresh(Divide(|source|, n), file), []), events, t);
    if t.d.ready == Complete {
      CompleteFile(source, Divide(|source|, t.n), t.d, file);
    }
  }
}
