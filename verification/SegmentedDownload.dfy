/**
  Axel's segmented download (test04 axel.c): the file is divided into one byte
  range per connection, each connection writes at its own cursor, may be cut off
  and set up again, and the download is ready when the bytes add up.
*/
module SegmentedDownload {
  import opened Wire
  import BlockFile

  // ----- axel_divide ------------------------------------------------------------------

  /** A byte range; empty when `last` is in front of `start`. */
  datatype Segment = Segment(start: int, last: int)

  /** First byte of segment i as the dividing loop produces it, for a share of q bytes. */
  function Start(q: nat, i: nat): nat {
    if i == 0 then 0 else if i == 1 then q else Start(q, i - 1) + q + 1
  }

  /** The ranges of n connections; the last one is cut at the end of the file. */
  function Divide(size: nat, n: nat): seq<Segment>
    requires n >= 1
  {
    var q := size / n;
    seq(n, i requires 0 <= i < n => Segment(Start(q, i), if i + 1 == n then size - 1 else Start(q, i + 1) - 1))
  }

  /** What a caller can check: the middle segments, one byte longer, leave room for the last one. */
  predicate LeavesRoom(size: nat, n: nat)
    requires n >= 1
  {
    n <= 2 || size / n + size % n >= n - 2
  }

  predicate Within(segs: seq<Segment>, i: nat, x: nat)
    requires i < |segs|
  {
    segs[i].start <= x <= segs[i].last
  }

  predicate Covered(segs: seq<Segment>, x: nat) {
    exists i: nat :: i < |segs| && Within(segs, i, x)
  }

  /** The segments stay inside the file and each byte lies in exactly one. */
  ghost predicate Tiles(size: nat, segs: seq<Segment>) {
    && (forall i: nat, x: nat :: i < |segs| && Within(segs, i, x) ==> x < size)
    && (forall x: nat :: x < size ==> Covered(segs, x))
    && (forall x: nat, i: nat, j: nat ::
          i < |segs| && j < |segs| && Within(segs, i, x) && Within(segs, j, x) ==> i == j)
  }

  /**
    What every division gives: each segment begins where the one before ends. The
    last one ends with the file, but may begin behind it.
  */
  ghost predicate Chained(size: nat, segs: seq<Segment>) {
    && segs != []
    && segs[0].start == 0
    && segs[|segs| - 1].last == size - 1
    && (forall i {:trigger segs[i].last} :: 0 <= i < |segs| - 1 ==>
          segs[i].start <= segs[i].last + 1 && segs[i + 1].start == segs[i].last + 1)
  }

  /** The tiling, as the proofs use it. */
  ghost predicate Exact(size: nat, segs: seq<Segment>) {
    Chained(size, segs) && segs[|segs| - 1].start <= size
  }

  lemma {:induction false} StartClosed(q: nat, i: nat)
    requires i >= 1
    ensures Start(q, i) == q * i + i - 1
  {
    if i > 1 {
      StartClosed(q, i - 1);
      assert q * i == q * (i - 1) + q;
    }
  }

  /** The room condition says where the last segment starts. */
  lemma LastStart(size: nat, n: nat)
    requires n >= 1
    ensures LeavesRoom(size, n) <==> Start(size / n, n - 1) <= size
  {
    BlockFile.DivMod(size, n);
    if n >= 2 {
      var q := size / n;
      StartClosed(q, n - 1);
      assert n * q == q * (n - 1) + q;
    }
  }

  lemma {:induction false} StartGrows(q: nat, i: nat)
    ensures Start(q, i) <= Start(q, i + 1)
  {
  }

  lemma DivideChained(size: nat, n: nat)
    requires n >= 1
    ensures Chained(size, Divide(size, n))
    ensures Divide(size, n)[n - 1].start == Start(size / n, n - 1)
  {
    var q, segs := size / n, Divide(size, n);
    forall i {:trigger segs[i].last} | 0 <= i < n - 1
      ensures segs[i].start <= segs[i].last + 1 && segs[i + 1].start == segs[i].last + 1
    {
      StartGrows(q, i);
      assert segs[i + 1].start == Start(q, i + 1);
    }
  }

  lemma DivideExact(size: nat, n: nat)
    requires n >= 1 && LeavesRoom(size, n)
    ensures Exact(size, Divide(size, n))
  {
    DivideChained(size, n);
    LastStart(size, n);
  }

  /** Starts and ends do not decrease in front of the last segment. */
  lemma {:induction false} ChainGrows(size: nat, segs: seq<Segment>, i: nat, j: nat)
    requires Chained(size, segs) && i <= j < |segs|
    ensures segs[i].start <= segs[j].start
    ensures i < j ==> segs[i].last < segs[j].start
    decreases j - i
  {
    if i < j {
      assert segs[i + 1].start == segs[i].last + 1;
      ChainGrows(size, segs, i + 1, j);
    }
  }

  lemma {:induction false} FindSegment(size: nat, segs: seq<Segment>, x: nat, j: nat) returns (i: nat)
    requires Chained(size, segs) && j < |segs| && segs[j].start <= x < size
    ensures i < |segs| && Within(segs, i, x)
    decreases |segs| - j
  {
    if x <= segs[j].last {
      i := j;
    } else {
      assert segs[j + 1].start == segs[j].last + 1;
      i := FindSegment(size, segs, x, j + 1);
    }
  }

  lemma ExactTiles(size: nat, segs: seq<Segment>)
    requires Exact(size, segs)
    ensures Tiles(size, segs)
  {
    var n := |segs|;
    forall i: nat, x: nat | i < n && Within(segs, i, x) ensures x < size {
      ChainGrows(size, segs, i, n - 1);
    }
    forall x: nat | x < size ensures Covered(segs, x) {
      var i := FindSegment(size, segs, x, 0);
    }
    forall x: nat, i: nat, j: nat | i < n && j < n && Within(segs, i, x) && Within(segs, j, x) ensures i == j {
      ChainGrows(size, segs, if i < j then i else j, if i < j then j else i);
    }
  }

  /** Without room the segment before the last sticks out of the file. */
  lemma NoRoomSticksOut(size: nat, n: nat)
    requires n >= 1 && !LeavesRoom(size, n)
    ensures n >= 3 && Within(Divide(size, n), n - 2, Start(size / n, n - 1) - 1)
    ensures Start(size / n, n - 1) - 1 >= size
  {
    LastStart(size, n);
    StartGrows(size / n, n - 2);
  }

  /** The ranges tile the file exactly when the condition holds. */
  lemma TilesIff(size: nat, n: nat)
    requires n >= 1
    ensures Tiles(size, Divide(size, n)) <==> LeavesRoom(size, n)
  {
    if LeavesRoom(size, n) {
      DivideExact(size, n);
      ExactTiles(size, Divide(size, n));
    } else {
      NoRoomSticksOut(size, n);
    }
  }

  /** Sixteen connections for five bytes: the segments do not tile the file. */
  lemma SixteenForFive()
    ensures !Tiles(5, Divide(5, 16))
  {
    TilesIff(5, 16);
  }

  // ----- the state of a download ----------------------------------------------------------

  /**
    `position` is the next byte the server will send on an open connection;
    `inSetup` is the C field `state`.
  */
  datatype Conn = Conn(current: int, last: int, enabled: bool, inSetup: bool, position: int)

  datatype Ready = Running | Complete | Failed

  datatype Download = Download(conns: seq<Conn>, file: seq<Byte>, bytesDone: int, ready: Ready)

  /** What select and read report for one connection in one pass. */
  datatype Event = Quiet | TimedOut | ReadError | Closed | Readable(length: nat)

  function Disconnect(c: Conn): Conn { c.(enabled := false) }

  /** The bytes read returns: no more than the server still has. Zero bytes mean the end of the stream. */
  function Received(source: seq<Byte>, c: Conn, length: nat): seq<Byte> {
    if 0 <= c.position <= |source| then source[c.position..Min(|source|, c.position + length)] else []
  }

  /** Handling of one enabled connection in axel_do. */
  function HandleRead(source: seq<Byte>, d: Download, i: nat, length: nat): Download
    requires i < |d.conns|
  {
    var c := d.conns[i];
    var data := Received(source, c, length);
    if data == [] then d.(conns := d.conns[i := Disconnect(c)])
    else
      var remaining := c.last - c.current + 1;
      var c1 := c.(position := c.position + |data|);
      var c2 := if remaining < |data| then Disconnect(c1) else c1;
      var size := Min(remaining, |data|);
      if size < 0 || c.current < 0 then d.(conns := d.conns[i := c2], ready := Failed)
      else d.(conns := d.conns[i := c2.(current := c.current + size)],
              file := if size == 0 then d.file else BlockFile.WriteAt(d.file, c.current, data[..size]),
              bytesDone := d.bytesDone + size)
  }

  function Handle(source: seq<Byte>, d: Download, i: nat, e: Event): Download
    requires i < |d.conns|
  {
    if !d.conns[i].enabled then d
    else match e
      case Quiet => d
      case Readable(length) => HandleRead(source, d, i, length)
      case _ => d.(conns := d.conns[i := Disconnect(d.conns[i])])
  }

  /** The first loop of axel_do, from connection i on; a write error leaves it. */
  function HandleFrom(source: seq<Byte>, d: Download, events: seq<Event>, i: nat): Download
    requires |events| == |d.conns|
    decreases |events| - i
  {
    if i >= |d.conns| then d
    else
      var d' := Handle(source, d, i, events[i]);
      if d'.ready == Failed then d' else HandleFrom(source, d', events, i + 1)
  }

  /** The check for cut-off connections; `late`: the setup thread has had its time. */
  function Check(c: Conn, late: bool): Conn {
    if !c.enabled && c.current < c.last then
      if !c.inSetup then c.(inSetup := true) else if late then c.(inSetup := false) else c
    else c
  }

  function CheckAll(conns: seq<Conn>, late: seq<bool>): seq<Conn>
    requires |late| == |conns|
  {
    seq(|conns|, i requires 0 <= i < |conns| => Check(conns[i], late[i]))
  }

  /** One call of axel_do on a file of the given size. */
  function Pass(source: seq<Byte>, d: Download, events: seq<Event>, late: seq<bool>): Download
    requires |events| == |late| == |d.conns|
  {
    var d1 := HandleFrom(source, d, events, 0);
    if d1.ready != Running || |d1.conns| != |late| then d1
    else
      var d2 := d1.(conns := CheckAll(d1.conns, late));
      if d2.bytesDone == |source| then d2.(ready := Complete) else d2
  }

  /** The setup thread of connection i ends: the request starts at the cursor, or fails. */
  function SetupDone(d: Download, i: nat, ok: bool): Download
    requires i < |d.conns|
  {
    var c := d.conns[i];
    if !c.inSetup then d
    else if ok then d.(conns := d.conns[i := c.(enabled := true, inSetup := false, position := c.current)])
    else d.(conns := d.conns[i := c.(inSetup := false)])
  }

  // ----- the run invariant --------------------------------------------------------------------

  /** Bytes fetched by the connections from i on. */
  function FetchedFrom(segs: seq<Segment>, conns: seq<Conn>, i: nat): int
    requires |segs| == |conns|
    decreases |conns| - i
  {
    if i >= |conns| then 0
    else conns[i].current - segs[i].start + FetchedFrom(segs, conns, i + 1)
  }

  /** How far a cursor can get: to the end of its segment or of the file, and nowhere behind the file. */
  function End(size: nat, seg: Segment): int {
    Max(seg.start, Min(seg.last + 1, size))
  }

  /** A segment that begins behind its own end is never set up. */
  ghost predicate CursorInv(size: nat, seg: Segment, c: Conn) {
    && seg.start <= c.current <= End(size, seg)
    && c.last == seg.last
    && (c.enabled ==> c.position == c.current)
    && (c.enabled || c.inSetup ==> seg.start <= seg.last + 1)
  }

  predicate Same(source: seq<Byte>, file: seq<Byte>, x: int) {
    0 <= x < |file| && x < |source| && file[x] == source[x]
  }

  /** The bytes lo..hi-1 are on disk. */
  ghost predicate Fetched(source: seq<Byte>, file: seq<Byte>, lo: int, hi: int) {
    forall x :: lo <= x < hi ==> Same(source, file, x)
  }

  ghost predicate ConnsInv(size: nat, segs: seq<Segment>, conns: seq<Conn>) {
    |conns| == |segs| && forall i :: 0 <= i < |conns| ==> CursorInv(size, segs[i], conns[i])
  }

  ghost predicate FileInv(source: seq<Byte>, segs: seq<Segment>, conns: seq<Conn>, file: seq<Byte>)
    requires |conns| == |segs|
  {
    forall i :: 0 <= i < |conns| ==> Fetched(source, file, segs[i].start, conns[i].current)
  }

  ghost predicate Inv(source: seq<Byte>, segs: seq<Segment>, d: Download) {
    && Chained(|source|, segs)
    && ConnsInv(|source|, segs, d.conns)
    && FileInv(source, segs, d.conns, d.file)
    && d.bytesDone == FetchedFrom(segs, d.conns, 0)
    && (d.ready == Complete ==> d.bytesDone == |source|)
  }

  /** Replacing one connection changes the sum by the movement of its cursor. */
  lemma {:induction false} FetchedUpdate(segs: seq<Segment>, conns: seq<Conn>, i: nat, c: Conn, k: nat)
    requires |segs| == |conns| && i < |conns|
    ensures FetchedFrom(segs, conns[i := c], k) ==
            FetchedFrom(segs, conns, k) + (if k <= i then c.current - conns[i].current else 0)
    decreases |conns| - k
  {
    if k < |conns| {
      FetchedUpdate(segs, conns, i, c, k + 1);
    }
  }

  /** A write of source bytes keeps every part that was right and adds its own. */
  lemma WriteAdds(source: seq<Byte>, file: seq<Byte>, at: nat, size: nat, lo: int, hi: int)
    requires 1 <= size && at + size <= |source|
    requires Fetched(source, file, lo, hi)
    ensures var file' := BlockFile.WriteAt(file, at, source[at..at + size]);
            && |file'| >= |file|
            && Fetched(source, file', lo, hi)
            && Fetched(source, file', at, at + size)
  {
    var data := source[at..at + size];
    var file' := BlockFile.WriteAt(file, at, data);
    BlockFile.WriteAtBytes(file, at, data);
    forall x | at <= x < at + size ensures Same(source, file', x) {
      assert file'[at..at + size][x - at] == data[x - at];
    }
    forall x | lo <= x < hi ensures Same(source, file', x) {
      assert Same(source, file, x);
    }
  }

  lemma FetchedJoin(source: seq<Byte>, file: seq<Byte>, lo: int, mid: int, hi: int)
    requires Fetched(source, file, lo, mid) && Fetched(source, file, mid, hi)
    ensures Fetched(source, file, lo, hi)
  {
  }

  lemma SliceOfSlice(s: seq<Byte>, lo: nat, hi: nat, n: nat)
    requires lo + n <= hi <= |s|
    ensures s[lo..hi][..n] == s[lo..lo + n]
  {
  }

  lemma ReadCursor(source: seq<Byte>, d: Download, i: nat, length: nat)
    requires i < |d.conns| && d.ready == Running
    requires var c := d.conns[i]; 0 <= c.position == c.current <= c.last + 1
    ensures var c := d.conns[i];
            var d' := HandleRead(source, d, i, length);
            var size := d'.conns[i].current - c.current;
            && 0 <= size && c.current + size <= c.last + 1
            && (size > 0 ==> c.current + size <= |source|)
            && |d'.conns| == |d.conns|
            && d' == d.(conns := d.conns[i := d'.conns[i]], file := d'.file, bytesDone := d.bytesDone + size)
            && d'.conns[i].last == c.last && d'.conns[i].inSetup == c.inSetup
            && (d'.conns[i].enabled ==> d'.conns[i].position == d'.conns[i].current)
  {
  }

  lemma ReadFile(source: seq<Byte>, d: Download, i: nat, length: nat)
    requires i < |d.conns|
    requires var c := d.conns[i]; 0 <= c.position == c.current <= c.last + 1
    ensures var c := d.conns[i];
            var d' := HandleRead(source, d, i, length);
            var size := d'.conns[i].current - c.current;
            && 0 <= size && (size > 0 ==> c.current + size <= |source|)
            && d'.file == if size == 0 then d.file
                          else BlockFile.WriteAt(d.file, c.current, source[c.current..c.current + size])
  {
    var c := d.conns[i];
    var data := Received(source, c, length);
    var size := Min(c.last - c.current + 1, |data|);
    if size > 0 {
      SliceOfSlice(source, c.current, c.current + |data|, size);
    }
  }

  /** How far one read moves its cursor. */
  lemma ReadMoves(source: seq<Byte>, segs: seq<Segment>, d: Download, i: nat, length: nat)
    requires Inv(source, segs, d) && i < |d.conns| && d.conns[i].enabled && d.ready == Running
    ensures var c := d.conns[i];
            var d' := HandleRead(source, d, i, length);
            var size := d'.conns[i].current - c.current;
            && 0 <= c.current && 0 <= size && c.current + size <= segs[i].last + 1
            && (size > 0 ==> c.current + size <= |source|)
            && d' == d.(conns := d.conns[i := d'.conns[i]], file := d'.file, bytesDone := d.bytesDone + size)
            && CursorInv(|source|, segs[i], d'.conns[i])
            && d'.file == if size == 0 then d.file
                          else BlockFile.WriteAt(d.file, c.current, source[c.current..c.current + size])
  {
    assert CursorInv(|source|, segs[i], d.conns[i]);
    ChainGrows(|source|, segs, 0, i);
    ReadCursor(source, d, i, length);
    ReadFile(source, d, i, length);
  }

  /** A short, exact or over-long read keeps the invariant. */
  lemma HandleReadInv(source: seq<Byte>, segs: seq<Segment>, d: Download, i: nat, length: nat)
    requires Inv(source, segs, d) && i < |d.conns| && d.conns[i].enabled && d.ready == Running
    ensures Inv(source, segs, HandleRead(source, d, i, length))
  {
    var d' := HandleRead(source, d, i, length);
    ReadMoves(source, segs, d, i, length);
    FetchedUpdate(segs, d.conns, i, d'.conns[i], 0);
    var cur, size := d.conns[i].current, d'.conns[i].current - d.conns[i].current;
    if size > 0 {
      ReadKeepsFile(source, segs, d.conns, i, d'.conns[i], d.file);
    }
  }

  /** What connection i reads is on disk, and what the others had fetched stays there. */
  lemma ReadKeepsFile(source: seq<Byte>, segs: seq<Segment>, conns: seq<Conn>, i: nat, c: Conn, file: seq<Byte>)
    requires |segs| == |conns| && FileInv(source, segs, conns, file) && i < |conns|
    requires 0 <= conns[i].current < c.current <= |source|
    ensures FileInv(source, segs, conns[i := c],
                    BlockFile.WriteAt(file, conns[i].current, source[conns[i].current..c.current]))
  {
    var cur, size := conns[i].current, c.current - conns[i].current;
    var file' := BlockFile.WriteAt(file, cur, source[cur..c.current]);
    forall j | 0 <= j < |conns| ensures Fetched(source, file', segs[j].start, conns[i := c][j].current) {
      assert Fetched(source, file, segs[j].start, conns[j].current);
      WriteAdds(source, file, cur, size, segs[j].start, conns[j].current);
      if i == j {
        FetchedJoin(source, file', segs[j].start, cur, cur + size);
      }
    }
  }

  /** Changes of the flags of one connection keep the invariant. */
  lemma FlagsInv(source: seq<Byte>, segs: seq<Segment>, d: Download, i: nat, c: Conn)
    requires Inv(source, segs, d) && i < |d.conns|
    requires c.current == d.conns[i].current && c.last == d.conns[i].last
    requires c.enabled ==> c.position == c.current
    requires c.enabled || c.inSetup ==> segs[i].start <= segs[i].last + 1
    ensures Inv(source, segs, d.(conns := d.conns[i := c]))
  {
    FetchedUpdate(segs, d.conns, i, c, 0);
  }

  lemma HandleInv(source: seq<Byte>, segs: seq<Segment>, d: Download, i: nat, e: Event)
    requires Inv(source, segs, d) && i < |d.conns| && d.ready == Running
    ensures var d' := Handle(source, d, i, e);
            Inv(source, segs, d') && d'.ready == Running
  {
    assert CursorInv(|source|, segs[i], d.conns[i]);
    if d.conns[i].enabled {
      match e
      case Quiet =>
      case Readable(length) =>
        HandleReadInv(source, segs, d, i, length);
        ReadMoves(source, segs, d, i, length);
      case _ => FlagsInv(source, segs, d, i, Disconnect(d.conns[i]));
    }
  }

  lemma {:induction false} HandleFromInv(source: seq<Byte>, segs: seq<Segment>, d: Download, events: seq<Event>, i: nat)
    requires Inv(source, segs, d) && d.ready == Running && |events| == |d.conns|
    ensures var d' := HandleFrom(source, d, events, i);
            Inv(source, segs, d') && d'.ready == Running
    decreases |events| - i
  {
    if i < |d.conns| {
      HandleInv(source, segs, d, i, events[i]);
      HandleFromInv(source, segs, Handle(source, d, i, events[i]), events, i + 1);
    }
  }

  lemma {:induction false} FetchedSame(segs: seq<Segment>, conns: seq<Conn>, conns': seq<Conn>, k: nat)
    requires |segs| == |conns| == |conns'|
    requires forall i :: 0 <= i < |conns| ==> conns'[i].current == conns[i].current
    ensures FetchedFrom(segs, conns', k) == FetchedFrom(segs, conns, k)
    decreases |conns| - k
  {
    if k < |conns| {
      FetchedSame(segs, conns, conns', k + 1);
    }
  }

  lemma CheckAllInv(source: seq<Byte>, segs: seq<Segment>, d: Download, late: seq<bool>)
    requires Inv(source, segs, d) && |late| == |d.conns|
    ensures Inv(source, segs, d.(conns := CheckAll(d.conns, late)))
  {
    FetchedSame(segs, d.conns, CheckAll(d.conns, late), 0);
  }

  lemma CheckInv(source: seq<Byte>, segs: seq<Segment>, d: Download, i: nat, isLate: bool)
    requires Inv(source, segs, d) && i < |d.conns|
    ensures Inv(source, segs, d.(conns := d.conns[i := Check(d.conns[i], isLate)]))
  {
    assert CursorInv(|source|, segs[i], d.conns[i]);
    FlagsInv(source, segs, d, i, Check(d.conns[i], isLate));
  }

  /**
    One call of axel_do keeps the invariant, through short and over-long reads,
    errors, time-outs and reconnects, and its write-error exit is never taken.
  */
  lemma PassInv(source: seq<Byte>, segs: seq<Segment>, d: Download, events: seq<Event>, late: seq<bool>)
    requires Inv(source, segs, d) && d.ready == Running && |events| == |late| == |d.conns|
    ensures Inv(source, segs, Pass(source, d, events, late))
    ensures Pass(source, d, events, late).ready != Failed
  {
    HandleFromInv(source, segs, d, events, 0);
    CheckAllInv(source, segs, HandleFrom(source, d, events, 0), late);
  }

  lemma SetupDoneInv(source: seq<Byte>, segs: seq<Segment>, d: Download, i: nat, ok: bool)
    requires Inv(source, segs, d) && i < |d.conns|
    ensures Inv(source, segs, SetupDone(d, i, ok))
  {
    var c := d.conns[i];
    if c.inSetup {
      assert CursorInv(|source|, segs[i], c);
      FlagsInv(source, segs, d, i,
        if ok then c.(enabled := true, inSetup := false, position := c.current) else c.(inSetup := false));
    }
  }

  // ----- completion ------------------------------------------------------------------------------

  /** The segments from i on hold at most what is left of the file, and all of it only with every cursor at its end. */
  lemma {:induction false} FetchedBound(size: nat, segs: seq<Segment>, conns: seq<Conn>, i: nat)
    requires Chained(size, segs) && ConnsInv(size, segs, conns) && i < |conns|
    ensures FetchedFrom(segs, conns, i) <= Max(0, size - segs[i].start)
    ensures FetchedFrom(segs, conns, i) == Max(0, size - segs[i].start) ==>
              forall j :: i <= j < |conns| ==> conns[j].current == End(size, segs[j])
    decreases |conns| - i
  {
    assert CursorInv(size, segs[i], conns[i]);
    if i + 1 < |conns| {
      FetchedBound(size, segs, conns, i + 1);
      assert segs[i].start <= segs[i].last + 1 && segs[i + 1].start == segs[i].last + 1;
    } else {
      assert FetchedFrom(segs, conns, i + 1) == 0;
    }
  }

  /** When the bytes add up to the size, the whole source is on disk. */
  lemma CompleteIsCorrect(source: seq<Byte>, segs: seq<Segment>, d: Download)
    requires Inv(source, segs, d) && d.bytesDone == |source|
    ensures |source| <= |d.file| && d.file[..|source|] == source
  {
    FetchedBound(|source|, segs, d.conns, 0);
    forall x: nat | x < |source| ensures Same(source, d.file, x) {
      var i := FindSegment(|source|, segs, x, 0);
      assert d.conns[i].current == End(|source|, segs[i]);
      assert Fetched(source, d.file, segs[i].start, d.conns[i].current);
    }
    if |source| > 0 {
      assert Same(source, d.file, |source| - 1);
    }
    forall x: nat | x < |source| ensures d.file[x] == source[x] {
      assert Same(source, d.file, x);
    }
  }

  // ----- runs ---------------------------------------------------------------------------------------

  /**
    Setup: a setup thread ends. Call: axel_do from beginning to end, when no setup
    thread ends meanwhile; otherwise its parts one by one, the handling of one
    connection, the check of one connection and the test at the end.
  */
  datatype Action =
    | Call(events: seq<Event>, late: seq<bool>)
    | Setup(i: nat, ok: bool)
    | Handling(i: nat, e: Event)
    | Checking(i: nat, isLate: bool)
    | Testing

  predicate Enabled(d: Download, a: Action) {
    && d.ready == Running
    && match a
       case Call(events, late) => |events| == |late| == |d.conns|
       case Setup(i, _) => i < |d.conns|
       case Handling(i, _) => i < |d.conns|
       case Checking(i, _) => i < |d.conns|
       case Testing => true
  }

  function Apply(source: seq<Byte>, d: Download, a: Action): Download
    requires Enabled(d, a)
  {
    match a
    case Call(events, late) => Pass(source, d, events, late)
    case Setup(i, ok) => SetupDone(d, i, ok)
    case Handling(i, e) => Handle(source, d, i, e)
    case Checking(i, isLate) => d.(conns := d.conns[i := Check(d.conns[i], isLate)])
    case Testing => if d.bytesDone == |source| then d.(ready := Complete) else d
  }

  ghost predicate IsRun(source: seq<Byte>, d: Download, actions: seq<Action>, t: Download)
    decreases |actions|
  {
    if actions == [] then d == t
    else Enabled(d, actions[0]) && IsRun(source, Apply(source, d, actions[0]), actions[1..], t)
  }

  /** axel_start: every connection with something to fetch gets a setup thread. */
  function Launch(conns: seq<Conn>): seq<Conn> {
    seq(|conns|, i requires 0 <= i < |conns| =>
      conns[i].(enabled := false, inSetup := conns[i].current <= conns[i].last))
  }

  /** The connections as axel_divide leaves them. */
  function Divided(segs: seq<Segment>): seq<Conn> {
    seq(|segs|, i requires 0 <= i < |segs| => Conn(segs[i].start, segs[i].last, false, false, 0))
  }

  /** A download started from scratch on a file that may already exist. */
  function Fresh(segs: seq<Segment>, file: seq<Byte>): Download {
    Download(Launch(Divided(segs)), file, 0, Running)
  }

  /** What lies behind the first n bytes. */
  function Tail(file: seq<Byte>, n: nat): seq<Byte> {
    if |file| > n then file[n..] else []
  }

  /** Cursors only advance, and nothing behind the end of the source is touched. */
  ghost predicate Advances(source: seq<Byte>, d: Download, t: Download) {
    && |t.conns| == |d.conns|
    && (forall i :: 0 <= i < |d.conns| ==> d.conns[i].current <= t.conns[i].current)
    && Tail(t.file, |source|) == Tail(d.file, |source|)
  }

  lemma {:induction false} NothingFetched(segs: seq<Segment>, conns: seq<Conn>, k: nat)
    requires |segs| == |conns|
    requires forall i :: k <= i < |conns| ==> conns[i].current == segs[i].start
    ensures FetchedFrom(segs, conns, k) == 0
    decreases |conns| - k
  {
    if k < |conns| {
      NothingFetched(segs, conns, k + 1);
    }
  }

  lemma FreshInv(source: seq<Byte>, segs: seq<Segment>, file: seq<Byte>)
    requires Chained(|source|, segs)
    ensures Inv(source, segs, Fresh(segs, file))
  {
    NothingFetched(segs, Launch(Divided(segs)), 0);
  }

  lemma WriteKeepsTail(source: seq<Byte>, file: seq<Byte>, at: nat, size: nat)
    requires size > 0 && at + size <= |source|
    ensures Tail(BlockFile.WriteAt(file, at, source[at..at + size]), |source|) == Tail(file, |source|)
  {
    BlockFile.WriteAtBytes(file, at, source[at..at + size]);
  }

  lemma HandleAdvances(source: seq<Byte>, segs: seq<Segment>, d: Download, i: nat, e: Event)
    requires Inv(source, segs, d) && i < |d.conns| && d.ready == Running
    ensures Advances(source, d, Handle(source, d, i, e))
  {
    if d.conns[i].enabled && e.Readable? {
      ReadMoves(source, segs, d, i, e.length);
      ReadAdvances(source, d, i, HandleRead(source, d, i, e.length));
    }
  }

  lemma ReadAdvances(source: seq<Byte>, d: Download, i: nat, d': Download)
    requires i < |d.conns| && |d'.conns| == |d.conns|
    requires var cur, size := d.conns[i].current, d'.conns[i].current - d.conns[i].current;
             && 0 <= cur && 0 <= size && (size > 0 ==> cur + size <= |source|)
             && d' == d.(conns := d.conns[i := d'.conns[i]], file := d'.file, bytesDone := d.bytesDone + size)
             && d'.file == if size == 0 then d.file else BlockFile.WriteAt(d.file, cur, source[cur..cur + size])
    ensures Advances(source, d, d')
  {
    var cur, size := d.conns[i].current, d'.conns[i].current - d.conns[i].current;
    if size > 0 {
      WriteKeepsTail(source, d.file, cur, size);
    }
    OneCursorAdvances(source, d, i, d'.conns[i], d'.file, d'.bytesDone);
  }

  lemma OneCursorAdvances(source: seq<Byte>, d: Download, i: nat, c: Conn, file: seq<Byte>, bytesDone: int)
    requires i < |d.conns| && d.conns[i].current <= c.current
    requires Tail(file, |source|) == Tail(d.file, |source|)
    ensures Advances(source, d, d.(conns := d.conns[i := c], file := file, bytesDone := bytesDone))
  {
  }

  lemma {:induction false} HandleFromAdvances(
      source: seq<Byte>, segs: seq<Segment>, d: Download, events: seq<Event>, i: nat)
    requires Inv(source, segs, d) && d.ready == Running && |events| == |d.conns|
    ensures Advances(source, d, HandleFrom(source, d, events, i))
    decreases |events| - i
  {
    if i < |d.conns| {
      HandleInv(source, segs, d, i, events[i]);
      HandleAdvances(source, segs, d, i, events[i]);
      HandleFromAdvances(source, segs, Handle(source, d, i, events[i]), events, i + 1);
    }
  }

  lemma StepInv(source: seq<Byte>, segs: seq<Segment>, d: Download, a: Action)
    requires Inv(source, segs, d) && Enabled(d, a)
    ensures Inv(source, segs, Apply(source, d, a)) && Apply(source, d, a).ready != Failed
    ensures Advances(source, d, Apply(source, d, a))
  {
    match a
    case Call(events, late) =>
      PassInv(source, segs, d, events, late);
      HandleFromAdvances(source, segs, d, events, 0);
    case Setup(i, ok) => SetupDoneInv(source, segs, d, i, ok);
    case Handling(i, e) =>
      HandleInv(source, segs, d, i, e);
      HandleAdvances(source, segs, d, i, e);
    case Checking(i, isLate) => CheckInv(source, segs, d, i, isLate);
    case Testing =>
  }

  lemma {:induction false} RunInv(source: seq<Byte>, segs: seq<Segment>, d: Download, actions: seq<Action>, t: Download)
    requires Inv(source, segs, d) && d.ready != Failed && IsRun(source, d, actions, t)
    ensures Inv(source, segs, t) && t.ready != Failed
    ensures Advances(source, d, t)
    decreases |actions|
  {
    if actions != [] {
      StepInv(source, segs, d, actions[0]);
      RunInv(source, segs, Apply(source, d, actions[0]), actions[1..], t);
    }
  }

  // ----- a call is its parts ------------------------------------------------------------------------

  function Handlings(events: seq<Event>, i: nat): seq<Action>
    decreases |events| - i
  {
    if i >= |events| then [] else [Handling(i, events[i])] + Handlings(events, i + 1)
  }

  function Checkings(late: seq<bool>, i: nat): seq<Action>
    decreases |late| - i
  {
    if i >= |late| then [] else [Checking(i, late[i])] + Checkings(late, i + 1)
  }

  lemma RunCons(source: seq<Byte>, d: Download, a: Action, rest: seq<Action>, t: Download)
    requires Enabled(d, a) && IsRun(source, Apply(source, d, a), rest, t)
    ensures IsRun(source, d, [a] + rest, t)
  {
    assert ([a] + rest)[1..] == rest;
  }

  lemma ConsAppend(xs: seq<Action>, ys: seq<Action>)
    requires xs != []
    ensures [xs[0]] + (xs[1..] + ys) == xs + ys
  {
  }

  lemma {:induction false} RunConcat(
      source: seq<Byte>, d: Download, xs: seq<Action>, m: Download, ys: seq<Action>, t: Download)
    requires IsRun(source, d, xs, m) && IsRun(source, m, ys, t)
    ensures IsRun(source, d, xs + ys, t)
    decreases |xs|
  {
    if xs == [] {
      assert xs + ys == ys;
    } else {
      RunConcat(source, Apply(source, d, xs[0]), xs[1..], m, ys, t);
      RunCons(source, d, xs[0], xs[1..] + ys, t);
      ConsAppend(xs, ys);
    }
  }

  lemma {:induction false} HandlingsRun(
      source: seq<Byte>, segs: seq<Segment>, d: Download, events: seq<Event>, i: nat)
    requires Inv(source, segs, d) && d.ready == Running && |events| == |d.conns|
    ensures IsRun(source, d, Handlings(events, i), HandleFrom(source, d, events, i))
    decreases |events| - i
  {
    if i < |events| {
      var d1 := Handle(source, d, i, events[i]);
      HandleInv(source, segs, d, i, events[i]);
      HandleAdvances(source, segs, d, i, events[i]);
      HandlingsRun(source, segs, d1, events, i + 1);
      RunCons(source, d, Handling(i, events[i]), Handlings(events, i + 1), HandleFrom(source, d, events, i));
    }
  }

  /** The checks from connection i on. */
  function CheckFrom(conns: seq<Conn>, late: seq<bool>, i: nat): (r: seq<Conn>)
    requires |late| == |conns|
    ensures |r| == |conns|
    ensures forall k :: 0 <= k < |conns| ==> r[k] == if k < i then conns[k] else Check(conns[k], late[k])
    decreases |late| - i
  {
    if i >= |late| then conns else CheckFrom(conns[i := Check(conns[i], late[i])], late, i + 1)
  }

  lemma {:induction false} CheckingsRun(source: seq<Byte>, d: Download, late: seq<bool>, i: nat)
    requires d.ready == Running && |late| == |d.conns|
    ensures IsRun(source, d, Checkings(late, i), d.(conns := CheckFrom(d.conns, late, i)))
    decreases |late| - i
  {
    if i < |late| {
      var d1 := d.(conns := d.conns[i := Check(d.conns[i], late[i])]);
      CheckingsRun(source, d1, late, i + 1);
      RunCons(source, d, Checking(i, late[i]), Checkings(late, i + 1), d.(conns := CheckFrom(d.conns, late, i)));
    }
  }

  /** A whole call is the run of its parts. */
  lemma CallIsItsParts(source: seq<Byte>, segs: seq<Segment>, d: Download, events: seq<Event>, late: seq<bool>)
    requires Inv(source, segs, d) && d.ready == Running && |events| == |late| == |d.conns|
    ensures IsRun(source, d, (Handlings(events, 0) + Checkings(late, 0)) + [Testing], Pass(source, d, events, late))
  {
    var d1 := HandleFrom(source, d, events, 0);
    HandleFromInv(source, segs, d, events, 0);
    HandlingsRun(source, segs, d, events, 0);
    var d2 := d1.(conns := CheckFrom(d1.conns, late, 0));
    assert CheckFrom(d1.conns, late, 0) == CheckAll(d1.conns, late);
    CheckingsRun(source, d1, late, 0);
    RunConcat(source, d, Handlings(events, 0), d1, Checkings(late, 0), d2);
    var d3 := Apply(source, d2, Testing);
    assert IsRun(source, d3, [Testing][1..], d3);
    RunConcat(source, d, Handlings(events, 0) + Checkings(late, 0), d2, [Testing], d3);
  }

  lemma CompleteFile(source: seq<Byte>, segs: seq<Segment>, d: Download, file: seq<Byte>)
    requires Inv(source, segs, d) && d.ready == Complete
    requires Tail(d.file, |source|) == Tail(file, |source|)
    ensures d.file == source + Tail(file, |source|)
  {
    CompleteIsCorrect(source, segs, d);
    assert d.file == d.file[..|source|] + d.file[|source|..];
  }

  /**
    Every run, for any number of connections, that reports completion has written
    the source, followed by whatever a longer old file held behind it. This holds
    also when the segments do not tile the file: nothing is received behind its
    end.
  */
  lemma CompleteRun(source: seq<Byte>, n: nat, file: seq<Byte>, actions: seq<Action>, t: Download)
    requires n >= 1
    requires IsRun(source, Fresh(Divide(|source|, n), file), actions, t)
    ensures t.ready != Failed
    ensures t.ready == Complete ==> t.file == source + Tail(file, |source|)
  {
    var segs := Divide(|source|, n);
    DivideChained(|source|, n);
    FreshInv(source, segs, file);
    RunInv(source, segs, Fresh(segs, file), actions, t);
    if t.ready == Complete {
      CompleteFile(source, segs, t, file);
    }
  }
}
