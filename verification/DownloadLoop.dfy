/**
  Axel's code over its array of connections: axel_divide, axel_open, axel_start
  and axel_do, proved to compute the functions of SegmentedDownload and
  ResumeState.
*/
module DownloadLoop {
  import opened Wire
  import BlockFile
  import opened SegmentedDownload
  import ResumeState

  class Axel {
    const size: nat
    var conns: array<Conn>
    var file: seq<Byte>
    var bytesDone: int
    var ready: Ready

    ghost function View(): Download
      reads this, conns
    {
      Download(conns[..], file, bytesDone, ready)
    }

    constructor (size: nat, n: nat, file: seq<Byte>)
      ensures this.size == size && conns.Length == n && fresh(conns)
      ensures this.file == file && bytesDone == 0 && ready == Running
    {
      this.size := size;
      conns := new Conn[n](_ => Conn(0, 0, false, false, 0));
      this.file := file;
      bytesDone := 0;
      ready := Running;
    }

    /** axel_divide */
    method DivideFile()
      requires conns.Length >= 1
      modifies conns
      ensures forall i :: 0 <= i < conns.Length ==>
                conns[i] == old(conns[i]).(current := Divide(size, conns.Length)[i].start,
                                           last := Divide(size, conns.Length)[i].last)
    {
      var n := conns.Length;
      var q := size / n;
      conns[0] := conns[0].(current := 0, last := q - 1);
      for i := 1 to n
        invariant forall k :: 0 <= k < i ==>
                    conns[k] == old(conns[k]).(current := Start(q, k), last := Start(q, k + 1) - 1)
        invariant forall k :: i <= k < n ==> conns[k] == old(conns[k])
      {
        var first := conns[i - 1].last + 1;
        conns[i] := conns[i].(current := first, last := first + q);
      }
      conns[n - 1] := conns[n - 1].(last := size - 1);
    }

    /** The cursors that can be read, and axel_start. */
    method Restore(words: seq<int>)
      modifies conns
      ensures forall k :: 0 <= k < conns.Length ==>
                var c := old(conns[k]).(current := if 2 + k < |words| then words[2 + k] else old(conns[k].current));
                conns[k] == c.(enabled := false, inSetup := c.current <= c.last)
    {
      for i := 0 to conns.Length
        invariant forall k :: 0 <= k < i ==>
                    var c := old(conns[k]).(current := if 2 + k < |words| then words[2 + k] else old(conns[k].current));
                    conns[k] == c.(enabled := false, inSetup := c.current <= c.last)
        invariant forall k :: i <= k < conns.Length ==> conns[k] == old(conns[k])
      {
        if 2 + i < |words| {
          conns[i] := conns[i].(current := words[2 + i]);
        }
        conns[i] := conns[i].(enabled := false, inSetup := conns[i].current <= conns[i].last);
      }
    }

    /** axel_open with a state file of which `words` could be read, then axel_start. */
    method Open(configured: nat, words: seq<int>)
      requires configured >= 1 && (words != [] ==> words[0] >= 1) && ready == Running
      modifies this
      ensures fresh(conns)
      ensures View() == ResumeState.Resume(size, configured, words, old(file))
    {
      var n := if words == [] then configured else words[0];
      conns := new Conn[n](_ => Conn(0, 0, false, false, 0));
      DivideFile();
      bytesDone := if |words| >= 2 then words[1] else 0;
      Restore(words);
      assert conns[..] == ResumeState.Resume(size, configured, words, file).conns;
    }

    /** One enabled connection in the first loop of axel_do. */
    method HandleConnection(source: seq<Byte>, i: nat, e: Event)
      requires i < conns.Length
      modifies this, conns
      ensures conns == old(conns)
      ensures View() == Handle(source, old(View()), i, e)
    {
      var c := conns[i];
      if !c.enabled || e == Quiet {
        assert View() == old(View());
        return;
      }
      if !e.Readable? {
        conns[i] := Disconnect(c);
        return;
      }
      var data := Received(source, c, e.length);
      if data == [] {
        conns[i] := Disconnect(c);
        return;
      }
      var length: int := |data|;
      var remaining := c.last - c.current + 1;
      c := c.(position := c.position + |data|);
      if remaining < length {
        c := Disconnect(c);
        length := remaining;
      }
      if length < 0 || c.current < 0 {
        ready := Failed;
      } else {
        if length > 0 {
          file := BlockFile.WriteAt(file, c.current, data[..length]);
        }
        c := c.(current := c.current + length);
        bytesDone := bytesDone + length;
      }
      conns[i] := c;
    }

    /** axel_do */
    method Do(source: seq<Byte>, events: seq<Event>, late: seq<bool>)
      requires |events| == |late| == conns.Length && ready == Running && |source| == size
      modifies this, conns
      ensures conns == old(conns)
      ensures View() == Pass(source, old(View()), events, late)
    {
      var i := 0;
      while i < conns.Length && ready != Failed
        invariant conns == old(conns) && 0 <= i <= conns.Length
        invariant ready != Failed ==>
                    HandleFrom(source, View(), events, i) == HandleFrom(source, old(View()), events, 0)
        invariant ready == Failed ==> View() == HandleFrom(source, old(View()), events, 0)
        decreases conns.Length - i
      {
        HandleConnection(source, i, events[i]);
        i := i + 1;
      }
      if ready != Running {
        return;
      }
      label L0:
      ghost var before := conns[..];
      for j := 0 to conns.Length
        invariant conns == old(conns) && unchanged@L0(this)
        invariant forall k :: 0 <= k < j ==> conns[k] == Check(before[k], late[k])
        invariant forall k :: j <= k < conns.Length ==> conns[k] == before[k]
      {
        conns[j] := Check(conns[j], late[j]);
      }
      assert conns[..] == CheckAll(before, late);
      if bytesDone == size {
        ready := Complete;
      }
    }
  }
}
