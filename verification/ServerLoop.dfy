/**
  The body of the server's send loop (server/main.c) over its real objects: the
  session record and the block reader, tied to the server steps of the
  transition system.
*/
module ServerLoop {
  import opened Wire
  import opened BlockFile
  import opened Transfer
  import opened RateControl

  class SendLoop {
    const p: Params
    const session: ServerSession
    const reader: BlockReader
    var running: bool

    ghost predicate Valid()
      reads this, session, reader
    {
      && ValidParams(p) && ValidParameters(session.p)
      && session.p.blockCount == BlockCount(p.layout)
      && reader.l == p.layout && reader.Valid()
    }

    ghost function View(): Server
      reads this, session, reader
    {
      Server(session.block, reader.buffer, running)
    }

    constructor (p: Params, rate: RateControl.Parameters)
      requires ValidParams(p) && ValidParameters(rate) && rate.blockCount == BlockCount(p.layout)
      ensures Valid() && this.p == p && session.p == rate && View() == Init(p).server
    {
      this.p := p;
      session := new ServerSession(rate);
      reader := new BlockReader(p.layout);
      running := true;
      new;
      assert reader.buffer == Init(p).server.buffer;
    }

    /** No complete request: build and send the next block. */
    method SendNext(ghost s: System) returns (d: Datagram)
      requires Valid() && View() == s.server
      modifies session, reader
      ensures Valid() && session.ipdCurrent == old(session.ipdCurrent)
      ensures BlockCount(p.layout) >= 1
      ensures var s' := ServerSends(p, s);
              View() == s'.server && s.net + [d] == s'.net && s'.back == s.back
    {
      LastBlockEnds(p.layout);
      session.block := Min(session.block + 1, session.p.blockCount);
      var kind := if session.block == session.p.blockCount then Terminate else Original;
      reader.Build(session.block);
      d := Datagram(session.block, kind, reader.buffer);
    }

    /** A complete request: stop, or act on it; a retransmission goes out at once. */
    method HandleRequest(r: Request, ghost s: System) returns (sent: seq<Datagram>)
      requires Valid() && View() == s.server && s.back != [] && s.back[0] == r
      requires r.Retransmit? ==> 1 <= r.block <= BlockCount(p.layout)
      modifies this, session, reader
      ensures Valid()
      ensures var s' := ServerHandles(p, s);
              View() == s'.server && s.net + sent == s'.net
      ensures session.ipdCurrent ==
              if r.ErrorRate? then Adjust(session.p, old(session.ipdCurrent), r.rate) else old(session.ipdCurrent)
    {
      sent := [];
      if r == Stop {
        running := false;
      } else {
        var ok, resend := session.AcceptRetransmit(r);
        if r.Retransmit? {
          reader.Build(r.block);
          sent := [Datagram(r.block, Retransmission, reader.buffer)];
        }
      }
      assert s.net + [] == s.net;
    }
  }
}
