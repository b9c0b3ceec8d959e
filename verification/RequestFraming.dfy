/**
  The back-channel as bytes: how the client lays out a request, and how the
  server's send loop (server/main.c) reassembles requests from a TCP stream
  that may arrive in any pieces, sending file blocks in between.
*/
module RequestFraming {
  import opened Wire

  /** sizeof(retransmission_t): a 16-bit type, two bytes of padding, two 32-bit words. */
  const RECORD_SIZE: nat := 12

  const REQUEST_RETRANSMIT: nat := 0
  const REQUEST_RESTART: nat := 1
  const REQUEST_STOP: nat := 2
  const REQUEST_ERROR_RATE: nat := 3

  datatype Parsed = Known(request: Request) | UnknownType(code: nat)

  // ----- network byte order -----------------------------------------------------

  function PutU16(n: nat): seq<Byte>
    requires n < 0x1_0000
  {
    [n / 256, n % 256]
  }

  function GetU16(s: seq<Byte>): nat
    requires |s| == 2
  {
    256 * (s[0] as int) + s[1] as int
  }

  function PutU32(n: nat): seq<Byte>
    requires n < 0x1_0000_0000
  {
    PutU16(n / 0x1_0000) + PutU16(n % 0x1_0000)
  }

  function GetU32(s: seq<Byte>): nat
    requires |s| == 4
  {
    0x1_0000 * GetU16(s[..2]) + GetU16(s[2..])
  }

  lemma U32RoundTrip(n: nat)
    requires n < 0x1_0000_0000
    ensures GetU32(PutU32(n)) == n
  {
    var s := PutU32(n);
    assert s[..2] == PutU16(n / 0x1_0000);
    assert s[2..] == PutU16(n % 0x1_0000);
  }

  // ----- one record -------------------------------------------------------------------

  function TypeOf(r: Request): nat {
    match r
    case Retransmit(_) => REQUEST_RETRANSMIT
    case Restart(_) => REQUEST_RESTART
    case Stop => REQUEST_STOP
    case ErrorRate(_) => REQUEST_ERROR_RATE
  }

  ghost predicate Fits(r: Request) {
    match r
    case Retransmit(b) => b < 0x1_0000_0000
    case Restart(b) => b < 0x1_0000_0000
    case Stop => true
    case ErrorRate(e) => e < 0x1_0000_0000
  }

  /** The record the client writes: cleared, then filled in network byte order. */
  function Encode(r: Request): (s: seq<Byte>)
    requires Fits(r)
    ensures |s| == RECORD_SIZE
  {
    PutU16(TypeOf(r)) + [0, 0] +
    PutU32(match r case Retransmit(b) => b case Restart(b) => b case _ => 0) +
    PutU32(if r.ErrorRate? then r.rate else 0)
  }

  function Decode(s: seq<Byte>): Parsed
    requires |s| == RECORD_SIZE
  {
    var code := GetU16(s[..2]);
    if code == REQUEST_RETRANSMIT then Known(Retransmit(GetU32(s[4..8])))
    else if code == REQUEST_RESTART then Known(Restart(GetU32(s[4..8])))
    else if code == REQUEST_STOP then Known(Stop)
    else if code == REQUEST_ERROR_RATE then Known(ErrorRate(GetU32(s[8..12])))
    else UnknownType(code)
  }

  lemma EncodeParts(r: Request)
    requires Fits(r)
    ensures var s := Encode(r);
            && s[..2] == PutU16(TypeOf(r))
            && s[4..8] == PutU32(match r case Retransmit(b) => b case Restart(b) => b case _ => 0)
            && s[8..12] == PutU32(if r.ErrorRate? then r.rate else 0)
  {
  }

  lemma RequestRoundTrip(r: Request)
    requires Fits(r)
    ensures Decode(Encode(r)) == Known(r)
  {
    EncodeParts(r);
    match r
    case Retransmit(b) => U32RoundTrip(b);
    case Restart(b) => U32RoundTrip(b);
    case Stop =>
    case ErrorRate(e) => U32RoundTrip(e);
  }

  /** The twelve bytes of a record, most significant bytes first. */
  lemma RecordBytes(r: Request)
    requires Fits(r)
    ensures var b := match r case Retransmit(b) => b case Restart(b) => b case _ => 0;
            var e := if r.ErrorRate? then r.rate else 0;
            Encode(r) ==
            [0, if r.Retransmit? then 0 else if r.Restart? then 1 else if r.Stop? then 2 else 3, 0, 0,
             b / 0x100_0000, b / 0x1_0000 % 0x100, b / 0x100 % 0x100, b % 0x100,
             e / 0x100_0000, e / 0x1_0000 % 0x100, e / 0x100 % 0x100, e % 0x100]
  {
    U32Bytes(match r case Retransmit(b) => b case Restart(b) => b case _ => 0);
    U32Bytes(if r.ErrorRate? then r.rate else 0);
  }

  lemma U32Bytes(n: nat)
    requires n < 0x1_0000_0000
    ensures PutU32(n) == [n / 0x100_0000, n / 0x1_0000 % 0x100, n / 0x100 % 0x100, n % 0x100]
  {
    Quotients(n);
  }

  lemma Quotients(n: nat)
    requires n < 0x1_0000_0000
    ensures n / 0x1_0000 / 0x100 == n / 0x100_0000 < 0x100
    ensures n % 0x1_0000 / 0x100 == n / 0x100 % 0x100 && n % 0x1_0000 % 0x100 == n % 0x100
  {
    var high, low := n / 0x1_0000, n % 0x1_0000;
    assert n == 0x1_0000 * high + low;
    assert n / 0x100 == 0x100 * high + low / 0x100;
  }

  // ----- the stream ----------------------------------------------------------------------

  function EncodeAll(rs: seq<Request>): seq<Byte>
    requires forall i :: 0 <= i < |rs| ==> Fits(rs[i])
  {
    if rs == [] then [] else Encode(rs[0]) + EncodeAll(rs[1..])
  }

  /** The k-th consecutive record of a stream. */
  function Record(stream: seq<Byte>, k: nat): seq<Byte>
    requires RECORD_SIZE * (k + 1) <= |stream|
  {
    stream[RECORD_SIZE * k..RECORD_SIZE * (k + 1)]
  }

  lemma {:induction false} RecordOfEncodeAll(rs: seq<Request>, k: nat)
    requires forall i :: 0 <= i < |rs| ==> Fits(rs[i])
    requires k < |rs|
    ensures |EncodeAll(rs)| == RECORD_SIZE * |rs|
    ensures Record(EncodeAll(rs), k) == Encode(rs[k])
  {
    if |rs| > 1 {
      RecordOfEncodeAll(rs[1..], if k == 0 then 0 else k - 1);
    }
    if k > 0 {
      assert Record(EncodeAll(rs), k) == Record(EncodeAll(rs[1..]), k - 1);
    }
  }

  // ----- reassembly -------------------------------------------------------------------------

  ghost predicate IsStop(record: seq<Byte>) {
    |record| == RECORD_SIZE && GetU16(record[..2]) == REQUEST_STOP
  }

  class Reassembler {
    const record: array<Byte>
    var length: nat          // retransmitlen

    ghost predicate Valid()
      reads this
    {
      record.Length == RECORD_SIZE && length < RECORD_SIZE
    }

    constructor ()
      ensures Valid() && fresh(record) && length == 0
    {
      record := new Byte[RECORD_SIZE](_ => 0);
      length := 0;
    }

    /** read() into the rest of the record: n bytes arrive, possibly none. */
    method Read(bytes: seq<Byte>)
      requires Valid() && |bytes| <= RECORD_SIZE - length
      modifies this, record
      ensures length == old(length) + |bytes|
      ensures record.Length == RECORD_SIZE && record[..length] == old(record[..length]) + bytes
    {
      for i := 0 to |bytes|
        invariant length == old(length)
        invariant record[..length + i] == old(record[..length]) + bytes[..i]
      {
        record[length + i] := bytes[i];
      }
      length := length + |bytes|;
    }

    /**
      The send loop against a stream of which the i-th read returns at most
      arrivals[i] bytes. `handled` are the records acted upon, `sent` counts the
      turns that sent a file block instead. The "too long" branch is dead.
    */
    method Serve(stream: seq<Byte>, arrivals: seq<nat>)
      returns (handled: seq<seq<Byte>>, sent: nat, stopped: bool, consumed: nat)
      requires Valid() && length == 0
      modifies this, record
      ensures consumed <= |stream|
      ensures RECORD_SIZE * |handled| <= consumed < RECORD_SIZE * (|handled| + 1)
      ensures forall k :: 0 <= k < |handled| ==> handled[k] == Record(stream, k)
      ensures forall k :: 0 <= k < |handled| ==> (IsStop(handled[k]) <==> stopped && k == |handled| - 1)
      ensures stopped ==> handled != []
      ensures !stopped ==> |handled| + sent == |arrivals|
    {
      handled, sent, stopped, consumed := [], 0, false, 0;
      var turn := 0;
      while turn < |arrivals| && !stopped
        invariant Valid() && turn <= |arrivals| && consumed <= |stream|
        invariant !stopped ==> consumed == RECORD_SIZE * |handled| + length
        invariant !stopped ==> record[..length] == stream[RECORD_SIZE * |handled|..consumed]
        invariant stopped ==> handled != [] && consumed == RECORD_SIZE * |handled|
        invariant forall k :: 0 <= k < |handled| ==>
                    RECORD_SIZE * (k + 1) <= |stream| && handled[k] == Record(stream, k)
        invariant forall k :: 0 <= k < |handled| ==> (IsStop(handled[k]) <==> stopped && k == |handled| - 1)
        invariant !stopped ==> |handled| + sent == turn
        decreases |arrivals| - turn, !stopped
      {
        var n := Min(arrivals[turn], Min(RECORD_SIZE - length, |stream| - consumed));
        ghost var start := RECORD_SIZE * |handled|;
        Read(stream[consumed..consumed + n]);
        consumed := consumed + n;
        assert record[..length] == stream[start..consumed];
        if length == RECORD_SIZE {
          handled := handled + [record[..]];
          assert record[..] == record[..length];
          if GetU16(record[..2]) == REQUEST_STOP {
            stopped := true;
          }
          length := 0;
        } else if length < RECORD_SIZE {
          sent := sent + 1;
        } else {
          assert false;
        }
        turn := turn + 1;
      }
    }

    /** Requests written by the client come out one by one, in order, however TCP cuts them. */
    method ServeRequests(rs: seq<Request>, arrivals: seq<nat>) returns (handled: seq<Parsed>, read: nat)
      requires Valid() && length == 0
      requires forall i :: 0 <= i < |rs| ==> Fits(rs[i])
      modifies this, record
      ensures |handled| <= |rs| && RECORD_SIZE * |handled| <= read < RECORD_SIZE * (|handled| + 1)
      ensures forall k :: 0 <= k < |handled| ==> handled[k] == Known(rs[k])
    {
      var records, sent, stopped, consumed := Serve(EncodeAll(rs), arrivals);
      read := consumed;
      if rs != [] {
        RecordOfEncodeAll(rs, 0);
      }
      handled := [];
      for k := 0 to |records|
        invariant |handled| == k
        invariant forall i :: 0 <= i < k ==> handled[i] == Known(rs[i])
      {
        RecordOfEncodeAll(rs, k);
        RequestRoundTrip(rs[k]);
        handled := handled + [Decode(records[k])];
      }
    }
  }

  // ----- the heartbeat branch -------------------------------------------------------------------

  /** 100000 in the byte order of a little-endian host. */
  const RATE_BYTES: seq<Byte> := [0xA0, 0x86, 0x01, 0x00]

  /**
    What the heartbeat branch leaves in the shared record: an error-rate request
    over 100000, converted in place to a little-endian host's order; the padding
    is not written.
  */
  function AfterHeartbeat(record: seq<Byte>): seq<Byte>
    requires |record| == RECORD_SIZE
  {
    [0, 3] + record[2..4] + [0, 0, 0, 0] + RATE_BYTES
  }

  /** A request of which `length` bytes had been read when the heartbeat branch ran. */
  function Interrupted(r: Request, length: nat): seq<Byte>
    requires Fits(r) && length <= RECORD_SIZE
  {
    AfterHeartbeat(Encode(r))[..length] + Encode(r)[length..]
  }

  lemma U32Injective(a: seq<Byte>, b: seq<Byte>)
    requires |a| == |b| == 4 && GetU32(a) == GetU32(b)
    ensures a == b
  {
    assert a[..2] + a[2..] == a && b[..2] + b[2..] == b;
    U16Injective(a[..2], b[..2]);
    U16Injective(a[2..], b[2..]);
  }

  lemma U16Injective(a: seq<Byte>, b: seq<Byte>)
    requires |a| == |b| == 2
    ensures GetU16(a) < 0x1_0000
    ensures GetU16(a) == GetU16(b) ==> a == b
  {
  }

  /** The first bytes of a rate that already arrived are those the heartbeat writes. */
  predicate RateBytesAgree(rate: nat, read: nat)
    requires rate < 0x1_0000_0000 && read <= 4
  {
    PutU32(rate)[..read] == RATE_BYTES[..read]
  }

  /**
    Exactly when a heartbeat in the middle of a record is harmless: at most one
    byte had arrived, or the request was itself an error rate of which no byte
    that had arrived is changed. Otherwise an error-rate report takes its place.
  */
  lemma HeartbeatHarmlessIff(r: Request, length: nat)
    requires Fits(r) && length < RECORD_SIZE
    ensures Decode(Interrupted(r, length)) == Known(r) <==>
            length <= 1 || (r.ErrorRate? && (length <= 8 || RateBytesAgree(r.rate, length - 8)))
    ensures length >= 2 ==> Decode(Interrupted(r, length)).Known? && Decode(Interrupted(r, length)).request.ErrorRate?
  {
    RequestRoundTrip(r);
    EncodeParts(r);
    var s, h := Interrupted(r, length), AfterHeartbeat(Encode(r));
    if length <= 1 {
      assert h[..length] == Encode(r)[..length];
      assert s == Encode(r);
    } else {
      assert s[..2] == [0, 3];
      assert GetU16(s[..2]) == 3;
      if r.ErrorRate? {
        InterruptedRate(r, length);
      }
    }
  }

  /** The last word of a record of which the front was replaced. */
  lemma LastWord(h: seq<Byte>, e: seq<Byte>, length: nat)
    requires |h| == |e| == 12 && length <= 12
    ensures (h[..length] + e[length..])[8..12] ==
            if length <= 8 then e[8..12] else h[8..12][..length - 8] + e[8..12][length - 8..]
  {
  }

  lemma InterruptedRate(r: Request, length: nat)
    requires Fits(r) && r.ErrorRate? && 2 <= length < RECORD_SIZE
    ensures GetU32(Interrupted(r, length)[8..12]) == r.rate <==> length <= 8 || RateBytesAgree(r.rate, length - 8)
  {
    EncodeParts(r);
    U32RoundTrip(r.rate);
    var e, h := Encode(r), AfterHeartbeat(Encode(r));
    var rest := Interrupted(r, length)[8..12];
    LastWord(h, e, length);
    if length > 8 {
      var read := length - 8;
      assert h[8..12] == RATE_BYTES;
      assert PutU32(r.rate) == PutU32(r.rate)[..read] + PutU32(r.rate)[read..];
      if GetU32(rest) == r.rate {
        U32Injective(rest, PutU32(r.rate));
        assert rest[..read] == RATE_BYTES[..read];
      }
    }
  }
}
