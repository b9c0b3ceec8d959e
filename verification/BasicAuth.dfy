/**
  Basic authentication end to end: the client's Base64 loop (http_connect in
  final/client/ServerSide/http.c), the server's BASE64Decode and the split into
  user and password. Strings are C strings of bytes without their terminator.
*/
module BasicAuth {
  import opened Common

  type Text = seq<bv8>

  const COLON: bv8 := 58
  const EQUALS: bv8 := 61
  const CR: bv8 := 13
  const INVALID: bv8 := 0xFF     // (char)-1 in the digit table

  ghost predicate NulFree(s: Text) { 0 !in s }

  /** Text that stays in its line. */
  ghost predicate Plain(s: Text) { 0 !in s && CR !in s }

  /** Characters the client's signed arithmetic handles. */
  ghost predicate Ascii(s: Text) { forall i :: 0 <= i < |s| ==> 0 < s[i] < 128 }

  // ----- digits ---------------------------------------------------------------------

  /** base64_encode[v] */
  function Digit(v: bv8): bv8 {
    if v < 26 then 65 + v
    else if v < 52 then 97 + (v - 26)
    else if v < 62 then 48 + (v - 52)
    else if v == 62 then 43 else 47
  }

  /** base64_digits[c]: zero for every character that is not a digit, -1 for '='. */
  function DigitValue(c: bv8): bv8 {
    if 65 <= c <= 90 then c - 65
    else if 97 <= c <= 122 then c - 97 + 26
    else if 48 <= c <= 57 then c - 48 + 52
    else if c == 43 then 62
    else if c == 47 then 63
    else if c == EQUALS then INVALID else 0
  }

  lemma DigitRoundTrip(v: bv8)
    requires v < 64
    ensures DigitValue(Digit(v)) == v && Digit(v) != 0 && Digit(v) != CR && Digit(v) != EQUALS
  {
  }

  /** Every other character counts as the digit zero, apart from the padding. */
  lemma OnlyDigits(c: bv8)
    ensures DigitValue(c) != 0 && c != EQUALS ==> DigitValue(c) < 64 && Digit(DigitValue(c)) == c
    ensures DigitValue(c) == INVALID <==> c == EQUALS
  {
  }

  function EightDigits(v: bv8): Text {
    [Digit(v), Digit(v + 1), Digit(v + 2), Digit(v + 3), Digit(v + 4), Digit(v + 5), Digit(v + 6), Digit(v + 7)]
  }

  /** The alphabet of section 4 of RFC 4648, in its order. */
  lemma Alphabet()
    ensures EightDigits(0) == [65, 66, 67, 68, 69, 70, 71, 72]      // ABCDEFGH
    ensures EightDigits(8) == [73, 74, 75, 76, 77, 78, 79, 80]      // IJKLMNOP
    ensures EightDigits(16) == [81, 82, 83, 84, 85, 86, 87, 88]      // QRSTUVWX
    ensures EightDigits(24) == [89, 90, 97, 98, 99, 100, 101, 102]      // YZabcdef
    ensures EightDigits(32) == [103, 104, 105, 106, 107, 108, 109, 110]      // ghijklmn
    ensures EightDigits(40) == [111, 112, 113, 114, 115, 116, 117, 118]      // opqrstuv
    ensures EightDigits(48) == [119, 120, 121, 122, 48, 49, 50, 51]      // wxyz0123
    ensures EightDigits(56) == [52, 53, 54, 55, 56, 57, 43, 47]      // 456789+/
  {
  }

  // ----- the client's encoder -----------------------------------------------------------

  /** Four characters for three buffer bytes; bytes behind the end of the string are zero. */
  function Quad(a: bv8, b: bv8, c: bv8): Text {
    [Digit(a >> 2),
     Digit(((a & 3) << 4) | (b >> 4)),
     if b == 0 then EQUALS else Digit(((b & 15) << 2) | (c >> 6)),
     if c == 0 then EQUALS else Digit(c & 63)]
  }

  /** The byte at i of the zero-filled buffer that holds s. */
  function At(s: Text, i: nat): bv8 {
    if i < |s| then s[i] else 0
  }

  function EncodeFrom(s: Text, i: nat): Text
    decreases |s| - i
  {
    if i >= |s| then [] else Quad(s[i], At(s, i + 1), At(s, i + 2)) + EncodeFrom(s, i + 3)
  }

  function Encode(s: Text): Text { EncodeFrom(s, 0) }

  lemma {:induction false} EncodeLength(s: Text, i: nat)
    requires i <= |s|
    ensures |EncodeFrom(s, i)| == 4 * ((|s| - i + 2) / 3)
    decreases |s| - i
  {
    if i + 3 <= |s| {
      EncodeLength(s, i + 3);
    }
  }

  function Credentials(user: Text, pass: Text): Text { user + [COLON] + pass }

  /** The credentials and their encoding fit the two buffers. */
  predicate Fits(user: Text, pass: Text) {
    4 * ((|Credentials(user, pass)| + 2) / 3) < MAX_STRING
  }

  /** How many characters a connect writes. */
  function Written(user: Text, pass: Text): (n: nat)
    requires Fits(user, pass)
    ensures n == |Encode(Credentials(user, pass))| < MAX_STRING && n % 4 == 0 && n > 0
  {
    EncodeLength(Credentials(user, pass), 0);
    |Encode(Credentials(user, pass))|
  }

  /**
    conn->auth behind http_connect. The array belongs to the connection record:
    it is cleared once, when the record is made, and each connect only overwrites
    the front of it, without a terminator.
  */
  function Store(auth: Text, user: Text, pass: Text): Text
    requires |auth| == MAX_STRING && Fits(user, pass)
  {
    if user == [] then auth[0 := 0] else Encode(Credentials(user, pass)) + auth[Written(user, pass)..]
  }

  const BASIC: Text := [66, 97, 115, 105, 99, 32]      // "Basic "

  const NAME: Text := [65, 117, 116, 104, 111, 114, 105, 122, 97, 116, 105, 111, 110, 58, 32]      // "Authorization: "
  const CRLF: Text := [13, 10]

  /** Size of the request buffer, terminator included. */
  const MAX_QUERY: nat := 2048

  /** What vsnprintf keeps of a header line. */
  const MAX_LINE: nat := MAX_STRING - 4

  function Cut(s: Text, n: nat): Text { if |s| <= n then s else s[..n] }

  /** http_addheader: the line is cut, ended, and appended as far as the request has room. */
  function AddHeader(request: Text, line: Text): (r: Text)
    requires |request| < MAX_QUERY
    ensures request <= r && |r| < MAX_QUERY
  {
    request + Cut(Cut(line, MAX_LINE) + CRLF, MAX_QUERY - 1 - |request|)
  }

  /** http_get adds the line unless the text is empty. */
  function AuthLine(auth: Text): Option<Text> {
    if auth == [] || auth[0] == 0 then None else Some(NAME + (BASIC + Before(auth, 0)))
  }

  /** The part of a request that http_get has built so far, with the line for these credentials. */
  function Request(request: Text, auth: Text): (r: Text)
    requires |request| < MAX_QUERY
    ensures request <= r && |r| < MAX_QUERY
  {
    if AuthLine(auth).None? then request else AddHeader(request, AuthLine(auth).value)
  }

  /** The remaining header lines and the blank one that ends the request. */
  function Finished(request: Text, lines: seq<Text>): (r: Text)
    requires |request| < MAX_QUERY
    ensures request <= r && |r| < MAX_QUERY
    decreases |lines|
  {
    if lines == [] then AddHeader(request, []) else Finished(AddHeader(request, lines[0]), lines[1..])
  }

  /** The room these lines take. */
  function Needed(lines: seq<Text>): nat {
    if lines == [] then 2 else |Cut(lines[0], MAX_LINE)| + 2 + Needed(lines[1..])
  }

  /** Nothing was cut off for lack of room, so that the blank line arrives. */
  predicate Arrives(request: Text, lines: seq<Text>)
    requires |request| < MAX_QUERY
  {
    |Finished(request, lines)| == |request| + Needed(lines)
  }

  /** The value that the line starting at `at` gives to the header field; none when the line is not complete. */
  function ValueAt(request: Text, at: nat): Option<Text>
    requires at <= |request|
  {
    var line := Before(request[at..], CR);
    if at + |line| + 2 > |request| || !(NAME <= line) then None else Some(line[|NAME|..])
  }

  /** The four stores of one turn of the loop. */
  method StoreQuad(output: array<bv8>, at: nat, a: bv8, b: bv8, c: bv8)
    requires at + 4 <= output.Length
    modifies output
    ensures output[..at + 4] == old(output[..at]) + Quad(a, b, c)
    ensures forall k :: at + 4 <= k < output.Length ==> output[k] == old(output[k])
  {
    output[at] := Digit(a >> 2);
    output[at + 1] := Digit(((a & 3) << 4) | (b >> 4));
    output[at + 2] := Digit(((b & 15) << 2) | (c >> 6));
    output[at + 3] := Digit(c & 63);
    if c == 0 {
      output[at + 3] := EQUALS;
    }
    if b == 0 {
      output[at + 2] := EQUALS;
    }
  }

  class Connection {
    const auth: array<bv8>
    var request: Text

    constructor ()
      ensures auth.Length == MAX_STRING && fresh(auth) && request == []
      ensures forall k :: 0 <= k < MAX_STRING ==> auth[k] == 0
    {
      auth := new bv8[MAX_STRING](_ => 0);
      request := [];
    }

    /** http_addheader */
    method AddLine(line: Text)
      requires |request| < MAX_QUERY
      modifies `request
      ensures request == AddHeader(old(request), line) && |request| < MAX_QUERY
    {
      var s := line;
      if |s| > MAX_LINE {
        s := s[..MAX_LINE];
      }
      s := s + CRLF;
      var room := MAX_QUERY - |request| - 1;
      if |s| > room {
        s := s[..room];
      }
      request := request + s;
    }

    /** The line of http_get for the credentials. */
    method AddAuthorization()
      requires auth.Length == MAX_STRING && |request| < MAX_QUERY
      modifies `request
      ensures request == Request(old(request), auth[..]) && |request| < MAX_QUERY
    {
      if auth[0] != 0 {
        AddLine(NAME + (BASIC + Before(auth[..], 0)));
      }
    }

    /** The remaining lines, and the blank one of http_exec. */
    method Finish(lines: seq<Text>)
      requires |request| < MAX_QUERY
      modifies `request
      ensures request == Finished(old(request), lines)
    {
      for i := 0 to |lines|
        invariant |request| < MAX_QUERY
        invariant Finished(request, lines[i..]) == Finished(old(request), lines)
      {
        assert lines[i..][1..] == lines[i + 1..];
        AddLine(lines[i]);
      }
      AddLine([]);
    }

    /** The end of http_connect. */
    method Connect(user: Text, pass: Text)
      requires auth.Length == MAX_STRING && Ascii(user) && Ascii(pass) && Fits(user, pass)
      modifies auth
      ensures auth[..] == Store(old(auth[..]), user, pass)
    {
      if user == [] {
        auth[0] := 0;
        return;
      }
      ghost var before := auth[..];
      var s := Credentials(user, pass);
      EncodeLength(s, 0);
      var buffer := new bv8[MAX_STRING](k => if 0 <= k < |s| then s[k] else 0);
      WriteDigits(buffer, s);
      assert auth[..] == Encode(s) + before[|Encode(s)|..];
    }

    /** The loop over the local buffer. */
    method WriteDigits(buffer: array<bv8>, ghost s: Text)
      requires auth.Length == buffer.Length == MAX_STRING && auth != buffer
      requires NulFree(s) && |s| + 3 < MAX_STRING && |Encode(s)| < MAX_STRING
      requires forall k :: 0 <= k < MAX_STRING ==> buffer[k] == At(s, k)
      modifies auth
      ensures auth[..|Encode(s)|] == Encode(s)
      ensures forall k :: |Encode(s)| <= k < MAX_STRING ==> auth[k] == old(auth[k])
    {
      ghost var all := Encode(s);
      var i: nat := 0;
      while buffer[i * 3] != 0
        invariant i * 3 <= |s| + 2 && i * 4 <= |all|
        invariant auth[..i * 4] + EncodeFrom(s, i * 3) == all
        invariant forall k :: i * 4 <= k < MAX_STRING ==> auth[k] == old(auth[k])
        decreases MAX_STRING - i
      {
        ghost var before, rest := auth[..i * 4], EncodeFrom(s, i * 3 + 3);
        ghost var quad := Quad(buffer[i * 3], buffer[i * 3 + 1], buffer[i * 3 + 2]);
        assert EncodeFrom(s, i * 3) == quad + rest;
        Assoc(before, quad, rest);
        StoreQuad(auth, i * 4, buffer[i * 3], buffer[i * 3 + 1], buffer[i * 3 + 2]);
        i := i + 1;
      }
      assert auth[..i * 4] + [] == auth[..i * 4];
    }
  }

  // ----- the server's decoder ---------------------------------------------------------------

  function First(a: bv8, b: bv8): bv8 { (a << 2) | ((b & 0x30) >> 4) }

  function Second(b: bv8, c: bv8): bv8 { ((b & 0x0f) << 4) | ((c & 0x3c) >> 2) }

  function Third(c: bv8, d: bv8): bv8 { ((c & 0x03) << 6) | d }

  /** The bytes of one group of digit values, and whether the loop goes on behind it. */
  function Triple(a: bv8, b: bv8, c: bv8, d: bv8): (Text, bool) {
    if c == INVALID then ([First(a, b)], false)
    else if d == INVALID then ([First(a, b), Second(b, c)], false)
    else ([First(a, b), Second(b, c), Third(c, d)], true)
  }

  function Group(src: Text, i: nat): (Text, bool)
    requires i + 4 <= |src|
  {
    Triple(DigitValue(src[i]), DigitValue(src[i + 1]), DigitValue(src[i + 2]), DigitValue(src[i + 3]))
  }

  function DecodeFrom(src: Text, i: nat): Text
    decreases |src| - i
  {
    if i + 4 > |src| then []
    else
      var (bytes, more) := Group(src, i);
      if more then bytes + DecodeFrom(src, i + 4) else bytes
  }

  /** One turn of the decoding loop, over digit values. */
  method DecodeGroup(a: bv8, b: bv8, c: bv8, d: bv8) returns (bytes: Text, more: bool)
    ensures bytes == Triple(a, b, c, d).0 && more == Triple(a, b, c, d).1
  {
    bytes := [First(a, b)];
    if c == INVALID {
      return bytes, false;
    }
    bytes := bytes + [Second(b, c)];
    if d == INVALID {
      return bytes, false;
    }
    bytes, more := bytes + [Third(c, d)], true;
  }

  method ReadGroup(src: Text, i: nat) returns (bytes: Text, more: bool)
    requires i + 4 <= |src|
    ensures bytes + (if more then DecodeFrom(src, i + 4) else []) == DecodeFrom(src, i)
  {
    bytes, more := DecodeGroup(DigitValue(src[i]), DigitValue(src[i + 1]),
                               DigitValue(src[i + 2]), DigitValue(src[i + 3]));
    assert bytes + [] == bytes;
  }

  /** BASE64Decode: what it leaves in its result buffer. */
  method Decode(src: Text) returns (result: Option<Text>)
    requires NulFree(src)
    ensures result == if |src| % 4 != 0 then None else Some(DecodeFrom(src, 0))
  {
    if |src| % 4 != 0 {
      return None;
    }
    ghost var all, groups, turn := DecodeFrom(src, 0), |src| / 4, 0;
    assert |src| == 4 * groups;
    var dest: Text := [];
    var i: nat := 0;
    var more := true;
    while i < |src| && more
      invariant i == 4 * turn <= |src|
      invariant dest + (if more then DecodeFrom(src, i) else []) == all
      decreases |src| - i, more
    {
      var bytes;
      bytes, more := ReadGroup(src, i);
      Assoc(dest, bytes, if more then DecodeFrom(src, i + 4) else []);
      dest := dest + bytes;
      i := i + 4;
      turn := turn + 1;
    }
    assert dest + [] == dest;
    return Some(dest);
  }

  // ----- Base64 round trip (section 4 of RFC 4648) ----------------------------------------------

  lemma PackedBits(a: bv8, b: bv8, c: bv8)
    ensures a >> 2 < 64 && ((a & 3) << 4) | (b >> 4) < 64
    ensures ((b & 15) << 2) | (c >> 6) < 64 && c & 63 < 64
    ensures ((a >> 2) << 2) | (((((a & 3) << 4) | (b >> 4)) & 0x30) >> 4) == a
    ensures (((((a & 3) << 4) | (b >> 4)) & 0x0f) << 4) | (((((b & 15) << 2) | (c >> 6)) & 0x3c) >> 2) == b
    ensures (((((b & 15) << 2) | (c >> 6)) & 0x03) << 6) | (c & 63) == c
  {
  }

  /** The digit values of a group are its six-bit parts, or the padding's. */
  lemma QuadValues(a: bv8, b: bv8, c: bv8)
    ensures var q := Quad(a, b, c);
            && Plain(q)
            && DigitValue(q[0]) == a >> 2
            && DigitValue(q[1]) == ((a & 3) << 4) | (b >> 4)
            && DigitValue(q[2]) == (if b == 0 then INVALID else ((b & 15) << 2) | (c >> 6))
            && DigitValue(q[3]) == (if c == 0 then INVALID else c & 63)
  {
    PackedBits(a, b, c);
    DigitRoundTrip(a >> 2);
    DigitRoundTrip(((a & 3) << 4) | (b >> 4));
    DigitRoundTrip(((b & 15) << 2) | (c >> 6));
    DigitRoundTrip(c & 63);
  }

  lemma TripleOfParts(a: bv8, b: bv8, c: bv8)
    requires b == 0 ==> c == 0
    ensures Triple(a >> 2, ((a & 3) << 4) | (b >> 4),
                   if b == 0 then INVALID else ((b & 15) << 2) | (c >> 6), if c == 0 then INVALID else c & 63) ==
            if b == 0 then ([a], false) else if c == 0 then ([a, b], false) else ([a, b, c], true)
  {
    PackedBits(a, b, c);
  }

  /** One group decodes to the bytes it was made of, and only a full group is followed by another. */
  lemma GroupRoundTrip(a: bv8, b: bv8, c: bv8)
    requires b == 0 ==> c == 0
    ensures Group(Quad(a, b, c), 0) ==
            if b == 0 then ([a], false) else if c == 0 then ([a, b], false) else ([a, b, c], true)
  {
    QuadValues(a, b, c);
    TripleOfParts(a, b, c);
  }

  /** Decoding a stream from some group on looks at that suffix only. */
  lemma {:induction false} DecodeSuffix(p: Text, s: Text, i: nat)
    ensures DecodeFrom(p + s, |p| + i) == DecodeFrom(s, i)
    decreases |s| - i
  {
    if i + 4 <= |s| {
      DecodeSuffix(p, s, i + 4);
    }
  }

  /** The encoding of s from i on, followed by something else: padding hides it, a full last group does not. */
  lemma {:induction false} DecodeBehind(s: Text, i: nat, tail: Text, more: Text)
    requires NulFree(s) && i <= |s|
    requires more == if (|s| - i) % 3 == 0 then DecodeFrom(tail, 0) else []
    ensures DecodeFrom(EncodeFrom(s, i) + tail, 0) == s[i..] + more
    decreases |s| - i
  {
    if i == |s| {
      NoGroup(s, tail);
    } else if i + 3 <= |s| {
      FullGroup(s, i, tail);
      ThreeLess(|s| - i);
      DecodeBehind(s, i + 3, tail, more);
      ThreeMore(s, i, DecodeFrom(EncodeFrom(s, i + 3) + tail, 0), more);
    } else {
      LastGroup(s, i, tail);
    }
  }

  lemma ThreeLess(n: nat)
    requires n >= 3
    ensures n % 3 == (n - 3) % 3
  {
  }

  lemma NoGroup(s: Text, tail: Text)
    ensures DecodeFrom(EncodeFrom(s, |s|) + tail, 0) == s[|s|..] + DecodeFrom(tail, 0)
  {
    assert EncodeFrom(s, |s|) + tail == tail;
    assert s[|s|..] + DecodeFrom(tail, 0) == DecodeFrom(tail, 0);
  }

  /** Decoding a group and what stands behind it. */
  lemma DecodeGroupThen(q: Text, rest: Text)
    requires |q| == 4
    ensures DecodeFrom(q + rest, 0) == Group(q, 0).0 + (if Group(q, 0).1 then DecodeFrom(rest, 0) else [])
  {
    assert Group(q + rest, 0) == Group(q, 0);
    DecodeSuffix(q, rest, 0);
    assert Group(q, 0).0 + [] == Group(q, 0).0;
  }

  lemma FullGroup(s: Text, i: nat, tail: Text)
    requires NulFree(s) && i + 3 <= |s|
    ensures DecodeFrom(EncodeFrom(s, i) + tail, 0) ==
            [s[i], s[i + 1], s[i + 2]] + DecodeFrom(EncodeFrom(s, i + 3) + tail, 0)
  {
    var q, rest := Quad(s[i], s[i + 1], s[i + 2]), EncodeFrom(s, i + 3);
    assert s[i] in s && s[i + 1] in s && s[i + 2] in s;
    GroupRoundTrip(s[i], s[i + 1], s[i + 2]);
    Assoc(q, rest, tail);
    DecodeGroupThen(q, rest + tail);
  }

  lemma LastGroup(s: Text, i: nat, tail: Text)
    requires NulFree(s) && i < |s| < i + 3
    ensures DecodeFrom(EncodeFrom(s, i) + tail, 0) == s[i..] + []
  {
    var q := Quad(s[i], At(s, i + 1), At(s, i + 2));
    assert s[i] in s && (i + 1 < |s| ==> s[i + 1] in s);
    GroupRoundTrip(s[i], At(s, i + 1), At(s, i + 2));
    assert EncodeFrom(s, i) == q + [] == q;
    DecodeGroupThen(q, tail);
    assert s[i..] == if i + 1 == |s| then [s[i]] else [s[i], s[i + 1]];
  }

  lemma ThreeMore(s: Text, i: nat, rest: Text, more: Text)
    requires i + 3 <= |s| && rest == s[i + 3..] + more
    ensures [s[i], s[i + 1], s[i + 2]] + rest == s[i..] + more
  {
  }

  lemma Base64RoundTrip(s: Text)
    requires NulFree(s)
    ensures |Encode(s)| % 4 == 0 && DecodeFrom(Encode(s), 0) == s
  {
    EncodeLength(s, 0);
    DecodeBehind(s, 0, [], []);
    AppendNothing(Encode(s));
    AppendNothing(s);
  }

  lemma AppendNothing(s: Text)
    ensures s + [] == s && s[0..] == s
  {
  }

  lemma {:induction false} EncodeIsText(s: Text, i: nat)
    ensures Plain(EncodeFrom(s, i))
    decreases |s| - i
  {
    if i < |s| {
      QuadValues(s[i], At(s, i + 1), At(s, i + 2));
      EncodeIsText(s, i + 3);
    }
  }

  // ----- user and password (section 2 of RFC 7617) -------------------------------------------------

  function Split(s: Text): Option<(Text, Text)> {
    var k := IndexOf(s, COLON);
    if k == |s| then None else Some((s[..k], s[k + 1..]))
  }

  /** What the server makes of an Authorization header. */
  function Recover(header: Option<Text>): Option<(Text, Text)> {
    if header.None? || !(BASIC <= header.value) then None
    else
      var src := header.value[|BASIC|..];
      if |src| % 4 != 0 then None else Split(Before(DecodeFrom(src, 0), 0))
  }

  /** A request is acted upon when it has arrived whole. */
  function Serve(request: Text, at: nat, lines: seq<Text>): Option<(Text, Text)>
    requires |request| < MAX_QUERY && at <= |request|
  {
    if Arrives(request, lines) then Recover(ValueAt(Finished(request, lines), at)) else None
  }

  /** The server's answer to a begun request, a field and what follows. */
  function Served(request: Text, auth: Text, lines: seq<Text>): Option<(Text, Text)>
    requires |request| < MAX_QUERY
  {
    Serve(Request(request, auth), |request|, lines)
  }

  /** MHD_basic_auth_get_username_password */
  method UserAndPassword(header: Option<Text>) returns (r: Option<(Text, Text)>)
    requires header.Some? ==> NulFree(header.value)
    ensures r == Recover(header)
  {
    if header.None? || !(BASIC <= header.value) {
      return None;
    }
    var decoded := Decode(header.value[|BASIC|..]);
    if decoded.None? {
      return None;
    }
    r := Split(Before(decoded.value, 0));
  }

  /** Splitting gives user and password back exactly when the user has no colon and nothing follows. */
  lemma SplitIff(user: Text, pass: Text, added: Text)
    ensures Split(Credentials(user, pass) + added) == Some((user, pass)) <==> COLON !in user && added == []
    ensures COLON !in user ==> Split(Credentials(user, pass) + added) == Some((user, pass + added))
  {
    var s := Credentials(user, pass) + added;
    assert s[..|user|] == user && s[|user| + 1..] == pass + added;
    assert |pass + added| == |pass| + |added| && pass + [] == pass;
    if COLON !in user {
      IndexOfIs(s, COLON, |user|);
    } else {
      var k := IndexOf(user, COLON);
      assert s[k] == user[k];
      IndexOfIs(s, COLON, k);
    }
  }

  lemma BeforeNul(s: Text, t: Text)
    requires NulFree(s)
    ensures Before(s + t, 0) == s + Before(t, 0)
  {
    var k := |s| + IndexOf(t, 0);
    forall i | 0 <= i < k ensures (s + t)[i] != 0 {
      assert i < |s| ==> s[i] in s;
    }
    BeforeIs(s + t, 0, k);
  }

  // ----- what earlier connects leave behind ----------------------------------------------------------

  /** A group at k whose first byte is not NUL. */
  predicate GroupStarts(auth: Text, k: nat) {
    k + 1 < |auth| && First(DigitValue(auth[k]), DigitValue(auth[k + 1])) != 0
  }

  /** Whole groups up to `used`, zeros behind; the first character may have been cleared. */
  ghost predicate Groups(auth: Text, used: nat) {
    && |auth| == MAX_STRING && used % 4 == 0 && used < MAX_STRING
    && (forall k :: used <= k < MAX_STRING ==> auth[k] == 0)
    && (forall k :: 0 < k < used ==> auth[k] != 0 && auth[k] != CR)
    && (forall k: nat :: 0 < k < used && k % 4 == 0 ==> GroupStarts(auth, k))
  }

  /** How the field of a connection record can look. */
  ghost predicate Kept(auth: Text) { exists used: nat :: Groups(auth, used) }

  lemma {:induction false} EncodeStarts(s: Text, i: nat, k: nat)
    requires NulFree(s) && k % 4 == 0 && k < |EncodeFrom(s, i)|
    ensures GroupStarts(EncodeFrom(s, i), k)
    decreases |s| - i
  {
    var a, b, c := s[i], At(s, i + 1), At(s, i + 2);
    if k == 0 {
      assert a in s && (i + 1 < |s| ==> b in s) && (i + 2 < |s| ==> c in s);
      GroupRoundTrip(a, b, c);
    } else {
      EncodeStarts(s, i + 3, k - 4);
    }
  }

  lemma AsciiNulFree(user: Text, pass: Text)
    requires Ascii(user) && Ascii(pass)
    ensures NulFree(Credentials(user, pass))
  {
  }

  lemma StoreKeeps(auth: Text, user: Text, pass: Text)
    requires Kept(auth) && Ascii(user) && Ascii(pass) && Fits(user, pass)
    ensures Kept(Store(auth, user, pass))
  {
    var used: nat :| Groups(auth, used);
    if user == [] {
      forall k: nat | 0 < k < used && k % 4 == 0 ensures GroupStarts(auth[0 := 0], k) {
        assert GroupStarts(auth, k);
      }
      assert Groups(auth[0 := 0], used);
    } else {
      AsciiNulFree(user, pass);
      assert |Encode(Credentials(user, pass))| == Written(user, pass);
      OverwriteKeeps(auth, used, Credentials(user, pass));
    }
  }

  lemma OverwriteKeeps(auth: Text, used: nat, s: Text)
    requires Groups(auth, used) && NulFree(s) && |Encode(s)| < MAX_STRING
    ensures Groups(Encode(s) + auth[|Encode(s)|..], if |Encode(s)| < used then used else |Encode(s)|)
  {
    var e := Encode(s);
    var after, used' := e + auth[|e|..], if |e| < used then used else |e|;
    EncodeLength(s, 0);
    EncodeIsText(s, 0);
    forall k | 0 < k < used' ensures after[k] != 0 && after[k] != CR {
      assert k < |e| ==> e[k] in e;
    }
    forall k: nat | 0 < k < used' && k % 4 == 0 ensures GroupStarts(after, k) {
      if k < |e| {
        EncodeStarts(s, 0, k);
      } else {
        assert GroupStarts(auth, k);
      }
    }
  }

  /** The text behind the part that a connect overwrites. */
  function Rest(auth: Text, user: Text, pass: Text): Text
    requires |auth| == MAX_STRING && Fits(user, pass)
  {
    Before(auth[Written(user, pass)..], 0)
  }

  /** It is made of whole groups, and its first one decodes to a character. */
  lemma RestShape(auth: Text, n: nat)
    requires Kept(auth) && 0 < n < MAX_STRING && n % 4 == 0
    ensures var rest := Before(auth[n..], 0);
            && |rest| % 4 == 0
            && (rest == [] <==> auth[n] == 0)
            && Plain(rest) && (rest != [] ==> GroupStarts(rest, 0))
  {
    var used: nat :| Groups(auth, used);
    if n < used {
      BeforeIs(auth[n..], 0, used - n);
      assert GroupStarts(auth, n);
    } else {
      BeforeIs(auth[n..], 0, 0);
    }
  }

  lemma FirstDecoded(t: Text)
    requires |t| >= 4 && GroupStarts(t, 0)
    ensures Before(DecodeFrom(t, 0), 0) != []
  {
    assert DecodeFrom(t, 0) != [] && DecodeFrom(t, 0)[0] == First(DigitValue(t[0]), DigitValue(t[1]));
  }

  /** What the leftover adds to the decoded text: nothing behind padding. */
  function Added(auth: Text, user: Text, pass: Text): Text
    requires |auth| == MAX_STRING && Fits(user, pass)
  {
    if |Credentials(user, pass)| % 3 == 0 then Before(DecodeFrom(Rest(auth, user, pass), 0), 0) else []
  }

  lemma AddedIff(auth: Text, user: Text, pass: Text)
    requires Kept(auth) && Fits(user, pass)
    ensures Added(auth, user, pass) == [] <==>
            auth[Written(user, pass)] == 0 || |Credentials(user, pass)| % 3 != 0
  {
    RestShape(auth, Written(user, pass));
    var rest := Rest(auth, user, pass);
    if rest != [] {
      FirstDecoded(rest);
    } else {
      assert DecodeFrom(rest, 0) == [];
    }
  }

  /** The text of the field behind a connect. */
  function SentText(auth: Text, user: Text, pass: Text): Text
    requires |auth| == MAX_STRING && Fits(user, pass)
  {
    Encode(Credentials(user, pass)) + Rest(auth, user, pass)
  }

  lemma SentTextShape(auth: Text, user: Text, pass: Text)
    requires Kept(auth) && user != [] && Ascii(user) && Ascii(pass) && Fits(user, pass)
    ensures var text := SentText(auth, user, pass);
            |text| == Written(user, pass) + |Rest(auth, user, pass)| && |text| % 4 == 0 && Plain(text)
  {
    RestShape(auth, Written(user, pass));
    AsciiNulFree(user, pass);
    EncodeIsText(Credentials(user, pass), 0);
    FourAndFour(Written(user, pass), |Rest(auth, user, pass)|);
  }

  lemma FourAndFour(a: nat, b: nat)
    requires a % 4 == 0 && b % 4 == 0
    ensures (a + b) % 4 == 0
  {
  }

  lemma SentTextDecodes(auth: Text, user: Text, pass: Text)
    requires Kept(auth) && user != [] && Ascii(user) && Ascii(pass) && Fits(user, pass)
    ensures Recover(Some(BASIC + SentText(auth, user, pass))) ==
            Split(Credentials(user, pass) + Added(auth, user, pass))
  {
    AsciiNulFree(user, pass);
    SentTextShape(auth, user, pass);
    DecodedText(Credentials(user, pass), Rest(auth, user, pass));
    ReadHeader(SentText(auth, user, pass));
  }

  lemma SentLine(auth: Text, user: Text, pass: Text)
    requires |auth| == MAX_STRING && user != [] && Ascii(user) && Ascii(pass) && Fits(user, pass)
    ensures AuthLine(Store(auth, user, pass)) == Some(NAME + (BASIC + SentText(auth, user, pass)))
  {
    var e := Encode(Credentials(user, pass));
    AsciiNulFree(user, pass);
    EncodeIsText(Credentials(user, pass), 0);
    assert Written(user, pass) == |e| && e[0] in e;
    BeforeNul(e, auth[|e|..]);
  }

  /** A line without CR is read back as far as it was kept, if its end found room. */
  lemma ReadBack(request: Text, value: Text)
    requires |request| < MAX_QUERY && CR !in value
    ensures var kept := Cut(NAME + value, MAX_LINE);
            var sent := AddHeader(request, NAME + value);
            && |sent| == (if |request| + |kept| + 2 < MAX_QUERY then |request| + |kept| + 2 else MAX_QUERY - 1)
            && (|request| + |kept| + 2 < MAX_QUERY ==>
                  |Before(sent[|request|..], CR)| == |kept| && ValueAt(sent, |request|) == Some(kept[|NAME|..]))
  {
    var kept, room := Cut(NAME + value, MAX_LINE), MAX_QUERY - 1 - |request|;
    var tail := Cut(kept + CRLF, room);
    assert AddHeader(request, NAME + value)[|request|..] == tail;
    forall k | 0 <= k < |kept| ensures kept[k] != CR {
      assert k >= |NAME| ==> value[k - |NAME|] in value;
    }
    if |kept| < |tail| {
      BeforeIs(tail, CR, |kept|);
      assert tail[..|kept|] == kept;
    }
  }

  lemma ReadHeader(t: Text)
    requires |t| % 4 == 0
    ensures Recover(Some(BASIC + t)) == Split(Before(DecodeFrom(t, 0), 0))
  {
    assert (BASIC + t)[|BASIC|..] == t;
  }

  lemma DecodedText(s: Text, rest: Text)
    requires NulFree(s)
    ensures Before(DecodeFrom(Encode(s) + rest, 0), 0) ==
            s + (if |s| % 3 == 0 then Before(DecodeFrom(rest, 0), 0) else [])
  {
    var more := if |s| % 3 == 0 then DecodeFrom(rest, 0) else [];
    DecodeBehind(s, 0, rest, more);
    AppendNothing(s);
    BeforeNul(s, more);
  }

  /** The whole text fits its line, and the lines fit the request. */
  predicate Carried(request: Text, auth: Text, user: Text, pass: Text, lines: seq<Text>)
    requires |auth| == MAX_STRING && Fits(user, pass)
  {
    var n := Written(user, pass) + |Rest(auth, user, pass)|;
    n <= 999 && |request| + 21 + n + 2 + Needed(lines) < 2048
  }

  /** An empty user sends no line, whatever the record held before. */
  lemma NoUserNoLine(request: Text, auth: Text, pass: Text)
    requires |request| < MAX_QUERY && |auth| == MAX_STRING && Fits([], pass)
    ensures Request(request, Store(auth, [], pass)) == request
  {
  }

  lemma {:induction false} ArrivesIff(request: Text, lines: seq<Text>)
    requires |request| < MAX_QUERY
    ensures |Finished(request, lines)| ==
            if |request| + Needed(lines) < MAX_QUERY then |request| + Needed(lines) else MAX_QUERY - 1
    decreases |lines|
  {
    if lines != [] {
      ArrivesIff(AddHeader(request, lines[0]), lines[1..]);
    }
  }

  /** A complete line is the same in a longer request. */
  lemma ValueStays(request: Text, longer: Text, at: nat)
    requires request <= longer && at <= |request|
    requires at + |Before(request[at..], CR)| + 2 <= |request|
    ensures ValueAt(longer, at) == ValueAt(request, at)
  {
    var k := IndexOf(request[at..], CR);
    assert longer[at..][..k] == request[at..][..k];
    IndexOfIs(longer[at..], CR, k);
  }

  /** What the server makes of the finished request: a cut text has no whole groups any more. */
  lemma ServeLine(request: Text, text: Text, lines: seq<Text>)
    requires |request| < MAX_QUERY && CR !in text && |text| % 4 == 0
    ensures Serve(AddHeader(request, NAME + (BASIC + text)), |request|, lines) ==
            if |NAME| + |BASIC| + |text| <= MAX_LINE &&
               |request| + |NAME| + |BASIC| + |text| + 2 + Needed(lines) < MAX_QUERY
            then Recover(Some(BASIC + text)) else None
  {
    var sent, line := AddHeader(request, NAME + (BASIC + text)), NAME + (BASIC + text);
    ReadBack(request, BASIC + text);
    ArrivesIff(sent, lines);
    assert line[|NAME|..] == BASIC + text;
    if Arrives(sent, lines) {
      ValueStays(sent, Finished(sent, lines), |request|);
    }
    if |line| > MAX_LINE {
      KeptPart(text);
      CutTextIsLost(text[..MAX_LINE - |NAME| - |BASIC|]);
    }
  }

  lemma KeptPart(text: Text)
    requires |NAME| + |BASIC| + |text| > MAX_LINE
    ensures (NAME + (BASIC + text))[..MAX_LINE][|NAME|..] == BASIC + text[..MAX_LINE - |NAME| - |BASIC|]
  {
  }

  lemma CutTextIsLost(text: Text)
    requires |text| == MAX_LINE - |NAME| - |BASIC|
    ensures Recover(Some(BASIC + text)) == None
  {
    assert (BASIC + text)[|BASIC|..] == text;
  }

  /** What the server recovers: the credentials and what the leftover adds, or nothing. */
  lemma Recovered(request: Text, auth: Text, user: Text, pass: Text, lines: seq<Text>)
    requires |request| < MAX_QUERY
    requires Kept(auth) && user != [] && Ascii(user) && Ascii(pass) && Fits(user, pass)
    ensures Served(request, Store(auth, user, pass), lines) ==
            if Carried(request, auth, user, pass, lines) then Split(Credentials(user, pass) + Added(auth, user, pass))
            else None
  {
    SentLine(auth, user, pass);
    SentTextShape(auth, user, pass);
    SentTextDecodes(auth, user, pass);
    ServeLine(request, SentText(auth, user, pass), lines);
  }

  /**
    Client to server over a connection record that may have been used before, in a
    request that has been begun and is ended by other lines: the server recovers
    the credentials exactly when the user name has no colon, nothing is left behind
    the new text or padding ends it, and everything finds room.
  */
  lemma RecoverIff(request: Text, auth: Text, user: Text, pass: Text, lines: seq<Text>)
    requires |request| < MAX_QUERY
    requires Kept(auth) && user != [] && Ascii(user) && Ascii(pass) && Fits(user, pass)
    ensures Served(request, Store(auth, user, pass), lines) == Some((user, pass)) <==>
            && COLON !in user
            && (auth[Written(user, pass)] == 0 || |Credentials(user, pass)| % 3 != 0)
            && Carried(request, auth, user, pass, lines)
  {
    Recovered(request, auth, user, pass, lines);
    SplitIff(user, pass, Added(auth, user, pass));
    AddedIff(auth, user, pass);
  }

  /** A user of one and a password of 748 characters, on a fresh record: 1000 digits, of which 999 are sent. */
  lemma LongPasswordIsLost(request: Text, auth: Text, user: Text, pass: Text, lines: seq<Text>)
    requires |request| < MAX_QUERY
    requires |auth| == MAX_STRING && forall k :: 0 <= k < MAX_STRING ==> auth[k] == 0
    requires Ascii(user) && Ascii(pass) && |user| == 1 && |pass| == 748
    ensures Fits(user, pass) && Written(user, pass) == 1000
    ensures Served(request, Store(auth, user, pass), lines) == None
  {
    EncodeLength(Credentials(user, pass), 0);
    assert Written(user, pass) == 1000;
    FreshIsKept(auth);
    Recovered(request, auth, user, pass, lines);
  }

  lemma FreshIsKept(auth: Text)
    requires |auth| == MAX_STRING && forall k :: 0 <= k < MAX_STRING ==> auth[k] == 0
    ensures Kept(auth)
  {
    assert Groups(auth, 0);
  }

  /** Encoding from a whole number of groups on. */
  lemma {:induction false} EncodeSplit(s: Text, i: nat, n: nat)
    requires i + n <= |s| && n % 3 == 0
    ensures 4 * (n / 3) <= |EncodeFrom(s, i)| && EncodeFrom(s, i)[4 * (n / 3)..] == EncodeFrom(s, i + n)
    decreases n
  {
    EncodeLength(s, i);
    if n >= 3 {
      EncodeSplit(s, i + 3, n - 3);
      var q, rest := Quad(s[i], At(s, i + 1), At(s, i + 2)), EncodeFrom(s, i + 3);
      assert (q + rest)[4 * (n / 3)..] == rest[4 * ((n - 3) / 3)..];
    }
  }

  lemma BeforeZeros(t: Text, zeros: Text)
    requires NulFree(t) && forall k :: 0 <= k < |zeros| ==> zeros[k] == 0
    ensures Before(t + zeros, 0) == t
  {
    BeforeNul(t, zeros);
    BeforeIs(zeros, 0, 0);
    AppendNothing(t);
  }

  lemma LeftBehind(e: Text, k: nat, zeros: Text)
    requires k <= |e| && NulFree(e[k..]) && forall k :: 0 <= k < |zeros| ==> zeros[k] == 0
    ensures Before((e + zeros)[k..], 0) == e[k..]
  {
    assert (e + zeros)[k..] == e[k..] + zeros;
    BeforeZeros(e[k..], zeros);
  }

  /** The text that shorter credentials without padding leave of longer ones. */
  lemma LeftOf(auth: Text, longer: Text, n: nat)
    requires |auth| == MAX_STRING && forall k :: 0 <= k < MAX_STRING ==> auth[k] == 0
    requires NulFree(longer) && |Encode(longer)| < MAX_STRING && n <= |longer| && n % 3 == 0
    ensures 4 * (n / 3) <= |Encode(longer)| && |EncodeFrom(longer, n)| == |Encode(longer)| - 4 * (n / 3)
    ensures Before((Encode(longer) + auth[|Encode(longer)|..])[4 * (n / 3)..], 0) == EncodeFrom(longer, n)
  {
    var e, zeros := Encode(longer), auth[|Encode(longer)|..];
    EncodeSplit(longer, 0, n);
    EncodeIsText(longer, n);
    LeftBehind(e, 4 * (n / 3), zeros);
  }

  /**
    A redirect from a URL with longer credentials to one with shorter ones, whose
    encoding needs no padding: the server takes the end of the first credentials
    for a part of the second password.
  */
  lemma RedirectAddsToPassword(
      request: Text, auth: Text, user1: Text, pass1: Text, user2: Text, pass2: Text, lines: seq<Text>)
    requires |auth| == MAX_STRING && forall k :: 0 <= k < MAX_STRING ==> auth[k] == 0
    requires user1 != [] && Ascii(user1) && Ascii(pass1) && Fits(user1, pass1)
    requires user2 != [] && Ascii(user2) && Ascii(pass2) && Fits(user2, pass2) && COLON !in user2
    requires |Credentials(user2, pass2)| < |Credentials(user1, pass1)| && |Credentials(user2, pass2)| % 3 == 0
    requires |request| < MAX_QUERY
    ensures Served(request, Store(Store(auth, user1, pass1), user2, pass2), lines) ==
            var n := |NAME| + |BASIC| + Written(user1, pass1);
            if n <= MAX_LINE && |request| + n + 2 + Needed(lines) < MAX_QUERY
            then Some((user2, pass2 + Credentials(user1, pass1)[|Credentials(user2, pass2)|..]))
            else None
  {
    var between := Store(auth, user1, pass1);
    FreshIsKept(auth);
    StoreKeeps(auth, user1, pass1);
    Recovered(request, between, user2, pass2, lines);
    SplitIff(user2, pass2, Added(between, user2, pass2));
    AddedByRedirect(auth, user1, pass1, user2, pass2);
  }

  lemma AddedByRedirect(auth: Text, user1: Text, pass1: Text, user2: Text, pass2: Text)
    requires |auth| == MAX_STRING && forall k :: 0 <= k < MAX_STRING ==> auth[k] == 0
    requires user1 != [] && Ascii(user1) && Ascii(pass1) && Fits(user1, pass1) && Fits(user2, pass2)
    requires |Credentials(user2, pass2)| < |Credentials(user1, pass1)| && |Credentials(user2, pass2)| % 3 == 0
    ensures Added(Store(auth, user1, pass1), user2, pass2) ==
            Credentials(user1, pass1)[|Credentials(user2, pass2)|..]
    ensures Written(user2, pass2) + |Rest(Store(auth, user1, pass1), user2, pass2)| == Written(user1, pass1)
  {
    var s1, n := Credentials(user1, pass1), |Credentials(user2, pass2)|;
    AsciiNulFree(user1, pass1);
    WrittenWhole(user2, pass2);
    assert Written(user1, pass1) == |Encode(s1)|;
    LeftOf(auth, s1, n);
    DecodesOn(s1, n);
  }

  lemma WrittenWhole(user: Text, pass: Text)
    requires Fits(user, pass) && |Credentials(user, pass)| % 3 == 0
    ensures Written(user, pass) == 4 * (|Credentials(user, pass)| / 3)
  {
    EncodeLength(Credentials(user, pass), 0);
  }

  lemma DecodesOn(s: Text, n: nat)
    requires NulFree(s) && n <= |s|
    ensures Before(DecodeFrom(EncodeFrom(s, n), 0), 0) == s[n..]
  {
    DecodeBehind(s, n, [], []);
    AppendNothing(EncodeFrom(s, n));
    AppendNothing(s[n..]);
    BeforeNul(s[n..], []);
  }

  lemma Twelve(user: Text, pass: Text)
    requires |user| == 5 && |pass| == 6
    ensures |Credentials(user, pass)| == 12 && Credentials(user, pass)[9..] == pass[3..]
    ensures Fits(user, pass) && Written(user, pass) == 16
  {
    EncodeLength(Credentials(user, pass), 0);
  }

  /**
    http://alice:longpw@h/ redirects to http://bob:abcde@h2/: the server reads the
    password abcdegpw. The same for any credentials of these lengths.
  */
  lemma RedirectInput(
      request: Text, auth: Text, alice: Text, longpw: Text, bob: Text, abcde: Text, lines: seq<Text>)
    requires |auth| == MAX_STRING && forall k :: 0 <= k < MAX_STRING ==> auth[k] == 0
    requires |alice| == 5 && |longpw| == 6 && |bob| == 3 && |abcde| == 5 && COLON !in bob
    requires Ascii(alice) && Ascii(longpw) && Ascii(bob) && Ascii(abcde)
    requires |request| + Needed(lines) <= 2000
    ensures Fits(alice, longpw) && Fits(bob, abcde)
    ensures Served(request, Store(Store(auth, alice, longpw), bob, abcde), lines) ==
            Some((bob, abcde + longpw[3..]))
  {
    Twelve(alice, longpw);
    assert |Credentials(bob, abcde)| == 9;
    RedirectAddsToPassword(request, auth, alice, longpw, bob, abcde, lines);
  }

  /** What the server is given to decode is a C string. */
  lemma ValueIsText(request: Text, auth: Text, user: Text, pass: Text, lines: seq<Text>)
    requires |request| < MAX_QUERY
    requires Kept(auth) && user != [] && Ascii(user) && Ascii(pass) && Fits(user, pass)
    ensures var sent := Request(request, Store(auth, user, pass));
            var value := ValueAt(Finished(sent, lines), |request|);
            Arrives(sent, lines) && value.Some? ==> NulFree(value.value)
  {
    var sent, value := Request(request, Store(auth, user, pass)), BASIC + SentText(auth, user, pass);
    SentLine(auth, user, pass);
    SentTextShape(auth, user, pass);
    ReadBack(request, value);
    ArrivesIff(sent, lines);
    if Arrives(sent, lines) {
      ValueStays(sent, Finished(sent, lines), |request|);
      KeptIsText(value);
    }
  }

  lemma KeptIsText(value: Text)
    requires NulFree(value)
    ensures NulFree(Cut(NAME + value, MAX_LINE)[|NAME|..])
  {
    assert Cut(NAME + value, MAX_LINE)[|NAME|..] == Cut(value, MAX_LINE - |NAME|);
  }

  /** The whole way through both programs. */
  method RoundTrip(c: Connection, user: Text, pass: Text, lines: seq<Text>) returns (r: Option<(Text, Text)>)
    requires Kept(c.auth[..]) && |c.request| < MAX_QUERY
    requires user != [] && Ascii(user) && Ascii(pass) && Fits(user, pass)
    modifies c, c.auth
    ensures Kept(c.auth[..])
    ensures r == Some((user, pass)) <==>
            && COLON !in user
            && (old(c.auth[Written(user, pass)]) == 0 || |Credentials(user, pass)| % 3 != 0)
            && Carried(old(c.request), old(c.auth[..]), user, pass, lines)
  {
    ghost var before := c.auth[..];
    assert c.auth.Length == MAX_STRING;
    var at := |c.request|;
    RecoverIff(c.request, before, user, pass, lines);
    ValueIsText(c.request, before, user, pass, lines);
    StoreKeeps(before, user, pass);
    c.Connect(user, pass);
    c.AddAuthorization();
    var size := |c.request| + Needed(lines);
    c.Finish(lines);
    if |c.request| == size {
      r := UserAndPassword(ValueAt(c.request, at));
    } else {
      r := None;
    }
  }
}
