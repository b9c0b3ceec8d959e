/**
  http_encode and http_decode (final/client/ServerSide/http.c): spaces become
  "%20" within a fixed buffer, and "%" followed by hexadecimal digits becomes a
  character. Strings are C strings without their terminator.
*/
module PercentCoding {
  import opened Common

  ghost predicate CString(s: string) {
    '\0' !in s
  }

  // ----- encoding ------------------------------------------------------------------

  function Unit(c: char): string {
    if c == ' ' then "%20" else [c]
  }

  /** The encoding without a limit. */
  function FullEncode(s: string): string {
    if s == "" then "" else Unit(s[0]) + FullEncode(s[1..])
  }

  /** The encoding in a buffer with room for so many characters: it stops at the first unit that does not fit. */
  function EncodeWithin(s: string, room: nat): string {
    if s == "" || |Unit(s[0])| > room then ""
    else Unit(s[0]) + EncodeWithin(s[1..], room - |Unit(s[0])|)
  }

  function Encode(s: string): string {
    EncodeWithin(s, MAX_STRING - 1)
  }

  lemma {:induction false} FullEncodeConcat(s: string, t: string)
    ensures FullEncode(s + t) == FullEncode(s) + FullEncode(t)
  {
    if s == "" {
      assert s + t == t;
    } else {
      assert (s + t)[1..] == s[1..] + t;
      FullEncodeConcat(s[1..], t);
    }
  }

  /**
    The bounded encoding never exceeds its room, is the full encoding of a
    prefix (so no "%20" is cut), and stops only where the next unit would not fit.
  */
  lemma {:induction false} EncodeWithinIsPrefix(s: string, room: nat) returns (k: nat)
    ensures k <= |s|
    ensures EncodeWithin(s, room) == FullEncode(s[..k])
    ensures |EncodeWithin(s, room)| <= room
    ensures k < |s| ==> |FullEncode(s[..k + 1])| > room
  {
    if s == "" {
      k := 0;
    } else if |Unit(s[0])| > room {
      k := 0;
      assert s[..1] == [s[0]];
      assert FullEncode([s[0]]) == Unit(s[0]) + FullEncode("");
    } else {
      k := EncodeWithinIsPrefix(s[1..], room - |Unit(s[0])|);
      assert s[..k + 1][1..] == s[1..][..k];
      if k < |s[1..]| {
        assert s[..k + 2][1..] == s[1..][..k + 1];
      }
      k := k + 1;
    }
  }

  /** Nothing is lost exactly when the full encoding fits. */
  lemma EncodeIsFullIff(s: string)
    ensures Encode(s) == FullEncode(s) <==> |FullEncode(s)| <= MAX_STRING - 1
    ensures Encode(s) <= FullEncode(s) && |Encode(s)| <= MAX_STRING - 1
  {
    var k := EncodeWithinIsPrefix(s, MAX_STRING - 1);
    FullEncodeSplit(s, k);
    if k < |s| {
      FullEncodeSplit(s, k + 1);
    } else {
      assert s[..k] == s;
    }
  }

  lemma FullEncodeSplit(s: string, k: nat)
    requires k <= |s|
    ensures FullEncode(s) == FullEncode(s[..k]) + FullEncode(s[k..])
  {
    FullEncodeConcat(s[..k], s[k..]);
    SliceJoin(s, k);
  }

  lemma SliceJoin(s: string, k: nat)
    requires k <= |s|
    ensures s[..k] + s[k..] == s
  {
  }

  lemma {:induction false} FullEncodeHasNoSpace(s: string)
    ensures ' ' !in FullEncode(s)
    ensures CString(s) ==> CString(FullEncode(s))
  {
    if s != "" {
      assert s == [s[0]] + s[1..];
      FullEncodeHasNoSpace(s[1..]);
    }
  }

  lemma {:induction false} NoSpaceEncodesToItself(s: string)
    requires ' ' !in s
    ensures FullEncode(s) == s
  {
    if s != "" {
      assert s[0] in s;
      assert forall c :: c in s[1..] ==> c in s;
      NoSpaceEncodesToItself(s[1..]);
    }
  }

  /** Encoding twice is encoding once. */
  lemma EncodeIdempotent(s: string)
    ensures Encode(Encode(s)) == Encode(s)
    ensures ' ' !in Encode(s)
  {
    var k := EncodeWithinIsPrefix(s, MAX_STRING - 1);
    FullEncodeHasNoSpace(s[..k]);
    NoSpaceEncodesToItself(Encode(s));
    EncodeIsFullIff(Encode(s));
  }

  /** What is left to encode when i characters have produced j of the buffer. */
  lemma EncodeStep(s: string, i: nat, room: nat)
    requires i < |s|
    ensures EncodeWithin(s[i..], room) ==
            if |Unit(s[i])| > room then "" else Unit(s[i]) + EncodeWithin(s[i + 1..], room - |Unit(s[i])|)
  {
    assert s[i..][1..] == s[i + 1..];
  }

  /** http_encode */
  method HttpEncode(s: string) returns (r: string)
    ensures r == Encode(s)
  {
    var t := new char[MAX_STRING](_ => '\0');
    var i: nat, j: nat := 0, 0;
    assert s[0..] == s;
    while i < |s|
      invariant i <= |s| && j <= MAX_STRING - 1
      invariant t[..j] + EncodeWithin(s[i..], MAX_STRING - 1 - j) == Encode(s)
    {
      EncodeStep(s, i, MAX_STRING - 1 - j);
      ghost var before := t[..j];
      var stored;
      stored, j := StoreUnit(t, j, s[i]);
      if !stored {
        assert before + "" == before;
        return t[..j];
      }
      i := i + 1;
      Assoc(before, Unit(s[i - 1]), EncodeWithin(s[i..], MAX_STRING - 1 - j));
    }
    r := t[..j];
    assert r + "" == r;
  }

  /** One turn of the encoding loop: a unit that does not fit ends it. */
  method StoreUnit(t: array<char>, at: nat, c: char) returns (stored: bool, j: nat)
    requires t.Length == MAX_STRING && at <= MAX_STRING - 1
    modifies t
    ensures stored <==> |Unit(c)| <= MAX_STRING - 1 - at
    ensures j <= MAX_STRING - 1
    ensures t[..j] == old(t[..at]) + (if stored then Unit(c) else "")
  {
    stored, j := false, at;
    if at >= MAX_STRING - 1 {
      return;
    }
    t[at] := c;
    if c == ' ' {
      if at >= MAX_STRING - 3 {
        return;
      }
      t[at], t[at + 1], t[at + 2] := '%', '2', '0';
      j := at + 2;
    }
    stored, j := true, j + 1;
  }

  // ----- decoding -------------------------------------------------------------------------

  predicate IsHex(c: char) {
    '0' <= c <= '9' || 'a' <= c <= 'f' || 'A' <= c <= 'F'
  }

  function HexValue(c: char): (v: nat)
    requires IsHex(c)
    ensures v < 16
  {
    if c <= '9' then c as int - '0' as int
    else if c <= 'F' then c as int - 'A' as int + 10
    else c as int - 'a' as int + 10
  }

  /** White space and signs, which the conversion of sscanf treats specially. */
  predicate IsSpecial(c: char) {
    c in " \t\n\r+-" || c as int == 11 || c as int == 12
  }

  /**
    sscanf with "%2x". Unclear: white space, a sign, "0x" or the end of the
    string, where the C code depends on the library or on unset memory.
  */
  datatype Scan = Unclear | NoMatch | Value(k: nat)

  function Scan2x(s: string): Scan {
    if s == "" || IsSpecial(s[0]) then Unclear
    else if !IsHex(s[0]) then NoMatch
    else if |s| >= 2 && s[0] == '0' && (s[1] == 'x' || s[1] == 'X') then Unclear
    else if |s| >= 2 && IsHex(s[1]) then Value(16 * HexValue(s[0]) + HexValue(s[1]))
    else Value(HexValue(s[0]))
  }

  /** The decoded buffer, or None when the loop would leave the string or a conversion is unclear. */
  function DecodeRaw(s: string): Option<string> {
    if s == "" then Some("")
    else if s[0] != '%' then Cons(s[0], DecodeRaw(s[1..]))
    else match Scan2x(s[1..])
      case Unclear => None
      case NoMatch => Cons('%', DecodeRaw(s[1..]))
      case Value(k) => if |s| < 3 || k >= 256 then None else Cons(k as char, DecodeRaw(s[3..]))
  }

  function Cons(c: char, r: Option<string>): Option<string> {
    match r case None => None case Some(t) => Some([c] + t)
  }

  /** strcpy stops at a decoded NUL. */
  function UpToNul(s: string): string { Before(s, '\0') }

  lemma UpToNulShortens(s: string)
    ensures |UpToNul(s)| <= |s|
    ensures CString(s) ==> UpToNul(s) == s
    ensures !CString(s) ==> |UpToNul(s)| < |s|
  {
    var k := IndexOf(s, '\0');
  }

  lemma ConsAssoc(t: string, c: char, r: Option<string>)
    ensures Join(t, Cons(c, r)) == Join(t + [c], r)
  {
    match r
    case None =>
    case Some(u) =>
      assert Cons(c, r) == Some([c] + u);
      assert Join(t, Cons(c, r)) == Some(t + ([c] + u));
      assert Join(t + [c], r) == Some((t + [c]) + u);
      Assoc(t, [c], u);
  }

  function Join(t: string, r: Option<string>): Option<string> {
    match r case None => None case Some(u) => Some(t + u)
  }

  /** http_decode, where its behaviour is defined. */
  method HttpDecode(s: string) returns (r: string)
    requires DecodeRaw(s).Some?
    ensures r == UpToNul(DecodeRaw(s).value)
  {
    var t := "";
    var i: nat := 0;
    assert s[0..] == s && "" + DecodeRaw(s).value == DecodeRaw(s).value;
    while i < |s|
      invariant i <= |s|
      invariant Join(t, DecodeRaw(s[i..])) == DecodeRaw(s)
      decreases |s| - i
    {
      var c := s[i];
      var rest := s[i..];
      assert rest[1..] == s[i + 1..];
      if c == '%' {
        match Scan2x(s[i + 1..])
        case Value(k) =>
          assert rest[3..] == s[i + 3..];
          c := k as char;
          i := i + 2;
        case _ =>
      }
      ConsAssoc(t, c, DecodeRaw(s[i + 1..]));
      t := t + [c];
      i := i + 1;
    }
    assert s[i..] == "" && t + "" == t;
    r := UpToNul(t);
  }

  // ----- what the decoder makes of a "%" ----------------------------------------------------

  /** The digits of either case, in the order of their values. */
  const SMALL: string := "0123456789abcdef"
  const CAPITAL: string := "0123456789ABCDEF"

  lemma HexDigits(c: char, v: nat)
    requires v < 16
    ensures c == SMALL[v] || c == CAPITAL[v] <==> IsHex(c) && HexValue(c) == v
  {
  }

  /** Two digits behind a "%" give the character they number. */
  lemma EscapeDecodes(a: char, v: nat, b: char, w: nat, rest: string)
    requires v < 16 && (a == SMALL[v] || a == CAPITAL[v])
    requires w < 16 && (b == SMALL[w] || b == CAPITAL[w])
    ensures DecodeRaw(['%', a, b] + rest) == Cons((16 * v + w) as char, DecodeRaw(rest))
  {
    HexDigits(a, v);
    HexDigits(b, w);
    var s := ['%', a, b] + rest;
    assert s[1..][0] == a && s[1..][1] == b && s[3..] == rest;
  }

  /** A single digit behind a "%" is converted alone, and the character behind it is skipped. */
  lemma ShortEscapeDecodes(a: char, v: nat, c: char, rest: string)
    requires v < 16 && (a == SMALL[v] || a == CAPITAL[v])
    requires !IsHex(c) && !(v == 0 && (c == 'x' || c == 'X'))
    ensures DecodeRaw(['%', a, c] + rest) == Cons(v as char, DecodeRaw(rest))
  {
    HexDigits(a, v);
    var s := ['%', a, c] + rest;
    assert s[1..][0] == a && s[1..][1] == c && s[3..] == rest;
  }

  /** A "%" in front of anything else stays. */
  lemma PercentStays(c: char, rest: string)
    requires !IsHex(c) && !IsSpecial(c)
    ensures DecodeRaw(['%', c] + rest) == Cons('%', DecodeRaw([c] + rest))
  {
    assert (['%', c] + rest)[1..] == [c] + rest;
  }

  // ----- the round trip ---------------------------------------------------------------------

  /** A "%" that the decoder would take for an escape. */
  predicate LooksEscaped(s: string, i: nat) {
    i + 1 < |s| && s[i] == '%' && IsHex(s[i + 1])
  }

  lemma FullEncodeHead(s: string)
    requires s != ""
    ensures FullEncode(s) != "" && FullEncode(s)[0] == if s[0] == ' ' then '%' else s[0]
  {
  }

  lemma DecodeSpace(t: string)
    ensures DecodeRaw("%20" + t) == Cons(' ', DecodeRaw(t))
  {
    var s := "%20" + t;
    assert s[1..] == "20" + t && s[3..] == t;
    assert HexValue('2') == 2 && HexValue('0') == 0;
    assert 32 as char == ' ';
  }

  /** Decoding an encoding never gives more characters than there were. */
  lemma {:induction false} DecodeEncodeLength(s: string)
    requires DecodeRaw(FullEncode(s)).Some?
    ensures |DecodeRaw(FullEncode(s)).value| <= |s|
    decreases |s|
  {
    if s != "" {
      var f := FullEncode(s);
      var rest := s[1..];
      assert f == Unit(s[0]) + FullEncode(rest);
      if s[0] == ' ' {
        DecodeSpace(FullEncode(rest));
        DecodeEncodeLength(rest);
      } else if s[0] != '%' || Scan2x(f[1..]) == NoMatch {
        assert f[1..] == FullEncode(rest);
        DecodeEncodeLength(rest);
      } else {
        EscapeLength(s);
      }
    }
  }

  lemma {:induction false} EscapeLength(s: string)
    requires s != "" && s[0] == '%'
    requires Scan2x(FullEncode(s)[1..]).Value? && DecodeRaw(FullEncode(s)).Some?
    ensures |DecodeRaw(FullEncode(s)).value| <= |s|
    ensures |s| >= 3 && IsHex(s[1]) && IsHex(s[2]) ==> |DecodeRaw(FullEncode(s)).value| <= |s| - 2
    decreases |s|, 0
  {
    var f := FullEncode(s);
    assert f == ['%'] + FullEncode(s[1..]);
    FullEncodeHead(s[1..]);
    assert IsHex(s[1]) && s[1] != ' ';
    assert f[1..] == [s[1]] + FullEncode(s[2..]);
    assert s[1..][1..] == s[2..];
    FullEncodeHead(s[2..]);
    assert s[2..][1..] == s[3..];
    if s[2] == ' ' {
      assert f[3..] == "20" + FullEncode(s[3..]);
      DecodePlain("20", FullEncode(s[3..]));
      DecodeEncodeLength(s[3..]);
    } else {
      assert f[3..] == FullEncode(s[3..]);
      DecodeEncodeLength(s[3..]);
    }
  }

  lemma {:induction false} DecodePlain(p: string, t: string)
    requires '%' !in p
    ensures DecodeRaw(p + t) == Join(p, DecodeRaw(t))
  {
    if p == "" {
      assert p + t == t;
      assert DecodeRaw(t).Some? ==> "" + DecodeRaw(t).value == DecodeRaw(t).value;
    } else {
      assert p[0] in p;
      assert forall c :: c in p[1..] ==> c in p;
      DecodePlain(p[1..], t);
      assert p + t == [p[0]] + (p[1..] + t);
      DecodeLiteral(p[0], p[1..] + t);
      assert p == [p[0]] + p[1..];
      ConsJoin(p[0], p[1..], DecodeRaw(t));
    }
  }

  lemma DecodeLiteral(c: char, s: string)
    requires c != '%'
    ensures DecodeRaw([c] + s) == Cons(c, DecodeRaw(s))
  {
    assert ([c] + s)[1..] == s;
  }

  lemma ConsJoin(c: char, t: string, r: Option<string>)
    ensures Cons(c, Join(t, r)) == Join([c] + t, r)
  {
    if r.Some? {
      Assoc([c], t, r.value);
    }
  }

  /** The decoder gives the string back exactly when no "%" of it stands in front of a hexadecimal digit. */
  lemma {:induction false} RawRoundTripIff(s: string)
    requires DecodeRaw(FullEncode(s)).Some?
    ensures DecodeRaw(FullEncode(s)) == Some(s) <==> forall i: nat :: i < |s| ==> !LooksEscaped(s, i)
  {
    if s != "" {
      var f, rest := FullEncode(s), s[1..];
      assert f == Unit(s[0]) + FullEncode(rest);
      if LooksEscaped(s, 0) {
        FirstEscape(s);
      } else {
        if s[0] == ' ' {
          DecodeSpace(FullEncode(rest));
        } else {
          assert f[1..] == FullEncode(rest);
          if s[0] == '%' && rest != "" {
            FullEncodeHead(rest);
          }
        }
        RawRoundTripIff(rest);
        assert s == [s[0]] + rest;
        forall i: nat | i < |rest| ensures LooksEscaped(rest, i) <==> LooksEscaped(s, i + 1) {
        }
        if forall i: nat :: i < |rest| ==> !LooksEscaped(rest, i) {
          forall i: nat | i < |s| ensures !LooksEscaped(s, i) {
            if i > 0 {
              assert !LooksEscaped(rest, i - 1);
            }
          }
        } else {
          var j: nat :| j < |rest| && LooksEscaped(rest, j);
          assert LooksEscaped(s, j + 1);
        }
      }
    }
  }

  lemma FirstEscape(s: string)
    requires LooksEscaped(s, 0) && DecodeRaw(FullEncode(s)).Some?
    ensures DecodeRaw(FullEncode(s)) != Some(s)
  {
    var f := FullEncode(s);
    assert f == ['%'] + FullEncode(s[1..]);
    FullEncodeHead(s[1..]);
    assert f[1..] == [s[1]] + FullEncode(s[2..]) by {
      assert s[1..][1..] == s[2..];
    }
    EscapeLength(s);
    if |s| >= 3 {
      FullEncodeHead(s[2..]);
    }
  }

  /** The round trip of the two C functions, on every string that fits: exact condition. */
  lemma RoundTripIff(s: string)
    requires CString(s) && |FullEncode(s)| <= MAX_STRING - 1
    requires DecodeRaw(Encode(s)).Some?
    ensures UpToNul(DecodeRaw(Encode(s)).value) == s <==> forall i: nat :: i < |s| ==> !LooksEscaped(s, i)
  {
    EncodeIsFullIff(s);
    RawRoundTripIff(s);
    DecodeEncodeLength(s);
    UpToNulShortens(DecodeRaw(Encode(s)).value);
  }

  /** In particular every string without "%" survives, and its decoding is defined. */
  lemma {:induction false} RoundTripWithoutPercent(s: string)
    requires '%' !in s
    ensures DecodeRaw(FullEncode(s)) == Some(s)
  {
    if s != "" {
      assert s[0] in s;
      assert forall c :: c in s[1..] ==> c in s;
      RoundTripWithoutPercent(s[1..]);
      assert s == [s[0]] + s[1..];
      if s[0] == ' ' {
        DecodeSpace(FullEncode(s[1..]));
      } else {
        assert FullEncode(s)[1..] == FullEncode(s[1..]);
      }
    }
  }

  /** A string that looks like an escape does not survive: "%41" becomes "A". */
  lemma EscapeIsLost()
    ensures CString("%41") && Encode("%41") == "%41" && DecodeRaw("%41") == Some("A")
    ensures UpToNul("A") != "%41"
  {
    var s := "%41";
    NoSpaceEncodesToItself(s);
    EncodeIsFullIff(s);
    assert s[1..] == "41" && s[3..] == "";
    assert Scan2x("41") == Value(65);
    assert 65 as char == 'A' && ['A'] + "" == "A";
    UpToNulShortens("A");
  }
}
