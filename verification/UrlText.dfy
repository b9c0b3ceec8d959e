/**
  The URL parser told by text: which text becomes which field, for every URL put
  together from a scheme, a login, a host, a port, a directory, a name and a query.
*/
module UrlText {
  import opened Common
  import opened PercentCoding
  import opened UrlCodec

  datatype Login = NoLogin | User(user: string) | UserPass(user: string, pass: string)

  /** Directory with both its slashes; the query with its '?'. All three are empty when the URL ends with the authority. */
  datatype Path = Path(dir: string, name: string, query: string)

  function LoginAsText(login: Login): string {
    match login
    case NoLogin => ""
    case User(user) => user + "@"
    case UserPass(user, pass) => user + ":" + pass + "@"
  }

  function PortAsText(port: Option<nat>): string {
    if port.None? then "" else ":" + Decimal(port.value)
  }

  function PathAsText(p: Path): string { p.dir + (p.name + p.query) }

  /** The user may hold '@', the password '@' and ':', and the query anything. */
  ghost predicate GoodLogin(login: Login) {
    match login
    case NoLogin => true
    case User(user) => Lacks(user, ':') && Lacks(user, '/')
    case UserPass(user, pass) => Lacks(user, ':') && Lacks(user, '/') && Lacks(pass, '/')
  }

  ghost predicate GoodHost(host: string) { Lacks(host, '/') && Lacks(host, '@') && Lacks(host, ':') }

  ghost predicate SplitPath(p: Path) {
    && p.dir != "" && p.dir[0] == '/' && p.dir[|p.dir| - 1] == '/' && Lacks(p.dir, '?')
    && Lacks(p.name, '/') && Lacks(p.name, '?')
    && (p.query == "" || p.query[0] == '?')
  }

  // ----- the path --------------------------------------------------------------------------

  lemma LacksJoin(s: string, t: string, c: char)
    requires Lacks(s, c) && Lacks(t, c)
    ensures Lacks(s + t, c)
  {
  }

  /** The part in front of the query. */
  lemma QueryFound(front: string, query: string)
    requires Lacks(front, '?') && (query == "" || query[0] == '?')
    ensures IndexOf(front + query, '?') == |front| && (front + query)[..|front|] == front
  {
    IndexOfIs(front + query, '?', |front|);
  }

  /** A path is cut behind the last slash in front of the query, whatever the query holds. */
  lemma CutFile(p: Path)
    requires SplitPath(p)
    ensures DirOf(PathAsText(p)) == p.dir && FileOf(PathAsText(p)) == p.name + p.query
  {
    var path, k := PathAsText(p), |p.dir|;
    Assoc(p.dir, p.name, p.query);
    LacksJoin(p.dir, p.name, '?');
    QueryFound(p.dir + p.name, p.query);
    AfterLastIs(p.dir + p.name, '/', k);
    assert FileStart(path) == k;
    CutAt(p.dir, p.name + p.query);
  }

  lemma CutAt(dir: string, file: string)
    requires dir != "" && dir[|dir| - 1] == '/'
    ensures (dir + file)[..|dir| - 1] + "/" == dir && (dir + file)[|dir|..] == file
  {
  }

  /** Encoding adds nothing but "%20". */
  lemma {:induction false} EncodeKeepsLacking(s: string, c: char)
    requires Lacks(s, c) && c !in "%20"
    ensures Lacks(FullEncode(s), c)
  {
    if s != "" {
      EncodeKeepsLacking(s[1..], c);
    }
  }

  lemma EncodeKeepsFirst(s: string)
    requires s != "" && s[0] != ' '
    ensures FullEncode(s) != "" && FullEncode(s)[0] == s[0]
  {
  }

  lemma EncodeKeepsLast(s: string)
    requires s != "" && s[|s| - 1] != ' '
    ensures FullEncode(s) != "" && FullEncode(s)[|FullEncode(s)| - 1] == s[|s| - 1]
  {
    var n := |s| - 1;
    FullEncodeConcat(s[..n], [s[n]]);
    assert s[..n] + [s[n]] == s && FullEncode([s[n]]) == [s[n]] + FullEncode("");
  }

  function Encoded(proto: Proto, s: string): string { if proto == Http then FullEncode(s) else s }

  function EncodedPath(proto: Proto, p: Path): Path {
    Path(Encoded(proto, p.dir), Encoded(proto, p.name), Encoded(proto, p.query))
  }

  lemma EncodedShape(proto: Proto, p: Path)
    requires SplitPath(p)
    ensures SplitPath(EncodedPath(proto, p))
    ensures Encoded(proto, PathAsText(p)) == PathAsText(EncodedPath(proto, p))
  {
    if proto == Http {
      EncodeKeepsFirst(p.dir);
      EncodeKeepsLast(p.dir);
      EncodeKeepsLacking(p.dir, '?');
      EncodeKeepsLacking(p.name, '/');
      EncodeKeepsLacking(p.name, '?');
      if p.query != "" {
        EncodeKeepsFirst(p.query);
      }
      FullEncodeConcat(p.dir, p.name + p.query);
      FullEncodeConcat(p.name, p.query);
    }
  }

  lemma PathFound(authority: string, path: string)
    requires Lacks(authority, '/') && path != "" && path[0] == '/'
    ensures var rest := authority + path;
            IndexOf(rest, '/') == |authority| && rest[..|authority|] == authority &&
            "/" + rest[|authority| + 1..] == path
  {
    IndexOfIs(authority + path, '/', |authority|);
  }

  /** What is stored of the path in front of its cut. */
  lemma StoredText(proto: Proto, authority: string, p: Path)
    requires Lacks(authority, '/') && SplitPath(p)
    requires |Encoded(proto, PathAsText(p))| < MAX_STRING
    ensures var rest := authority + PathAsText(p);
            rest[..IndexOf(rest, '/')] == authority && PathOf(proto, rest) == PathAsText(EncodedPath(proto, p))
  {
    var path := PathAsText(p);
    PathFound(authority, path);
    EncodedShape(proto, p);
    EncodeIsFullIff(path);
  }

  // ----- the port as a number -------------------------------------------------------------------

  function ValueOfDigit(c: char): nat { if IsHex(c) then HexValue(c) else 0 }

  /** The value of a text of digits, last digit last. */
  function ValueOf(s: string, base: nat): nat {
    if s == "" then 0 else ValueOf(s[..|s| - 1], base) * base + ValueOfDigit(s[|s| - 1])
  }

  /** The digits of a base are those of a value below it. */
  lemma DigitOfBase(c: char, v: nat, base: nat)
    requires v < 16 && (c == SMALL[v] || c == CAPITAL[v])
    ensures IsDigit(c, base) <==> v < base
  {
    HexDigits(c, v);
  }

  ghost predicate Digits(s: string, base: nat) {
    forall i :: 0 <= i < |s| ==> IsDigit(s[i], base)
  }

  lemma {:induction false} DigitsThen(s: string, t: string, base: nat, acc: nat)
    requires Digits(s, base)
    ensures DigitsFrom(s + t, base, acc) == DigitsFrom(t, base, DigitsFrom(s, base, acc))
  {
    if s == "" {
      assert s + t == t;
    } else {
      assert (s + t)[1..] == s[1..] + t;
      DigitsThen(s[1..], t, base, acc * base + HexValue(s[0]));
    }
  }

  lemma {:induction false} DigitsAre(s: string, base: nat)
    requires Digits(s, base)
    ensures DigitsFrom(s, base, 0) == ValueOf(s, base)
  {
    if s != "" {
      var front, c := s[..|s| - 1], s[|s| - 1];
      DigitsAre(front, base);
      DigitsThen(front, [c], base, 0);
      assert front + [c] == s;
      OneDigit(c, base, ValueOf(front, base));
    }
  }

  lemma OneDigit(c: char, base: nat, acc: nat)
    requires IsDigit(c, base)
    ensures DigitsFrom([c], base, acc) == acc * base + HexValue(c)
  {
    assert [c][1..] == "";
  }

  /** Digits count up to the first character that is none. */
  lemma NumberThen(s: string, rest: string, base: nat)
    requires Digits(s, base) && (rest == "" || !IsDigit(rest[0], base))
    ensures DigitsFrom(s + rest, base, 0) == ValueOf(s, base)
  {
    DigitsThen(s, rest, base, 0);
    DigitsAre(s, base);
  }

  /** The white space of C. */
  predicate IsSpace(c: char) { c as int in {9, 10, 11, 12, 13, 32} }

  lemma {:induction false} SpaceSkipped(space: string, s: string)
    requires forall i :: 0 <= i < |space| ==> IsSpace(space[i])
    requires s == "" || !IsSpace(s[0])
    ensures SkipSpace(space + s) == s
  {
    if space == "" {
      assert space + s == s;
    } else {
      assert (space + s)[1..] == space[1..] + s;
      SpaceSkipped(space[1..], s);
    }
  }

  datatype Base = Decimals | Octals | Hexadecimals(x: char)

  function Prefix(b: Base): string {
    match b case Decimals => "" case Octals => "0" case Hexadecimals(x) => ['0', x]
  }

  function Radix(b: Base): nat {
    match b case Decimals => 10 case Octals => 8 case Hexadecimals(_) => 16
  }

  /** Digits that belong to a prefix, and a rest that does not go on with them. */
  ghost predicate Numeral(b: Base, digits: string, rest: string) {
    && Digits(digits, Radix(b)) && (rest == "" || !IsDigit(rest[0], Radix(b)))
    && match b
       case Decimals => digits != "" && digits[0] != '0'
       case Octals => digits == "" ==> rest == "" || (rest[0] != 'x' && rest[0] != 'X')
       case Hexadecimals(x) => (x == 'x' || x == 'X') && digits != ""
  }

  /** A text that starts with a digit has no sign and no white space in front. */
  lemma ScanDigits(s: string)
    requires s != "" && IsDigit(s[0], 10)
    ensures ScanInt(s) ==
            Some(if |s| >= 3 && s[0] == '0' && (s[1] == 'x' || s[1] == 'X') && IsHex(s[2])
                 then DigitsFrom(s[2..], 16, 0)
                 else if s[0] == '0' then DigitsFrom(s, 8, 0) else DigitsFrom(s, 10, 0))
  {
    SpaceSkipped("", s);
    assert "" + s == s;
  }

  lemma OctalNumeral(digits: string, rest: string)
    requires Numeral(Octals, digits, rest)
    ensures ScanInt("0" + (digits + rest)) == Some(ValueOf(digits, 8))
  {
    var s := "0" + (digits + rest);
    assert s[1..] == digits + rest;
    assert digits != "" ==> s[1] == digits[0];
    assert digits == "" && rest != "" ==> s[1] == rest[0];
    NumberThen(digits, rest, 8);
    ScanDigits(s);
    assert DigitsFrom(s, 8, 0) == DigitsFrom(s[1..], 8, 0);
  }

  lemma HexNumeral(x: char, digits: string, rest: string)
    requires Numeral(Hexadecimals(x), digits, rest)
    ensures ScanInt(['0', x] + (digits + rest)) == Some(ValueOf(digits, 16))
  {
    var s := ['0', x] + (digits + rest);
    assert s[2..] == digits + rest && s[2] == digits[0];
    NumberThen(digits, rest, 16);
    ScanDigits(s);
  }

  lemma UnsignedNumeral(b: Base, digits: string, rest: string)
    requires Numeral(b, digits, rest)
    ensures ScanInt(Prefix(b) + (digits + rest)) == Some(ValueOf(digits, Radix(b)))
  {
    match b
    case Decimals =>
      assert "" + (digits + rest) == digits + rest;
      NumberThen(digits, rest, 10);
      ScanDigits(digits + rest);
    case Octals => OctalNumeral(digits, rest);
    case Hexadecimals(x) => HexNumeral(x, digits, rest);
  }

  /** A sign in front of a number negates it or not; white space is skipped. */
  lemma SignedNumeral(space: string, sign: char, s: string)
    requires forall i :: 0 <= i < |space| ==> IsSpace(space[i])
    requires (sign == '+' || sign == '-') && s != "" && IsDigit(s[0], 10)
    ensures ScanInt(s).Some? && ScanInt(space + s) == ScanInt(s)
    ensures ScanInt(space + ([sign] + s)) == Some(if sign == '-' then -ScanInt(s).value else ScanInt(s).value)
  {
    SpaceSkipped("", s);
    assert "" + s == s;
    SpaceSkipped(space, s);
    SpaceSkipped(space, [sign] + s);
    assert ([sign] + s)[1..] == s;
  }

  /** Without a decimal digit behind white space and sign there is no number. */
  lemma NoNumber(space: string, sign: string, s: string)
    requires forall i :: 0 <= i < |space| ==> IsSpace(space[i])
    requires sign == "" || sign == "+" || sign == "-"
    requires s == "" || !('0' <= s[0] <= '9')
    requires sign == "" && s != "" ==> !IsSpace(s[0]) && s[0] != '+' && s[0] != '-'
    ensures ScanInt(space + (sign + s)) == None
  {
    SpaceSkipped(space, sign + s);
    if sign == "" {
      assert sign + s == s;
    } else {
      assert (sign + s)[1..] == s;
    }
  }

  // ----- the authority ------------------------------------------------------------------------

  lemma DecimalIsPlain(n: nat)
    ensures Lacks(Decimal(n), '/') && Lacks(Decimal(n), '@') && Lacks(Decimal(n), ':')
  {
  }

  lemma HostAlone(proto: Proto, host: string, services: Services, oldPort: int)
    requires GoodHost(host)
    ensures IndexOf(host, ':') == |host| && host[..IndexOf(host, ':')] == host
    ensures PortOf(proto, host, services, oldPort) == DefaultPort(proto, services)
  {
    IndexOfIs(host, ':', |host|);
  }

  lemma HostAndPort(proto: Proto, host: string, port: nat, services: Services, oldPort: int)
    requires GoodHost(host) && port > 0
    ensures var s := host + (":" + Decimal(port));
            && Lacks(s, '/') && Lacks(s, '@')
            && s[..IndexOf(s, ':')] == host && PortOf(proto, s, services, oldPort) == port
  {
    var s := host + (":" + Decimal(port));
    DecimalIsPlain(port);
    IndexOfIs(s, ':', |host|);
    PortIsScanned(proto, host, Decimal(port), services, oldPort);
    PortRoundTrip(port);
  }

  lemma HostPortText(proto: Proto, host: string, port: Option<nat>, services: Services, oldPort: int)
    requires GoodHost(host) && (port.Some? ==> port.value > 0)
    ensures var s := host + PortAsText(port);
            && Lacks(s, '/') && Lacks(s, '@')
            && s[..IndexOf(s, ':')] == host
            && PortOf(proto, s, services, oldPort) ==
               if port.Some? then port.value else DefaultPort(proto, services)
  {
    if port.Some? {
      HostAndPort(proto, host, port.value, services, oldPort);
    } else {
      assert host + "" == host;
      HostAlone(proto, host, services, oldPort);
    }
  }

  /** Whatever stands behind the colon is scanned; a text that is no number leaves the old port. */
  lemma PortIsScanned(proto: Proto, host: string, text: string, services: Services, oldPort: int)
    requires Lacks(host, ':')
    ensures PortOf(proto, host + (":" + text), services, oldPort) ==
            if ScanInt(text).Some? then ScanInt(text).value else oldPort
  {
    var s := host + (":" + text);
    IndexOfIs(s, ':', |host|);
    assert s[|host| + 1..] == text;
  }

  function UserOf(proto: Proto, login: Login): string {
    match login
    case NoLogin => if proto == Ftp then "anonymous" else ""
    case User(user) => user
    case UserPass(user, _) => user
  }

  function PassOf(proto: Proto, login: Login): string {
    match login
    case NoLogin => if proto == Ftp then "mailto:axel-devel@lists.alioth.debian.org" else ""
    case User(_) => ""
    case UserPass(_, pass) => pass
  }

  lemma BareHost(proto: Proto, hostPort: string)
    requires Lacks(hostPort, '@')
    ensures HostPort(hostPort) == hostPort && LoginOf(proto, hostPort) == DefaultLogin(proto)
  {
    AfterLastIs(hostPort, '@', 0);
    assert hostPort[0..] == hostPort;
  }

  lemma UserAlone(proto: Proto, user: string, hostPort: string)
    requires Lacks(user, ':') && Lacks(hostPort, '@')
    ensures HostPort((user + "@") + hostPort) == hostPort
    ensures LoginOf(proto, (user + "@") + hostPort) == (user, "")
  {
    var s := (user + "@") + hostPort;
    AfterLastIs(s, '@', |user| + 1);
    assert s[..|user|] == user && s[|user| + 1..] == hostPort;
    IndexOfIs(user, ':', |user|);
  }

  lemma CutsLogin(proto: Proto, login: Login, hostPort: string)
    requires GoodLogin(login) && Lacks(hostPort, '@')
    ensures var s := LoginAsText(login) + hostPort;
            && HostPort(s) == hostPort
            && LoginOf(proto, s) == (UserOf(proto, login), PassOf(proto, login))
  {
    match login
    case NoLogin =>
      assert "" + hostPort == hostPort;
      BareHost(proto, hostPort);
    case User(user) => UserAlone(proto, user, hostPort);
    case UserPass(user, pass) => CutLogin(proto, user, pass, hostPort);
  }

  lemma LoginLacksSlash(login: Login)
    requires GoodLogin(login)
    ensures Lacks(LoginAsText(login), '/')
  {
  }

  // ----- the whole URL ------------------------------------------------------------------------------

  /** Everything behind the protocol. */
  function RestText(login: Login, host: string, port: Option<nat>, p: Path): string {
    (LoginAsText(login) + (host + PortAsText(port))) + PathAsText(p)
  }

  function PortNumber(proto: Proto, port: Option<nat>, services: Services): int {
    if port.Some? then port.value
    else if proto == Ftp then (if services.ftp.Some? then services.ftp.value else 21)
    else (if services.www.Some? then services.www.value else 80)
  }

  lemma ParseRestText(
      proto: Proto, login: Login, host: string, port: Option<nat>, p: Path, services: Services, oldPort: int)
    requires GoodLogin(login) && GoodHost(host) && (port.Some? ==> port.value > 0)
    requires SplitPath(p) && |Encoded(proto, PathAsText(p))| < MAX_STRING
    ensures ParseRest(proto, RestText(login, host, port, p), services, oldPort) ==
            Url(proto, host, PortNumber(proto, port, services),
                Encoded(proto, p.dir), Encoded(proto, p.name) + Encoded(proto, p.query),
                UserOf(proto, login), PassOf(proto, login))
  {
    var hostPort := host + PortAsText(port);
    HostPortText(proto, host, port, services, oldPort);
    CutsLogin(proto, login, hostPort);
    LoginLacksSlash(login);
    LacksJoin(LoginAsText(login), hostPort, '/');
    StoredText(proto, LoginAsText(login) + hostPort, p);
    EncodedShape(proto, p);
    CutFile(EncodedPath(proto, p));
  }

  /** Without anything behind the authority the directory is "/" and there is no file. */
  lemma ParseBareText(
      proto: Proto, login: Login, host: string, port: Option<nat>, services: Services, oldPort: int)
    requires GoodLogin(login) && GoodHost(host) && (port.Some? ==> port.value > 0)
    ensures ParseRest(proto, RestText(login, host, port, Path("", "", "")), services, oldPort) ==
            Url(proto, host, PortNumber(proto, port, services), "/", "", UserOf(proto, login), PassOf(proto, login))
  {
    var hostPort := host + PortAsText(port);
    var authority, rest := LoginAsText(login) + hostPort, RestText(login, host, port, Path("", "", ""));
    HostPortText(proto, host, port, services, oldPort);
    CutsLogin(proto, login, hostPort);
    LoginLacksSlash(login);
    LacksJoin(LoginAsText(login), hostPort, '/');
    assert rest == authority;
    IndexOfIs(rest, '/', |rest|);
    assert rest[..|rest|] == rest;
    CutFile(Path("/", "", ""));
    assert PathAsText(Path("/", "", "")) == "/";
  }

  /**
    The record of a whole URL: each field holds exactly its own text, a login, port
    or path that is not there is filled in, and only an HTTP path is encoded.
  */
  lemma ParseText(
      proto: Proto, login: Login, host: string, port: Option<nat>, p: Path, services: Services, oldPort: int)
    requires GoodLogin(login) && GoodHost(host) && (port.Some? ==> port.value > 0)
    requires SplitPath(p) && |Encoded(proto, PathAsText(p))| < MAX_STRING
    ensures Parse((if proto == Ftp then "ftp://" else "http://") + RestText(login, host, port, p), services, oldPort) ==
            Some(Url(proto, host, PortNumber(proto, port, services),
                     Encoded(proto, p.dir), Encoded(proto, p.name) + Encoded(proto, p.query),
                     UserOf(proto, login), PassOf(proto, login)))
  {
    var rest := RestText(login, host, port, p);
    SchemeFound(proto, rest);
    assert (Scheme(proto) + rest)[0] == if proto == Ftp then 'f' else 'h';
    ParseRestText(proto, login, host, port, p, services, oldPort);
  }

  lemma SchemeAtIs(url: string, k: nat)
    ensures SchemeAt(url, k) <==> k + 3 <= |url| && url[k..k + 3] == "://"
  {
    if k + 3 <= |url| {
      var t := url[k..k + 3];
      assert t[0] == url[k] && t[1] == url[k + 1] && t[2] == url[k + 2];
    }
  }

  /** Without "://" the protocol is FTP. */
  lemma NoProtocol(url: string, services: Services, oldPort: int)
    requires forall i: nat :: i < |url| ==> !SchemeAt(url, i)
    ensures Parse(url, services, oldPort) == Some(ParseRest(Ftp, url, services, oldPort))
  {
    var j := FindScheme(url);
  }

  /** In front of the first "://" the first letter decides; any but 'f' and 'h' is refused. */
  lemma ProtocolAt(url: string, k: nat, services: Services, oldPort: int)
    requires SchemeAt(url, k) && forall i: nat :: i < k ==> !SchemeAt(url, i)
    ensures Parse(url, services, oldPort) ==
            if url[0] == 'f' then Some(ParseRest(Ftp, url[k + 3..], services, oldPort))
            else if url[0] == 'h' then Some(ParseRest(Http, url[k + 3..], services, oldPort))
            else None
  {
    FindSchemeIs(url, k);
  }

  lemma FindSchemeIs(url: string, k: nat)
    requires SchemeAt(url, k) && forall i: nat :: i < k ==> !SchemeAt(url, i)
    ensures FindScheme(url) == k
  {
    var j := FindScheme(url);
  }

  lemma PlainStays(proto: Proto, s: string)
    requires ' ' !in s
    ensures Encoded(proto, s) == s
  {
    if proto == Http {
      NoSpaceEncodesToItself(s);
    }
  }

  /** A path without spaces is stored as it stands. */
  lemma PlainPath(proto: Proto, p: Path)
    requires ' ' !in p.dir && ' ' !in p.name && ' ' !in p.query
    ensures EncodedPath(proto, p) == p && Encoded(proto, PathAsText(p)) == PathAsText(p)
  {
    PlainStays(proto, p.dir);
    PlainStays(proto, p.name);
    PlainStays(proto, p.query);
    PlainStays(proto, PathAsText(p));
  }

  lemma BareText(host: string, p: Path)
    ensures RestText(NoLogin, host, None, p) == host + PathAsText(p)
  {
    assert "" + (host + "") == host;
  }

  lemma ParsePlain(host: string, p: Path, services: Services, oldPort: int)
    requires GoodHost(host) && SplitPath(p) && EncodedPath(Http, p) == p
    requires Encoded(Http, PathAsText(p)) == PathAsText(p) && |PathAsText(p)| < MAX_STRING
    ensures Parse("http://" + (host + PathAsText(p)), services, oldPort) ==
            Some(Url(Http, host, PortNumber(Http, None, services), p.dir, p.name + p.query, "", ""))
  {
    BareText(host, p);
    ParseText(Http, NoLogin, host, None, p, services, oldPort);
  }

  /** The simplest URLs, such as http://h/a?x=b/c: whatever slashes the query holds, the name stays in front of it. */
  lemma PlainUrl(host: string, name: string, query: string, services: Services, oldPort: int)
    requires GoodHost(host) && Lacks(name, '/') && Lacks(name, '?') && (query == "" || query[0] == '?')
    requires ' ' !in name && ' ' !in query && 1 + |name| + |query| < MAX_STRING
    ensures Parse("http://" + (host + ("/" + (name + query))), services, oldPort) ==
            Some(Url(Http, host, PortNumber(Http, None, services), "/", name + query, "", ""))
  {
    var p := Path("/", name, query);
    PlainPath(Http, p);
    BareText(host, p);
    ParsePlain(host, p, services, oldPort);
  }
}
