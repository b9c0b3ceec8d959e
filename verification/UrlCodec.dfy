/**
  Axel's URL parser and printer (conn_set and conn_url in test04 conn.c).
  Strings are C strings without their terminator, shorter than MAX_STRING.
*/
module UrlCodec {
  import opened Common
  import opened PercentCoding

  datatype Proto = Ftp | Http

  datatype Url = Url(proto: Proto, host: string, port: int, dir: string, file: string, user: string, pass: string)

  /** getservbyname's answers for ftp and www, if any. */
  datatype Services = Services(ftp: Option<int>, www: Option<int>)

  const ANONYMOUS: string := "anonymous"
  const ANONYMOUS_PASS: string := "mailto:axel-devel@lists.alioth.debian.org"

  // ----- string searches --------------------------------------------------------------

  /** strrchr: one past the last occurrence, or 0. */
  function AfterLast(s: string, c: char): (k: nat)
    ensures k <= |s| && (k > 0 ==> s[k - 1] == c)
    ensures forall i :: k <= i < |s| ==> s[i] != c
  {
    if s == "" then 0
    else if s[|s| - 1] == c then |s|
    else AfterLast(s[..|s| - 1], c)
  }

  predicate SchemeAt(s: string, k: nat) {
    k + 3 <= |s| && s[k] == ':' && s[k + 1] == '/' && s[k + 2] == '/'
  }

  /** strstr(url, "://"): the first occurrence, or the length. */
  function FindScheme(s: string): (k: nat)
    ensures k <= |s| && (k < |s| ==> SchemeAt(s, k))
    ensures forall i: nat :: i < k ==> !SchemeAt(s, i)
  {
    if s == "" || SchemeAt(s, 0) then 0
    else
      var k := FindScheme(s[1..]);
      assert forall i: nat :: 0 < i < k + 1 ==> (SchemeAt(s, i) <==> SchemeAt(s[1..], i - 1));
      k + 1
  }

  lemma AfterLastIs(s: string, c: char, k: nat)
    requires k <= |s| && (k > 0 ==> s[k - 1] == c)
    requires forall i :: k <= i < |s| ==> s[i] != c
    ensures AfterLast(s, c) == k
  {
    var j := AfterLast(s, c);
  }

  // ----- numbers --------------------------------------------------------------------------

  predicate IsDigit(c: char, base: nat) {
    IsHex(c) && HexValue(c) < base
  }

  /** The value of the longest prefix of digits, behind those already in acc. */
  function DigitsFrom(s: string, base: nat, acc: nat): nat {
    if s == "" || !IsDigit(s[0], base) then acc
    else DigitsFrom(s[1..], base, acc * base + HexValue(s[0]))
  }

  function SkipSpace(s: string): string {
    if s != "" && (s[0] in " \t\n\r" || s[0] as int == 11 || s[0] as int == 12) then SkipSpace(s[1..]) else s
  }

  /** sscanf with "%i" on a number in range: decimal, octal behind 0, hexadecimal behind 0x. */
  function ScanInt(text: string): Option<int> {
    var t := SkipSpace(text);
    var signed := t != "" && (t[0] == '-' || t[0] == '+');
    var s := if signed then t[1..] else t;
    if s == "" || !IsDigit(s[0], 10) then None
    else
      var hex := |s| >= 3 && s[0] == '0' && (s[1] == 'x' || s[1] == 'X') && IsHex(s[2]);
      var v := if hex then DigitsFrom(s[2..], 16, 0)
               else if s[0] == '0' then DigitsFrom(s, 8, 0) else DigitsFrom(s, 10, 0);
      Some(if signed && t[0] == '-' then -v else v)
  }

  function DigitChar(d: nat): char
    requires d < 10
  {
    ('0' as int + d) as char
  }

  /** printf with "%i" on a positive number. */
  function Decimal(n: nat): (s: string)
    ensures s != "" && forall i :: 0 <= i < |s| ==> '0' <= s[i] <= '9'
    ensures n > 0 ==> s[0] != '0'
  {
    if n < 10 then [DigitChar(n)] else Decimal(n / 10) + [DigitChar(n % 10)]
  }

  lemma {:induction false} DigitsSnoc(s: string, c: char, acc: nat)
    requires forall i :: 0 <= i < |s| ==> '0' <= s[i] <= '9'
    requires '0' <= c <= '9'
    ensures DigitsFrom(s + [c], 10, acc) == DigitsFrom(s, 10, acc) * 10 + HexValue(c)
  {
    if s == "" {
      assert s + [c] == [c];
      assert DigitsFrom([c], 10, acc) == DigitsFrom([c][1..], 10, acc * 10 + HexValue(c));
    } else {
      assert (s + [c])[1..] == s[1..] + [c];
      DigitsSnoc(s[1..], c, acc * 10 + HexValue(s[0]));
    }
  }

  lemma {:induction false} DecimalValue(n: nat)
    ensures DigitsFrom(Decimal(n), 10, 0) == n
  {
    if n >= 10 {
      DecimalValue(n / 10);
      DigitsSnoc(Decimal(n / 10), DigitChar(n % 10), 0);
    } else {
      DigitsSnoc("", DigitChar(n), 0);
      assert "" + [DigitChar(n)] == [DigitChar(n)];
    }
  }

  lemma PortRoundTrip(n: int)
    requires n > 0
    ensures ScanInt(Decimal(n)) == Some(n)
  {
    DecimalValue(n);
  }

  // ----- the parser ----------------------------------------------------------------------------

  /** Everything behind the authority, as it is stored before it is split. */
  function PathOf(proto: Proto, rest: string): string {
    var k := IndexOf(rest, '/');
    if k == |rest| then "/"
    else if proto == Http then Encode("/" + rest[k + 1..]) else "/" + rest[k + 1..]
  }

  /** The file starts behind the last '/' in front of the query. */
  function FileStart(path: string): (k: nat)
    ensures k <= |path|
  {
    AfterLast(path[..IndexOf(path, '?')], '/')
  }

  function DirOf(path: string): string {
    (if FileStart(path) == 0 then "" else path[..FileStart(path) - 1]) + "/"
  }

  function FileOf(path: string): string { path[FileStart(path)..] }

  function DefaultLogin(proto: Proto): (string, string) {
    if proto == Ftp then (ANONYMOUS, ANONYMOUS_PASS) else ("", "")
  }

  /** User and password of the authority: behind the last '@' is the host. */
  function LoginOf(proto: Proto, authority: string): (string, string) {
    var at := AfterLast(authority, '@');
    if at == 0 then DefaultLogin(proto) else SplitUser(authority[..at - 1])
  }

  /** A login without colon is a user without password. */
  function SplitUser(login: string): (string, string) {
    var colon := IndexOf(login, ':');
    if colon == |login| then (login, "") else (login[..colon], login[colon + 1..])
  }

  function HostPort(authority: string): string { authority[AfterLast(authority, '@')..] }

  function DefaultPort(proto: Proto, services: Services): int {
    if proto == Ftp then (if services.ftp.Some? then services.ftp.value else 21)
    else (if services.www.Some? then services.www.value else 80)
  }

  /** A number that does not parse leaves the old port in place. */
  function PortOf(proto: Proto, hostPort: string, services: Services, oldPort: int): int {
    var colon := IndexOf(hostPort, ':');
    if colon == |hostPort| then DefaultPort(proto, services)
    else
      var scanned := ScanInt(hostPort[colon + 1..]);
      if scanned.Some? then scanned.value else oldPort
  }

  /** The record of an authority and a stored path. */
  function FromParts(proto: Proto, authority: string, path: string, services: Services, oldPort: int): Url {
    var hostPort := HostPort(authority);
    Url(proto, hostPort[..IndexOf(hostPort, ':')], PortOf(proto, hostPort, services, oldPort),
        DirOf(path), FileOf(path), LoginOf(proto, authority).0, LoginOf(proto, authority).1)
  }

  function ParseRest(proto: Proto, rest: string, services: Services, oldPort: int): Url {
    FromParts(proto, rest[..IndexOf(rest, '/')], PathOf(proto, rest), services, oldPort)
  }

  /** The protocol and what follows it; None when "://" follows an unknown one. */
  function SplitScheme(url: string): Option<(Proto, string)> {
    var k := FindScheme(url);
    if k == |url| then Some((Ftp, url))
    else if url[0] == 'f' then Some((Ftp, url[k + 3..]))
    else if url[0] == 'h' then Some((Http, url[k + 3..]))
    else None
  }

  /** None for an unknown protocol; the caller still checks the port. */
  function Parse(url: string, services: Services, oldPort: int): Option<Url> {
    var r := SplitScheme(url);
    if r.None? then None else Some(ParseRest(r.value.0, r.value.1, services, oldPort))
  }

  predicate Accepted(r: Option<Url>) { r.Some? && r.value.port > 0 }

  // ----- the printer ----------------------------------------------------------------------------

  predicate ShowsLogin(c: Url) { c.user != "" && c.user != ANONYMOUS }

  function LoginText(user: string, pass: string): string { user + ":" + pass + "@" }

  function HostText(c: Url): string
    requires c.port > 0
  {
    c.host + ":" + Decimal(c.port)
  }

  function Authority(c: Url): string
    requires c.port > 0
  {
    if ShowsLogin(c) then LoginText(c.user, c.pass) + HostText(c) else HostText(c)
  }

  function Scheme(proto: Proto): string { if proto == Ftp then "ftp://" else "http://" }

  function Print(c: Url): string
    requires c.port > 0
  {
    Scheme(c.proto) + (Authority(c) + (c.dir + c.file))
  }

  /** The C code does not look whether the text fits its buffer. */
  predicate Printable(c: Url) { c.port > 0 && |Print(c)| < MAX_STRING }

  // ----- the C object -------------------------------------------------------------------------------

  class Conn {
    var proto: Proto
    var host: string
    var port: int
    var dir: string
    var file: string
    var user: string
    var pass: string

    ghost function View(): Url
      reads this
    {
      Url(proto, host, port, dir, file, user, pass)
    }

    /** Host field and path out of everything behind the protocol. */
    method SplitHost(url: string)
      modifies `dir, `host
      ensures dir == PathOf(proto, url) && host == url[..IndexOf(url, '/')]
    {
      var i := IndexOf(url, '/');
      if i == |url| {
        dir := "/";
      } else {
        dir := "/" + url[i + 1..];
        if proto == Http {
          dir := HttpEncode(dir);
        }
      }
      host := url[..i];
    }

    /** Directory and file out of the path. */
    method SplitFile()
      modifies `dir, `file
      ensures dir == DirOf(old(dir)) && file == FileOf(old(dir))
    {
      var j := IndexOf(dir, '?');
      var i := AfterLast(dir[..j], '/');
      file := dir[i..];
      dir := (if i == 0 then "" else dir[..i - 1]) + "/";
    }

    /** User and password out of the host field, or the defaults. */
    method SplitLogin()
      modifies `host, `user, `pass
      ensures user == LoginOf(proto, old(host)).0 && pass == LoginOf(proto, old(host)).1
      ensures host == HostPort(old(host))
    {
      var i := AfterLast(host, '@');
      if i > 0 {
        user := host[..i - 1];
        pass := "";
        host := host[i..];
      } else if proto == Ftp {
        user, pass := ANONYMOUS, ANONYMOUS_PASS;
        assert host[0..] == host;
        assert forall k :: 0 <= k < |ANONYMOUS| ==> ANONYMOUS[k] != ':';
      } else {
        user, pass := "", "";
        assert host[0..] == host;
      }
      var j := IndexOf(user, ':');
      if j < |user| {
        pass := user[j + 1..];
        user := user[..j];
      }
    }

    /** The port out of the host field, or the default. */
    method SplitPort(services: Services)
      modifies `host, `port
      ensures port == PortOf(proto, old(host), services, old(port))
      ensures host == old(host)[..IndexOf(old(host), ':')]
    {
      var j := IndexOf(host, ':');
      if j < |host| {
        var scanned := ScanInt(host[j + 1..]);
        if scanned.Some? {
          port := scanned.value;
        }
      } else {
        port := DefaultPort(proto, services);
      }
      host := host[..j];
    }

    /** Everything behind the protocol. */
    method FillIn(url: string, services: Services)
      modifies this
      ensures View() == ParseRest(old(proto), url, services, old(port))
    {
      SplitHost(url);
      SplitParts(services);
    }

    method SplitParts(services: Services)
      modifies this
      ensures View() == FromParts(old(proto), old(host), old(dir), services, old(port))
    {
      SplitFile();
      SplitLogin();
      SplitPort(services);
    }

    method TakeScheme(setUrl: string) returns (known: bool, url: string)
      modifies `proto
      ensures known == SplitScheme(setUrl).Some?
      ensures known ==> (proto, url) == SplitScheme(setUrl).value
      ensures !known ==> proto == old(proto)
    {
      var i := FindScheme(setUrl);
      if i == |setUrl| {
        proto := Ftp;
        return true, setUrl;
      }
      if setUrl[0] == 'f' {
        proto := Ftp;
      } else if setUrl[0] == 'h' {
        proto := Http;
      } else {
        return false, "";
      }
      return true, setUrl[i + 3..];
    }

    /** conn_set */
    method Set(setUrl: string, services: Services) returns (ok: bool)
      requires |setUrl| < MAX_STRING
      modifies this
      ensures ok <==> Accepted(Parse(setUrl, services, old(port)))
      ensures var r := Parse(setUrl, services, old(port));
              if r.Some? then View() == r.value else View() == old(View())
    {
      var url;
      ok, url := TakeScheme(setUrl);
      if ok {
        FillIn(url, services);
        ok := port > 0;
      }
    }

    /** Print this record and parse the text into another. */
    method PrintInto(other: Conn, services: Services) returns (ok: bool)
      requires other != this && Printable(View()) && GoodAuthority(View()) && GoodPath(View())
      modifies other
      ensures ok && View() == old(View())
      ensures other.View() == View() <==> LoginSurvives(View())
    {
      ghost var c, otherPort := View(), other.port;
      var s := Text();
      ReparseIff(c, services, otherPort);
      ok := other.Set(s, services);
    }

    /** conn_url */
    method Text() returns (s: string)
      requires Printable(View())
      ensures s == Print(View())
    {
      s := Scheme(proto);
      if user != "" && user != ANONYMOUS {
        s := s + LoginText(user, pass);
      }
      s := s + (host + ":" + Decimal(port) + dir + file);
      assert s == Print(View());
    }
  }

  // ----- what parsed records look like --------------------------------------------------------------

  ghost predicate Lacks(s: string, c: char) {
    forall i :: 0 <= i < |s| ==> s[i] != c
  }

  /** The path part of a parsed record splits again as it was split. */
  ghost predicate GoodPath(c: Url) {
    StoredPath(c.proto, c.dir + c.file) && SplitsAs(c.dir + c.file, c.dir, c.file)
  }

  ghost predicate StoredPath(proto: Proto, path: string) {
    path != "" && path[0] == '/' && (proto == Http ==> Encode(path) == path)
  }

  ghost predicate SplitsAs(path: string, dir: string, file: string) {
    DirOf(path) == dir && FileOf(path) == file
  }

  ghost predicate GoodAuthority(c: Url) {
    && Lacks(c.host, '/') && Lacks(c.host, '@') && Lacks(c.host, ':')
    && (ShowsLogin(c) ==> Lacks(c.user, '/') && Lacks(c.user, ':') && Lacks(c.pass, '/'))
  }

  lemma EncodeKeepsSlash(s: string)
    requires s != "" && s[0] == '/'
    ensures Encode(s) != "" && Encode(s)[0] == '/'
  {
  }

  lemma PathShape(proto: Proto, rest: string)
    ensures StoredPath(proto, PathOf(proto, rest))
  {
    var k := IndexOf(rest, '/');
    if k < |rest| {
      EncodeKeepsSlash("/" + rest[k + 1..]);
      EncodeIdempotent("/" + rest[k + 1..]);
    } else {
      NoSpaceEncodesToItself("/");
      EncodeIsFullIff("/");
    }
  }

  lemma FileStartShape(path: string)
    requires path != "" && path[0] == '/'
    ensures FileStart(path) > 0 && path[FileStart(path) - 1] == '/'
  {
    var q := IndexOf(path, '?');
    assert path[..q][0] == '/';
  }

  lemma ParsedPath(proto: Proto, rest: string, services: Services, oldPort: int)
    ensures GoodPath(ParseRest(proto, rest, services, oldPort))
    ensures var c := ParseRest(proto, rest, services, oldPort); c.dir + c.file == PathOf(proto, rest)
  {
    var path := PathOf(proto, rest);
    var c := ParseRest(proto, rest, services, oldPort);
    PathShape(proto, rest);
    FileStartShape(path);
    var k := FileStart(path);
    assert path[..k - 1] + "/" == path[..k];
    assert c.dir + c.file == path[..k] + path[k..] == path;
  }

  lemma LacksPart(s: string, c: char, lo: nat, hi: nat)
    requires lo <= hi <= |s| && forall i :: lo <= i < hi ==> s[i] != c
    ensures Lacks(s[lo..hi], c)
  {
  }

  lemma ParsedHost(authority: string)
    requires Lacks(authority, '/')
    ensures var hostPort := HostPort(authority);
            var host := hostPort[..IndexOf(hostPort, ':')];
            Lacks(host, '/') && Lacks(host, '@') && Lacks(host, ':')
  {
    var at := AfterLast(authority, '@');
    var hostPort := HostPort(authority);
    LacksPart(authority, '/', at, |authority|);
    LacksPart(authority, '@', at, |authority|);
    LacksPart(hostPort, ':', 0, IndexOf(hostPort, ':'));
  }

  lemma ParsedLogin(proto: Proto, authority: string)
    requires Lacks(authority, '/') && AfterLast(authority, '@') > 0
    ensures var (user, pass) := LoginOf(proto, authority);
            Lacks(user, '/') && Lacks(user, ':') && Lacks(pass, '/')
  {
    var login := authority[..AfterLast(authority, '@') - 1];
    var k := IndexOf(login, ':');
    LacksPart(authority, '/', 0, |login|);
    LacksPart(login, ':', 0, k);
    LacksPart(login, '/', 0, k);
    if k < |login| {
      LacksPart(login, '/', k + 1, |login|);
    }
  }

  lemma ParsedAuthority(proto: Proto, rest: string, services: Services, oldPort: int)
    ensures GoodAuthority(ParseRest(proto, rest, services, oldPort))
  {
    var authority := rest[..IndexOf(rest, '/')];
    LacksPart(rest, '/', 0, IndexOf(rest, '/'));
    ParsedHost(authority);
    if AfterLast(authority, '@') > 0 {
      ParsedLogin(proto, authority);
    }
  }

  // ----- printing and parsing again --------------------------------------------------------------------

  lemma SchemeFound(proto: Proto, rest: string)
    ensures FindScheme(Scheme(proto) + rest) == |Scheme(proto)| - 3
    ensures (Scheme(proto) + rest)[|Scheme(proto)|..] == rest
  {
    var s := Scheme(proto) + rest;
    var k := if proto == Ftp then 3 else 4;
    assert SchemeAt(s, k);
    forall i: nat | i < k ensures !SchemeAt(s, i) {
    }
    var j := FindScheme(s);
    assert j <= k;
  }

  lemma AuthorityLacksSlash(c: Url)
    requires c.port > 0 && GoodAuthority(c)
    ensures Lacks(Authority(c), '/')
  {
    HostTextLacks(c);
    if ShowsLogin(c) {
      assert Lacks(LoginText(c.user, c.pass), '/');
    }
  }

  lemma CutLogin(proto: Proto, user: string, pass: string, hostPort: string)
    requires Lacks(user, ':') && Lacks(hostPort, '@')
    ensures HostPort(LoginText(user, pass) + hostPort) == hostPort
    ensures LoginOf(proto, LoginText(user, pass) + hostPort) == (user, pass)
  {
    var s, login := LoginText(user, pass) + hostPort, user + ":" + pass;
    AfterLastIs(s, '@', |login| + 1);
    assert s[..|login|] == login && s[|login| + 1..] == hostPort;
    IndexOfIs(login, ':', |user|);
    assert login[..|user|] == user && login[|user| + 1..] == pass;
    assert SplitUser(login) == (user, pass);
  }

  lemma HostTextLacks(c: Url)
    requires c.port > 0 && GoodAuthority(c)
    ensures Lacks(HostText(c), '@') && Lacks(HostText(c), '/')
  {
  }

  lemma SplitAuthority(c: Url)
    requires c.port > 0 && GoodAuthority(c)
    ensures HostPort(Authority(c)) == HostText(c)
    ensures LoginOf(c.proto, Authority(c)) == if ShowsLogin(c) then (c.user, c.pass) else DefaultLogin(c.proto)
  {
    HostTextLacks(c);
    if ShowsLogin(c) {
      CutLogin(c.proto, c.user, c.pass, HostText(c));
    } else {
      AfterLastIs(HostText(c), '@', 0);
      assert HostText(c)[0..] == HostText(c);
    }
  }

  lemma SplitHostPort(c: Url, services: Services, oldPort: int)
    requires c.port > 0 && GoodAuthority(c)
    ensures var hp := HostText(c);
            hp[..IndexOf(hp, ':')] == c.host && PortOf(c.proto, hp, services, oldPort) == c.port
  {
    var hp := HostText(c);
    IndexOfIs(hp, ':', |c.host|);
    assert hp[..|c.host|] == c.host && hp[|c.host| + 1..] == Decimal(c.port);
    PortRoundTrip(c.port);
  }

  lemma CutPath(proto: Proto, a: string, path: string)
    requires Lacks(a, '/') && StoredPath(proto, path)
    ensures (a + path)[..IndexOf(a + path, '/')] == a && PathOf(proto, a + path) == path
  {
    IndexOfIs(a + path, '/', |a|);
    assert "/" + (a + path)[|a| + 1..] == path;
  }

  lemma ParsePrinted(c: Url, services: Services, oldPort: int)
    requires c.port > 0 && GoodAuthority(c) && GoodPath(c)
    ensures ParseRest(c.proto, Authority(c) + (c.dir + c.file), services, oldPort) ==
            if ShowsLogin(c) then c
            else c.(user := DefaultLogin(c.proto).0, pass := DefaultLogin(c.proto).1)
  {
    AuthorityLacksSlash(c);
    CutPath(c.proto, Authority(c), c.dir + c.file);
    SplitAuthority(c);
    SplitHostPort(c, services, oldPort);
  }

  lemma ParsePrintedUrl(c: Url, services: Services, oldPort: int)
    requires c.port > 0
    ensures Parse(Print(c), services, oldPort) ==
            Some(ParseRest(c.proto, Authority(c) + (c.dir + c.file), services, oldPort))
  {
    SchemeFound(c.proto, Authority(c) + (c.dir + c.file));
    assert Print(c)[0] == if c.proto == Ftp then 'f' else 'h';
  }

  /** What a caller can check on a record: the printer shows its login, or the login is the default. */
  predicate LoginSurvives(c: Url) {
    ShowsLogin(c) || (c.user, c.pass) == DefaultLogin(c.proto)
  }

  lemma ParsedIsGood(url: string, services: Services, oldPort: int)
    requires Accepted(Parse(url, services, oldPort))
    ensures var c := Parse(url, services, oldPort).value;
            c.port > 0 && GoodPath(c) && GoodAuthority(c)
  {
    var (proto, rest) := SplitScheme(url).value;
    ParsedPath(proto, rest, services, oldPort);
    ParsedAuthority(proto, rest, services, oldPort);
  }

  /**
    Printing any accepted record that fits the buffer and parsing it again gives the
    same record exactly when its login survives; every other field survives always.
  */
  lemma RoundTripIff(url: string, services: Services, oldPort: int, laterServices: Services, laterPort: int)
    requires Accepted(Parse(url, services, oldPort)) && Printable(Parse(url, services, oldPort).value)
    ensures var c := Parse(url, services, oldPort).value;
            var r := Parse(Print(c), laterServices, laterPort);
            && Accepted(r)
            && (r == Some(c) <==> LoginSurvives(c))
            && r.value == c.(user := r.value.user, pass := r.value.pass)
  {
    ParsedIsGood(url, services, oldPort);
    var c := Parse(url, services, oldPort).value;
    ReparseIff(c, laterServices, laterPort);
  }

  lemma ReparseIff(c: Url, services: Services, oldPort: int)
    requires c.port > 0 && GoodAuthority(c) && GoodPath(c)
    ensures var r := Parse(Print(c), services, oldPort);
            && Accepted(r)
            && (r == Some(c) <==> LoginSurvives(c))
            && r.value == c.(user := r.value.user, pass := r.value.pass)
  {
    ParsePrintedUrl(c, services, oldPort);
    ParsePrinted(c, services, oldPort);
  }

  /** What stands in front of the last '@' of the authority, if it has one. */
  function LoginPart(authority: string): Option<string> {
    var at := AfterLast(authority, '@');
    if at == 0 then None else Some(authority[..at - 1])
  }

  /** The logins that survive, told from the URL: none, a user that is shown, or the default spelled out. */
  predicate LoginIsKept(proto: Proto, login: Option<string>) {
    match login
    case None => true
    case Some(s) =>
      || (SplitUser(s).0 != "" && SplitUser(s).0 != ANONYMOUS)
      || (if proto == Ftp then s == ANONYMOUS + (":" + ANONYMOUS_PASS) else s == "" || s == ":")
  }

  lemma CutIsJoin(s: string)
    requires IndexOf(s, ':') < |s|
    ensures s == s[..IndexOf(s, ':')] + (":" + s[IndexOf(s, ':') + 1..])
  {
  }

  lemma JoinIsCut(user: string, pass: string)
    requires Lacks(user, ':')
    ensures SplitUser(user + (":" + pass)) == (user, pass)
  {
    var s := user + (":" + pass);
    IndexOfIs(s, ':', |user|);
    assert s[..|user|] == user && s[|user| + 1..] == pass;
  }

  /** The texts that split into a given login. */
  lemma SplitUserIs(s: string, user: string, pass: string)
    requires Lacks(user, ':')
    ensures SplitUser(s) == (user, pass) <==> s == user + (":" + pass) || (s == user && pass == "")
  {
    if s == user + (":" + pass) {
      JoinIsCut(user, pass);
    } else if s == user && pass == "" {
      IndexOfIs(s, ':', |s|);
    } else if IndexOf(s, ':') < |s| {
      CutIsJoin(s);
    }
  }

  /** In terms of the URL: exactly the kept logins survive. */
  lemma LoginSurvivesIff(proto: Proto, rest: string, services: Services, oldPort: int)
    ensures LoginSurvives(ParseRest(proto, rest, services, oldPort)) <==>
            LoginIsKept(proto, LoginPart(Before(rest, '/')))
  {
    var login := LoginPart(Before(rest, '/'));
    if login.Some? {
      KeptIff(proto, login.value);
    }
  }

  lemma KeptIff(proto: Proto, s: string)
    ensures (SplitUser(s).0 != "" && SplitUser(s).0 != ANONYMOUS) || SplitUser(s) == DefaultLogin(proto) <==>
            LoginIsKept(proto, Some(s))
  {
    if proto == Ftp {
      SplitUserIs(s, ANONYMOUS, ANONYMOUS_PASS);
    } else {
      SplitUserIs(s, "", "");
      assert "" + (":" + "") == ":";
    }
  }

  lemma BuiltAuthority(user: string, pass: string, host: string, path: string)
    requires Lacks(user, '/') && Lacks(pass, '/') && Lacks(host, '/')
    requires path != "" && path[0] == '/'
    ensures Before((LoginText(user, pass) + host) + path, '/') == LoginText(user, pass) + host
  {
    var a := LoginText(user, pass) + host;
    BeforeIs(a + path, '/', |a|);
    assert (a + path)[..|a|] == a;
  }

  /**
    Logins that are lost: an explicit "anonymous" with a password of its own,
    for instance ftp://anonymous:me@h/f. The printer hides it, and the parser
    then fills in the default password.
  */
  lemma AnonymousPasswordIsLost(user: string, pass: string, host: string, path: string, services: Services, port: int)
    requires user == ANONYMOUS && pass != ANONYMOUS_PASS && Lacks(pass, '/')
    requires Lacks(host, '/') && Lacks(host, '@') && Lacks(host, ':')
    requires path != "" && path[0] == '/' && DefaultPort(Ftp, services) > 0
    ensures var url := Scheme(Ftp) + ((LoginText(user, pass) + host) + path);
            var r := Parse(url, services, port);
            Accepted(r) && Parse(Print(r.value), services, port) != r
  {
    var rest := (LoginText(user, pass) + host) + path;
    SchemeFound(Ftp, rest);
    assert (Scheme(Ftp) + rest)[0] == 'f';
    BuiltAuthority(user, pass, host, path);
    CutLogin(Ftp, user, pass, host);
    IndexOfIs(host, ':', |host|);
    ParsedIsGood(Scheme(Ftp) + rest, services, port);
    ReparseIff(Parse(Scheme(Ftp) + rest, services, port).value, services, port);
  }

  /** Accepted and too long to be printed: "h/" followed by 1016 characters. */
  lemma TooLongToPrint(file: string, services: Services, port: int)
    requires |file| == 1016 && Lacks(file, ':') && DefaultPort(Ftp, services) > 0
    ensures var r := Parse("h/" + file, services, port);
            |"h/" + file| < MAX_STRING && Accepted(r) && !Printable(r.value)
  {
    var url := "h/" + file;
    var k := FindScheme(url);
    assert k < |url| ==> url[k] == ':';
    IndexOfIs(url, '/', 1);
    assert url[..1] == "h";
    AfterLastIs("h", '@', 0);
    assert HostPort("h") == "h";
    IndexOfIs("h", ':', 1);
    ParsedPath(Ftp, url, services, port);
    var c := ParseRest(Ftp, url, services, port);
    assert |c.dir + c.file| == 1017;
  }
}
