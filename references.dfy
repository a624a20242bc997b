/**
 * URL references (lib/services/references.js): whether a value is a usable
 * URL, and the canonical `host + path` form that drops scheme and port.
 *
 * Both rest on Node's legacy `url.parse`. `Parse` follows the steps of that
 * parser that decide `protocol`, `hostname`, `port` and `path`: trim, cut the
 * fragment, read the scheme, skip `//`, drop the credentials before the last
 * `@`, cut the host at the first character a host cannot hold, split off a
 * trailing `:digits` port, lower-case the host, and let an empty path of a
 * slashed scheme with a host read `/`.
 */
module References {
  import opened Wrappers
  import opened Strings
  import opened Js

  /** The parts of a parsed URL that the service reads; "" stands for a part the parser leaves null. */
  datatype Url = Url(protocol: string, hostname: string, port: string, path: string)

  /** Schemes whose URLs always carry `//` and a host, so an empty path reads `/`. */
  const SlashedSchemes: set<string> := {"http", "https", "ftp", "gopher", "file"}

  /** Schemes that never carry a host. */
  const HostlessSchemes: set<string> := {"javascript"}

  /** The characters that end the part of the URL where credentials may appear. */
  const AuthorityEnd: set<char> := {'/', '?', '#'}

  /** The characters a host cannot hold: the host ends at the first of them. */
  const NonHostChars: set<char> :=
    {'%', '/', '?', ';', '#', '\'', '{', '}', '|', '\\', '^', '`', '<', '>', '"', ' ', '\r', '\n', '\t'}

  /** Longer host names are dropped by the parser. */
  const HostnameMaxLength := 255

  predicate IsSchemeChar(c: char) {
    'a' <= c <= 'z' || 'A' <= c <= 'Z' || '0' <= c <= '9' || c == '.' || c == '+' || c == '-'
  }

  predicate IsDigit(c: char) { '0' <= c <= '9' }

  /** The length of the run of scheme characters at the front of `s`. */
  function SchemeLength(s: string): (n: nat)
    ensures n <= |s|
    ensures forall i :: 0 <= i < n ==> IsSchemeChar(s[i])
    ensures n < |s| ==> !IsSchemeChar(s[n])
  {
    if s == [] || !IsSchemeChar(s[0]) then 0 else 1 + SchemeLength(s[1..])
  }

  /** A host with a trailing `:digits` loses it to the port; an empty port is not kept. */
  function SplitPort(host: string): (r: (string, string))
    ensures r.0 + (if r.0 == host then "" else ":" + r.1) == host
    ensures forall i :: 0 <= i < |r.1| ==> IsDigit(r.1[i])
  {
    match LastIndexOf(host, ':')
    case Some(k) =>
      if forall i :: k < i < |host| ==> IsDigit(host[i]) then
        assert host[..k] + ":" + host[k + 1..] == host;
        (host[..k], host[k + 1..])
      else (host, "")
    case None => (host, "")
  }

  /** What Node's legacy `url.parse(url)` gives for protocol, hostname, port and path. */
  function Parse(url: string): Url {
    var s := WithoutFragment(url);
    match SchemeEnd(s)
    case None => Url("", "", "", s)
    case Some(n) => ParseAfterProtocol(Protocol(s[..n + 1]), s[n + 1..])
  }

  /** The URL trimmed, up to its first `#`: every character of it comes from the URL. */
  function WithoutFragment(url: string): string {
    var t := Trim(url);
    t[..FindAny(t, {'#'})]
  }

  /** Cutting keeps no character the URL did not have. */
  lemma WithoutFragmentAvoids(url: string, cs: set<char>)
    requires Avoids(url, cs)
    ensures Avoids(WithoutFragment(url), cs)
  {
    var t := Trim(url);
    var k := |url| - |TrimStart(url)|;
    TrimSlice(url);
    assert forall i :: 0 <= i < |t| ==> t[i] == url[k + i];
  }

  /** A URL with no fragment and no white space at its ends is kept whole. */
  lemma WithoutFragmentUntouched(url: string)
    requires Avoids(url, {'#'})
    requires url == [] || (!IsJsSpace(url[0]) && !IsJsSpace(url[|url| - 1]))
    ensures WithoutFragment(url) == url
  {
    TrimUntouched(url);
    assert url[..|url|] == url;
  }

  /** The position of the `:` that closes a leading scheme, if there is one. */
  function SchemeEnd(s: string): (r: Option<nat>)
    ensures r.Some? ==> 0 < r.value < |s| && s[r.value] == ':'
    ensures r.Some? ==> forall i :: 0 <= i < r.value ==> IsSchemeChar(s[i])
  {
    var n := SchemeLength(s);
    if n == 0 || n == |s| || s[n] != ':' then None else Some(n)
  }

  /** The protocol as the parser keeps it: lower-cased, with its closing `:`. */
  function Protocol(p: string): (r: string)
    requires p != [] && p[|p| - 1] == ':'
    ensures r != [] && r[|r| - 1] == ':'
  {
    assert LowerChar(p[|p| - 1]) == ':';
    ToLower(p)
  }

  /** The scheme is the protocol without its closing `:`. */
  function Scheme(protocol: string): string {
    if protocol == [] then [] else protocol[..|protocol| - 1]
  }

  /** The parse after a protocol: `//` is skipped, and a host is read unless the scheme rules it out. */
  function ParseAfterProtocol(protocol: string, rest: string): (u: Url)
    requires protocol != [] && protocol[|protocol| - 1] == ':'
    ensures u.protocol == protocol
  {
    var slashes := StartsWith(rest, "//");
    var hostless := Scheme(protocol) in HostlessSchemes;
    var rest := if slashes && !hostless then rest[2..] else rest;
    if hostless || (!slashes && Scheme(protocol) in SlashedSchemes) then Url(protocol, "", "", rest)
    else ParseHost(protocol, rest)
  }

  /** The host part: credentials before the last `@` are dropped, the port is split off. */
  function ParseHost(protocol: string, rest: string): (u: Url)
    ensures u.protocol == protocol
    ensures |u.hostname| <= HostnameMaxLength
  {
    var rest :=
      match LastIndexOf(rest[..FindAny(rest, AuthorityEnd)], '@')
      case Some(a) => rest[a + 1..]
      case None => rest;
    var hostEnd := FindAny(rest, NonHostChars);
    var (host, port) := SplitPort(rest[..hostEnd]);
    var hostname := if |host| > HostnameMaxLength then "" else ToLower(host);
    Url(protocol, hostname, port, PathOf(Scheme(protocol), hostname, rest[hostEnd..]))
  }

  /** Path name and query; a slashed scheme with a host and no path name gets `/`. */
  function PathOf(scheme: string, hostname: string, tail: string): (path: string)
    ensures hostname != "" && scheme in SlashedSchemes ==> path != ""
  {
    var q := FindAny(tail, {'?'});
    var pathname := if q == 0 && hostname != "" && scheme in SlashedSchemes then "/" else tail[..q];
    pathname + tail[q..]
  }

  /** `isUrl(url)`: a string whose parse has a protocol, a host name and a path. */
  predicate IsUrl(v: Value)
    ensures IsUrl(v) ==> v.Str? && ':' in v.s
  {
    v.Str? && (ColonOfProtocol(v.s); var u := Parse(v.s); u.protocol != "" && u.hostname != "" && u.path != "")
  }

  /** A protocol ends in the colon that was found in the text. */
  lemma ColonOfProtocol(s: string)
    ensures Parse(s).protocol != "" ==> ':' in s
  {
    if ':' !in s {
      WithoutFragmentAvoids(s, {':'});
    }
  }

  /** `urlToUri(url)`: host name and path of a URL, or the error thrown for anything else. */
  function UrlToUri(v: Value): (r: Result<string, string>)
    ensures r.Failure? <==> !IsUrl(v)
    ensures !v.Str? ==> r.Failure?
    ensures r.Failure? ==> r.error == "Invalid url " + ToText(v)
    ensures r.Success? ==> v.Str? && r.value == Parse(v.s).hostname + Parse(v.s).path
  {
    if !IsUrl(v) then Failure("Invalid url " + ToText(v))
    else var u := Parse(v.s); Success(u.hostname + u.path)
  }

  // ------------------------------------------------------------ properties

  /** A string without any `:` has no protocol, so it is never a URL. */
  lemma NoColonIsNotUrl(s: string)
    requires forall i :: 0 <= i < |s| ==> s[i] != ':'
    ensures !IsUrl(Str(s))
    ensures UrlToUri(Str(s)) == Failure("Invalid url " + s)
  {
    WithoutFragmentAvoids(s, {':'});
  }

  predicate Avoids(s: string, cs: set<char>) {
    forall j :: 0 <= j < |s| ==> s[j] !in cs
  }

  /** Host names of lower-case letters, digits, dots and dashes, which the parser keeps as they are. */
  predicate IsPlainHost(host: string) {
    && 0 < |host| <= HostnameMaxLength
    && forall i :: 0 <= i < |host| ==> 'a' <= host[i] <= 'z' || IsDigit(host[i]) || host[i] == '.' || host[i] == '-'
  }

  /** A path of one or more characters that starts with `/` and has no query, fragment or white space. */
  predicate IsPlainPath(path: string) {
    && 0 < |path| && path[0] == '/'
    && forall i :: 0 <= i < |path| ==> path[i] != '?' && path[i] != '#' && !IsJsSpace(path[i])
  }

  predicate IsDigits(port: string) {
    forall i :: 0 <= i < |port| ==> IsDigit(port[i])
  }

  /** `:port`, or nothing for no port. */
  function PortPart(port: string): string {
    if port == "" then "" else ":" + port
  }

  /** What follows `//` in a plain URL. */
  function Authority(host: string, port: string, path: string): string {
    host + PortPart(port) + path
  }

  /** In `host:port` the only `:` is the one before the port. */
  lemma LastColonOf(host: string, port: string)
    requires IsPlainHost(host) && IsDigits(port)
    ensures LastIndexOf(host + ":" + port, ':') == Some(|host|)
    ensures var hp := host + ":" + port; forall j :: |host| < j < |hp| ==> IsDigit(hp[j])
  {
    var hp := host + ":" + port;
    assert hp[|host|] == ':';
    forall j | |host| < j < |hp| ensures hp[j] != ':' && IsDigit(hp[j]) {
      assert hp[j] == port[j - |host| - 1];
    }
  }

  lemma SplitPlainPort(host: string, port: string)
    requires IsPlainHost(host) && IsDigits(port)
    ensures SplitPort(host + PortPart(port)) == (host, port)
  {
    if port == "" {
      assert host + PortPart(port) == host;
      assert LastIndexOf(host, ':').None?;
    } else {
      var hp := host + ":" + port;
      assert host + PortPart(port) == hp;
      LastColonOf(host, port);
      assert hp[..|host|] == host && hp[|host| + 1..] == port;
    }
  }

  /** A character of a plain host or port, or the colon between them, ends neither the authority nor the host. */
  lemma HostPortChar(c: char)
    requires 'a' <= c <= 'z' || IsDigit(c) || c == '.' || c == '-' || c == ':'
    ensures c !in AuthorityEnd && c !in NonHostChars
  {
  }

  /** A plain `host[:port]` holds no character that ends the authority or the host. */
  lemma HostPortAvoids(host: string, port: string)
    requires IsPlainHost(host) && IsDigits(port)
    ensures Avoids(host + PortPart(port), AuthorityEnd) && Avoids(host + PortPart(port), NonHostChars)
  {
    var hp := host + PortPart(port);
    forall j | 0 <= j < |hp| ensures hp[j] !in AuthorityEnd && hp[j] !in NonHostChars {
      if j < |host| {
        assert hp[j] == host[j];
      } else if j > |host| {
        assert hp[j] == port[j - |host| - 1];
      }
      HostPortChar(hp[j]);
    }
  }

  /** In a plain authority the host (with its port) ends where the path begins. */
  lemma PlainAuthorityBounds(host: string, port: string, path: string)
    requires IsPlainHost(host) && IsDigits(port)
    requires path == "" || IsPlainPath(path)
    ensures var hp, rest := host + PortPart(port), Authority(host, port, path);
      && FindAny(rest, AuthorityEnd) == |hp| && FindAny(rest, NonHostChars) == |hp|
      && rest[..|hp|] == hp && rest[|hp|..] == path
  {
    var hp := host + PortPart(port);
    var rest := Authority(host, port, path);
    assert rest == hp + path;
    HostPortAvoids(host, port);
    FindAnyAfter(hp, path, AuthorityEnd);
    FindAnyAfter(hp, path, NonHostChars);
    if path != "" {
      assert path[0] in AuthorityEnd && path[0] in NonHostChars;
    }
  }

  lemma PlainPath(scheme: string, hostname: string, path: string)
    requires scheme in SlashedSchemes && hostname != ""
    requires path == "" || IsPlainPath(path)
    ensures PathOf(scheme, hostname, path) == if path == "" then "/" else path
  {
    assert FindAny(path, {'?'}) == |path|;
    assert path[..|path|] == path && path[|path|..] == "";
  }

  lemma ParsePlainHost(scheme: string, host: string, port: string, path: string)
    requires scheme in SlashedSchemes && IsPlainHost(host) && IsDigits(port)
    requires path == "" || IsPlainPath(path)
    ensures ParseHost(scheme + ":", Authority(host, port, path))
      == Url(scheme + ":", host, port, if path == "" then "/" else path)
  {
    var hp := host + PortPart(port);
    PlainAuthorityBounds(host, port, path);
    assert LastIndexOf(hp, '@').None?;
    SplitPlainPort(host, port);
    ToLowerUntouched(host);
    assert Scheme(scheme + ":") == scheme;
    PlainPath(scheme, host, path);
  }

  /** One or more lower-case ASCII letters. */
  predicate IsLowerWord(w: string) {
    |w| > 0 && forall i :: 0 <= i < |w| ==> 'a' <= w[i] <= 'z'
  }

  lemma FrontAvoidsHash(scheme: string, a: string)
    requires IsLowerWord(scheme) && Avoids(a, {'#'})
    ensures Avoids(scheme + "://" + a, {'#'})
  {
    var url := scheme + "://" + a;
    forall j | 0 <= j < |url| ensures url[j] != '#' {
      if j < |scheme| { assert url[j] == scheme[j]; }
      else if j >= |scheme| + 3 { assert url[j] == a[j - |scheme| - 3]; }
    }
  }

  lemma SchemeEndOfFront(scheme: string, a: string)
    requires IsLowerWord(scheme)
    ensures SchemeEnd(scheme + "://" + a) == Some(|scheme|)
  {
    var url := scheme + "://" + a;
    assert url[|scheme|] == ':';
    assert forall j :: 0 <= j < |scheme| ==> url[j] == scheme[j];
    assert SchemeLength(url) == |scheme|;
  }

  /** The front of a plain URL: kept whole, with the scheme closed by the `:` before `//`. */
  lemma PlainUrlFront(scheme: string, a: string)
    requires IsLowerWord(scheme) && Avoids(a, {'#'})
    requires a != [] && !IsJsSpace(a[|a| - 1])
    ensures var url := scheme + "://" + a;
      && WithoutFragment(url) == url && SchemeEnd(url) == Some(|scheme|)
      && url[..|scheme| + 1] == scheme + ":" && url[|scheme| + 1..] == "//" + a
  {
    var url := scheme + "://" + a;
    FrontAvoidsHash(scheme, a);
    assert url[0] == scheme[0] && url[|url| - 1] == a[|a| - 1];
    WithoutFragmentUntouched(url);
    SchemeEndOfFront(scheme, a);
    assert url[..|scheme| + 1] == scheme + ":";
    assert url[|scheme| + 1..] == "//" + a;
  }

  lemma ParseWithScheme(url: string, n: nat)
    requires WithoutFragment(url) == url && SchemeEnd(url) == Some(n)
    ensures Parse(url) == ParseAfterProtocol(Protocol(url[..n + 1]), url[n + 1..])
  {
  }

  lemma ProtocolOfScheme(scheme: string)
    requires IsLowerWord(scheme)
    ensures Protocol(scheme + ":") == scheme + ":" && Scheme(scheme + ":") == scheme
  {
    ToLowerUntouched(scheme + ":");
  }

  lemma AfterSlashedProtocol(scheme: string, a: string)
    requires scheme in SlashedSchemes
    ensures ParseAfterProtocol(scheme + ":", "//" + a) == ParseHost(scheme + ":", a)
  {
    SlashedSchemeLetters(scheme);
    assert Scheme(scheme + ":") == scheme;
    assert ("//" + a)[2..] == a;
  }

  /**
   * A plain URL `scheme://host[:port]path` of a slashed scheme parses into its
   * parts, with `/` for an empty path.
   */
  lemma ParsePlainUrl(scheme: string, host: string, port: string, path: string)
    requires scheme in SlashedSchemes && IsPlainHost(host) && IsDigits(port)
    requires path == "" || IsPlainPath(path)
    ensures Parse(scheme + "://" + Authority(host, port, path))
      == Url(scheme + ":", host, port, if path == "" then "/" else path)
  {
    var a := Authority(host, port, path);
    var url := scheme + "://" + a;
    var n := |scheme|;
    SlashedSchemeLetters(scheme);
    AuthorityAvoidsHash(host, port, path);
    AuthorityEnds(host, port, path);
    PlainUrlFront(scheme, a);
    calc {
      Parse(url);
      { ParseWithScheme(url, n); }
      ParseAfterProtocol(Protocol(url[..n + 1]), url[n + 1..]);
      { ProtocolOfScheme(scheme); }
      ParseAfterProtocol(scheme + ":", "//" + a);
      { AfterSlashedProtocol(scheme, a); }
      ParseHost(scheme + ":", a);
      { ParsePlainHost(scheme, host, port, path); }
      Url(scheme + ":", host, port, if path == "" then "/" else path);
    }
  }

  lemma SlashedSchemeLetters(scheme: string)
    requires scheme in SlashedSchemes
    ensures IsLowerWord(scheme)
    ensures scheme !in HostlessSchemes
  {
  }

  lemma AuthorityAvoidsHash(host: string, port: string, path: string)
    requires IsPlainHost(host) && IsDigits(port)
    requires path == "" || IsPlainPath(path)
    ensures Avoids(Authority(host, port, path), {'#'})
  {
    var a := Authority(host, port, path);
    var hp := host + PortPart(port);
    forall j | 0 <= j < |a| ensures a[j] != '#' {
      if j < |host| { assert a[j] == host[j]; }
      else if j < |hp| { if j > |host| { assert a[j] == port[j - |host| - 1]; } }
      else { assert a[j] == path[j - |hp|]; }
    }
  }

  lemma AuthorityEnds(host: string, port: string, path: string)
    requires IsPlainHost(host) && IsDigits(port)
    requires path == "" || IsPlainPath(path)
    ensures var a := Authority(host, port, path); a != [] && !IsJsSpace(a[|a| - 1])
  {
    var a := Authority(host, port, path);
    if path != "" {
      assert a[|a| - 1] == path[|path| - 1];
    } else if port != "" {
      assert a[|a| - 1] == port[|port| - 1];
    } else {
      assert a[|a| - 1] == host[|host| - 1];
    }
  }

  /**
   * `urlToUri` drops the scheme and the port of a plain URL and keeps host and
   * path, with `/` for an empty path.
   */
  lemma UrlToUriDropsSchemeAndPort(scheme: string, host: string, port: string, path: string)
    requires scheme in SlashedSchemes && IsPlainHost(host) && IsDigits(port)
    requires path == "" || IsPlainPath(path)
    ensures var url := Str(scheme + "://" + Authority(host, port, path));
      IsUrl(url) && UrlToUri(url) == Success(host + if path == "" then "/" else path)
  {
    ParsePlainUrl(scheme, host, port, path);
  }

  // ------------------------------------------------------------- examples

  /** `url` is the plain URL with the given parts. */
  lemma PlainUrlParts(url: string, scheme: string, host: string, port: string, path: string)
    requires url == scheme + "://" + Authority(host, port, path)
    requires scheme in SlashedSchemes && IsPlainHost(host) && IsDigits(port)
    requires path == "" || IsPlainPath(path)
    ensures IsUrl(Str(url)) && UrlToUri(Str(url)) == Success(host + if path == "" then "/" else path)
  {
    UrlToUriDropsSchemeAndPort(scheme, host, port, path);
  }

  lemma GoogleHost(host: string)
    requires host == "www.google.com"
    ensures IsPlainHost(host)
  {
  }

  lemma GoogleUrl(url: string, host: string)
    requires url == "http://www.google.com" && host == "www.google.com"
    ensures url == "http" + "://" + Authority(host, "", "")
  {
  }

  lemma ExampleGoogleIsUrl(url: string, host: string)
    requires url == "http://www.google.com" && host == "www.google.com"
    ensures IsUrl(Str(url))
  {
    GoogleHost(host);
    GoogleUrl(url, host);
    PlainUrlParts(url, "http", host, "", "");
  }

  lemma GoogleWithPortUrl(url: string, host: string, port: string)
    requires url == "http://www.google.com:3001" && host == "www.google.com" && port == "3001"
    ensures url == "http" + "://" + Authority(host, port, "")
  {
  }

  lemma GoogleUri(host: string, port: string)
    requires host == "www.google.com" && port == "3001"
    ensures host + "/" == "www.google.com/" && IsDigits(port)
  {
  }

  lemma ExampleGoogleWithPort(url: string, host: string, port: string)
    requires url == "http://www.google.com:3001" && host == "www.google.com" && port == "3001"
    ensures IsUrl(Str(url)) && UrlToUri(Str(url)) == Success("www.google.com/")
  {
    GoogleHost(host);
    GoogleWithPortUrl(url, host, port);
    GoogleUri(host, port);
    PlainUrlParts(url, "http", host, port, "");
  }

  lemma HostComUrl(url: string, host: string, port: string, path: string)
    requires url == "http://host.com:3001/path" && host == "host.com" && port == "3001" && path == "/path"
    ensures url == "http" + "://" + Authority(host, port, path) && IsDigits(port)
  {
    assert Authority(host, port, path) == "host.com:3001/path";
  }

  lemma HostComParts(host: string, path: string)
    requires host == "host.com" && path == "/path"
    ensures IsPlainHost(host) && IsPlainPath(path) && host + path == "host.com/path"
  {
  }

  lemma ExampleHostPortPath(url: string, host: string, port: string, path: string)
    requires url == "http://host.com:3001/path" && host == "host.com" && port == "3001" && path == "/path"
    ensures UrlToUri(Str(url)) == Success("host.com/path")
  {
    HostComUrl(url, host, port, path);
    HostComParts(host, path);
    PlainUrlParts(url, "http", host, port, path);
  }

  lemma ExampleNoUrl(s: string)
    requires s == "nourl"
    ensures !IsUrl(Str(s)) && UrlToUri(Str(s)) == Failure("Invalid url " + s)
  {
    NoColonIsNotUrl(s);
  }

  lemma ExampleTestingText(s: string)
    requires s == "sometestingtext"
    ensures !IsUrl(Str(s))
  {
    NoColonIsNotUrl(s);
  }
}
