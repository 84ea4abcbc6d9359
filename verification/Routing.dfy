/** From a published URL back to the tunnel that published it.

    Registration builds a URL from the subdomain and the base domain. A client puts the authority of that
    URL into the Host header of its request, and the ingress looks the tunnel up under what it extracts
    from that header. The theorems say exactly when the two meet.
 */
module Routing {
  import opened Wrappers
  import opened Utf8
  import opened Text
  import opened HttpHead
  import HttpOwnership
  import Registry

  // ----- registration -----

  /** The port that the URL shows: none if it is the default of the scheme. */
  function ShownPort(httpPort: nat, httpsPort: Option<nat>): Option<nat> {
    match httpsPort
    case Some(port) => if port == 443 then None else Some(port)
    case None => if httpPort == 80 then None else Some(httpPort)
  }

  function HostName(sub: string, base: string): string {
    sub + "." + base
  }

  function PortSuffix(port: Option<nat>): string {
    match port
    case Some(p) => ":" + Decimal(p)
    case None => ""
  }

  /** Scheme, host name and port; the scheme is https exactly if there is an https port. */
  function Url(sub: string, base: string, httpPort: nat, httpsPort: Option<nat>): string {
    match httpsPort
    case Some(port) =>
      if port == 443 then "https://" + HostName(sub, base)
      else "https://" + HostName(sub, base) + ":" + Decimal(port)
    case None =>
      if httpPort == 80 then "http://" + HostName(sub, base)
      else "http://" + HostName(sub, base) + ":" + Decimal(httpPort)
  }

  // ----- the ingress -----

  function HostOnly(host: string): string {
    Lower(Before(host, ':'))
  }

  function ExtractSubdomain(host: string, base: string): Option<string> {
    StripSuffix(Before(host, ':'), "." + base)
  }

  datatype Route = Route(domain: string, upstream: string, enabled: bool)

  /** The first enabled proxy route of a domain. */
  function FindRoute(routes: seq<Route>, hostOnly: string): Option<Route> {
    if routes == [] then None
    else if routes[0].enabled && Lower(routes[0].domain) == hostOnly then Some(routes[0])
    else FindRoute(routes[1..], hostOnly)
  }

  datatype Answer<T> = BadRequest | Health | TooLarge | Proxied(upstream: string) | Tunnelled(entry: T) | NoRoute

  predicate IsHealthCheck(head: seq<byte>) {
    var (verb, path) := ParseRequestLine(head);
    verb == "GET" && (path == "/health" || path == "/health/")
  }

  predicate ExceedsBody(head: seq<byte>, maxBody: nat) {
    maxBody > 0 && ParseContentLength(head).Some? && ParseContentLength(head).value > maxBody
  }

  /** Where a request goes: proxy routes first, then custom domains, then subdomains. */
  function Dispatch<T>(head: seq<byte>, maxBody: nat, routes: seq<Route>, customDomains: map<string, string>,
                       tunnels: map<string, T>, base: string): Answer<T> {
    match ParseHostHeader(head)
    case None => BadRequest
    case Some(host) =>
      if IsHealthCheck(head) then Health
      else if ExceedsBody(head, maxBody) then TooLarge
      else
        match FindRoute(routes, HostOnly(host)) {
        case Some(route) => Proxied(route.upstream)
        case None =>
          var sub := if HostOnly(host) in customDomains then Some(customDomains[HostOnly(host)])
                     else ExtractSubdomain(host, base);
          if sub.Some? && sub.value in tunnels then Tunnelled(tunnels[sub.value]) else NoRoute
        }
  }

  // ----- what the extraction means -----

  lemma {:induction false} BeforeIsPrefix(s: string, c: char)
    ensures Before(s, c) <= s && c !in Before(s, c)
  {
    if s != "" && s[0] != c {
      BeforeIsPrefix(s[1..], c);
    }
  }

  lemma StripSuffixMeans(h: string, suffix: string, sub: string)
    ensures StripSuffix(h, suffix) == Some(sub) <==> h == sub + suffix
  {
    if |suffix| <= |h| {
      var front, back := h[..|h| - |suffix|], h[|h| - |suffix|..];
      assert h == front + back;
      if h == sub + suffix {
        assert |front| == |sub|;
        assert front == sub && back == suffix;
      }
    }
  }

  lemma ExtractMeans(host: string, base: string, sub: string)
    ensures ExtractSubdomain(host, base) == Some(sub) <==> Before(host, ':') == HostName(sub, base)
  {
    hide StripSuffix, Before;
    StripSuffixMeans(Before(host, ':'), "." + base, sub);
    assert sub + ("." + base) == HostName(sub, base);
  }

  /** No Host header leads to the key of a TCP tunnel by way of a subdomain. */
  lemma ExtractedIsNoTcpKey(host: string, base: string, port: nat)
    ensures ExtractSubdomain(host, base) != Some(Registry.TcpKey(port))
  {
    Registry.TcpKeysHaveColon(port);
    ExtractMeans(host, base, Registry.TcpKey(port));
    BeforeIsPrefix(host, ':');
  }

  // ----- the URL and its authority -----

  /** The authority of a URL: section 3.2 of RFC 3986. */
  function AuthorityOf(url: string): string {
    match Find(url, '/')
    case None => ""
    case Some(i) =>
      var rest := if i + 2 <= |url| then url[i + 2..] else "";
      Before(Before(Before(rest, '/'), '?'), '#')
  }

  function Authority(sub: string, base: string, port: Option<nat>): string {
    HostName(sub, base) + PortSuffix(port)
  }

  predicate NoDelimiter(s: string) {
    '/' !in s && '?' !in s && '#' !in s
  }

  predicate KeyForm(s: string) {
    Registry.ValidSubdomain(s) || Registry.RandomSubdomain(s)
  }

  lemma KeyChars(sub: string, c: char)
    requires KeyForm(sub) && c in sub
    ensures Registry.KeyChar(c) && !White(c) && c != ':' && c != '\r' && c != '\n' && c != '/' && c != '?' && c != '#'
  {
  }

  lemma PortSuffixPlain(port: Option<nat>)
    ensures NoDelimiter(PortSuffix(port)) && '\r' !in PortSuffix(port) && '\n' !in PortSuffix(port)
    ensures port.Some? ==> !White(PortSuffix(port)[|PortSuffix(port)| - 1])
  {
    if port.Some? {
      var d := Decimal(port.value);
      DecimalChars(port.value);
      DecimalDigits(port.value);
      assert Digit(d[|d| - 1]);
    }
  }

  lemma BeforeNothing(s: string, c: char)
    requires c !in s
    ensures Before(s, c) == s
  {
    BeforeIs(s, c, "");
    assert s + "" == s;
  }

  function Scheme(https: bool): string {
    if https then "https:" else "http:"
  }

  lemma UrlSplits(sub: string, base: string, httpPort: nat, httpsPort: Option<nat>)
    ensures Url(sub, base, httpPort, httpsPort)
         == Scheme(httpsPort.Some?) + "//" + Authority(sub, base, ShownPort(httpPort, httpsPort))
  {
    hide Decimal, HostName;
    assert "https:" + "//" == "https://" && "http:" + "//" == "http://";
  }

  lemma AfterScheme(scheme: string, a: string)
    requires '/' !in scheme && NoDelimiter(a)
    ensures AuthorityOf(scheme + "//" + a) == a
  {
    hide Before, Find;
    var url := scheme + "//" + a;
    FindIs(url, '/', |scheme|);
    assert url[|scheme| + 2..] == a;
    BeforeNothing(a, '/');
    BeforeNothing(a, '?');
    BeforeNothing(a, '#');
  }

  /** What a client reads off the published URL. */
  lemma UrlAuthority(sub: string, base: string, httpPort: nat, httpsPort: Option<nat>)
    requires KeyForm(sub) && NoDelimiter(base)
    ensures AuthorityOf(Url(sub, base, httpPort, httpsPort)) == Authority(sub, base, ShownPort(httpPort, httpsPort))
  {
    hide Url, AuthorityOf, KeyForm, NoDelimiter, Authority;
    UrlSplits(sub, base, httpPort, httpsPort);
    AuthorityPlain(sub, base, ShownPort(httpPort, httpsPort));
    AfterScheme(Scheme(httpsPort.Some?), Authority(sub, base, ShownPort(httpPort, httpsPort)));
  }

  lemma AuthorityPlain(sub: string, base: string, port: Option<nat>)
    requires KeyForm(sub) && NoDelimiter(base)
    ensures NoDelimiter(Authority(sub, base, port))
  {
    hide KeyForm, PortSuffix;
    PortSuffixPlain(port);
    forall c | c in sub
      ensures c != '/' && c != '?' && c != '#'
    {
      KeyChars(sub, c);
    }
  }

  lemma Between(p: string, a: string, t: string)
    ensures |p + a + t| == |p| + |a| + |t| && (p + a + t)[|p|..|p| + |a|] == a
  {
  }

  lemma UrlParts(sub: string, base: string, httpPort: nat, httpsPort: Option<nat>)
    ensures Url(sub, base, httpPort, httpsPort)
         == (if httpsPort.Some? then "https://" else "http://") + sub
            + ("." + base + PortSuffix(ShownPort(httpPort, httpsPort)))
  {
    hide Decimal;
  }

  lemma UrlsAreDistinct(a: string, b: string, base: string, httpPort: nat, httpsPort: Option<nat>)
    ensures Url(a, base, httpPort, httpsPort) == Url(b, base, httpPort, httpsPort) ==> a == b
  {
    hide Url;
    var p := if httpsPort.Some? then "https://" else "http://";
    var t := "." + base + PortSuffix(ShownPort(httpPort, httpsPort));
    UrlParts(a, base, httpPort, httpsPort);
    UrlParts(b, base, httpPort, httpsPort);
    Between(p, a, t);
    Between(p, b, t);
  }

  /** The URL names its scheme, the subdomain and the base domain, and behind a colon the port unless it is the
      scheme's default one. */
  lemma UrlNames(sub: string, base: string, httpPort: nat, httpsPort: Option<nat>)
    ensures var secure := httpsPort.Some?;
            var port := if secure then httpsPort.value else httpPort;
            var url := Url(sub, base, httpPort, httpsPort);
            && ("https://" <= url <==> secure) && ("http://" <= url <==> !secure)
            && var rest := url[if secure then 8 else 7..];
            && |rest| >= |sub| + 1 + |base|
            && rest[..|sub|] == sub && rest[|sub|] == '.' && rest[|sub| + 1..][..|base|] == base
            && var shown := rest[|sub| + 1 + |base|..];
            && (shown == "" <==> port == if secure then 443 else 80)
            && (shown != "" ==> shown[0] == ':' && Digits(shown[1..]) == Some(port))
  {
    hide Digits, Decimal;
    var url := Url(sub, base, httpPort, httpsPort);
    var scheme := if httpsPort.Some? then "https://" else "http://";
    var port := if httpsPort.Some? then httpsPort.value else httpPort;
    var shown := if port == (if httpsPort.Some? then 443 else 80) then "" else ":" + Decimal(port);
    DecimalDigits(port);
    assert url == scheme + (HostName(sub, base) + shown);
    assert url[4] == scheme[4];
    assert url[|scheme|..] == HostName(sub, base) + shown;
    assert (HostName(sub, base) + shown)[|sub| + 1 + |base|..] == shown;
    assert shown != "" ==> shown[1..] == Decimal(port);
  }

  // ----- the Host header of a request -----

  /** The host part of an authority survives the trimming of the header value and the splitting at the
      port: the base domain has no colon and no line end, and does not end a header value in white space. */
  ghost predicate Survives(base: string, port: Option<nat>) {
    && ':' !in base
    && !HasCrlf(base)
    && (port == None && base != "" ==> !White(base[|base| - 1]))
  }

  lemma {:induction false} TrimEndIs(s: string)
    ensures TrimEnd(s) <= s
    ensures TrimEnd(s) != "" ==> !White(TrimEnd(s)[|TrimEnd(s)| - 1])
  {
    if s != "" && White(s[|s| - 1]) {
      TrimEndIs(s[..|s| - 1]);
    }
  }

  lemma AuthorityStart(sub: string, base: string, port: Option<nat>)
    requires KeyForm(sub)
    ensures Authority(sub, base, port) != "" && !White(Authority(sub, base, port)[0])
  {
    hide KeyForm, PortSuffix;
    if sub != "" {
      KeyChars(sub, sub[0]);
    }
  }

  lemma TrimmedAuthority(sub: string, base: string, port: Option<nat>)
    requires KeyForm(sub)
    ensures Trim(Authority(sub, base, port)) == TrimEnd(Authority(sub, base, port))
    ensures Survives(base, port) ==> Trim(Authority(sub, base, port)) == Authority(sub, base, port)
  {
    hide KeyForm, PortSuffix;
    var a := Authority(sub, base, port);
    AuthorityStart(sub, base, port);
    if Survives(base, port) {
      PortSuffixPlain(port);
      PortSuffixIs(port);
      assert a[|a| - 1] == if port.Some? then PortSuffix(port)[|PortSuffix(port)| - 1]
                           else if base != "" then base[|base| - 1]
                           else '.';
    }
  }

  lemma PortSuffixIs(port: Option<nat>)
    ensures port.None? ==> PortSuffix(port) == ""
    ensures port.Some? ==> PortSuffix(port) != "" && PortSuffix(port)[0] == ':'
  {
  }

  /** The subdomain comes back from a trimmed header value. */
  lemma SurvivingComesBack(sub: string, base: string, port: Option<nat>)
    requires KeyForm(sub) && Survives(base, port)
    ensures Before(Trim(Authority(sub, base, port)), ':') == HostName(sub, base)
    ensures ExtractSubdomain(Trim(Authority(sub, base, port)), base) == Some(sub)
  {
    hide KeyForm, Trim, PortSuffix;
    TrimmedAuthority(sub, base, port);
    PortSuffixIs(port);
    forall c | c in sub
      ensures c != ':'
    {
      KeyChars(sub, c);
    }
    BeforeIs(HostName(sub, base), ':', PortSuffix(port));
    ExtractMeans(Trim(Authority(sub, base, port)), base, sub);
  }

  // ----- heads -----

  lemma {:induction false} LinesHaveNoCrlf(s: string, i: nat)
    requires i < |Lines(s)|
    ensures !HasCrlf(Lines(s)[i])
  {
    if s == "" {
    } else if CrlfAt(s, 0) {
      if i > 0 {
        LinesHaveNoCrlf(s[2..], i - 1);
      }
    } else {
      var rest := Lines(s[1..]);
      if i > 0 {
        LinesHaveNoCrlf(s[1..], i);
      } else {
        LinesHaveNoCrlf(s[1..], 0);
        FirstLineIsPrefix(s[1..]);
        forall k
          ensures !CrlfAt([s[0]] + rest[0], k)
        {
          assert k > 0 && CrlfAt([s[0]] + rest[0], k) ==> CrlfAt(rest[0], k - 1);
        }
      }
    }
  }

  lemma {:induction false} FirstLineIsPrefix(s: string)
    ensures Lines(s)[0] <= s
  {
    if s != "" && !CrlfAt(s, 0) {
      FirstLineIsPrefix(s[1..]);
    }
  }

  lemma {:induction false} TrimStartIs(s: string)
    ensures |TrimStart(s)| <= |s| && TrimStart(s) == s[|s| - |TrimStart(s)|..]
  {
    if s != "" && White(s[0]) {
      TrimStartIs(s[1..]);
    }
  }

  lemma PartHasNoCrlf(s: string, lo: nat, hi: nat)
    requires !HasCrlf(s) && lo <= hi <= |s|
    ensures !HasCrlf(s[lo..hi]) && s[lo..|s|] == s[lo..] && s[0..hi] == s[..hi]
  {
    forall k
      ensures !CrlfAt(s[lo..hi], k)
    {
      assert CrlfAt(s[lo..hi], k) ==> CrlfAt(s, lo + k);
    }
  }

  lemma TrimHasNoCrlf(s: string)
    requires !HasCrlf(s)
    ensures !HasCrlf(Trim(s))
  {
    var t := TrimStart(s);
    TrimStartIs(s);
    PartHasNoCrlf(s, |s| - |t|, |s|);
    TrimEndIs(t);
    PartHasNoCrlf(t, 0, |TrimEnd(t)|);
    assert TrimEnd(t) == t[..|TrimEnd(t)|];
  }

  lemma {:induction false} HeaderHasNoCrlf(lines: seq<string>, name: string)
    requires forall i | 0 <= i < |lines| :: !HasCrlf(lines[i])
    ensures HeaderValue(lines, name).Some? ==> !HasCrlf(HeaderValue(lines, name).value)
  {
    hide HasCrlf, Trim, EqIgnoreCase;
    if lines != [] {
      var line := lines[0];
      HeaderHasNoCrlf(lines[1..], name);
      if Find(line, ':').Some? {
        PartHasNoCrlf(line, Find(line, ':').value + 1, |line|);
        TrimHasNoCrlf(line[Find(line, ':').value + 1..]);
      }
    }
  }

  lemma AuthorityOnOneLine(prefix: string, sub: string, base: string, port: Option<nat>, post: string)
    requires Names(prefix, "host") && Padding(post) && KeyForm(sub) && !HasCrlf(base)
    ensures !HasCrlf(prefix + (Authority(sub, base, port) + post))
  {
    hide Names, KeyForm, PortSuffix, Lower;
    var lead, tail := prefix + sub + ".", PortSuffix(port) + post;
    var s := lead + base + tail;
    assert prefix + (Authority(sub, base, port) + post) == s;
    PortSuffixPlain(port);
    LowerNames();
    forall c | c in lead
      ensures c != '\r' && c != '\n'
    {
      if c in prefix {
        NamesPlain(prefix, "host", c);
      } else if c in sub {
        KeyChars(sub, c);
      }
    }
    assert forall c | c in tail :: c in PortSuffix(port) || c in post;
    forall i
      ensures !CrlfAt(s, i)
    {
      NoCrlfAcross(lead, base, tail, i);
    }
  }

  lemma NoCrlfAcross(lead: string, base: string, tail: string, i: int)
    requires (forall c | c in lead :: c != '\r' && c != '\n') && '\r' !in tail && '\n' !in tail
    ensures CrlfAt(lead + base + tail, i) ==> CrlfAt(base, i - |lead|)
  {
    var s := lead + base + tail;
    forall j | 0 <= j < |s|
      ensures s[j] == '\r' || s[j] == '\n' ==> |lead| <= j < |lead| + |base| && s[j] == base[j - |lead|]
    {
      assert j < |lead| ==> s[j] in lead;
      assert j >= |lead| + |base| ==> s[j] in tail;
    }
  }

  /** A Host line: a name in any case and a colon before the value, white space on either side of it. */
  datatype Layout = Layout(prefix: string, post: string)

  predicate IsHostLayout(layout: Layout) {
    Names(layout.prefix, "host") && Padding(layout.post)
  }

  function HostLine(layout: Layout, authority: string): string {
    layout.prefix + (authority + layout.post)
  }

  /** The bytes of a request up to some point, and what was read after it. The text has the published
      authority in its first Host line. */
  ghost predicate PublishedRequest(start: seq<byte>, before: string, layout: Layout, authority: string, rest: string) {
    && FromUtf8(start) == Some(before + CRLF + (HostLine(layout, authority) + CRLF + rest))
    && IsHostLayout(layout)
    && HeaderValue(Lines(before), "host") == None
  }

  lemma HostOfRequest(start: seq<byte>, before: string, layout: Layout, authority: string, rest: string,
                      more: seq<byte>)
    requires PublishedRequest(start, before, layout, authority, rest) && !HasCrlf(HostLine(layout, authority))
    ensures ParseHostHeader(start + more) == if Valid(more) then Some(Trim(authority)) else None
  {
    hide HeaderValue, Lines, FromUtf8, Names, Trim, HasCrlf, Padding;
    DecodeSplit(start, more);
    if Valid(more) {
      var m, line := FromUtf8(more).value, HostLine(layout, authority);
      HeaderLine(before, layout.prefix, "host", authority, layout.post, rest + m);
      assert before + CRLF + (line + CRLF + rest) + m == before + CRLF + (line + CRLF + (rest + m));
    }
  }

  /** The subdomain that a request names, whatever else it holds. */
  function NamedSubdomain(head: seq<byte>, base: string): Option<string> {
    var host :- ParseHostHeader(head);
    ExtractSubdomain(host, base)
  }

  lemma HostHasNoCrlf(head: seq<byte>)
    ensures ParseHostHeader(head).Some? ==> !HasCrlf(ParseHostHeader(head).value)
  {
    hide HeaderValue, Lines, FromUtf8, HasCrlf;
    if Valid(head) {
      var lines := Lines(FromUtf8(head).value);
      forall i | 0 <= i < |lines|
        ensures !HasCrlf(lines[i])
      {
        LinesHaveNoCrlf(FromUtf8(head).value, i);
      }
      HeaderHasNoCrlf(lines, "host");
    }
  }

  /** No head names a subdomain of a base domain with a colon or a line end in it. */
  lemma BadBaseUnnamed(head: seq<byte>, sub: string, base: string)
    requires ':' in base || HasCrlf(base)
    ensures NamedSubdomain(head, base) != Some(sub)
  {
    hide ParseHostHeader;
    if ParseHostHeader(head).Some? {
      var host := ParseHostHeader(head).value;
      var h := Before(host, ':');
      HostHasNoCrlf(head);
      ExtractMeans(host, base, sub);
      BeforeIsPrefix(host, ':');
      PartHasNoCrlf(host, 0, |h|);
      assert h == host[0..|h|];
      if ':' in base {
        assert ':' in HostName(sub, base);
      } else {
        var i :| CrlfAt(base, i);
        assert CrlfAt(HostName(sub, base), |sub| + 1 + i);
      }
    }
  }

  lemma TrimmedBaseUnnamed(sub: string, base: string)
    requires KeyForm(sub) && base != "" && White(base[|base| - 1])
    ensures ExtractSubdomain(Trim(Authority(sub, base, None)), base) != Some(sub)
  {
    hide KeyForm, Trim;
    var a := Authority(sub, base, None);
    assert a == HostName(sub, base);
    TrimmedAuthority(sub, base, None);
    TrimEndIs(a);
    BeforeIsPrefix(Trim(a), ':');
    ExtractMeans(Trim(a), base, sub);
    assert White(a[|a| - 1]);
  }

  /** A request for a published name leads back to its subdomain exactly if the base domain survives the
      header and all bytes that were read along with the head decode. */
  lemma NamedIff(sub: string, base: string, port: Option<nat>,
                 start: seq<byte>, before: string, layout: Layout, rest: string, more: seq<byte>)
    requires KeyForm(sub)
    requires PublishedRequest(start, before, layout, Authority(sub, base, port), rest)
    ensures NamedSubdomain(start + more, base) == Some(sub) <==> Survives(base, port) && Valid(more)
  {
    hide KeyForm, PublishedRequest, ParseHostHeader, Trim, FromUtf8, PortSuffix;
    var a := Authority(sub, base, port);
    if ':' in base || HasCrlf(base) {
      BadBaseUnnamed(start + more, sub, base);
    } else {
      LayoutOfRequest(start, before, layout, a, rest);
      AuthorityOnOneLine(layout.prefix, sub, base, port, layout.post);
      HostOfRequest(start, before, layout, a, rest, more);
      if Survives(base, port) {
        SurvivingComesBack(sub, base, port);
      } else {
        TrimmedBaseUnnamed(sub, base);
      }
    }
  }

  lemma LayoutOfRequest(start: seq<byte>, before: string, layout: Layout, authority: string, rest: string)
    requires PublishedRequest(start, before, layout, authority, rest)
    ensures IsHostLayout(layout)
  {
  }

  const SAMPLE_LINE := "GET / HTTP/1.1"
  const SAMPLE_LAYOUT := Layout("Host:", "")
  const SAMPLE_HEAD := SAMPLE_LINE + CRLF + ("Host:a.b" + CRLF + CRLF)

  /** One body byte that is not UTF-8 hides the name. */
  lemma BinaryBodyHidesHost()
    ensures IsAscii(SAMPLE_HEAD)
    ensures NamedSubdomain(Ascii(SAMPLE_HEAD), "b") == Some("a")
    ensures NamedSubdomain(Ascii(SAMPLE_HEAD) + [0xFF], "b") == None
  {
    hide NamedSubdomain, Ascii, FromUtf8, Survives;
    SampleIsAscii();
    var start := Ascii(SAMPLE_HEAD);
    DecodeAscii(SAMPLE_HEAD);
    SampleLayout();
    SampleHostLine();
    SampleRequestLine();
    assert PublishedRequest(start, SAMPLE_LINE, SAMPLE_LAYOUT, Authority("a", "b", None), CRLF) by {
      hide IsHostLayout, HostLine, Authority, HeaderValue, Lines;
    }
    SampleSurvives();
    DecodeEmpty();
    NamedIff("a", "b", None, start, SAMPLE_LINE, SAMPLE_LAYOUT, CRLF, []);
    assert start + [] == start;
    NotUtf8();
    assert NamedSubdomain(start + [0xFF], "b") == None by {
      UndecodableNamesNothing(start, [0xFF], "b");
    }
  }

  lemma SampleIsAscii()
    ensures IsAscii(SAMPLE_HEAD)
  {
  }

  lemma SampleSurvives()
    ensures KeyForm("a") && Survives("b", None)
  {
  }

  lemma DecodeEmpty()
    ensures Valid([])
  {
  }

  lemma NotUtf8()
    ensures !Valid([0xFF])
  {
  }

  lemma SampleLayout()
    ensures IsHostLayout(SAMPLE_LAYOUT)
  {
    assert "Host:"[..4] == "Host";
    assert Lower("Host") == "host" == Lower("host");
  }

  lemma SampleHostLine()
    ensures HostLine(SAMPLE_LAYOUT, Authority("a", "b", None)) == "Host:a.b"
  {
    assert Authority("a", "b", None) == "a.b";
    assert "a.b" + "" == "a.b";
  }

  lemma SampleRequestLine()
    ensures HeaderValue(Lines(SAMPLE_LINE), "host") == None
  {
    hide Lines, Find;
    assert !HasCrlf(SAMPLE_LINE);
    OnlyLine(SAMPLE_LINE);
    FindNone(SAMPLE_LINE, ':');
  }

  lemma UndecodableNamesNothing(start: seq<byte>, more: seq<byte>, base: string)
    requires Valid(start) && !Valid(more)
    ensures NamedSubdomain(start + more, base) == None
  {
    hide FromUtf8, HeaderValue, Lines;
    DecodeSplit(start, more);
  }

  // ----- letter case -----

  lemma LowerConcat(a: string, b: string)
    ensures Lower(a + b) == Lower(a) + Lower(b)
  {
  }

  /** A client may write a host name in lower case. Then the subdomain comes back exactly if the subdomain
      and the base domain are in lower case themselves: the map of tunnels is not. */
  lemma LowerCaseIff(sub: string, base: string, port: Option<nat>)
    requires KeyForm(sub) && Survives(base, port)
    ensures ExtractSubdomain(Lower(Trim(Authority(sub, base, port))), base) == Some(sub)
       <==> Lower(sub) == sub && Lower(base) == base
  {
    hide KeyForm, Trim, Lower, PortSuffix;
    TrimmedAuthority(sub, base, port);
    PortSuffixIs(port);
    var lowered := Lower(sub) + "." + Lower(base);
    LowerConcat(HostName(sub, base), PortSuffix(port));
    LowerConcat(sub + ".", base);
    LowerConcat(sub, ".");
    assert Lower(".") == "." by {
      LowerPlain(".");
    }
    LowerOfColon(PortSuffix(port));
    NoColonLowered(sub, base);
    BeforeIs(lowered, ':', Lower(PortSuffix(port)));
    ExtractMeans(Lower(Trim(Authority(sub, base, port))), base, sub);
    assert |Lower(sub)| == |sub|;
    if lowered == HostName(sub, base) {
      assert lowered[..|sub|] == Lower(sub) && HostName(sub, base)[..|sub|] == sub;
      assert lowered[|sub| + 1..] == Lower(base) && HostName(sub, base)[|sub| + 1..] == base;
    }
  }

  /** An accepted subdomain that no lower-case host name reaches. */
  lemma MixedCaseIsLost()
    ensures KeyForm("A") && ExtractSubdomain(Lower("A.b"), "b") != Some("A")
  {
    var host := Lower("A.b");
    assert host[0] == 'a';
    ExtractMeans(host, "b", "A");
    BeforeIsPrefix(host, ':');
  }

  lemma LowerPlain(s: string)
    requires forall c | c in s :: !('A' <= c <= 'Z')
    ensures Lower(s) == s
  {
    forall i | 0 <= i < |s|
      ensures Lower(s)[i] == s[i]
    {
      assert s[i] in s;
    }
  }

  lemma LowerOfColon(s: string)
    ensures s == "" ==> Lower(s) == ""
    ensures s != "" && s[0] == ':' ==> Lower(s) != "" && Lower(s)[0] == ':'
  {
  }

  lemma NoColonLowered(sub: string, base: string)
    requires KeyForm(sub) && ':' !in base
    ensures ':' !in Lower(sub) + "." + Lower(base)
  {
    forall c | c in Lower(sub)
      ensures c != ':'
    {
      var i :| 0 <= i < |sub| && c == Lower(sub)[i];
      KeyChars(sub, sub[i]);
    }
    forall c | c in Lower(base)
      ensures c != ':'
    {
      var i :| 0 <= i < |base| && c == Lower(base)[i];
      assert base[i] in base;
    }
  }

  // ----- the lookup -----

  /** Neither a proxy route nor a custom domain takes the name. */
  predicate Untaken(routes: seq<Route>, customDomains: map<string, string>, hostOnly: string) {
    FindRoute(routes, hostOnly) == None && hostOnly !in customDomains
  }

  /** The route that answers is enabled, has the domain, and no earlier one does. */
  lemma {:induction false} FindRouteIff(routes: seq<Route>, hostOnly: string)
    ensures FindRoute(routes, hostOnly) == None
       <==> forall i | 0 <= i < |routes| :: !(routes[i].enabled && Lower(routes[i].domain) == hostOnly)
    ensures FindRoute(routes, hostOnly).Some? ==>
              exists i | 0 <= i < |routes| ::
                && routes[i] == FindRoute(routes, hostOnly).value
                && routes[i].enabled && Lower(routes[i].domain) == hostOnly
                && forall j | 0 <= j < i :: !(routes[j].enabled && Lower(routes[j].domain) == hostOnly)
  {
    hide Lower;
    if routes == [] {
    } else if routes[0].enabled && Lower(routes[0].domain) == hostOnly {
      assert FindRoute(routes, hostOnly).value == routes[0];
    } else {
      var rest := routes[1..];
      FindRouteIff(rest, hostOnly);
      assert forall i | 0 < i < |routes| :: routes[i] == rest[i - 1];
      if FindRoute(rest, hostOnly).Some? {
        var i :| 0 <= i < |rest| && rest[i] == FindRoute(rest, hostOnly).value
                 && rest[i].enabled && Lower(rest[i].domain) == hostOnly
                 && forall j | 0 <= j < i :: !(rest[j].enabled && Lower(rest[j].domain) == hostOnly);
        assert routes[i + 1] == rest[i];
      }
    }
  }

  /** The lookup order. A proxy route of the domain wins; a custom domain comes next, even if the tunnel it
      names is gone; only then does the subdomain count. */
  lemma LookupOrder<T>(head: seq<byte>, maxBody: nat, routes: seq<Route>, customDomains: map<string, string>,
                       tunnels: map<string, T>, base: string, host: string)
    requires ParseHostHeader(head) == Some(host) && !IsHealthCheck(head) && !ExceedsBody(head, maxBody)
    ensures var answer := Dispatch(head, maxBody, routes, customDomains, tunnels, base);
            var routed :=
              exists i | 0 <= i < |routes| :: routes[i].enabled && Lower(routes[i].domain) == HostOnly(host);
            && (answer.Proxied? <==> routed)
            && forall sub | sub in tunnels ::
                 if HostOnly(host) in customDomains then
                   !routed && customDomains[HostOnly(host)] == sub ==> answer == Tunnelled(tunnels[sub])
                 else
                   !routed && Before(host, ':') == HostName(sub, base) ==> answer == Tunnelled(tunnels[sub])
    ensures var answer := Dispatch(head, maxBody, routes, customDomains, tunnels, base);
            answer.Tunnelled? ==>
              exists sub | sub in tunnels && answer == Tunnelled(tunnels[sub]) ::
                if HostOnly(host) in customDomains then customDomains[HostOnly(host)] == sub
                else Before(host, ':') == HostName(sub, base)
  {
    hide ParseHostHeader, ExtractSubdomain, IsHealthCheck, ExceedsBody, Lower, HostName, HostOnly, FindRoute;
    FindRouteIff(routes, HostOnly(host));
    forall sub
      ensures ExtractSubdomain(host, base) == Some(sub) <==> Before(host, ':') == HostName(sub, base)
    {
      ExtractMeans(host, base, sub);
    }
  }

  /** A request for a published name reaches the entry registered under its subdomain, or nothing. */
  lemma PublishedNameRoutes<T>(sub: string, base: string, port: Option<nat>,
                               start: seq<byte>, before: string, layout: Layout, rest: string, more: seq<byte>,
                               maxBody: nat, routes: seq<Route>, customDomains: map<string, string>,
                               tunnels: map<string, T>)
    requires KeyForm(sub)
    requires PublishedRequest(start, before, layout, Authority(sub, base, port), rest)
    requires Survives(base, port) && Valid(more)
    requires !IsHealthCheck(start + more) && !ExceedsBody(start + more, maxBody)
    requires Untaken(routes, customDomains, Lower(HostName(sub, base)))
    ensures Dispatch(start + more, maxBody, routes, customDomains, tunnels, base)
         == if sub in tunnels then Tunnelled(tunnels[sub]) else NoRoute
  {
    hide KeyForm, PublishedRequest, ParseHostHeader, Trim, FromUtf8, PortSuffix, IsHealthCheck, ExceedsBody, Lower;
    var a := Authority(sub, base, port);
    LayoutOfRequest(start, before, layout, a, rest);
    AuthorityOnOneLine(layout.prefix, sub, base, port, layout.post);
    HostOfRequest(start, before, layout, a, rest, more);
    SurvivingComesBack(sub, base, port);
  }

  /** What is answered before any lookup: a head without a host, a health check, and a body over the limit. */
  lemma EarlyAnswers<T>(head: seq<byte>, maxBody: nat, routes: seq<Route>, customDomains: map<string, string>,
                        tunnels: map<string, T>, base: string)
    ensures var answer := Dispatch(head, maxBody, routes, customDomains, tunnels, base);
            var verb, path := ParseRequestLine(head).0, ParseRequestLine(head).1;
            var health := verb == "GET" && path in ["/health", "/health/"];
            var announced := ParseContentLength(head);
            && (answer == BadRequest <==> ParseHostHeader(head).None?)
            && (answer == Health <==> ParseHostHeader(head).Some? && health)
            && (answer == TooLarge
                <==> ParseHostHeader(head).Some? && !health
                     && 0 < maxBody && announced.Some? && announced.value > maxBody)
  {
    hide ParseHostHeader, ParseRequestLine, ParseContentLength, FindRoute, ExtractSubdomain, Lower;
  }

  /** A request line as a client writes it is a health check exactly for GET and the two paths. */
  lemma HealthCheckIff(head: seq<byte>, verb: string, path: string, version: string, rest: string)
    requires FromUtf8(head) == Some(verb + " " + path + " " + version + CRLF + rest)
    requires ' ' !in verb && ' ' !in path && !HasCrlf(verb + " " + path + " " + version)
    ensures IsHealthCheck(head) <==> verb == "GET" && (path == "/health" || path == "/health/")
  {
    hide ParseRequestLine, FromUtf8, HasCrlf;
    RequestLineIs(head, verb, path, version, rest);
  }

  /** A body is too large exactly if there is a limit and the announced length, if it fits 64 bits, exceeds it. */
  lemma TooLargeIff(head: seq<byte>, before: string, prefix: string, n: nat, post: string, rest: string, maxBody: nat)
    requires FromUtf8(head) == Some(before + CRLF + (prefix + (Decimal(n) + post) + CRLF + rest))
    requires Names(prefix, "content-length") && Padding(post)
    requires HeaderValue(Lines(before), "content-length") == None
    ensures ExceedsBody(head, maxBody) <==> 0 < maxBody < n < 0x1_0000_0000_0000_0000
  {
    hide ParseContentLength, FromUtf8, Names, Padding, Decimal, HeaderValue, Lines;
    ContentLengthIff(head, before, prefix, n, post, rest);
  }

  // ----- published names of a running relay -----

  ghost predicate KeysWellFormed(s: Registry.State) {
    forall h: Registry.Id | Registry.Holding(s, h) :: KeyForm(s.handlers[h].key)
  }

  lemma KeysStep(cfg: Registry.Config, s: Registry.State, step: Registry.Step)
    requires KeysWellFormed(s) && Registry.Apply(cfg, s, step).Some?
    ensures KeysWellFormed(Registry.Apply(cfg, s, step).value)
  {
    hide Registry.Apply, Registry.ValidSubdomain, Registry.RandomSubdomain;
    var t := Registry.Apply(cfg, s, step).value;
    forall h: Registry.Id | Registry.Holding(t, h)
      ensures KeyForm(t.handlers[h].key)
    {
      HttpOwnership.HoldingBefore(cfg, s, step, h);
    }
  }

  lemma {:induction false} KeysStayWellFormed(cfg: Registry.Config, run: Registry.Run)
    requires Registry.Exec(cfg, run).Some?
    ensures KeysWellFormed(Registry.Exec(cfg, run).value)
  {
    hide KeysWellFormed;
    if run.Then? {
      KeysStayWellFormed(cfg, run.before);
      KeysStep(cfg, Registry.Exec(cfg, run.before).value, run.step);
    } else {
      assert KeysWellFormed(Registry.INIT) by {
        NobodyHolds();
      }
    }
  }

  lemma NobodyHolds()
    ensures KeysWellFormed(Registry.INIT)
  {
  }

  /** In every run of every configuration, a request for the URL that a handler published reaches that handler's
      own entry exactly if the map still has it; without expiry and termination, it always does. */
  lemma PublishedUrlReachesPublisher(
      cfg: Registry.Config, run: Registry.Run, h: Registry.Id,
      base: string, httpPort: nat, httpsPort: Option<nat>,
      start: seq<byte>, before: string, layout: Layout, rest: string, more: seq<byte>,
      maxBody: nat, routes: seq<Route>, customDomains: map<string, string>)
    requires Registry.Exec(cfg, run).Some?
    requires Registry.Holding(Registry.Exec(cfg, run).value, h)
    requires NoDelimiter(base) && Survives(base, ShownPort(httpPort, httpsPort)) && Valid(more)
    requires var sub := Registry.Exec(cfg, run).value.handlers[h].key;
             && PublishedRequest(start, before, layout, AuthorityOf(Url(sub, base, httpPort, httpsPort)), rest)
             && !IsHealthCheck(start + more) && !ExceedsBody(start + more, maxBody)
             && Untaken(routes, customDomains, Lower(HostName(sub, base)))
    ensures var tunnels := Registry.Exec(cfg, run).value.tunnels;
            var answer := Dispatch(start + more, maxBody, routes, customDomains, tunnels, base);
            && (answer.Tunnelled? && answer.entry.owner == h <==> HttpOwnership.Owns(Registry.Exec(cfg, run).value, h))
            && (cfg.maxAge == 0 && !cfg.mayTerminate ==> answer.Tunnelled? && answer.entry.owner == h)
  {
    hide PublishedRequest, KeyForm, Dispatch, Url, AuthorityOf, Authority, Survives, Registry.Exec, Registry.Claimed,
         IsHealthCheck, ExceedsBody, Untaken, FromUtf8, Lower;
    var s := Registry.Exec(cfg, run).value;
    var sub := s.handlers[h].key;
    if cfg.maxAge == 0 && !cfg.mayTerminate {
      Registry.OwnershipHolds(cfg, run);
    }
    KeysStayWellFormed(cfg, run);
    UrlAuthority(sub, base, httpPort, httpsPort);
    PublishedNameRoutes(sub, base, ShownPort(httpPort, httpsPort), start, before, layout, rest, more,
                        maxBody, routes, customDomains, s.tunnels);
  }
}
