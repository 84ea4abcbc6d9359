/** The head of an HTTP request, as the relay reads and rewrites it.

    Four parsers read the bytes of a head. The relay also inserts three forwarding headers after the
    request line. The theorems say that no parser can tell the rewritten head from the original, and that
    the blank line that ends the head only moves by the length of what was inserted.
 */
module HttpHead {
  import opened Wrappers
  import opened Utf8
  import opened Text

  const CR: byte := 13
  const LF: byte := 10
  const EOL: seq<byte> := [CR, LF]
  const BLANK_LINE: seq<byte> := [CR, LF, CR, LF]

  /** The first position at which a pattern occurs. */
  function Position(b: seq<byte>, pat: seq<byte>): (r: Option<nat>)
    ensures r.Some? ==> r.value + |pat| <= |b|
  {
    if pat <= b then Some(0)
    else if b == [] then None
    else
      var i :- Position(b[1..], pat);
      Some(i + 1)
  }

  predicate OccursAt(b: seq<byte>, pat: seq<byte>, i: int) {
    0 <= i <= |b| && pat <= b[i..]
  }

  lemma {:induction false} PositionIsFirst(b: seq<byte>, pat: seq<byte>)
    ensures match Position(b, pat)
            case Some(p) => OccursAt(b, pat, p) && forall i | 0 <= i < p :: !OccursAt(b, pat, i)
            case None => forall i :: !OccursAt(b, pat, i)
  {
    if pat <= b {
      assert b[0..] == b;
    } else {
      assert !OccursAt(b, pat, 0) by {
        assert b[0..] == b;
      }
      if b != [] {
        PositionIsFirst(b[1..], pat);
        forall i | 0 < i <= |b|
          ensures OccursAt(b, pat, i) <==> OccursAt(b[1..], pat, i - 1)
        {
          assert b[i..] == b[1..][i - 1..];
        }
        forall i
          ensures Position(b, pat) == None ==> !OccursAt(b, pat, i)
        {
        }
      }
    }
  }

  lemma PositionUnique(b: seq<byte>, pat: seq<byte>, p: nat)
    requires OccursAt(b, pat, p) && forall i | 0 <= i < p :: !OccursAt(b, pat, i)
    ensures Position(b, pat) == Some(p)
  {
    PositionIsFirst(b, pat);
  }

  // ----- the four parsers -----

  /** The trimmed value of the first line whose name is the given one, whatever the case. */
  function HeaderValue(lines: seq<string>, name: string): Option<string> {
    if lines == [] then None
    else
      match Find(lines[0], ':')
      case Some(colon) =>
        if EqIgnoreCase(lines[0][..colon], name) then Some(Trim(lines[0][colon + 1..]))
        else HeaderValue(lines[1..], name)
      case None => HeaderValue(lines[1..], name)
  }

  function ParseHostHeader(head: seq<byte>): Option<string> {
    var s :- FromUtf8(head);
    HeaderValue(Lines(s), "host")
  }

  function ParseContentLength(head: seq<byte>): Option<nat> {
    var s :- FromUtf8(head);
    var value :- HeaderValue(Lines(s), "content-length");
    ParseUnsigned(value, 0x1_0000_0000_0000_0000)
  }

  /** The method and the path of a request line; missing parts and undecodable heads get defaults. */
  function RequestLine(line: string): (string, string) {
    match Find(line, ' ')
    case None => (line, "/")
    case Some(i) => (line[..i], Before(line[i + 1..], ' '))
  }

  function ParseRequestLine(head: seq<byte>): (string, string) {
    match FromUtf8(head)
    case Some(s) => RequestLine(Lines(s)[0])
    case None => ("?", "/")
  }

  /** Whether a line asks for a websocket, and whether a line announces a connection upgrade. */
  predicate UpgradesToWebsocket(line: string) {
    match Find(line, ':')
    case None => false
    case Some(colon) =>
      && EqIgnoreCase(Trim(line[..colon]), "upgrade")
      && EqIgnoreCase(Trim(line[colon + 1..]), "websocket")
  }

  predicate UpgradesConnection(line: string) {
    match Find(line, ':')
    case None => false
    case Some(colon) =>
      && EqIgnoreCase(Trim(line[..colon]), "connection")
      && Contains(Lower(Trim(line[colon + 1..])), "upgrade")
  }

  predicate WebsocketUpgrade(lines: seq<string>) {
    && (exists i | 0 <= i < |lines| :: UpgradesToWebsocket(lines[i]))
    && (exists i | 0 <= i < |lines| :: UpgradesConnection(lines[i]))
  }

  predicate IsUpgrade(head: seq<byte>) {
    match FromUtf8(head)
    case Some(s) => WebsocketUpgrade(Lines(s))
    case None => false
  }

  method IsWebsocketUpgrade(head: seq<byte>) returns (r: bool)
    ensures r == IsUpgrade(head)
  {
    hide FromUtf8, Lines, Find, EqIgnoreCase, Trim, Lower, Contains;
    var text := FromUtf8(head);
    if text.None? {
      return false;
    }
    var lines := Lines(text.value);
    var hasUpgradeWebsocket, hasConnectionUpgrade := false, false;
    for n := 0 to |lines|
      invariant hasUpgradeWebsocket <==> exists i | 0 <= i < n :: UpgradesToWebsocket(lines[i])
      invariant hasConnectionUpgrade <==> exists i | 0 <= i < n :: UpgradesConnection(lines[i])
    {
      var line := lines[n];
      var colon := Find(line, ':');
      if colon.Some? {
        var name := Trim(line[..colon.value]);
        var value := Trim(line[colon.value + 1..]);
        if EqIgnoreCase(name, "upgrade") && EqIgnoreCase(value, "websocket") {
          hasUpgradeWebsocket := true;
        }
        if EqIgnoreCase(name, "connection") && Contains(Lower(value), "upgrade") {
          hasConnectionUpgrade := true;
        }
      }
    }
    return hasUpgradeWebsocket && hasConnectionUpgrade;
  }

  // ----- the rewriting -----

  const FORWARDED_FOR := "X-Forwarded-For: "
  const REAL_IP := "X-Real-IP: "
  const FORWARDED_PROTO := "X-Forwarded-Proto: "

  function Proto(https: bool): string {
    if https then "https" else "http"
  }

  /** The three inserted header lines, as bytes. The peer address is the bytes of a Rust string. */
  function ForwardingHeaders(peer: seq<byte>, https: bool): seq<byte> {
    Ascii(FORWARDED_FOR) + peer + EOL + Ascii(REAL_IP) + peer + EOL
    + Ascii(FORWARDED_PROTO) + Ascii(Proto(https)) + EOL
  }

  function Injected(head: seq<byte>, peer: seq<byte>, https: bool): seq<byte> {
    match Position(head, EOL)
    case None => head
    case Some(i) => head[..i + 2] + ForwardingHeaders(peer, https) + head[i + 2..]
  }

  method InjectForwardingHeaders(head: seq<byte>, peer: seq<byte>, https: bool) returns (out: seq<byte>)
    ensures out == Injected(head, peer, https)
  {
    hide ForwardingHeaders;
    var position := Position(head, EOL);
    if position.None? {
      return head;
    }
    var splitAt := position.value + 2;
    var injected := ForwardingHeaders(peer, https);
    out := [];
    out := out + head[..splitAt];
    out := out + injected;
    out := out + head[splitAt..];
  }

  // ----- what the parsers see -----

  ghost predicate NoLineBreak(s: string) {
    forall c | c in s :: c != '\r' && c != '\n'
  }

  /** The lines the rewriting inserts. */
  function ForwardingLines(peer: string, https: bool): seq<string> {
    [FORWARDED_FOR + peer, REAL_IP + peer, FORWARDED_PROTO + Proto(https)]
  }

  function ForwardingText(peer: string, https: bool): string {
    FORWARDED_FOR + peer + CRLF + REAL_IP + peer + CRLF + FORWARDED_PROTO + Proto(https) + CRLF
  }

  lemma DecodeEol()
    ensures FromUtf8(EOL) == Some(CRLF)
  {
    DecodeAscii(CRLF);
    assert EOL == Ascii(CRLF);
  }

  lemma DecodeAppend(a: seq<byte>, b: seq<byte>, s: string, t: string)
    requires FromUtf8(a) == Some(s) && FromUtf8(b) == Some(t)
    ensures FromUtf8(a + b) == Some(s + t)
  {
    DecodeSplit(a, b);
  }

  /** Three lines, each a name in ASCII and a value. */
  lemma DecodeThreeLines(n1: string, n2: string, n3: string, v: seq<byte>, w: seq<byte>, vt: string, wt: string)
    requires IsAscii(n1) && IsAscii(n2) && IsAscii(n3)
    requires FromUtf8(v) == Some(vt) && FromUtf8(w) == Some(wt)
    ensures FromUtf8(Ascii(n1) + v + EOL + Ascii(n2) + v + EOL + Ascii(n3) + w + EOL)
         == Some(n1 + vt + CRLF + n2 + vt + CRLF + n3 + wt + CRLF)
  {
    hide FromUtf8, Ascii;
    DecodeLine(n1, v, vt);
    DecodeLine(n2, v, vt);
    DecodeLine(n3, w, wt);
    var b1, b2, b3 := Ascii(n1) + v + EOL, Ascii(n2) + v + EOL, Ascii(n3) + w + EOL;
    var t1, t2, t3 := n1 + vt + CRLF, n2 + vt + CRLF, n3 + wt + CRLF;
    DecodeAppend(b1, b2, t1, t2);
    DecodeAppend(b1 + b2, b3, t1 + t2, t3);
    assert b1 + b2 + b3 == Ascii(n1) + v + EOL + Ascii(n2) + v + EOL + Ascii(n3) + w + EOL;
    assert t1 + t2 + t3 == n1 + vt + CRLF + n2 + vt + CRLF + n3 + wt + CRLF;
  }

  lemma DecodeLine(name: string, v: seq<byte>, vt: string)
    requires IsAscii(name) && FromUtf8(v) == Some(vt)
    ensures FromUtf8(Ascii(name) + v + EOL) == Some(name + vt + CRLF)
  {
    hide FromUtf8, Ascii;
    DecodeEol();
    DecodeAscii(name);
    DecodeAppend(Ascii(name), v, name, vt);
    DecodeAppend(Ascii(name) + v, EOL, name + vt, CRLF);
  }

  ghost predicate PlainName(s: string) {
    s != "" && IsAscii(s) && NoLineBreak(s)
  }

  lemma PlainForwardedFor()
    ensures PlainName(FORWARDED_FOR)
  {
  }

  lemma PlainRealIp()
    ensures PlainName(REAL_IP)
  {
  }

  lemma PlainForwardedProto()
    ensures PlainName(FORWARDED_PROTO)
  {
  }

  lemma PlainProto(https: bool)
    ensures PlainName(Proto(https))
  {
  }

  lemma PlainNames(https: bool)
    ensures PlainName(FORWARDED_FOR) && PlainName(REAL_IP) && PlainName(FORWARDED_PROTO) && PlainName(Proto(https))
  {
    hide PlainName;
    PlainForwardedFor();
    PlainRealIp();
    PlainForwardedProto();
    PlainProto(https);
  }

  lemma DecodeForwarding(peer: seq<byte>, p: string, https: bool)
    requires FromUtf8(peer) == Some(p)
    ensures FromUtf8(ForwardingHeaders(peer, https)) == Some(ForwardingText(p, https))
  {
    hide FromUtf8, Ascii, IsAscii, NoLineBreak, Proto;
    PlainNames(https);
    DecodeAscii(Proto(https));
    DecodeThreeLines(FORWARDED_FOR, REAL_IP, FORWARDED_PROTO,
                     peer, Ascii(Proto(https)), p, Proto(https));
  }

  /** Bytes without a line end decode to a text without one. */
  lemma {:induction false} DecodeKeepsLine(b: seq<byte>)
    requires Valid(b) && forall i :: !OccursAt(b, EOL, i)
    ensures !HasCrlf(FromUtf8(b).value)
  {
    if b != [] {
      var n := FrontLength(b);
      var rest := b[n..];
      var s, t := FromUtf8(b).value, FromUtf8(rest).value;
      forall i
        ensures !OccursAt(rest, EOL, i)
      {
        if 0 <= i <= |rest| {
          assert b[i + n..] == rest[i..];
          assert !OccursAt(b, EOL, i + n);
        }
      }
      DecodeKeepsLine(rest);
      forall i
        ensures !CrlfAt(s, i)
      {
        if i == 0 && CrlfAt(s, 0) {
          FrontLineEnd(b, rest);
        } else if CrlfAt(s, i) {
          assert CrlfAt(t, i - 1);
        }
      }
    }
  }

  lemma FrontLineEnd(b: seq<byte>, rest: seq<byte>)
    requires FrontLength(b) > 0 && rest == b[FrontLength(b)..] && FrontLength(rest) > 0
    requires FrontChar(b) == '\r' && FrontChar(rest) == '\n'
    ensures OccursAt(b, EOL, 0)
  {
    FrontAscii(b, '\r');
    FrontAscii(rest, '\n');
    assert b[0..] == b;
  }

  lemma FrontAscii(b: seq<byte>, c: char)
    requires FrontLength(b) > 0 && FrontChar(b) == c && c as int < 0x80
    ensures FrontLength(b) == 1 && b[0] == c as int
  {
  }

  // ----- heads that have a first line -----

  lemma OccursInPrefix(b: seq<byte>, pat: seq<byte>, k: nat, j: int)
    requires k <= |b|
    ensures OccursAt(b[..k], pat, j) <==> OccursAt(b, pat, j) && j + |pat| <= k
  {
    if 0 <= j <= k {
      assert b[..k][j..] == b[j..k];
      if j + |pat| <= k {
        assert b[j..k][..|pat|] == b[j..][..|pat|];
      }
    }
  }

  /** A head is its first line, a line end and the rest. */
  lemma HeadParts(head: seq<byte>, i: nat)
    requires Position(head, EOL) == Some(i)
    ensures head == head[..i] + EOL + head[i + 2..]
    ensures forall j :: !OccursAt(head[..i], EOL, j)
  {
    PositionIsFirst(head, EOL);
    assert head[i..] == head[i..i + 2] + head[i + 2..];
    forall j
      ensures !OccursAt(head[..i], EOL, j)
    {
      OccursInPrefix(head, EOL, i, j);
    }
  }

  /** Decoding a head that has a first line, with anything well formed put in after that line. */
  lemma DecodeHead(line: seq<byte>, middle: seq<byte>, m: string, rest: seq<byte>)
    requires FromUtf8(middle) == Some(m)
    ensures FromUtf8(line + EOL + middle + rest)
         == if Valid(line) && Valid(rest) then Some(FromUtf8(line).value + CRLF + m + FromUtf8(rest).value) else None
  {
    hide FromUtf8;
    DecodeEol();
    DecodeAppend(EOL, middle, CRLF, m);
    DecodeSplit(EOL + middle, rest);
    DecodeSplit(line, EOL + middle + rest);
    assert line + (EOL + middle + rest) == line + EOL + middle + rest;
    if Valid(line) && Valid(rest) {
      var l, r := FromUtf8(line).value, FromUtf8(rest).value;
      assert l + (CRLF + m + r) == l + CRLF + m + r;
    }
  }

  lemma NoBreakNoLineEnd(s: string, t: string)
    requires NoLineBreak(s) && NoLineBreak(t)
    ensures !HasCrlf(s + t)
  {
    forall i
      ensures !CrlfAt(s + t, i)
    {
      if 0 <= i < |s + t| - 1 {
        var c := (s + t)[i];
        assert if i < |s| then c == s[i] && c in s else c == t[i - |s|] && c in t;
      }
    }
  }

  lemma ThreeLines(l1: string, l2: string, l3: string, rest: string)
    requires !HasCrlf(l1) && !HasCrlf(l2) && !HasCrlf(l3)
    ensures Lines(l1 + CRLF + l2 + CRLF + l3 + CRLF + rest) == [l1, l2, l3] + Lines(rest)
  {
    var s3 := l3 + CRLF + rest;
    var s2 := l2 + CRLF + s3;
    FirstLine(l1, s2);
    FirstLine(l2, s3);
    FirstLine(l3, rest);
    assert l1 + CRLF + l2 + CRLF + l3 + CRLF + rest == l1 + CRLF + s2;
  }

  lemma ThreeHeaderLines(n1: string, n2: string, n3: string, v: string, w: string, rest: string)
    requires NoLineBreak(n1) && NoLineBreak(n2) && NoLineBreak(n3) && NoLineBreak(v) && NoLineBreak(w)
    ensures Lines(n1 + v + CRLF + n2 + v + CRLF + n3 + w + CRLF + rest) == [n1 + v, n2 + v, n3 + w] + Lines(rest)
  {
    hide Lines, HasCrlf;
    NoBreakNoLineEnd(n1, v);
    NoBreakNoLineEnd(n2, v);
    NoBreakNoLineEnd(n3, w);
    ThreeLines(n1 + v, n2 + v, n3 + w, rest);
    assert n1 + v + CRLF + n2 + v + CRLF + n3 + w + CRLF + rest
        == (n1 + v) + CRLF + (n2 + v) + CRLF + (n3 + w) + CRLF + rest;
  }

  lemma ForwardingLinesOf(p: string, https: bool, rest: string)
    requires NoLineBreak(p)
    ensures Lines(ForwardingText(p, https) + rest) == ForwardingLines(p, https) + Lines(rest)
  {
    hide Lines, IsAscii, NoLineBreak, Proto;
    PlainNames(https);
    ThreeHeaderLines(FORWARDED_FOR, REAL_IP, FORWARDED_PROTO, p, Proto(https), rest);
  }

  // ----- the inserted lines mean nothing to the parsers -----

  /** Names none of the parsers looks for. */
  ghost predicate Ignored(line: string) {
    match Find(line, ':')
    case None => false
    case Some(colon) =>
      && colon in {9, 15, 17}
      && !White(line[0]) && !White(line[colon - 1])
  }

  lemma ForwardingLinesIgnored(p: string, https: bool)
    ensures var lines := ForwardingLines(p, https);
            |lines| == 3 && forall i | 0 <= i < 3 :: Ignored(lines[i])
  {
    var lines := ForwardingLines(p, https);
    FindIs(lines[0], ':', 15);
    FindIs(lines[1], ':', 9);
    FindIs(lines[2], ':', 17);
  }

  lemma IgnoredHeaders(first: string, middle: seq<string>, rest: seq<string>, name: string)
    requires |name| in {4, 14} && forall i | 0 <= i < |middle| :: Ignored(middle[i])
    ensures HeaderValue([first] + (middle + rest), name) == HeaderValue([first] + rest, name)
  {
    SkipIgnored(middle, rest, name);
    assert ([first] + (middle + rest))[1..] == middle + rest;
    assert ([first] + rest)[1..] == rest;
  }

  lemma {:induction false} SkipIgnored(middle: seq<string>, rest: seq<string>, name: string)
    requires |name| in {4, 14} && forall i | 0 <= i < |middle| :: Ignored(middle[i])
    ensures HeaderValue(middle + rest, name) == HeaderValue(rest, name)
  {
    if middle == [] {
      assert middle + rest == rest;
    } else {
      var line := middle[0];
      assert Ignored(line);
      var colon := Find(line, ':').value;
      assert |Lower(line[..colon])| != |Lower(name)|;
      assert (middle + rest)[1..] == middle[1..] + rest;
      SkipIgnored(middle[1..], rest, name);
    }
  }

  lemma IgnoredUpgrade(line: string)
    requires Ignored(line)
    ensures !UpgradesToWebsocket(line) && !UpgradesConnection(line)
  {
    var colon := Find(line, ':').value;
    TrimNothing(line[..colon]);
    assert |Lower(line[..colon])| == colon;
    assert |Lower("upgrade")| == 7 && |Lower("connection")| == 10;
  }

  lemma IgnoredUpgrades(first: string, middle: seq<string>, rest: seq<string>)
    requires forall i | 0 <= i < |middle| :: Ignored(middle[i])
    ensures WebsocketUpgrade([first] + (middle + rest)) == WebsocketUpgrade([first] + rest)
  {
    hide UpgradesToWebsocket, UpgradesConnection, Ignored;
    var after, before := [first] + (middle + rest), [first] + rest;
    var k := |middle|;
    forall i | 1 <= i <= k
      ensures !UpgradesToWebsocket(after[i]) && !UpgradesConnection(after[i])
    {
      assert after[i] == middle[i - 1];
      IgnoredUpgrade(middle[i - 1]);
    }
    forall i | 0 <= i < |before|
      ensures before[i] == after[if i == 0 then 0 else i + k]
    {
    }
    forall i | 0 <= i < |after|
      ensures if 1 <= i <= k then !UpgradesToWebsocket(after[i]) && !UpgradesConnection(after[i])
              else after[i] == before[if i == 0 then 0 else i - k]
    {
    }
  }

  lemma LinesOfRewritten(l: string, p: string, https: bool, r: string)
    requires NoLineBreak(p) && !HasCrlf(l)
    ensures var before, after := Lines(l + CRLF + "" + r), Lines(l + CRLF + ForwardingText(p, https) + r);
            && after[0] == before[0]
            && HeaderValue(after, "host") == HeaderValue(before, "host")
            && HeaderValue(after, "content-length") == HeaderValue(before, "content-length")
            && WebsocketUpgrade(after) == WebsocketUpgrade(before)
  {
    hide Lines, HasCrlf, HeaderValue, WebsocketUpgrade, ForwardingLines, ForwardingText, Ignored;
    var t, f := ForwardingText(p, https), ForwardingLines(p, https);
    assert l + CRLF + "" + r == l + CRLF + r;
    assert l + CRLF + t + r == l + CRLF + (t + r);
    FirstLine(l, r);
    FirstLine(l, t + r);
    ForwardingLinesOf(p, https, r);
    ForwardingLinesIgnored(p, https);
    IgnoredHeaders(l, f, Lines(r), "host");
    IgnoredHeaders(l, f, Lines(r), "content-length");
    IgnoredUpgrades(l, f, Lines(r));
  }

  /** The rewritten head and the original decode to texts with the same first line and the same rest. */
  lemma DecodeInjected(head: seq<byte>, peer: seq<byte>, p: string, https: bool, i: nat)
    requires FromUtf8(peer) == Some(p) && Position(head, EOL) == Some(i)
    ensures var line, rest := head[..i], head[i + 2..];
            if Valid(line) && Valid(rest) then
              var l, r := FromUtf8(line).value, FromUtf8(rest).value;
              && !HasCrlf(l)
              && FromUtf8(head) == Some(l + CRLF + "" + r)
              && FromUtf8(Injected(head, peer, https)) == Some(l + CRLF + ForwardingText(p, https) + r)
            else
              FromUtf8(head) == None && FromUtf8(Injected(head, peer, https)) == None
  {
    hide FromUtf8, ForwardingHeaders, ForwardingText, HasCrlf;
    var line, rest := head[..i], head[i + 2..];
    HeadParts(head, i);
    assert head == line + EOL + [] + rest;
    assert head[..i + 2] == line + EOL;
    DecodeNothing();
    DecodeHead(line, [], "", rest);
    DecodeForwarding(peer, p, https);
    DecodeHead(line, ForwardingHeaders(peer, https), ForwardingText(p, https), rest);
    if Valid(line) {
      DecodeKeepsLine(line);
    }
  }

  lemma DecodeNothing()
    ensures FromUtf8([]) == Some("")
  {
  }

  ghost predicate SameMeaning(a: seq<byte>, b: seq<byte>) {
    && ParseRequestLine(a) == ParseRequestLine(b)
    && ParseHostHeader(a) == ParseHostHeader(b)
    && ParseContentLength(a) == ParseContentLength(b)
    && IsUpgrade(a) == IsUpgrade(b)
  }

  /** The parsers read the decoded lines only. */
  lemma SameLinesSameMeaning(a: seq<byte>, b: seq<byte>)
    requires FromUtf8(a).Some? == FromUtf8(b).Some?
    requires FromUtf8(a).Some? ==>
               var la, lb := Lines(FromUtf8(a).value), Lines(FromUtf8(b).value);
               && la[0] == lb[0]
               && HeaderValue(la, "host") == HeaderValue(lb, "host")
               && HeaderValue(la, "content-length") == HeaderValue(lb, "content-length")
               && WebsocketUpgrade(la) == WebsocketUpgrade(lb)
    ensures SameMeaning(a, b)
  {
    hide FromUtf8, Lines, HeaderValue, WebsocketUpgrade, RequestLine, ParseUnsigned;
  }

  /** All four parsers see the same in the rewritten head. */
  lemma InjectionPreservesMeaning(head: seq<byte>, peer: seq<byte>, p: string, https: bool)
    requires FromUtf8(peer) == Some(p) && NoLineBreak(p)
    ensures SameMeaning(Injected(head, peer, https), head)
  {
    hide FromUtf8, Lines, HeaderValue, WebsocketUpgrade, ForwardingText, HasCrlf, SameMeaning, ForwardingHeaders;
    hide NoLineBreak;
    var out := Injected(head, peer, https);
    match Position(head, EOL)
    case None =>
      SameLinesSameMeaning(out, head);
    case Some(i) =>
      DecodeInjected(head, peer, p, https, i);
      var line, rest := head[..i], head[i + 2..];
      if Valid(line) && Valid(rest) {
        LinesOfRewritten(FromUtf8(line).value, p, https, FromUtf8(rest).value);
      }
      SameLinesSameMeaning(out, head);
  }

  // ----- what the inserted lines say -----

  /** A header name in any case, a colon and white space. */
  predicate Names(prefix: string, name: string) {
    && |prefix| > |name| && prefix[|name|] == ':'
    && ':' !in prefix[..|name|] && EqIgnoreCase(prefix[..|name|], name)
    && Padding(prefix[|name| + 1..])
  }

  lemma NamesOfForwarding()
    ensures Names(FORWARDED_FOR, "x-forwarded-for")
    ensures Names(REAL_IP, "x-real-ip")
    ensures Names(FORWARDED_PROTO, "x-forwarded-proto")
  {
  }

  lemma ColonOf(prefix: string, name: string, value: string)
    requires Names(prefix, name)
    ensures Find(prefix + value, ':') == Some(|name|)
    ensures (prefix + value)[..|name|] == prefix[..|name|]
    ensures (prefix + value)[|name| + 1..] == prefix[|name| + 1..] + value
  {
    forall j | 0 <= j < |name|
      ensures (prefix + value)[j] != ':'
    {
      assert prefix[..|name|][j] in prefix[..|name|];
    }
    FindIs(prefix + value, ':', |name|);
  }

  /** A matching line decides the value; white space around it is trimmed. */
  lemma HeaderFound(prefix: string, name: string, value: string, post: string, rest: seq<string>)
    requires Names(prefix, name) && Padding(post)
    ensures HeaderValue([prefix + (value + post)] + rest, name) == Some(Trim(value))
  {
    hide Names, Padding, Trim;
    ColonOf(prefix, name, value + post);
    NamesMatch(prefix, name);
    TrimPadded(prefix[|name| + 1..], value, post);
  }

  lemma NamesMatch(prefix: string, name: string)
    requires Names(prefix, name)
    ensures |name| < |prefix| && EqIgnoreCase(prefix[..|name|], name) && Padding(prefix[|name| + 1..])
  {
  }

  lemma HeaderNotFound(prefix: string, name: string, value: string, other: string, rest: seq<string>)
    requires Names(prefix, name) && |other| != |name|
    ensures HeaderValue([prefix + value] + rest, other) == HeaderValue(rest, other)
  {
    ColonOf(prefix, name, value);
    assert |Lower(prefix[..|name|])| != |Lower(other)|;
    assert ([prefix + value] + rest)[1..] == rest;
  }

  function OrElse(a: Option<string>, b: string): Option<string> {
    if a.Some? then a else Some(b)
  }

  lemma HeaderAfter(first: string, rest: seq<string>, name: string)
    ensures HeaderValue([first] + rest, name)
         == if HeaderValue([first], name).Some? then HeaderValue([first], name) else HeaderValue(rest, name)
  {
    assert ([first] + rest)[1..] == rest;
  }

  /** Whatever forwarding headers a client sends along, a server that takes the first of each name finds
      the relay's: the peer's address twice, and the protocol. The one exception is a first line that is
      such a header itself, where a request line should be. */
  lemma ServerSeesPeer(head: seq<byte>, peer: seq<byte>, p: string, https: bool)
    requires FromUtf8(peer) == Some(p) && NoLineBreak(p)
    requires Position(head, EOL).Some? && Valid(head)
    ensures var first := [Lines(FromUtf8(head).value)[0]];
            var out := FromUtf8(Injected(head, peer, https));
            && out.Some?
            && HeaderValue(Lines(out.value), "x-forwarded-for")
               == OrElse(HeaderValue(first, "x-forwarded-for"), Trim(p))
            && HeaderValue(Lines(out.value), "x-real-ip") == OrElse(HeaderValue(first, "x-real-ip"), Trim(p))
            && HeaderValue(Lines(out.value), "x-forwarded-proto")
               == OrElse(HeaderValue(first, "x-forwarded-proto"), if https then "https" else "http")
  {
    hide FromUtf8, Injected, Lines, HeaderValue, ForwardingText, HasCrlf, Names, Trim, NoLineBreak, Position, OrElse;
    var i := Position(head, EOL).value;
    DecodeInjected(head, peer, p, https, i);
    var l, r := FromUtf8(head[..i]).value, FromUtf8(head[i + 2..]).value;
    var t := ForwardingText(p, https);
    assert l + CRLF + "" + r == l + CRLF + r;
    assert l + CRLF + t + r == l + CRLF + (t + r);
    FirstLine(l, r);
    FirstLine(l, t + r);
    ForwardingLinesOf(p, https, r);
    SeenByServer(l, p, https, Lines(r));
    ProtoIs(https);
  }

  lemma ProtoIs(https: bool)
    ensures Trim(Proto(https)) == if https then "https" else "http"
  {
    TrimNothing("https");
    TrimNothing("http");
  }

  lemma SeenByServer(first: string, p: string, https: bool, rest: seq<string>)
    ensures var lines := [first] + (ForwardingLines(p, https) + rest);
            && HeaderValue(lines, "x-forwarded-for") == OrElse(HeaderValue([first], "x-forwarded-for"), Trim(p))
            && HeaderValue(lines, "x-real-ip") == OrElse(HeaderValue([first], "x-real-ip"), Trim(p))
            && HeaderValue(lines, "x-forwarded-proto")
               == OrElse(HeaderValue([first], "x-forwarded-proto"), Trim(Proto(https)))
  {
    hide HeaderValue, Names, Trim, Proto;
    NamesOfForwarding();
    var w := Proto(https);
    var after3 := [FORWARDED_PROTO + w] + rest;
    var after2 := [REAL_IP + p] + after3;
    var after1 := [FORWARDED_FOR + p] + after2;
    assert ForwardingLines(p, https) + rest == after1;
    assert w + "" == w && p + "" == p;
    HeaderAfter(first, after1, "x-forwarded-for");
    HeaderAfter(first, after1, "x-real-ip");
    HeaderAfter(first, after1, "x-forwarded-proto");
    HeaderFound(FORWARDED_FOR, "x-forwarded-for", p, "", after2);
    HeaderNotFound(FORWARDED_FOR, "x-forwarded-for", p, "x-real-ip", after2);
    HeaderNotFound(FORWARDED_FOR, "x-forwarded-for", p, "x-forwarded-proto", after2);
    HeaderFound(REAL_IP, "x-real-ip", p, "", after3);
    HeaderNotFound(REAL_IP, "x-real-ip", p, "x-forwarded-proto", after3);
    HeaderFound(FORWARDED_PROTO, "x-forwarded-proto", w, "", rest);
  }

  // ----- the blank line -----

  predicate EolAt(b: seq<byte>, j: int) {
    0 <= j < |b| - 1 && b[j] == CR && b[j + 1] == LF
  }

  predicate BlankAt(b: seq<byte>, j: int) {
    EolAt(b, j) && EolAt(b, j + 2)
  }

  lemma OccursEol(b: seq<byte>, j: int)
    ensures OccursAt(b, EOL, j) <==> EolAt(b, j)
  {
    if 0 <= j < |b| - 1 {
      assert b[j..][0] == b[j] && b[j..][1] == b[j + 1];
      assert b[j..][..2] == [b[j], b[j + 1]];
    }
  }

  lemma OccursBlank(b: seq<byte>, j: int)
    ensures OccursAt(b, BLANK_LINE, j) <==> BlankAt(b, j)
  {
    if 0 <= j < |b| - 3 {
      assert b[j..][..4] == [b[j], b[j + 1], b[j + 2], b[j + 3]];
    }
  }

  /** Lines that can be inserted after a line end without making a blank line. */
  ghost predicate Block(f: seq<byte>) {
    && |f| >= 2
    && f[0] != CR
    && EolAt(f, |f| - 2)
    && forall i :: EolAt(f, i) ==> i + 2 == |f| || f[i + 2] != CR
  }

  lemma LineIsBlock(line: seq<byte>)
    requires line != [] && CR !in line
    ensures Block(line + EOL)
  {
    forall i | 0 <= i < |line|
      ensures (line + EOL)[i] != CR
    {
      assert (line + EOL)[i] == line[i];
    }
  }

  lemma BlocksMakeBlock(a: seq<byte>, b: seq<byte>)
    requires Block(a) && Block(b)
    ensures Block(a + b)
  {
    var f := a + b;
    assert EolAt(b, |b| - 2);
    forall i | EolAt(f, i)
      ensures i + 2 == |f| || f[i + 2] != CR
    {
      if i + 1 < |a| {
        assert EolAt(a, i);
      } else if i >= |a| {
        assert EolAt(b, i - |a|);
      }
    }
  }

  lemma {:induction false} DecodeKeepsCr(b: seq<byte>)
    requires Valid(b) && NoLineBreak(FromUtf8(b).value)
    ensures CR !in b
  {
    if b != [] {
      var n := FrontLength(b);
      var s := FromUtf8(b).value;
      assert s[0] in s && s[0] == FrontChar(b);
      assert s[1..] == FromUtf8(b[n..]).value;
      assert forall c | c in s[1..] :: c in s;
      DecodeKeepsCr(b[n..]);
      assert b == b[..n] + b[n..];
      assert CR !in b[..n];
    }
  }

  lemma AsciiNoCr(name: string)
    requires IsAscii(name) && NoLineBreak(name)
    ensures CR !in Ascii(name)
  {
    assert forall i | 0 <= i < |name| :: name[i] in name;
  }

  lemma ThreeBlocks(n1: string, n2: string, n3: string, v: seq<byte>, w: seq<byte>)
    requires IsAscii(n1) && IsAscii(n2) && IsAscii(n3) && CR !in v && CR !in w
    requires n1 != "" && n2 != "" && n3 != ""
    requires NoLineBreak(n1) && NoLineBreak(n2) && NoLineBreak(n3)
    ensures Block(Ascii(n1) + v + EOL + Ascii(n2) + v + EOL + Ascii(n3) + w + EOL)
  {
    hide Block, Ascii, IsAscii, NoLineBreak;
    AsciiNoCr(n1);
    AsciiNoCr(n2);
    AsciiNoCr(n3);
    LineIsBlock(Ascii(n1) + v);
    LineIsBlock(Ascii(n2) + v);
    LineIsBlock(Ascii(n3) + w);
    var b1, b2, b3 := Ascii(n1) + v + EOL, Ascii(n2) + v + EOL, Ascii(n3) + w + EOL;
    BlocksMakeBlock(b1, b2);
    BlocksMakeBlock(b1 + b2, b3);
    assert b1 + b2 + b3 == Ascii(n1) + v + EOL + Ascii(n2) + v + EOL + Ascii(n3) + w + EOL;
  }

  lemma ForwardingIsBlock(peer: seq<byte>, p: string, https: bool)
    requires FromUtf8(peer) == Some(p) && NoLineBreak(p)
    ensures Block(ForwardingHeaders(peer, https))
  {
    hide FromUtf8, Ascii, Block, IsAscii, NoLineBreak, Proto;
    PlainNames(https);
    DecodeKeepsCr(peer);
    AsciiNoCr(Proto(https));
    ThreeBlocks(FORWARDED_FOR, REAL_IP, FORWARDED_PROTO, peer, Ascii(Proto(https)));
  }

  /** Blank lines move by the length of the inserted block; none appears or disappears. */
  lemma BlankLinesShift(line: seq<byte>, f: seq<byte>, tail: seq<byte>, j: int)
    requires Block(f) && forall k :: !EolAt(line, k)
    ensures BlankAt(line + EOL + f + tail, j) <==> BlankAt(line + EOL + tail, j - |f|) && j - |f| >= |line|
  {
    var b, out, k := line + EOL + tail, line + EOL + f + tail, |line|;
    assert EolAt(f, |f| - 2);
    if 0 <= j < k {
      assert EolAt(out, j) ==> EolAt(line, j);
    } else if k + 2 <= j < k + |f| {
      assert EolAt(out, j) ==> EolAt(f, j - k - 2);
    } else if j >= k + |f| {
      assert forall i | k + |f| + 2 <= i < |out| :: out[i] == b[i - |f|];
    }
  }

  lemma NoBlankInLine(line: seq<byte>, tail: seq<byte>, j: int)
    requires forall k :: !EolAt(line, k)
    ensures BlankAt(line + EOL + tail, j) ==> j >= |line|
  {
    assert EolAt(line + EOL + tail, j) && j < |line| ==> EolAt(line, j);
  }

  lemma RestStays(line: seq<byte>, f: seq<byte>, tail: seq<byte>, e: nat)
    requires Block(f) && e >= |line| && EolAt(line + EOL + tail, e)
    ensures (line + EOL + f + tail)[e + |f|..] == (line + EOL + tail)[e..]
  {
    var b, out := line + EOL + tail, line + EOL + f + tail;
    assert EolAt(f, |f| - 2);
    assert e != |line| + 1;
    forall i | e <= i < |b|
      ensures out[i + |f|] == b[i]
    {
    }
  }

  lemma InjectedParts(head: seq<byte>, peer: seq<byte>, https: bool, i: nat)
    requires Position(head, EOL) == Some(i)
    ensures var line, tail := head[..i], head[i + 2..];
            && head == line + EOL + tail
            && Injected(head, peer, https) == line + EOL + ForwardingHeaders(peer, https) + tail
            && forall k :: !EolAt(line, k)
  {
    hide ForwardingHeaders;
    HeadParts(head, i);
    assert head[..i + 2] == head[..i] + EOL;
    forall k
      ensures !EolAt(head[..i], k)
    {
      OccursEol(head[..i], k);
    }
  }

  lemma BlankLineShifts(head: seq<byte>, peer: seq<byte>, p: string, https: bool, i: nat, j: int)
    requires FromUtf8(peer) == Some(p) && NoLineBreak(p) && Position(head, EOL) == Some(i)
    ensures var out, n := Injected(head, peer, https), |ForwardingHeaders(peer, https)|;
            && (OccursAt(out, BLANK_LINE, j + n) <==> OccursAt(head, BLANK_LINE, j))
            && (OccursAt(out, BLANK_LINE, j) ==> j >= i + n)
            && (OccursAt(head, BLANK_LINE, j) ==> out[j + n..] == head[j..])
  {
    hide FromUtf8, ForwardingHeaders, Block, Injected, EolAt, OccursAt;
    var line, f, tail := head[..i], ForwardingHeaders(peer, https), head[i + 2..];
    var out := Injected(head, peer, https);
    InjectedParts(head, peer, https, i);
    ForwardingIsBlock(peer, p, https);
    OccursBlank(out, j);
    OccursBlank(out, j + |f|);
    OccursBlank(head, j);
    BlankLinesShift(line, f, tail, j);
    BlankLinesShift(line, f, tail, j + |f|);
    NoBlankInLine(line, tail, j);
    if OccursAt(head, BLANK_LINE, j) {
      RestStays(line, f, tail, j);
    }
  }

  /** The end of the head moves by the length of what is inserted, and what follows it stays as it is. */
  lemma InjectionShiftsBlankLine(head: seq<byte>, peer: seq<byte>, p: string, https: bool)
    requires FromUtf8(peer) == Some(p) && NoLineBreak(p) && Position(head, EOL).Some?
    ensures var out, n := Injected(head, peer, https), |ForwardingHeaders(peer, https)|;
            match Position(head, BLANK_LINE)
            case None => Position(out, BLANK_LINE) == None
            case Some(e) => Position(out, BLANK_LINE) == Some(e + n) && out[e + n..] == head[e..]
  {
    hide FromUtf8, ForwardingHeaders, Injected, Position;
    PositionIsFirst(head, BLANK_LINE);
    var out, n := Injected(head, peer, https), |ForwardingHeaders(peer, https)|;
    var i := Position(head, EOL).value;
    PositionIsFirst(out, BLANK_LINE);
    forall j
      ensures OccursAt(out, BLANK_LINE, j) ==> OccursAt(head, BLANK_LINE, j - n)
    {
      BlankLineShifts(head, peer, p, https, i, j - n);
    }
    if Position(head, BLANK_LINE).Some? {
      var e := Position(head, BLANK_LINE).value;
      BlankLineShifts(head, peer, p, https, i, e);
      forall j | 0 <= j < e + n
        ensures !OccursAt(out, BLANK_LINE, j)
      {
        BlankLineShifts(head, peer, p, https, i, j);
        BlankLineShifts(head, peer, p, https, i, j - n);
      }
      PositionUnique(out, BLANK_LINE, e + n);
    }
  }

  /** A head without any line end is passed on unchanged, and holds no blank line. */
  lemma NoLineNoInjection(head: seq<byte>, peer: seq<byte>, https: bool)
    requires Position(head, EOL) == None
    ensures Injected(head, peer, https) == head
    ensures Position(head, BLANK_LINE) == None
  {
    PositionIsFirst(head, EOL);
    PositionIsFirst(head, BLANK_LINE);
    forall j
      ensures !OccursAt(head, BLANK_LINE, j)
    {
      OccursBlank(head, j);
      OccursEol(head, j);
    }
  }

  // ----- what the parsers read from a head as a client writes it -----

  lemma LinesOfChar(s: string)
    requires s != "" && !CrlfAt(s, 0)
    ensures Lines(s) == [[s[0]] + Lines(s[1..])[0]] + Lines(s[1..])[1..]
  {
  }

  lemma LinesOfEnd(s: string, rest: string)
    requires s == CRLF + rest
    ensures Lines(s) == [""] + Lines(rest)
  {
    assert CrlfAt(s, 0) && s[2..] == rest;
  }

  lemma {:induction false} LinesSplit(a: string, b: string)
    ensures Lines(a + CRLF + b) == Lines(a) + Lines(b)
  {
    hide Lines;
    var s := a + CRLF + b;
    if a == "" {
      OnlyLine(a);
      LinesOfEnd(s, b);
    } else if CrlfAt(a, 0) {
      LinesSplit(a[2..], b);
      LinesOfEnd(a, a[2..]);
      LinesOfEnd(s, a[2..] + CRLF + b);
    } else {
      assert s[1..] == a[1..] + CRLF + b;
      LinesSplit(a[1..], b);
      LinesOfChar(a);
      LinesOfChar(s);
      var front, back := Lines(a[1..]), Lines(b);
      assert (front + back)[1..] == front[1..] + back;
    }
  }

  lemma {:induction false} HeaderAppend(a: seq<string>, b: seq<string>, name: string)
    requires HeaderValue(a, name) == None
    ensures HeaderValue(a + b, name) == HeaderValue(b, name)
  {
    if a == [] {
      assert a + b == b;
    } else {
      assert (a + b)[1..] == a[1..] + b;
      HeaderAppend(a[1..], b, name);
    }
  }

  /** A header line of section 3.2 of RFC 7230: a name in any case, a colon, and a value with white space
      on either side or none. */
  lemma HeaderLine(before: string, prefix: string, name: string, value: string, post: string, rest: string)
    requires Names(prefix, name) && Padding(post) && !HasCrlf(prefix + (value + post))
    requires HeaderValue(Lines(before), name) == None
    ensures HeaderValue(Lines(before + CRLF + (prefix + (value + post) + CRLF + rest)), name) == Some(Trim(value))
  {
    hide Names, Trim, HeaderValue, Lines, HasCrlf, Padding;
    var line := prefix + (value + post);
    LinesSplit(before, line + CRLF + rest);
    FirstLine(line, rest);
    HeaderAppend(Lines(before), [line] + Lines(rest), name);
    HeaderFound(prefix, name, value, post, Lines(rest));
  }

  lemma NamesPlain(prefix: string, name: string, c: char)
    requires Names(prefix, name) && '\r' !in Lower(name) && '\n' !in Lower(name) && c in prefix
    ensures c != '\r' && c != '\n'
  {
    var i :| 0 <= i < |prefix| && prefix[i] == c;
    if i < |name| {
      assert Lower(prefix[..|name|])[i] == LowerChar(c) && Lower(prefix[..|name|])[i] in Lower(name);
    } else if i > |name| {
      assert prefix[|name| + 1..][i - |name| - 1] == c;
    }
  }

  /** The length that a client announces is read, if and only if it fits 64 bits. */
  lemma ContentLengthIff(head: seq<byte>, before: string, prefix: string, n: nat, post: string, rest: string)
    requires FromUtf8(head) == Some(before + CRLF + (prefix + (Decimal(n) + post) + CRLF + rest))
    requires Names(prefix, "content-length") && Padding(post)
    requires HeaderValue(Lines(before), "content-length") == None
    ensures ParseContentLength(head) == if n < 0x1_0000_0000_0000_0000 then Some(n) else None
  {
    hide Decimal, Names, Trim, HeaderValue, Lines, FromUtf8, Digits, Lower;
    var value := Decimal(n);
    DecimalChars(n);
    DecimalDigits(n);
    assert Digit(value[0]) && Digit(value[|value| - 1]);
    TrimNothing(value);
    var line := prefix + (value + post);
    LowerNames();
    forall i | 0 <= i < |line|
      ensures line[i] != '\r'
    {
      if i < |prefix| {
        NamesPlain(prefix, "content-length", line[i]);
      } else if i < |prefix| + |value| {
        assert line[i] == value[i - |prefix|] && Digit(line[i]);
      } else {
        assert line[i] == post[i - |prefix| - |value|];
      }
    }
    HeaderLine(before, prefix, "content-length", value, post, rest);
  }

  lemma LowerNames()
    ensures '\r' !in Lower("content-length") && '\n' !in Lower("content-length")
    ensures '\r' !in Lower("host") && '\n' !in Lower("host")
  {
  }

  /** Method and path are the parts of the first line before the first and the second space. */
  lemma RequestLineIs(head: seq<byte>, verb: string, path: string, version: string, rest: string)
    requires FromUtf8(head) == Some(verb + " " + path + " " + version + CRLF + rest)
    requires ' ' !in verb && ' ' !in path && !HasCrlf(verb + " " + path + " " + version)
    ensures ParseRequestLine(head) == (verb, path)
  {
    hide FromUtf8, Lines, HasCrlf;
    var line := verb + " " + path + " " + version;
    FirstLine(line, rest);
    FindIs(line, ' ', |verb|);
    assert line[..|verb|] == verb;
    assert line[|verb| + 1..] == path + (" " + version);
    BeforeIs(path, ' ', " " + version);
  }

  /** A request line without a space is the method, and the path is the root; so is an undecodable head. */
  lemma RequestLineDefaults(head: seq<byte>, line: string, rest: string)
    ensures !Valid(head) ==> ParseRequestLine(head) == ("?", "/")
    ensures FromUtf8(head) == Some(line + CRLF + rest) && ' ' !in line && !HasCrlf(line) ==>
              ParseRequestLine(head) == (line, "/")
  {
    hide FromUtf8, Lines, HasCrlf;
    if FromUtf8(head) == Some(line + CRLF + rest) && ' ' !in line && !HasCrlf(line) {
      FirstLine(line, rest);
      FindNone(line, ' ');
    }
  }

  // ----- websocket handshakes -----

  lemma NameIsTrimmed(prefix: string, name: string)
    requires Names(prefix, name) && name in ["upgrade", "connection"]
    ensures EqIgnoreCase(Trim(prefix[..|name|]), name)
  {
    var s := prefix[..|name|];
    PlainText(s, name);
    TrimNothing(s);
  }

  /** A text that is a plain word ignoring case neither starts nor ends in white space. */
  lemma PlainText(s: string, word: string)
    requires EqIgnoreCase(s, word) && word in ["upgrade", "connection", "websocket"]
    ensures |s| == |word| > 0 && !White(s[0]) && !White(s[|s| - 1])
  {
    assert |Lower(s)| == |Lower(word)|;
    assert Lower(s)[0] == LowerChar(s[0]) && Lower(word)[0] == LowerChar(word[0]);
    assert Lower(s)[|s| - 1] == LowerChar(s[|s| - 1]) && Lower(word)[|s| - 1] == LowerChar(word[|s| - 1]);
  }

  /** A line that asks for a websocket, in any case and with any white space around the value. */
  lemma UpgradeLine(prefix: string, value: string, post: string)
    requires Names(prefix, "upgrade") && EqIgnoreCase(value, "websocket") && Padding(post)
    ensures UpgradesToWebsocket(prefix + (value + post))
  {
    hide Names, Trim, White, Padding, EqIgnoreCase, Find;
    ColonOf(prefix, "upgrade", value + post);
    NamesMatch(prefix, "upgrade");
    NameIsTrimmed(prefix, "upgrade");
    TrimPadded(prefix[7 + 1..], value, post);
    PlainText(value, "websocket");
    TrimNothing(value);
  }

  /** A connection header that has the word anywhere in its value. */
  lemma ConnectionLine(prefix: string, x: string, word: string, y: string)
    requires Names(prefix, "connection") && EqIgnoreCase(word, "upgrade")
    ensures UpgradesConnection(prefix + (x + (word + y)))
  {
    hide Names, Trim, TrimStart, TrimEnd, White, Padding, Find, Contains;
    ColonOf(prefix, "connection", x + (word + y));
    NamesMatch(prefix, "connection");
    NameIsTrimmed(prefix, "connection");
    PlainText(word, "upgrade");
    var pad := prefix[10 + 1..];
    assert pad + (x + (word + y)) == (pad + x) + (word + y);
    TrimKeeps(pad + x, word, y);
    var a, b := TrimStart(pad + x), TrimEnd(y);
    var value := Lower(a + (word + b));
    LowerUpgrade();
    assert value[|a|..|a| + 7] == Lower(word) == "upgrade";
    assert TextAt(value, "upgrade", |a|);
    ContainsIff(value, "upgrade");
  }

  lemma LowerUpgrade()
    ensures Lower("upgrade") == "upgrade"
  {
  }

  /** A head with both lines, anywhere and in any order, is a handshake. */
  lemma Handshake(head: seq<byte>, i: nat, j: nat, p: string, value: string, post: string,
                  q: string, x: string, word: string, y: string)
    requires Valid(head) && i < |Lines(FromUtf8(head).value)| && j < |Lines(FromUtf8(head).value)|
    requires Names(p, "upgrade") && EqIgnoreCase(value, "websocket") && Padding(post)
    requires Names(q, "connection") && EqIgnoreCase(word, "upgrade")
    requires Lines(FromUtf8(head).value)[i] == p + (value + post)
    requires Lines(FromUtf8(head).value)[j] == q + (x + (word + y))
    ensures IsUpgrade(head)
  {
    hide FromUtf8, Lines, Names, EqIgnoreCase, Padding, UpgradesToWebsocket, UpgradesConnection;
    UpgradeLine(p, value, post);
    ConnectionLine(q, x, word, y);
  }

  /** The trimmed name of a line, if it has a colon. */
  function NameOf(line: string): Option<string> {
    match Find(line, ':')
    case None => None
    case Some(colon) => Some(Trim(line[..colon]))
  }

  /** A head without an Upgrade line, or without a Connection line, is not. */
  lemma NoHandshake(head: seq<byte>)
    requires Valid(head) ==>
               || (forall line | line in Lines(FromUtf8(head).value) ::
                     NameOf(line).None? || !EqIgnoreCase(NameOf(line).value, "upgrade"))
               || (forall line | line in Lines(FromUtf8(head).value) ::
                     NameOf(line).None? || !EqIgnoreCase(NameOf(line).value, "connection"))
    ensures !IsUpgrade(head)
  {
    hide FromUtf8, Lines, Find, Trim, EqIgnoreCase;
    if Valid(head) {
      var lines := Lines(FromUtf8(head).value);
      forall i | 0 <= i < |lines|
        ensures lines[i] in lines
        ensures UpgradesToWebsocket(lines[i]) ==> EqIgnoreCase(NameOf(lines[i]).value, "upgrade")
        ensures UpgradesConnection(lines[i]) ==> EqIgnoreCase(NameOf(lines[i]).value, "connection")
      {
      }
    }
  }

  /** Nor is one whose Upgrade lines all ask for something else. */
  lemma OtherProtocol(prefix: string, value: string, post: string)
    requires Names(prefix, "upgrade") && Padding(post) && !EqIgnoreCase(Trim(value), "websocket")
    ensures !UpgradesToWebsocket(prefix + (value + post))
  {
    hide Names, Trim, White, Padding, EqIgnoreCase, Find;
    ColonOf(prefix, "upgrade", value + post);
    NamesMatch(prefix, "upgrade");
    TrimPadded(prefix[7 + 1..], value, post);
  }
}
