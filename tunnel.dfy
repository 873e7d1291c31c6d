/**
 * The CONNECT handshake sent to the upstream proxy (section 9.3.6 of RFC
 * 9110; the request target is in authority-form, section 3.2.3 of RFC 9112,
 * and the message framing follows section 2.1 of RFC 9112), and the gate that
 * decides whether the tunnel socket is handed on.
 */
module Tunnel {
  import opened Wrappers
  import opened Text
  import opened Http
  import opened ResponseParser

  const DefaultPort := "80"

  /** `host:port` from the request URL: its first two `:`-separated pieces, port 80 when the second is missing or empty. */
  function Authority(url: string): (r: string)
    ensures var host := Split(url, ':')[0];
      && |r| > |host| + 1
      && r[..|host| + 1] == host + ":"
      && ':' !in host && ':' !in r[|host| + 1..]
      && (r[|host| + 1..] == DefaultPort || (|Split(url, ':')| > 1 && r[|host| + 1..] == Split(url, ':')[1]))
  {
    var pieces := Split(url, ':');
    var port := if |pieces| > 1 && pieces[1] != "" then pieces[1] else DefaultPort;
    var r := pieces[0] + ":" + port;
    assert r[..|pieces[0]| + 1] == pieces[0] + ":";
    assert r[|pieces[0]| + 1..] == port;
    r
  }

  /**
   * The proxy headers with `Host` forced to the authority and `Connection` to
   * `close`, whatever the proxy headers said; every other key keeps its
   * value; the proxy header keys keep their order; no key appears twice.
   */
  function TunnelHeaders(proxyHeaders: seq<Header>, authority: string): (hs: seq<Header>)
    requires DistinctNames(proxyHeaders)
    ensures DistinctNames(hs)
    ensures Lookup(hs, "Host") == Some(authority)
    ensures Lookup(hs, "Connection") == Some("close")
    ensures forall n :: n != "Host" && n != "Connection" ==> Lookup(hs, n) == Lookup(proxyHeaders, n)
    ensures |proxyHeaders| <= |hs|
    ensures forall i :: 0 <= i < |proxyHeaders| ==> hs[i].name == proxyHeaders[i].name
    ensures Lookup(proxyHeaders, "Host").None? && Lookup(proxyHeaders, "Connection").None? ==>
      hs == proxyHeaders + [Header("Host", authority), Header("Connection", "close")]
  {
    var host, connection := "Host", "Connection";
    assert host[0] != connection[0];
    var withHost := SetProperty(proxyHeaders, host, authority);
    assert Lookup(withHost, connection) == Lookup(proxyHeaders, connection);
    var hs := SetProperty(withHost, connection, "close");
    assert Lookup(hs, host) == Lookup(withHost, host);
    hs
  }

  function RequestLine(authority: string): string
  {
    "CONNECT " + authority + " HTTP/1.1\r\n"
  }

  function HeaderLine(h: Header): string
  {
    h.name + ": " + h.value + "\r\n"
  }

  /** One `name: value` line per header, in order. */
  function HeaderBlock(hs: seq<Header>): string
  {
    if hs == [] then "" else HeaderBlock(hs[..|hs| - 1]) + HeaderLine(hs[|hs| - 1])
  }

  /** The bytes written to the upstream proxy: request line, header lines, empty line. */
  function ConnectRequest(url: string, proxyHeaders: seq<Header>): string
    requires DistinctNames(proxyHeaders)
  {
    var authority := Authority(url);
    RequestLine(authority) + HeaderBlock(TunnelHeaders(proxyHeaders, authority)) + "\r\n"
  }

  /**
   * The payload built by `createTunnel`, written with its final empty line.
   */
  method BuildConnectPayload(url: string, proxyHeaders: seq<Header>) returns (payload: string)
    requires DistinctNames(proxyHeaders)
    ensures payload == ConnectRequest(url, proxyHeaders)
  {
    var headers := proxyHeaders;
    var requestUrl := Authority(url);
    headers := SetProperty(headers, "Host", requestUrl);
    headers := SetProperty(headers, "Connection", "close");
    payload := AppendHeaderLines(RequestLine(requestUrl), headers);
    payload := payload + "\r\n";
  }

  /** The `for` loop over the header keys: one line appended per header. */
  method AppendHeaderLines(start: string, headers: seq<Header>) returns (payload: string)
    ensures payload == start + HeaderBlock(headers)
  {
    payload := start;
    for i := 0 to |headers|
      invariant payload == start + HeaderBlock(headers[..i])
    {
      assert headers[..i + 1][..i] == headers[..i];
      payload := payload + HeaderLine(headers[i]);
    }
    assert headers[..|headers|] == headers;
  }

  // ---------------------------------------------------------------------------
  // The authority
  // ---------------------------------------------------------------------------

  lemma AuthorityOfPieces(url: string, host: string, port: string)
    requires |Split(url, ':')| > 1 && Split(url, ':')[0] == host && Split(url, ':')[1] == port && port != ""
    ensures Authority(url) == host + ":" + port
  {
  }

  lemma SplitHostPort(host: string, port: string, tail: string)
    requires ':' !in host && ':' !in port
    requires tail == "" || tail[0] == ':'
    ensures var pieces := Split(host + ":" + port + tail, ':');
      |pieces| > 1 && pieces[0] == host && pieces[1] == port
  {
    if tail == "" {
      SplitWithoutSeparator(port, ':');
      SplitAtFirst(host, port, ':');
      assert host + ":" + port + tail == host + [':'] + port;
    } else {
      SplitAtFirst(port, tail[1..], ':');
      assert port + [':'] + tail[1..] == port + tail;
      SplitAtFirst(host, port + tail, ':');
      assert host + ":" + port + tail == host + [':'] + (port + tail);
    }
  }

  /** A URL with a non-empty port after its first `:` keeps host and port, whatever follows a second `:`. */
  lemma AuthorityWithPort(host: string, port: string, tail: string)
    requires ':' !in host && ':' !in port && port != ""
    requires tail == "" || tail[0] == ':'
    ensures Authority(host + ":" + port + tail) == host + ":" + port
  {
    SplitHostPort(host, port, tail);
    AuthorityOfPieces(host + ":" + port + tail, host, port);
  }

  /** A URL without `:` gets port 80. */
  lemma AuthorityWithoutPort(host: string)
    requires ':' !in host
    ensures Authority(host) == host + ":80"
  {
    SplitWithoutSeparator(host, ':');
  }

  /** A URL whose port piece is empty gets port 80, whatever follows a second `:`. */
  lemma AuthorityEmptyPort(host: string, tail: string)
    requires ':' !in host
    requires tail == "" || tail[0] == ':'
    ensures Authority(host + ":" + tail) == host + ":80"
  {
    SplitAtFirst(host, tail, ':');
    assert host + ":" + tail == host + [':'] + tail;
    if tail != "" {
      SplitAtFirst("", tail[1..], ':');
      assert "" + [':'] + tail[1..] == tail;
    }
    assert Split(tail, ':')[0] == "";
  }

  // ---------------------------------------------------------------------------
  // The payload
  // ---------------------------------------------------------------------------

  lemma {:induction false} HeaderBlockAppend(a: seq<Header>, b: seq<Header>)
    ensures HeaderBlock(a + b) == HeaderBlock(a) + HeaderBlock(b)
    decreases |b|
  {
    if b != [] {
      var last := b[|b| - 1];
      assert (a + b)[..|a + b| - 1] == a + b[..|b| - 1];
      HeaderBlockAppend(a, b[..|b| - 1]);
    } else {
      assert a + b == a;
    }
  }

  /** Each header's line sits in the block after the lines of the headers before it. */
  lemma HeaderLineInBlock(hs: seq<Header>, i: nat)
    requires i < |hs|
    ensures OccursAt(HeaderBlock(hs), HeaderLine(hs[i]), |HeaderBlock(hs[..i])|)
  {
    assert hs == hs[..i] + ([hs[i]] + hs[i + 1..]);
    HeaderBlockAppend(hs[..i], [hs[i]] + hs[i + 1..]);
    HeaderBlockAppend([hs[i]], hs[i + 1..]);
    assert [hs[i]][..0] == [];
    assert HeaderBlock([hs[i]]) == HeaderLine(hs[i]);
  }

  /** A line `name: value` the forced headers contain appears in the payload. */
  lemma {:induction false} ForcedLineInPayload(url: string, proxyHeaders: seq<Header>, name: string, value: string)
    requires DistinctNames(proxyHeaders)
    requires Lookup(TunnelHeaders(proxyHeaders, Authority(url)), name) == Some(value)
    ensures exists k :: OccursAt(ConnectRequest(url, proxyHeaders), HeaderLine(Header(name, value)), k)
  {
    var authority := Authority(url);
    var hs := TunnelHeaders(proxyHeaders, authority);
    LookupFound(hs, name, value);
    var i :| 0 <= i < |hs| && hs[i] == Header(name, value);
    HeaderLineInBlock(hs, i);
    OccursInside(RequestLine(authority), HeaderBlock(hs), "\r\n", HeaderLine(hs[i]), |HeaderBlock(hs[..i])|);
    assert ConnectRequest(url, proxyHeaders) == RequestLine(authority) + HeaderBlock(hs) + "\r\n";
  }

  lemma HeaderBlockEndsWithLineBreak(hs: seq<Header>)
    requires hs != []
    ensures EndsWith(HeaderBlock(hs), "\r\n")
  {
    var last := hs[|hs| - 1];
    var front := HeaderBlock(hs[..|hs| - 1]) + last.name + ": " + last.value;
    assert HeaderBlock(hs) == front + "\r\n";
  }

  lemma FramedBy(line: string, block: string)
    requires EndsWith(block, "\r\n")
    ensures StartsWith(line + block + "\r\n", line)
    ensures EndsWith(line + block + "\r\n", "\r\n\r\n")
  {
    var s := line + block + "\r\n";
    assert s[..|line|] == line;
    assert s[|s| - 4..] == block[|block| - 2..] + "\r\n";
  }

  /**
   * The payload starts with the request line `CONNECT <authority> HTTP/1.1`
   * and ends with an empty line.
   */
  lemma ConnectRequestFrame(url: string, proxyHeaders: seq<Header>)
    requires DistinctNames(proxyHeaders)
    ensures StartsWith(ConnectRequest(url, proxyHeaders), "CONNECT " + Authority(url) + " HTTP/1.1\r\n")
    ensures EndsWith(ConnectRequest(url, proxyHeaders), "\r\n\r\n")
  {
    var authority := Authority(url);
    var hs := TunnelHeaders(proxyHeaders, authority);
    assert hs != [];
    HeaderBlockEndsWithLineBreak(hs);
    FramedBy(RequestLine(authority), HeaderBlock(hs));
  }

  /** The payload contains the header lines `Host: <authority>` and `Connection: close`. */
  lemma ConnectRequestForcedLines(url: string, proxyHeaders: seq<Header>)
    requires DistinctNames(proxyHeaders)
    ensures exists k :: OccursAt(ConnectRequest(url, proxyHeaders), HeaderLine(Header("Host", Authority(url))), k)
    ensures exists k :: OccursAt(ConnectRequest(url, proxyHeaders), HeaderLine(Header("Connection", "close")), k)
  {
    var authority := Authority(url);
    ForcedLineInPayload(url, proxyHeaders, "Host", authority);
    ForcedLineInPayload(url, proxyHeaders, "Connection", "close");
  }

  // ---------------------------------------------------------------------------
  // The tunnel gate
  // ---------------------------------------------------------------------------

  /** `statusCode === 200 && tlsSocket`: the socket goes on only for status 200. */
  function TunnelGate(statusCode: Option<nat>, socket: Socket): (r: Option<Socket>)
    ensures r.Some? <==> statusCode == Some(200)
    ensures r.Some? ==> r.value == socket
  {
    if statusCode == Some(200) then Some(socket) else None
  }

  /** However the proxy's answer was split into chunks, the gate decides the same way. */
  lemma GateIgnoresChunking(chunks1: seq<seq<Byte>>, chunks2: seq<seq<Byte>>, socket: Socket)
    requires Flatten(chunks1) == Flatten(chunks2)
    requires HasEndOfHeaders(Flatten(chunks1))
    ensures Deliver([], chunks1).Some? && Deliver([], chunks2).Some?
    ensures TunnelGate(Deliver([], chunks1).value.statusCode, socket)
         == TunnelGate(Deliver([], chunks2).value.statusCode, socket)
  {
    SameStatusForAnySplit(chunks1, chunks2);
  }
}
