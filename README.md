# proxy-chain forward handler, modelled in Dafny

This project models `HandlerForward` from proxy-chain: the handler that
forwards a client's plain-HTTP request either directly to the target or
through an upstream proxy. It covers four things:

- **The CONNECT handshake** (`createTunnel`). The handler builds the
  `CONNECT host:port HTTP/1.1` request for the upstream proxy. The request
  carries the configured proxy headers, with `Host` forced to the authority
  and `Connection` to `close`.
- **The answer parser** (`parseProxyResponse`). It buffers the proxy's answer
  chunk by chunk until the header block ends with an empty line, then reports
  two things: the status code read from the first line, and every byte
  buffered so far. Only status 200 hands the tunnel socket on.
- **The outbound request** (`forwardRequest`). The handler filters the
  client's raw header pairs:
  - a `Connection: keep-alive` pair is kept unconditionally;
  - hop-by-hop and invalid pairs are dropped;
  - only the first surviving `Host` is kept.

  It then addresses the request either to the target or, when an upstream
  proxy is configured, to the proxy, with the client's URL as the path.
- **The target's response** (`onTrgResponse`, `onTrgError`). A response with
  a status code outside 100..999 fails with 500. The upstream proxy's 407
  challenge is recorded as an authentication failure, and nothing is
  written. Any other response has its status code and filtered headers
  written to the client. Once the handler is closed, both events are
  ignored.

The modules follow the handler's structure:

| module | contents |
|---|---|
| `Wrappers` | `Option` |
| `Text` | JavaScript string semantics the handler relies on: `split` on one character, `/^literal$/i`, unary `+` on a token, `indexOf` |
| `Http` | header pairs, the header-policy helpers, insertion-ordered header objects, `rawHeaders` pairing |
| `Tunnel` | authority, CONNECT payload, tunnel gate |
| `ResponseParser` | the parser as a class over its buffer list, and what it reports for any chunking of a stream |
| `Forward` | request-header filter and next-hop addressing |
| `Relay` | response-header filter, the status-code range, and what `onTrgResponse` decides |
| `Handler` | the `HandlerForward` class, whose fields change as the events arrive |

Each loop of the source is a method proved against a recursive function:

| loop | method | proved against |
|---|---|---|
| the payload loop | `Tunnel.AppendHeaderLines` | `HeaderBlock` |
| the `read`/`ondata` cycle | `ResponseParser.ReadUntilHeaders` | `Deliver` |
| the request-header loop | `Forward.FilterRequestHeaders` | `RequestFilter` |
| the response-header loop | `Relay.FilterResponseHeaders` | `ResponseFilter` |

The lemmas state what those functions promise.

The handler imports four helpers from its `tools` module: `isHopByHopHeader`,
`isInvalidHeader`, `addHeader` and `maybeAddProxyAuthorizationHeader`. Three
of them are left uninterpreted: `isHopByHopHeader`, `isInvalidHeader` and
`maybeAddProxyAuthorizationHeader` are function fields of `Http.HeaderPolicy`,
so every property below holds whatever those helpers decide. `addHeader` is
modelled as an append. The hop-by-hop notion itself is defined in section
7.6.1 of RFC 9110.

The request URL may be in absolute form. There, the authority split at line
30 keeps the URL whole: `http://example.com/` has the pieces `http` and
`//example.com/`, and `AuthorityWithPort` gives the authority
`http://example.com/`.

## Model

| member | source | states |
|---|---|---|
| Text.Split | src/handler_forward.js:30 | `split` on one character: at least one piece, no piece contains the separator, and joining the pieces with the separator gives back the input |
| Text.SplitJoin | src/handler_forward.js:30 | splitting pieces that were joined with the separator gives back exactly those pieces |
| Text.ToNumber | src/handler_forward.js:105 | unary `+` on a token: a number exactly when the token is a non-empty run of decimal digits, and then one with no more digits than the token |
| Text.LeadingZero | src/handler_forward.js:105 | a leading zero does not change what unary `+` gives, so `0200` reads as 200 |
| Text.DigitsRoundTrip | src/handler_forward.js:105 | unary `+` on the decimal digits of a number gives that number back |
| Text.CaseVariants | src/handler_forward.js:141-148 | a `/^literal$/i` test (lines 141 and 148) on a lower-case literal accepts exactly the strings of the same length whose every character is that letter in lower or upper case |
| Text.IndexFrom | src/handler_forward.js:91 | `indexOf`: -1 when the pattern occurs nowhere, otherwise an occurrence before which there is none |
| Text.IndexOfExtended | src/handler_forward.js:90-91 | appending bytes to the buffer never moves the first occurrence of a pattern that is already there |
| Http.Pairs | src/handler_forward.js:137-139 | the raw header array read two entries at a time gives half as many pairs |
| Http.SetProperty | src/handler_forward.js:34-36 | assigning a property of a header object: the key maps to the new value, every other key is unchanged, an existing key keeps its position, a new key goes last, and no key appears twice |
| ResponseParser.FlattenAppend | src/handler_forward.js:87-90 | concatenating the buffers after a push is the old concatenation followed by the new chunk |
| ResponseParser.AsciiDecode | src/handler_forward.js:100-104 | `ascii` decoding keeps the length, yields only 7-bit characters, and maps every 7-bit byte to the character with that code |
| ResponseParser.StatusCodeOf | src/handler_forward.js:105 | a status is read only from a first line that contains a space, since the code is its second space-separated token |
| ResponseParser.FirstLineWithinHeaders | src/handler_forward.js:100-104 | once the empty line is buffered, the first line break exists and lies no later than it, so the first line is well defined |
| ResponseParser.Parser.constructor | src/handler_forward.js:56-57 | a fresh parser holds no chunks, a total length of 0, and is still waiting |
| ResponseParser.Parser.OnData | src/handler_forward.js:86-111 | the chunk is appended to the buffer list and the length counter keeps matching it; the result is nothing while the empty line is missing, otherwise the status code of the first line together with the whole buffer |
| ResponseParser.ReadUntilHeaders | src/handler_forward.js:59-63 | feeding a stream's chunks one by one to a fresh parser until it reports yields exactly the `Deliver` result of the stream |
| ResponseParser.StatusOfStatusLine | src/handler_forward.js:105 | the status code of a status line `<version> <code> <reason>`, with or without the reason phrase, is the numeric value of its second space-separated token `<code>` (section 4 of RFC 9112) |
| ResponseParser.StatusStable | src/handler_forward.js:100-105 | bytes arriving after the empty line change neither the fact that it was found nor the status code |
| ResponseParser.WaitsForEndOfHeaders | src/handler_forward.js:93-98 | as long as the concatenated chunks lack the empty line, nothing is reported |
| ResponseParser.ReportsAtCompletingChunk | src/handler_forward.js:90-110 | the chunk that completes the empty line makes the parser report the concatenation of all chunks so far, including bytes after the empty line |
| ResponseParser.ReportedStatusIsStreamStatus | src/handler_forward.js:86-110 | whatever the chunking, once the chunks contain the empty line a report is made, and its status code is that of the whole stream |
| ResponseParser.SameStatusForAnySplit | src/handler_forward.js:86-110 | two chunkings of the same stream give the same status code |
| ResponseParser.BytewiseStopsAtEndOfHeaders | src/handler_forward.js:86-110 | fed one byte at a time, the parser reports exactly the bytes up to and including the empty line |
| ResponseParser.SingleChunkKeepsTrailingBytes | src/handler_forward.js:107-110 | a stream delivered in one chunk is reported whole, trailing bytes included |
| Tunnel.BuildConnectPayload | src/handler_forward.js:29-43 | the bytes written to the upstream proxy are the request line, one line per header of the forced header object in its key order, and the empty line |
| Tunnel.AppendHeaderLines | src/handler_forward.js:37-39 | the key loop appends one `name: value` line per header, in order |
| Tunnel.Authority | src/handler_forward.js:30-31 | the authority is the URL's first `:`-piece, a `:`, and a port that is either the second piece or 80; neither part contains `:` |
| Tunnel.AuthorityWithPort | src/handler_forward.js:30-31 | a URL with a non-empty port after its first `:` gives `host:port`, whatever follows a second `:` |
| Tunnel.AuthorityWithoutPort | src/handler_forward.js:30-31 | a URL without `:` gets port 80 |
| Tunnel.AuthorityEmptyPort | src/handler_forward.js:30-31 | a URL whose port piece is empty gets port 80 |
| Tunnel.TunnelHeaders | src/handler_forward.js:29-36 | `Host` is the authority and `Connection` is `close` whatever the proxy headers said; every other key keeps its value; the proxy header keys keep their order; no key appears twice; when the proxy headers hold neither key, `Host` and then `Connection` are appended after them |
| Tunnel.ForcedLineInPayload | src/handler_forward.js:34-43 | every key/value pair of the forced header object appears as a `name: value` line in the payload |
| Tunnel.ConnectRequestFrame | src/handler_forward.js:31-43 | the payload starts with `CONNECT <authority> HTTP/1.1` and ends with an empty line |
| Tunnel.ConnectRequestForcedLines | src/handler_forward.js:34-38 | the payload contains the lines `Host: <authority>` and `Connection: close` |
| Tunnel.TunnelGate | src/handler_forward.js:45-47 | the tunnel socket is handed on exactly when the status code is 200 |
| Tunnel.GateIgnoresChunking | src/handler_forward.js:45-47 | however the proxy's answer is split into chunks, the gate decides the same way |
| Forward.IsKeepAlive | src/handler_forward.js:141 | `/^connection$/i` on the name and `/^keep-alive$/i` on the value: each matches exactly when it has the literal's length and each character is the literal's letter in either case |
| Forward.IsHostName | src/handler_forward.js:148 | `/^host$/i`: exactly the four-character names spelling `host` in any mix of cases |
| Forward.FilterRequestHeaders | src/handler_forward.js:135-173 | the header loop with its `hostHeaderFound` flag forwards exactly the pairs `RequestFilter` selects |
| Forward.PrepareRequest | src/handler_forward.js:121-214 | the outbound request: the method is the client's; the connection is the tunnel socket when given; the headers are the filtered pairs; without an upstream proxy the target address and path are unchanged; with one, host and hostname are the proxy's hostname, the port is the proxy's port, the path is the client's URL, and the proxy-authorization step is applied to the filtered headers |
| Forward.RequestFilterSubsequence | src/handler_forward.js:137-173 | the forwarded pairs are client pairs, in client order |
| Forward.OnlyAllowedPairsForwarded | src/handler_forward.js:141-147 | only a keep-alive pair or a pair passing both checks is forwarded |
| Forward.AllowedPairsForwarded | src/handler_forward.js:141-172 | `Connection: keep-alive` in any case is always forwarded, even when the checks reject it; every other passing pair that is not `Host` is forwarded |
| Forward.FirstForwardableHost | src/handler_forward.js:148-152 | the position of the first `Host` pair passing both checks: every pair before it is not such a pair, and -1 means none is |
| Forward.HostDedup | src/handler_forward.js:148-153 | the forwarded pairs named `Host` are exactly the first `Host` pair that passes both checks, or none if there is no such pair or a `Host` was already forwarded |
| Forward.RequestFilterCounts | src/handler_forward.js:141-172 | every pair not named `Host` is forwarded as many times as the client sent it when it is keep-alive or passes both checks, and not at all otherwise |
| Relay.ValidStatus | src/handler_forward.js:248-251 | the range 100..999 that `writeHead` accepts is exactly the status codes with three decimal digits |
| Relay.FilterResponseHeaders | src/handler_forward.js:234-243 | the response-header loop keeps exactly the pairs `ResponseFilter` selects |
| Relay.ResponseFilterExact | src/handler_forward.js:235-243 | the relayed headers are response pairs in response order; a pair is relayed if and only if it passes both checks; keep-alive gets no exception and `Host` is not de-duplicated |
| Relay.ResponseFilterCounts | src/handler_forward.js:235-243 | every response pair is relayed as many times as it occurs when it passes both checks, and not at all otherwise |
| Relay.DecideResponse | src/handler_forward.js:227-259 | the four outcomes in the handler's order: ignored exactly when closed, the upstream 407 exactly when open and flagged, a 500 failure exactly when the status is outside 100..999, and otherwise the same status with exactly the `ResponseFilter` headers: the response pairs that pass both checks, in order, each as often as it occurs |
| Handler.HandlerForward.constructor | src/handler_forward.js:13-17 | a new handler is open, has no response, no outbound request, no failure and no written head |
| Handler.HandlerForward.Close | src/handler_forward.js:255-256 | closing sets `isClosed` and changes nothing else the handler tracks |
| Handler.HandlerForward.CreateTunnel | src/handler_forward.js:19-48 | writes exactly the CONNECT payload. Once the proxy's answer is complete it forwards the request, with the tunnel socket only for status 200. While the answer is incomplete it forwards nothing. Response and failure state are unchanged |
| Handler.HandlerForward.ForwardRequest | src/handler_forward.js:121-225 | records the outbound request that `PrepareRequest` specifies for the given socket and changes nothing else |
| Handler.HandlerForward.OnTrgResponse | src/handler_forward.js:227-261 | carries out `DecideResponse` and keeps the invariant that a head is written exactly when the client got a response, and only with a status in 100..999. The four outcomes are below this table |
| Handler.HandlerForward.OnTrgError | src/handler_forward.js:263-267 | once closed nothing changes; otherwise the error is recorded as the failure and nothing else changes |

`Handler.HandlerForward.OnTrgResponse` distinguishes four outcomes:

- When the handler is closed, nothing changes.
- When the response is the upstream proxy's 407 challenge, the recorded
  failure is `UpstreamAuthRequired`, and nothing else changes.
- A status below 100 or above 999 records a 500 failure. No head is
  written, and `srcGotResponse` keeps its value.
- Any other status sets `srcGotResponse`. The head written is the same
  status with the filtered response headers.

## Left out

- I/O is not modelled: `tls.connect`, `socket.write`, `socket.read` and its
  `readable` re-arming, `http.request`, the event listeners, and both
  `pipe` calls. Sockets are values. The proxy's answer is the sequence of
  chunks that `read()` returns, and the handler's observable effects are
  fields of `Handler.HandlerForward`: the request made, the failure passed
  to `fail`, and the head written.
- Logging (`this.log`, `console.log`) is not modelled.
- Three of the four `tools` helpers (`isHopByHopHeader`, `isInvalidHeader`,
  `maybeAddProxyAuthorizationHeader`) are left uninterpreted.
- `addHeader` is modelled as an append. Its handling of a name that repeats
  is not part of this model.
- `HandlerBase` is not part of this model:
  - `fail` only records its argument;
  - `checkUpstreamProxy407` is a boolean input of `OnTrgResponse`;
  - `close` only sets `isClosed`;
  - `bindHandlersToThis` is left out.
- `onTrgSocket` is not modelled.
- The parser's `error`, `close` and `end` listeners and the promise
  rejection are left out. A stream whose chunks run out before the empty
  line leaves the request unsent.
- `ResponseParser.StatusCodeOf`: unary `+` is modelled only for a non-empty
  token of decimal digits; every other token gives no status. JavaScript
  also converts tokens such as `""` (to 0), `"2e2"`, `"200.0"`, `"0xc8"` and
  tab-padded digits. The last four give 200 there, so on such first lines
  the model's gate refuses a tunnel that the source would accept.
- `ResponseParser.AsciiDecode`: Node's `ascii` decoding is modelled as
  clearing each byte's high bit.
- `Handler.HandlerForward.OnTrgResponse:` the upstream proxy's 407 is a
  boolean input. When it is set, the model records that the base handler
  reported the `UpstreamAuthRequired` failure. How `checkUpstreamProxy407`
  recognises the challenge and what it writes to the client are not part
  of this model.
- `Handler.HandlerForward.OnTrgResponse`: the second `isClosed` check
  (line 257) is left out. Nothing between line 228 and line 257 can close
  the handler in a sequential model, so that check never fires.
- The text of the `RequestError` message is left out; only its status 500
  is kept.
- `Handler.HandlerForward.CreateTunnel` requires an upstream proxy.
  `run()` always calls `createTunnel`, and `createTunnel` reads the proxy's
  hostname. The direct path (no proxy) is modelled by `ForwardRequest` and
  `PrepareRequest`.
- `Forward.PrepareRequest` returns a fresh record. The source instead
  mutates `trgParsed` in place, which aliases the parsed target URL.
- `Http.Pairs`: Node's `rawHeaders` always has even length, so the
  header-loop methods require it.
- Key order of header objects is plain insertion order. JavaScript lists
  integer-like keys first, which header names never are in practice.
- The commented-out `X-Forwarded-For`, `Via` and agent code is not part of
  the source's behaviour and is not modelled.
