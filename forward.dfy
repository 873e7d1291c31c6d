/**
 * The request sent to the next hop: the source request's headers filtered
 * pair by pair (hop-by-hop headers are dropped, section 7.6.1 of RFC 9110,
 * except `Connection: keep-alive`; invalid pairs are dropped; only the first
 * `Host` survives), and the request addressed either to the target or, with
 * an upstream proxy, to the proxy with the full URL as path.
 */
module Forward {
  import opened Wrappers
  import opened Text
  import opened Http

  /** The incoming request as the handler reads it. */
  datatype SourceRequest = SourceRequest(httpMethod: string, url: string, rawHeaders: seq<string>)

  /** The parsed target URL: the parts the handler may overwrite. */
  datatype TargetOptions = TargetOptions(host: string, hostname: string, port: string, path: string)

  /** The options handed to `http.request`. */
  datatype OutboundRequest = OutboundRequest(
    httpMethod: string,
    headers: seq<Header>,
    host: string,
    hostname: string,
    port: string,
    path: string,
    createConnection: Option<Socket>)

  /** `Connection: keep-alive`, both sides compared without regard to case. */
  predicate IsKeepAlive(h: Header)
    ensures IsKeepAlive(h) <==>
      && |h.name| == |"connection"| && (forall i :: 0 <= i < |h.name| ==> CaseVariant(h.name[i], "connection"[i]))
      && |h.value| == |"keep-alive"| && (forall i :: 0 <= i < |h.value| ==> CaseVariant(h.value[i], "keep-alive"[i]))
  {
    CaseVariants(h.name, "connection");
    CaseVariants(h.value, "keep-alive");
    EqualsIgnoreCase(h.name, "connection") && EqualsIgnoreCase(h.value, "keep-alive")
  }

  /** `/^host$/i`: the name `Host` in any case. */
  predicate IsHostName(name: string)
    ensures IsHostName(name) <==>
      |name| == |"host"| && forall i :: 0 <= i < |name| ==> CaseVariant(name[i], "host"[i])
  {
    CaseVariants(name, "host");
    EqualsIgnoreCase(name, "host")
  }

  /** A `Host` pair that the hop-by-hop and invalid-header checks let through. */
  predicate ForwardableHost(policy: HeaderPolicy, h: Header)
  {
    IsHostName(h.name) && PassesChecks(policy, h)
  }

  /**
   * The pairs forwarded from `hs`, given whether a `Host` pair has been
   * forwarded already: keep-alive is kept before any check, then hop-by-hop
   * and invalid pairs are dropped, then a `Host` after the first is dropped.
   */
  function RequestFilter(policy: HeaderPolicy, hs: seq<Header>, hostFound: bool): seq<Header>
  {
    if hs == [] then []
    else
      var h := hs[0];
      if IsKeepAlive(h) then [h] + RequestFilter(policy, hs[1..], hostFound)
      else if policy.isHopByHopHeader(h.name) then RequestFilter(policy, hs[1..], hostFound)
      else if policy.isInvalidHeader(h.name, h.value) then RequestFilter(policy, hs[1..], hostFound)
      else if IsHostName(h.name) then
        if hostFound then RequestFilter(policy, hs[1..], true)
        else [h] + RequestFilter(policy, hs[1..], true)
      else [h] + RequestFilter(policy, hs[1..], hostFound)
  }

  /** What the handler promises about the request it sends to the next hop. */
  predicate IsNextHop(r: OutboundRequest, policy: HeaderPolicy, src: SourceRequest, trg: TargetOptions,
                      proxy: Option<ProxyUrl>, socket: Option<Socket>)
  {
    var forwarded := RequestFilter(policy, Pairs(src.rawHeaders), false);
    && r.httpMethod == src.httpMethod
    && r.createConnection == socket
    && (proxy.None? ==>
          && r.headers == forwarded
          && r.host == trg.host && r.hostname == trg.hostname
          && r.port == trg.port && r.path == trg.path)
    && (proxy.Some? ==>
          && r.headers == policy.maybeAddProxyAuthorizationHeader(proxy.value, forwarded)
          && r.host == proxy.value.hostname && r.hostname == proxy.value.hostname
          && r.port == proxy.value.port && r.path == src.url)
  }

  /** One step of the filter: how the pair `name: value` at position `k` is treated. */
  lemma RequestFilterStep(policy: HeaderPolicy, pairs: seq<Header>, k: nat, found: bool, name: string, value: string)
    requires k < |pairs| && pairs[k] == Header(name, value)
    ensures var later := pairs[k + 1..];
      RequestFilter(policy, pairs[k..], found) ==
        if EqualsIgnoreCase(name, "connection") && EqualsIgnoreCase(value, "keep-alive") then
          [Header(name, value)] + RequestFilter(policy, later, found)
        else if policy.isHopByHopHeader(name) then RequestFilter(policy, later, found)
        else if policy.isInvalidHeader(name, value) then RequestFilter(policy, later, found)
        else if EqualsIgnoreCase(name, "host") then
          if found then RequestFilter(policy, later, true)
          else [Header(name, value)] + RequestFilter(policy, later, true)
        else [Header(name, value)] + RequestFilter(policy, later, found)
  {
    assert pairs[k..][0] == pairs[k];
    assert pairs[k..][1..] == pairs[k + 1..];
  }

  /** The header loop of `forwardRequest`. */
  method FilterRequestHeaders(policy: HeaderPolicy, rawHeaders: seq<string>) returns (headers: seq<Header>)
    requires |rawHeaders| % 2 == 0
    ensures headers == RequestFilter(policy, Pairs(rawHeaders), false)
  {
    headers := [];
    var hostHeaderFound := false;
    ghost var pairs := Pairs(rawHeaders);
    var i := 0;
    ghost var k := 0;
    while i < |rawHeaders|
      invariant 0 <= i <= |rawHeaders| && i == 2 * k
      invariant headers + RequestFilter(policy, pairs[k..], hostHeaderFound) == RequestFilter(policy, pairs, false)
    {
      var headerName := rawHeaders[i];
      var headerValue := rawHeaders[i + 1];
      assert pairs[k] == Header(headerName, headerValue);
      RequestFilterStep(policy, pairs, k, hostHeaderFound, headerName, headerValue);
      ghost var foundBefore := hostHeaderFound;
      if EqualsIgnoreCase(headerName, "connection") && EqualsIgnoreCase(headerValue, "keep-alive") {
      } else if policy.isHopByHopHeader(headerName) {
        i, k := i + 2, k + 1;
        continue;
      } else if policy.isInvalidHeader(headerName, headerValue) {
        i, k := i + 2, k + 1;
        continue;
      } else if EqualsIgnoreCase(headerName, "host") {
        if hostHeaderFound {
          i, k := i + 2, k + 1;
          continue;
        }
        hostHeaderFound := true;
      }
      ghost var later := RequestFilter(policy, pairs[k + 1..], hostHeaderFound);
      assert RequestFilter(policy, pairs[k..], foundBefore) == [Header(headerName, headerValue)] + later;
      assert headers + ([Header(headerName, headerValue)] + later) == (headers + [Header(headerName, headerValue)]) + later;
      headers := headers + [Header(headerName, headerValue)];
      i, k := i + 2, k + 1;
    }
    assert pairs[k..] == [];
    assert headers + [] == headers;
  }

  /**
   * `forwardRequest` up to the call of `http.request`: copy the method, filter
   * the headers, and address the next hop.
   */
  method PrepareRequest(policy: HeaderPolicy, src: SourceRequest, trg: TargetOptions,
                        proxy: Option<ProxyUrl>, socket: Option<Socket>) returns (r: OutboundRequest)
    requires |src.rawHeaders| % 2 == 0
    ensures IsNextHop(r, policy, src, trg, proxy, socket)
  {
    var headers := FilterRequestHeaders(policy, src.rawHeaders);
    var host, hostname, port, path := trg.host, trg.hostname, trg.port, trg.path;
    if proxy.Some? {
      host := proxy.value.hostname;
      hostname := host;
      port := proxy.value.port;
      path := src.url;
      headers := policy.maybeAddProxyAuthorizationHeader(proxy.value, headers);
    }
    r := OutboundRequest(src.httpMethod, headers, host, hostname, port, path, socket);
  }

  // ---------------------------------------------------------------------------
  // Properties of the request-header filter
  // ---------------------------------------------------------------------------

  /** The forwarded pairs are source pairs, in their source order. */
  lemma {:induction false} RequestFilterSubsequence(policy: HeaderPolicy, hs: seq<Header>, hostFound: bool)
    ensures IsSubsequence(RequestFilter(policy, hs, hostFound), hs)
  {
    if hs != [] {
      RequestFilterSubsequence(policy, hs[1..], hostFound);
      RequestFilterSubsequence(policy, hs[1..], true);
    }
  }

  /** Only a keep-alive pair or a pair passing both checks is forwarded. */
  lemma {:induction false} OnlyAllowedPairsForwarded(policy: HeaderPolicy, hs: seq<Header>, hostFound: bool)
    ensures forall h :: h in RequestFilter(policy, hs, hostFound) ==>
      h in hs && (IsKeepAlive(h) || PassesChecks(policy, h))
  {
    if hs != [] {
      OnlyAllowedPairsForwarded(policy, hs[1..], hostFound);
      OnlyAllowedPairsForwarded(policy, hs[1..], true);
    }
  }

  /**
   * A `Connection: keep-alive` pair is always forwarded, whatever the checks
   * say of it; any other pair passing both checks is forwarded unless it is
   * a `Host` pair.
   */
  lemma {:induction false} AllowedPairsForwarded(policy: HeaderPolicy, hs: seq<Header>, hostFound: bool)
    ensures forall h :: h in hs && (IsKeepAlive(h) || (PassesChecks(policy, h) && !IsHostName(h.name))) ==>
      h in RequestFilter(policy, hs, hostFound)
  {
    if hs != [] {
      AllowedPairsForwarded(policy, hs[1..], hostFound);
      AllowedPairsForwarded(policy, hs[1..], true);
      assert forall h :: h in hs ==> h == hs[0] || h in hs[1..];
    }
  }

  /** The pairs whose name is `Host` in any case, in order. */
  function HostPairs(hs: seq<Header>): (r: seq<Header>)
    ensures forall h :: h in r <==> h in hs && IsHostName(h.name)
  {
    if hs == [] then []
    else
      var rest := HostPairs(hs[1..]);
      assert forall h :: h in hs ==> h == hs[0] || h in hs[1..];
      if IsHostName(hs[0].name) then [hs[0]] + rest else rest
  }

  /** The position of the first `Host` pair that passes both checks, or -1. */
  function FirstForwardableHost(policy: HeaderPolicy, hs: seq<Header>): (k: int)
    ensures -1 <= k < |hs|
    ensures k != -1 ==> ForwardableHost(policy, hs[k])
    ensures forall j :: 0 <= j < |hs| && (k == -1 || j < k) ==> !ForwardableHost(policy, hs[j])
  {
    if hs == [] then -1
    else if ForwardableHost(policy, hs[0]) then 0
    else
      var k := FirstForwardableHost(policy, hs[1..]);
      assert forall j :: 0 < j < |hs| ==> hs[j] == hs[1..][j - 1];
      if k == -1 then -1 else k + 1
  }

  /**
   * At most one `Host` pair is forwarded: the first one that passes the
   * checks, and none once one has been forwarded.
   */
  lemma {:induction false} HostDedup(policy: HeaderPolicy, hs: seq<Header>, hostFound: bool)
    ensures HostPairs(RequestFilter(policy, hs, hostFound))
         == (var k := FirstForwardableHost(policy, hs); if hostFound || k == -1 then [] else [hs[k]])
  {
    if hs != [] {
      var h := hs[0];
      var tail := hs[1..];
      HostDedup(policy, tail, hostFound);
      HostDedup(policy, tail, true);
      var k := FirstForwardableHost(policy, tail);
      if IsKeepAlive(h) {
        assert |h.name| != |"host"|;
        assert ([h] + RequestFilter(policy, tail, hostFound))[1..] == RequestFilter(policy, tail, hostFound);
        if k != -1 {
          assert hs[k + 1] == tail[k];
        }
      } else if !PassesChecks(policy, h) {
        if k != -1 {
          assert hs[k + 1] == tail[k];
        }
      } else if IsHostName(h.name) {
        assert ([h] + RequestFilter(policy, tail, true))[1..] == RequestFilter(policy, tail, true);
      } else {
        assert ([h] + RequestFilter(policy, tail, hostFound))[1..] == RequestFilter(policy, tail, hostFound);
        if k != -1 {
          assert hs[k + 1] == tail[k];
        }
      }
    }
  }

  /**
   * Every pair other than `Host` is forwarded as many times as it occurs when
   * it is keep-alive or passes both checks, and never otherwise.
   */
  lemma {:induction false} RequestFilterCounts(policy: HeaderPolicy, hs: seq<Header>, hostFound: bool)
    ensures forall h: Header :: !IsHostName(h.name) ==>
      multiset(RequestFilter(policy, hs, hostFound))[h]
        == if IsKeepAlive(h) || PassesChecks(policy, h) then multiset(hs)[h] else 0
  {
    if hs != [] {
      RequestFilterCounts(policy, hs[1..], hostFound);
      RequestFilterCounts(policy, hs[1..], true);
      assert hs == [hs[0]] + hs[1..];
    }
  }
}
