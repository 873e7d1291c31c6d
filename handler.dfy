/**
 * The forward handler: a request to a plain-HTTP target, sent either
 * directly or through an upstream proxy. The handler opens a CONNECT tunnel
 * to the upstream proxy, forwards the request through it when the proxy
 * answers 200, and relays the target's response head back to the client.
 */
module Handler {
  import opened Wrappers
  import opened Http
  import opened ResponseParser
  import opened Tunnel
  import opened Forward
  import opened Relay

  /** The arguments of the client response's `writeHead`. */
  datatype Head = Head(statusCode: int, headers: seq<Header>)

  class HandlerForward {
    const policy: HeaderPolicy
    const srcRequest: SourceRequest
    const trgParsed: TargetOptions
    const upstreamProxy: Option<ProxyUrl>
    const proxyHeaders: seq<Header>

    var isClosed: bool
    var srcGotResponse: bool
    var trgRequest: Option<OutboundRequest>
    /** The outcome passed to `fail`, if any. */
    var failure: Option<Failure>
    /** The head written to the client response, if any. */
    var writtenHead: Option<Head>

    /**
     * The client has got a response exactly when a head has been written,
     * and a head is written only with a status code Node accepts.
     */
    predicate Valid()
      reads this
    {
      && (srcGotResponse <==> writtenHead.Some?)
      && (writtenHead.Some? ==> ValidStatus(writtenHead.value.statusCode))
    }

    constructor (policy: HeaderPolicy, srcRequest: SourceRequest, trgParsed: TargetOptions,
                 upstreamProxy: Option<ProxyUrl>, proxyHeaders: seq<Header>)
      ensures Valid()
      ensures this.policy == policy && this.srcRequest == srcRequest && this.trgParsed == trgParsed
      ensures this.upstreamProxy == upstreamProxy && this.proxyHeaders == proxyHeaders
      ensures !isClosed && !srcGotResponse
      ensures trgRequest == None && failure == None && writtenHead == None
    {
      this.policy := policy;
      this.srcRequest := srcRequest;
      this.trgParsed := trgParsed;
      this.upstreamProxy := upstreamProxy;
      this.proxyHeaders := proxyHeaders;
      isClosed := false;
      srcGotResponse := false;
      trgRequest := None;
      failure := None;
      writtenHead := None;
    }

    /** Closing the handler, as far as this handler observes it: the flag is set. */
    method Close()
      requires Valid()
      modifies this
      ensures Valid()
      ensures isClosed
      ensures srcGotResponse == old(srcGotResponse) && trgRequest == old(trgRequest)
      ensures failure == old(failure) && writtenHead == old(writtenHead)
    {
      isClosed := true;
    }

    /**
     * `createTunnel`: write the CONNECT request to the upstream proxy, read its
     * answer chunk by chunk, and once the answer's header block is complete
     * forward the request, over the tunnel only when the status is 200.
     * While the answer is incomplete nothing else happens.
     */
    method CreateTunnel(responseChunks: seq<seq<Byte>>) returns (payload: string)
      requires Valid()
      requires upstreamProxy.Some?
      requires DistinctNames(proxyHeaders)
      requires |srcRequest.rawHeaders| % 2 == 0
      modifies this
      ensures Valid()
      ensures payload == ConnectRequest(srcRequest.url, proxyHeaders)
      ensures var reply := Deliver([], responseChunks);
        && (reply.None? ==> trgRequest == old(trgRequest))
        && (reply.Some? ==>
              var tunnel := TunnelGate(reply.value.statusCode,
                                       TlsSocket(upstreamProxy.value.hostname, upstreamProxy.value.port));
              trgRequest.Some? && IsNextHop(trgRequest.value, policy, srcRequest, trgParsed, upstreamProxy, tunnel))
      ensures isClosed == old(isClosed) && srcGotResponse == old(srcGotResponse)
      ensures failure == old(failure) && writtenHead == old(writtenHead)
    {
      var tlsSocket := TlsSocket(upstreamProxy.value.hostname, upstreamProxy.value.port);
      payload := BuildConnectPayload(srcRequest.url, proxyHeaders);
      var reply := ReadUntilHeaders(responseChunks);
      if reply.Some? {
        ForwardRequest(TunnelGate(reply.value.statusCode, tlsSocket));
      }
    }

    /** `forwardRequest`: send the filtered request to the next hop, over `socket` when there is one. */
    method ForwardRequest(socket: Option<Socket>)
      requires Valid()
      requires |srcRequest.rawHeaders| % 2 == 0
      modifies this
      ensures Valid()
      ensures trgRequest.Some? && IsNextHop(trgRequest.value, policy, srcRequest, trgParsed, upstreamProxy, socket)
      ensures isClosed == old(isClosed) && srcGotResponse == old(srcGotResponse)
      ensures failure == old(failure) && writtenHead == old(writtenHead)
    {
      var reqOpts := PrepareRequest(policy, srcRequest, trgParsed, upstreamProxy, socket);
      trgRequest := Some(reqOpts);
    }

    /**
     * `onTrgResponse`: the handler carries out `DecideResponse`. Once closed
     * nothing changes; the upstream proxy's 407 leaves the failure the base
     * handler reports; an unwritable status fails with 500 and writes no head;
     * otherwise the client gets the target's status code and its filtered headers.
     */
    method OnTrgResponse(response: TargetResponse, upstreamProxy407: bool)
      requires Valid()
      requires |response.rawHeaders| % 2 == 0
      modifies this
      ensures Valid()
      ensures isClosed == old(isClosed) && trgRequest == old(trgRequest)
      ensures var action := DecideResponse(policy, old(isClosed), upstreamProxy407, response);
        match action
        case Ignore =>
          srcGotResponse == old(srcGotResponse) && failure == old(failure) && writtenHead == old(writtenHead)
        case AuthChallenge =>
          && failure == Some(UpstreamAuthRequired)
          && srcGotResponse == old(srcGotResponse) && writtenHead == old(writtenHead)
        case Fail(f) =>
          failure == Some(f) && srcGotResponse == old(srcGotResponse) && writtenHead == old(writtenHead)
        case WriteHead(statusCode, headers) =>
          srcGotResponse && writtenHead == Some(Head(statusCode, headers)) && failure == old(failure)
    {
      if isClosed {
        return;
      }
      if upstreamProxy407 {
        failure := Some(UpstreamAuthRequired);
        return;
      }
      var headers := FilterResponseHeaders(policy, response.rawHeaders);
      if response.statusCode < 100 || response.statusCode > 999 {
        failure := Some(RequestError(InvalidStatusFailure));
        return;
      }
      srcGotResponse := true;
      writtenHead := Some(Head(response.statusCode, headers));
    }

    /** `onTrgError`: ignored once closed, otherwise the error is passed to `fail`. */
    method OnTrgError(err: string)
      requires Valid()
      modifies this
      ensures Valid()
      ensures isClosed == old(isClosed) && srcGotResponse == old(srcGotResponse)
      ensures trgRequest == old(trgRequest) && writtenHead == old(writtenHead)
      ensures failure == if old(isClosed) then old(failure) else Some(TargetSocketError(err))
    {
      if isClosed {
        return;
      }
      failure := Some(TargetSocketError(err));
    }
  }
}
