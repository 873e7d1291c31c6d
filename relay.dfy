/**
 * The target's response on its way back to the client: its headers filtered
 * pair by pair (hop-by-hop and invalid pairs are dropped, with no exception
 * for keep-alive and no special treatment of `Host`), and the range check on
 * its status code that guards `writeHead`.
 */
module Relay {
  import opened Http
  import opened Text

  /** The target's response as the handler reads it. */
  datatype TargetResponse = TargetResponse(statusCode: int, rawHeaders: seq<string>)

  /** What `fail` is given. */
  datatype Failure =
    | RequestError(statusCode: nat)   // a failure the client should see as this HTTP status
    | TargetSocketError(err: string)  // the error the target request emitted
    | UpstreamAuthRequired            // the upstream proxy's 407, as the base handler reports it

  /** The status a failing response gets when the target's status is out of range. */
  const InvalidStatusFailure := 500

  /** Node's `writeHead` accepts only three-digit status codes. */
  predicate ValidStatus(statusCode: int)
    ensures ValidStatus(statusCode) <==> statusCode >= 0 && |Digits(statusCode)| == 3
  {
    if statusCode < 0 then false
    else
      DigitsLength(statusCode);
      100 <= statusCode <= 999
  }

  /** The response pairs that pass both checks, in order. */
  function ResponseFilter(policy: HeaderPolicy, hs: seq<Header>): seq<Header>
  {
    if hs == [] then []
    else if policy.isHopByHopHeader(hs[0].name) then ResponseFilter(policy, hs[1..])
    else if policy.isInvalidHeader(hs[0].name, hs[0].value) then ResponseFilter(policy, hs[1..])
    else [hs[0]] + ResponseFilter(policy, hs[1..])
  }

  /** The header loop of `onTrgResponse`. */
  method FilterResponseHeaders(policy: HeaderPolicy, rawHeaders: seq<string>) returns (headers: seq<Header>)
    requires |rawHeaders| % 2 == 0
    ensures headers == ResponseFilter(policy, Pairs(rawHeaders))
  {
    ghost var pairs := Pairs(rawHeaders);
    headers := [];
    var i := 0;
    ghost var k := 0;
    while i < |rawHeaders|
      invariant 0 <= i <= |rawHeaders| && i == 2 * k
      invariant headers + ResponseFilter(policy, pairs[k..]) == ResponseFilter(policy, pairs)
    {
      var name := rawHeaders[i];
      var value := rawHeaders[i + 1];
      ghost var rest := pairs[k..];
      assert rest[0] == Header(name, value);
      assert rest[1..] == pairs[k + 1..];
      if policy.isHopByHopHeader(name) {
        i, k := i + 2, k + 1;
        continue;
      }
      if policy.isInvalidHeader(name, value) {
        i, k := i + 2, k + 1;
        continue;
      }
      ghost var later := ResponseFilter(policy, pairs[k + 1..]);
      assert ResponseFilter(policy, rest) == [rest[0]] + later;
      assert headers + ([rest[0]] + later) == (headers + [rest[0]]) + later;
      headers := headers + [Header(name, value)];
      i, k := i + 2, k + 1;
    }
    assert pairs[k..] == [];
    assert headers == ResponseFilter(policy, pairs);
  }

  /**
   * The relayed headers are exactly the response pairs that pass both
   * checks, in their order: a keep-alive pair that fails a check is dropped,
   * and every passing `Host` pair is kept.
   */
  lemma {:induction false} ResponseFilterExact(policy: HeaderPolicy, hs: seq<Header>)
    ensures IsSubsequence(ResponseFilter(policy, hs), hs)
    ensures forall h :: h in ResponseFilter(policy, hs) <==> h in hs && PassesChecks(policy, h)
  {
    if hs != [] {
      ResponseFilterExact(policy, hs[1..]);
      assert forall h :: h in hs ==> h == hs[0] || h in hs[1..];
    }
  }

  /** Each response pair is relayed as many times as it occurs when it passes both checks, and never otherwise. */
  lemma {:induction false} ResponseFilterCounts(policy: HeaderPolicy, hs: seq<Header>)
    ensures forall h: Header ::
      multiset(ResponseFilter(policy, hs))[h] == if PassesChecks(policy, h) then multiset(hs)[h] else 0
  {
    if hs != [] {
      ResponseFilterCounts(policy, hs[1..]);
      assert hs == [hs[0]] + hs[1..];
    }
  }

  /** What `onTrgResponse` does with a response. */
  datatype ResponseAction =
    | Ignore                                          // the handler is closed
    | AuthChallenge                                   // the base handler took it as the upstream proxy's 407
    | Fail(failure: Failure)                          // the status code cannot be written
    | WriteHead(statusCode: int, headers: seq<Header>) // relay the status and the filtered headers

  /**
   * The decision `onTrgResponse` takes, in its order: a closed handler
   * ignores the response, an upstream 407 is answered by the base handler,
   * a status outside 100..999 fails with 500, and any other response has its
   * status code and its passing header pairs relayed.
   */
  function DecideResponse(policy: HeaderPolicy, isClosed: bool, upstreamProxy407: bool,
                          response: TargetResponse): (a: ResponseAction)
    requires |response.rawHeaders| % 2 == 0
    ensures a.Ignore? <==> isClosed
    ensures a.AuthChallenge? <==> !isClosed && upstreamProxy407
    ensures a.Fail? <==> !isClosed && !upstreamProxy407 && !ValidStatus(response.statusCode)
    ensures a.Fail? ==> a.failure == RequestError(InvalidStatusFailure)
    ensures a.WriteHead? ==>
      && a.statusCode == response.statusCode && ValidStatus(a.statusCode)
      && a.headers == ResponseFilter(policy, Pairs(response.rawHeaders))
      && IsSubsequence(a.headers, Pairs(response.rawHeaders))
      && forall h :: h in a.headers <==> h in Pairs(response.rawHeaders) && PassesChecks(policy, h)
  {
    if isClosed then Ignore
    else if upstreamProxy407 then AuthChallenge
    else if response.statusCode < 100 || response.statusCode > 999 then Fail(RequestError(InvalidStatusFailure))
    else
      ResponseFilterExact(policy, Pairs(response.rawHeaders));
      WriteHead(response.statusCode, ResponseFilter(policy, Pairs(response.rawHeaders)))
  }
}
