/**
 * The HTTP entities the forward handler works with: header pairs, the header
 * policy helpers it imports, the upstream proxy address, sockets, and the
 * insertion-ordered header objects that JavaScript builds.
 */
module Http {
  import opened Wrappers

  datatype Header = Header(name: string, value: string)

  /** The parsed upstream proxy URL: the parts the handler reads. */
  datatype ProxyUrl = ProxyUrl(hostname: string, port: string)

  /** A connection to a host and port, as opened by `tls.connect`. */
  datatype Socket = TlsSocket(host: string, port: string)

  /**
   * The helpers the handler imports from its `tools` module, which is not
   * part of this model: the hop-by-hop and invalid-header classifiers, and
   * the step that may add a `Proxy-Authorization` header for the upstream
   * proxy. All three are left uninterpreted.
   */
  datatype HeaderPolicy = HeaderPolicy(
    isHopByHopHeader: string -> bool,
    isInvalidHeader: (string, string) -> bool,
    maybeAddProxyAuthorizationHeader: (ProxyUrl, seq<Header>) -> seq<Header>)

  /** Neither the hop-by-hop nor the invalid-header check rejects the pair. */
  predicate PassesChecks(policy: HeaderPolicy, h: Header)
  {
    !policy.isHopByHopHeader(h.name) && !policy.isInvalidHeader(h.name, h.value)
  }

  /** Node's flat `rawHeaders` array read in (name, value) steps. */
  function Pairs(rawHeaders: seq<string>): (r: seq<Header>)
    ensures |r| == |rawHeaders| / 2
  {
    seq(|rawHeaders| / 2, k requires 0 <= k < |rawHeaders| / 2 => Header(rawHeaders[2 * k], rawHeaders[2 * k + 1]))
  }

  /** `a` is `b` with some elements removed, order kept. */
  predicate IsSubsequence<T(==)>(a: seq<T>, b: seq<T>)
    decreases |b|
  {
    a == [] || (b != [] && ((a[0] == b[0] && IsSubsequence(a[1..], b[1..])) || IsSubsequence(a, b[1..])))
  }

  // ---------------------------------------------------------------------------
  // A JavaScript object used as a header dictionary: string keys in
  // insertion order, each key at most once.
  // ---------------------------------------------------------------------------

  predicate DistinctNames(hs: seq<Header>)
  {
    forall i, j :: 0 <= i < j < |hs| ==> hs[i].name != hs[j].name
  }

  /** `obj[name]`. */
  function Lookup(hs: seq<Header>, name: string): Option<string>
  {
    if hs == [] then None
    else if hs[0].name == name then Some(hs[0].value)
    else Lookup(hs[1..], name)
  }

  /**
   * `obj[name] = value`: an existing key keeps its position and takes the new
   * value; a new key goes last.
   */
  function SetProperty(hs: seq<Header>, name: string, value: string): (r: seq<Header>)
    requires DistinctNames(hs)
    ensures DistinctNames(r)
    ensures Lookup(r, name) == Some(value)
    ensures forall n :: n != name ==> Lookup(r, n) == Lookup(hs, n)
    ensures |r| == if Lookup(hs, name).Some? then |hs| else |hs| + 1
    ensures forall i :: 0 <= i < |hs| ==> r[i].name == hs[i].name
    ensures forall i :: |hs| <= i < |r| ==> r[i].name == name
    ensures Lookup(hs, name).None? ==> r == hs + [Header(name, value)]
  {
    if hs == [] then [Header(name, value)]
    else if hs[0].name == name then
      var r := [Header(name, value)] + hs[1..];
      assert forall n :: n != name ==> Lookup(r, n) == Lookup(hs[1..], n);
      r
    else
      var tail := SetProperty(hs[1..], name, value);
      var r := [hs[0]] + tail;
      assert r[1..] == tail;
      assert forall i :: 0 < i < |r| ==> r[i] == tail[i - 1];
      r
  }

  /** A key the dictionary maps is stored at some position. */
  lemma {:induction false} LookupFound(hs: seq<Header>, name: string, value: string)
    requires Lookup(hs, name) == Some(value)
    ensures exists i :: 0 <= i < |hs| && hs[i] == Header(name, value)
  {
    if hs[0].name != name {
      LookupFound(hs[1..], name, value);
      var i :| 0 <= i < |hs[1..]| && hs[1..][i] == Header(name, value);
      assert hs[i + 1] == Header(name, value);
    }
  }
}
