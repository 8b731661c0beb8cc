/**
 * Request routing of a node that picks each key's owner by rendezvous
 * (highest random weight) hashing over the cluster URLs the circuit breaker
 * does not report ill, and either proxies the request there or serves it.
 */
module Rendezvous {
  import opened JavaLang
  import opened Http
  import opened HttpUtils

  /** The weight of `url` for `key`: `Hash.murmur3(nodeUrl + key)`. */
  function Score(murmur3: string -> Int32, url: string, key: string): Int32 {
    murmur3(url + key)
  }

  /**
   * The accumulators `(hashVal, cluster)` of `getClusterByRendezvousHashing`
   * after the loop has visited `urls[..n]`, with the chosen URL given by its
   * index (-1 for null). A URL replaces the current choice only with a
   * strictly greater weight.
   */
  function Scan(urls: seq<string>, key: string, murmur3: string -> Int32, isIll: string -> bool, n: nat): (s: (int, int))
    requires n <= |urls|
    ensures -1 <= s.1 < n
    decreases n
  {
    if n == 0 then (LONG_MIN, -1)
    else
      var (hashVal, cluster) := Scan(urls, key, murmur3, isIll, n - 1);
      var url := urls[n - 1];
      if isIll(url) then (hashVal, cluster)
      else
        var tmpHash := Score(murmur3, url, key);
        if tmpHash > hashVal then (tmpHash, n - 1) else (hashVal, cluster)
  }

  /**
   * Index `w` of `urls` wins for `key`: its URL is not ill, no healthy URL
   * weighs more, and every healthy URL before it weighs strictly less.
   */
  ghost predicate IsWinner(urls: seq<string>, key: string, murmur3: string -> Int32, isIll: string -> bool, w: int) {
    && 0 <= w < |urls|
    && !isIll(urls[w])
    && (forall j :: 0 <= j < |urls| && !isIll(urls[j]) ==> Score(murmur3, urls[j], key) <= Score(murmur3, urls[w], key))
    && (forall j :: 0 <= j < w && !isIll(urls[j]) ==> Score(murmur3, urls[j], key) < Score(murmur3, urls[w], key))
  }

  /**
   * The target chosen by rendezvous hashing, `None` being Java's null: none
   * exactly when every URL is ill, otherwise the winner's URL.
   */
  function RendezvousTarget(urls: seq<string>, key: string, murmur3: string -> Int32, isIll: string -> bool): (t: Option<string>)
    ensures t.None? <==> forall j :: 0 <= j < |urls| ==> isIll(urls[j])
    ensures t.Some? ==> exists w :: IsWinner(urls, key, murmur3, isIll, w) && t.value == urls[w]
  {
    ScanChoosesWinner(urls, key, murmur3, isIll, |urls|);
    assert urls[..|urls|] == urls;
    var w := Scan(urls, key, murmur3, isIll, |urls|).1;
    if w == -1 then None else Some(urls[w])
  }

  /**
   * The scan over `urls[..n]` keeps the weight of its choice, chooses
   * nothing exactly when every URL so far is ill, and otherwise chooses the
   * winner among those URLs.
   */
  lemma {:induction false} ScanChoosesWinner(urls: seq<string>, key: string, murmur3: string -> Int32, isIll: string -> bool, n: nat)
    requires n <= |urls|
    ensures var (hashVal, w) := Scan(urls, key, murmur3, isIll, n);
      && (w == -1 <==> forall j :: 0 <= j < n ==> isIll(urls[j]))
      && (w == -1 ==> hashVal == LONG_MIN)
      && (w != -1 ==> hashVal == Score(murmur3, urls[w], key) && IsWinner(urls[..n], key, murmur3, isIll, w))
  {
    if n > 0 {
      ScanChoosesWinner(urls, key, murmur3, isIll, n - 1);
      var prefix := urls[..n];
      assert forall j :: 0 <= j < n ==> prefix[j] == urls[j];
      assert forall j :: 0 <= j < n - 1 ==> urls[..n - 1][j] == urls[j];
    }
  }

  /** Two winners are the same index: the strict comparison settles ties in list order. */
  lemma WinnerIsUnique(urls: seq<string>, key: string, murmur3: string -> Int32, isIll: string -> bool, w1: int, w2: int)
    requires IsWinner(urls, key, murmur3, isIll, w1) && IsWinner(urls, key, murmur3, isIll, w2)
    ensures w1 == w2
  {
  }

  /** `isIll` after the circuit breaker has also marked `node` ill. */
  function MarkIll(isIll: string -> bool, node: string): string -> bool {
    u => u == node || isIll(u)
  }

  /** Marking ill a node other than the current target leaves the target unchanged. */
  lemma MarkingOtherNodeIllKeepsTarget(urls: seq<string>, key: string, murmur3: string -> Int32, isIll: string -> bool, node: string)
    requires RendezvousTarget(urls, key, murmur3, isIll).Some?
    requires RendezvousTarget(urls, key, murmur3, isIll).value != node
    ensures RendezvousTarget(urls, key, murmur3, MarkIll(isIll, node)) == RendezvousTarget(urls, key, murmur3, isIll)
  {
    var ill' := MarkIll(isIll, node);
    ScanChoosesWinner(urls, key, murmur3, isIll, |urls|);
    ScanChoosesWinner(urls, key, murmur3, ill', |urls|);
    assert urls[..|urls|] == urls;
    var w := Scan(urls, key, murmur3, isIll, |urls|).1;
    assert IsWinner(urls, key, murmur3, ill', w);
    var w' := Scan(urls, key, murmur3, ill', |urls|).1;
    assert !ill'(urls[w]);
    WinnerIsUnique(urls, key, murmur3, ill', w, w');
  }

  /** `getClusterByRendezvousHashing`: the loop over the cluster URLs. */
  method GetClusterByRendezvousHashing(urls: seq<string>, key: string, murmur3: string -> Int32, isIll: string -> bool)
    returns (cluster: Option<string>)
    ensures cluster == RendezvousTarget(urls, key, murmur3, isIll)
    ensures cluster.None? <==> forall j :: 0 <= j < |urls| ==> isIll(urls[j])
    ensures cluster.Some? ==> exists w :: IsWinner(urls, key, murmur3, isIll, w) && cluster.value == urls[w]
  {
    var hashVal: int := LONG_MIN;
    cluster := None;
    ghost var index := -1;
    for n := 0 to |urls|
      invariant (hashVal, index) == Scan(urls, key, murmur3, isIll, n)
      invariant cluster == if index == -1 then None else Some(urls[index])
    {
      var nodeUrl := urls[n];
      if isIll(nodeUrl) {
        continue;
      }
      var tmpHash := murmur3(nodeUrl + key);
      if tmpHash > hashVal {
        hashVal := tmpHash;
        cluster := Some(nodeUrl);
        index := n;
      }
    }
  }

  // ---------------------------------------------------------------------------
  // Routing

  /** The path `requestForKey` appends to a node URL, up to the key. */
  const EntityPath: string := "/v0/entity?id="

  /** The URI `requestForKey` builds: the node URL, the entity path, then the key. */
  function RequestForKey(nodeUrl: string, key: string): (u: string)
    ensures |u| == |nodeUrl| + |EntityPath| + |key|
    ensures u[..|nodeUrl|] == nodeUrl && u[|nodeUrl|..|nodeUrl| + |EntityPath|] == EntityPath
    ensures u[|nodeUrl| + |EntityPath|..] == key
  {
    nodeUrl + EntityPath + key
  }

  /** Requests for different keys, or to different nodes, go to different URIs (for node URLs of one length). */
  lemma RequestForKeyInjective(n1: string, k1: string, n2: string, k2: string)
    requires |n1| == |n2|
    requires RequestForKey(n1, k1) == RequestForKey(n2, k2)
    ensures n1 == n2 && k1 == k2
  {
    var u := RequestForKey(n1, k1);
    assert n1 == u[..|n1|] == n2;
    assert k1 == u[|n1| + |EntityPath|..] == k2;
  }

  /** The proxied request: method, URI and body publisher (`None`: no body). */
  datatype ProxyRequest = ProxyRequest(requestMethod: Method, uri: string, body: Option<seq<byte>>)

  datatype BuildError =
    | MethodNotAllowedError  // MethodNotAllowedException
    | InvalidUri             // `URI.create` throws an IllegalArgumentException
    | NullBody               // `ofByteArray(null)` throws a NullPointerException

  /**
   * `buildHttpRequest`: the request to forward to `targetCluster`.
   * `isValidUri` stands for the RFC 2396 syntax check of `URI.create`.
   */
  function BuildHttpRequest(key: string, targetCluster: string, request: Request, isValidUri: string -> bool): (r: Result<ProxyRequest, BuildError>)
    ensures !IsEntityMethod(request.requestMethod) <==> r == Failure(MethodNotAllowedError)
    ensures r == Failure(InvalidUri) <==>
              IsEntityMethod(request.requestMethod) && !isValidUri(RequestForKey(targetCluster, key))
    ensures r == Failure(NullBody) <==>
              && IsEntityMethod(request.requestMethod) && isValidUri(RequestForKey(targetCluster, key))
              && request.requestMethod == PUT && request.body.None?
    ensures r.Success? ==> r.value.requestMethod == request.requestMethod
    ensures r.Success? ==> r.value.uri == RequestForKey(targetCluster, key)
    ensures r.Success? ==> (r.value.body.Some? <==> request.requestMethod == PUT) && (r.value.body.Some? ==> r.value.body == request.body)
  {
    if !IsEntityMethod(request.requestMethod) then Failure(MethodNotAllowedError)
    else
      var uri := RequestForKey(targetCluster, key);
      if !isValidUri(uri) then Failure(InvalidUri)
      else
      match request.requestMethod
      case PUT =>
        if request.body.None? then Failure(NullBody) else Success(ProxyRequest(PUT, uri, request.body))
      case _ => Success(ProxyRequest(request.requestMethod, uri, None))
  }

  /**
   * `getKeyFromRequest`: the `id` parameter, or `None` when it is missing
   * or empty, in which case 400 Bad Request has been sent.
   */
  function GetKeyFromRequest(request: Request): (key: Option<string>)
    ensures key.None? <==> GetParameter(request, "id") in {None, Some("")}
    ensures key.Some? ==> key == GetParameter(request, "id") && key.value != ""
  {
    var key := GetParameter(request, "id");
    if key.None? || key.value == "" then None else key
  }

  /** What `handleRequest` does with a request. */
  datatype Action =
    | Respond(response: Response)               // a response sent from this method
    | NoResponse                                // every node ill: logged, nothing sent
    | Proxy(target: string, proxied: ProxyRequest)
    | HandleLocally                             // `super.handleRequest` on the workers pool
    | Unhandled                                 // an exception escapes `handleRequest`

  /**
   * The node that serves `key`: this node in a one-node cluster; otherwise
   * none when every node is ill, else the rendezvous winner.
   */
  function TargetNode(urls: seq<string>, selfUrl: string, key: string, murmur3: string -> Int32, isIll: string -> bool): (t: Option<string>)
    ensures t.None? <==> |urls| > 1 && forall j :: 0 <= j < |urls| ==> isIll(urls[j])
    ensures |urls| <= 1 ==> t == Some(selfUrl)
    ensures |urls| > 1 && t.Some? ==> exists w :: IsWinner(urls, key, murmur3, isIll, w) && t.value == urls[w]
  {
    if |urls| > 1 then RendezvousTarget(urls, key, murmur3, isIll) else Some(selfUrl)
  }

  /**
   * `handleRequest` up to the asynchronous send. `isValidUri` is the syntax
   * check of `URI.create`; its IllegalArgumentException is not caught.
   */
  function HandleRequest(urls: seq<string>, selfUrl: string, murmur3: string -> Int32, isIll: string -> bool,
                         isValidUri: string -> bool, request: Request): (a: Action)
    ensures GetKeyFromRequest(request).None? <==> a == Respond(BadRequest())
    ensures GetKeyFromRequest(request).Some? ==>
              var key := GetKeyFromRequest(request).value;
              var t := TargetNode(urls, selfUrl, key, murmur3, isIll);
              && (t == Some(selfUrl) ==> a == HandleLocally)
              && (t.Some? && t.value != selfUrl ==>
                    && (a == Respond(MethodNotAllowed()) <==> !IsEntityMethod(request.requestMethod))
                    && (a == Unhandled <==>
                          IsEntityMethod(request.requestMethod)
                          && (!isValidUri(RequestForKey(t.value, key)) || (request.requestMethod == PUT && request.body.None?)))
                    && (a.Proxy? <==>
                          IsEntityMethod(request.requestMethod) && isValidUri(RequestForKey(t.value, key))
                          && !(request.requestMethod == PUT && request.body.None?))
                    && (a.Proxy? ==> a.target == t.value && Success(a.proxied) == BuildHttpRequest(key, t.value, request, isValidUri)))
    ensures GetKeyFromRequest(request).Some? && |urls| <= 1 ==> a == HandleLocally
    ensures a == NoResponse <==>
              GetKeyFromRequest(request).Some? && |urls| > 1 && forall j :: 0 <= j < |urls| ==> isIll(urls[j])
    ensures a.Proxy? ==>
              && a.target != selfUrl && a.target in urls && !isIll(a.target)
              && a.proxied.uri == RequestForKey(a.target, GetKeyFromRequest(request).value)
              && a.proxied.requestMethod == request.requestMethod && IsEntityMethod(request.requestMethod)
    ensures a == Respond(MethodNotAllowed()) ==> !IsEntityMethod(request.requestMethod)
  {
    match GetKeyFromRequest(request)
    case None => Respond(BadRequest())
    case Some(key) =>
      var target := TargetNode(urls, selfUrl, key, murmur3, isIll);
      match target
      case None => NoResponse
      case Some(targetNode) =>
        if targetNode == selfUrl then HandleLocally
        else
          match BuildHttpRequest(key, targetNode, request, isValidUri)
          case Failure(MethodNotAllowedError) => Respond(MethodNotAllowed())
          case Failure(InvalidUri) => Unhandled
          case Failure(NullBody) => Unhandled
          case Success(proxied) => Proxy(targetNode, proxied)
  }

  /**
   * In a cluster of several nodes the request follows the rendezvous winner
   * for its key: served here when this node wins, and otherwise proxied to
   * the winner once the request can be built.
   */
  lemma RequestFollowsWinner(urls: seq<string>, selfUrl: string, murmur3: string -> Int32, isIll: string -> bool,
                             isValidUri: string -> bool, request: Request, w: int)
    requires |urls| > 1
    requires GetKeyFromRequest(request).Some?
    requires IsWinner(urls, GetKeyFromRequest(request).value, murmur3, isIll, w)
    ensures var a := HandleRequest(urls, selfUrl, murmur3, isIll, isValidUri, request);
      && (urls[w] == selfUrl ==> a == HandleLocally)
      && (urls[w] != selfUrl && IsEntityMethod(request.requestMethod)
          && isValidUri(RequestForKey(urls[w], GetKeyFromRequest(request).value))
          && !(request.requestMethod == PUT && request.body.None?)
          ==> a.Proxy? && a.target == urls[w])
  {
    var key := GetKeyFromRequest(request).value;
    var t := TargetNode(urls, selfUrl, key, murmur3, isIll);
    assert !isIll(urls[w]);
    var w' :| IsWinner(urls, key, murmur3, isIll, w') && t.value == urls[w'];
    WinnerIsUnique(urls, key, murmur3, isIll, w, w');
  }

  /** How the proxied call ended. */
  datatype ProxyOutcome =
    | Completed(status: int, body: seq<byte>)
    | ExecutionFailed   // ExecutionException
    | TimedOut          // TimeoutException after one second
    | Interrupted       // InterruptedException: caught in `handleRequest`, which then serves the request itself

  /**
   * `getResponse`: the remote status and body are relayed; a failure or a
   * timeout answers 503; `None` means the request falls back to local handling.
   */
  function ProxyResponse(o: ProxyOutcome): (r: Option<Response>)
    ensures o.Completed? ==> r == Some(Response(o.status, Raw(o.body)))
    ensures (o.ExecutionFailed? || o.TimedOut?) ==> r == Some(Response(SERVICE_UNAVAILABLE, Empty))
    ensures o.Interrupted? <==> r.None?
  {
    match o
    case Completed(status, body) => Some(Response(status, Raw(body)))
    case ExecutionFailed => Some(Response(SERVICE_UNAVAILABLE, Empty))
    case TimedOut => Some(Response(SERVICE_UNAVAILABLE, Empty))
    case Interrupted => None
  }

  /**
   * `handleDefault`, reached when no local route matches: 400 without a key,
   * 405 for a method other than GET, PUT and DELETE, 503 otherwise.
   */
  function HandleDefault(request: Request): (r: Response)
    ensures r.body == Empty
    ensures GetKeyFromRequest(request).None? <==> r.status == BAD_REQUEST
    ensures GetKeyFromRequest(request).Some? ==>
              r.status == (if IsEntityMethod(request.requestMethod) then SERVICE_UNAVAILABLE else METHOD_NOT_ALLOWED)
  {
    if GetKeyFromRequest(request).None? then BadRequest()
    else if !IsEntityMethod(request.requestMethod) then Response(METHOD_NOT_ALLOWED, Empty)
    else Response(SERVICE_UNAVAILABLE, Empty)
  }

  /** In a one-node cluster neither the circuit breaker nor the hash matters: the request is served here. */
  lemma SingleNodeServesLocally(urls: seq<string>, selfUrl: string, murmur3: string -> Int32, murmur3': string -> Int32,
                                isIll: string -> bool, isIll': string -> bool, isValidUri: string -> bool, request: Request)
    requires |urls| <= 1
    requires GetKeyFromRequest(request).Some?
    ensures HandleRequest(urls, selfUrl, murmur3, isIll, isValidUri, request)
         == HandleRequest(urls, selfUrl, murmur3', isIll', isValidUri, request)
         == HandleLocally
  {
  }
}
