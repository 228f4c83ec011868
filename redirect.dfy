/**
 * The redirect follower: at most ten redirects, the method rewriting of
 * sections 15.4.2-15.4.4 of RFC 9110, and the headers rebuilt from the
 * original request on every hop. URL parsing and reference resolution
 * (section 5.2 of RFC 3986) are an oracle, `Resolver`.
 */
module Redirect {
  import opened Common
  import opened Http

  const MaxRedirects: nat := 10

  /** A parsed URL: its serialisation and its host, if any. */
  datatype Url = Url(serialized: string, host: Option<string>)

  /** `Url::parse`, `Url::join` and the re-parse of a URL as an `http::Uri`. */
  datatype Resolver = Resolver(
    parse: string -> Option<Url>, join: (Url, string) -> Option<Url>, toUri: string -> Option<string>)

  /** The inner client: each request it is given yields a response or an error. */
  type Client = Request -> Result<Response, HttpError>

  datatype RedirectError =
    | InvalidUrl
    | RemoteError(inner: HttpError)
    | TooManyRedirects
    | MissingLocationHeader
    | InvalidLocationHeader

  /** `HttpError::status`: only a remote error has a status, the inner one. */
  function Status(e: RedirectError): (s: Option<StatusCode>)
    ensures e.RemoteError? ==> s == e.inner.status
    ensures !e.RemoteError? ==> s.None?
  {
    match e
    case RemoteError(inner) => inner.status
    case _ => None
  }

  /**
   * The method of the next hop: 303 turns any method into GET, 301 and 302 turn
   * all but GET and HEAD into GET, and every other status keeps the method.
   */
  function NextMethod(status: StatusCode, m: Method): (r: Method)
    ensures r == m || r == GET
    ensures r != m <==> (status == SeeOther && m != GET)
                        || ((status == MovedPermanently || status == Found) && m != GET && m != HEAD)
  {
    if status == SeeOther then GET
    else if (status == MovedPermanently || status == Found) && m != GET && m != HEAD then GET
    else m
  }

  /** Names that never follow a redirect, and names that only follow one to the same host. */
  predicate Dropped(n: string) { n == Host || n == ContentLength }
  predicate Credential(n: string) { n == Authorization || n == Cookie }

  /**
   * The headers of the next hop, rebuilt from the original request's: `Host` and
   * `Content-Length` go; `Authorization` and `Cookie` go iff the host changes.
   */
  function HopHeaders(initial: Headers, currentHost: Option<string>, targetHost: Option<string>): Headers {
    var h := Remove(Remove(initial, Host), ContentLength);
    if currentHost != targetHost then Remove(Remove(h, Authorization), Cookie) else h
  }

  /**
   * The headers of a hop are the original ones less `Host` and `Content-Length`,
   * and less `Authorization` and `Cookie` exactly when the host changes.
   */
  lemma HopHeadersSpec(initial: Headers, currentHost: Option<string>, targetHost: Option<string>)
    ensures var h := HopHeaders(initial, currentHost, targetHost);
      (forall n :: Dropped(n) ==> GetAll(h, n) == [])
      && (forall n :: Credential(n) ==>
            GetAll(h, n) == if currentHost != targetHost then [] else GetAll(initial, n))
      && (forall n :: !Dropped(n) && !Credential(n) ==> GetAll(h, n) == GetAll(initial, n))
  {
  }

  /** The absolute target of a `Location`: parsed as it stands, else resolved against the current URL. */
  function Target(res: Resolver, current: Url, location: string): Option<Url> {
    match res.parse(location)
    case Some(u) => Some(u)
    case None => res.join(current, location)
  }

  /** What a hop carries forward: the next request, its URL and its method. */
  datatype Hop = Hop(request: Request, url: Url, verb: Method)

  /**
   * One redirect: the next request from a 3xx response, or the error that ends
   * the chain. A missing `Location` and an unusable one are different errors.
   */
  function NextHop(res: Resolver, initial: Headers, current: Url, m: Method, response: Response): Result<Hop, RedirectError>
  {
    match Get(response.headers, Location)
    case None => Err(MissingLocationHeader)
    case Some(v) =>
      match ToStr(v)
      case None => Err(InvalidLocationHeader)
      case Some(location) =>
        match Target(res, current, location)
        case None => Err(InvalidLocationHeader)
        case Some(url) =>
          match res.toUri(url.serialized)
          case None => Err(InvalidLocationHeader)
          case Some(uri) =>
            var next := NextMethod(response.status, m);
            Ok(Hop(Request(next, uri, HopHeaders(initial, current.host, url.host), []), url, next))
  }

  /**
   * A missing `Location` and an unusable one are different errors; a usable one
   * gives the next request: method by `NextMethod`, empty body, headers rebuilt
   * by `HopHeaders`, URI from the resolved target.
   */
  lemma NextHopSpec(res: Resolver, initial: Headers, current: Url, m: Method, response: Response)
    ensures var r := NextHop(res, initial, current, m, response);
      (!ContainsKey(response.headers, Location) <==> r == Err(MissingLocationHeader))
      && (r.Err? ==> r.error == MissingLocationHeader || r.error == InvalidLocationHeader)
      && (r.Ok? ==> (r.value.verb == NextMethod(response.status, m) && r.value.request.verb == r.value.verb
            && r.value.request.body == []
            && r.value.request.headers == HopHeaders(initial, current.host, r.value.url.host)
            && ToStr(Get(response.headers, Location).value).Some?
            && Some(r.value.url) == Target(res, current, ToStr(Get(response.headers, Location).value).value)
            && Some(r.value.request.uri) == res.toUri(r.value.url.serialized)))
  {
  }

  /** How the next hop is computed from the current URL, method and 3xx response. */
  type HopFn = (Url, Method, Response) -> Result<Hop, RedirectError>

  /** The hops `respond` computes: `NextHop` against the original request's headers. */
  function Hops(res: Resolver, initial: Headers): HopFn {
    (current: Url, m: Method, response: Response) => NextHop(res, initial, current, m, response)
  }

  /** A hop fails only with one of the two `Location` errors. */
  ghost predicate LocationErrorsOnly(next: HopFn) {
    forall current, m, response :: next(current, m, response).Err? ==>
      next(current, m, response).error == MissingLocationHeader
      || next(current, m, response).error == InvalidLocationHeader
  }

  lemma HopsLocationErrorsOnly(res: Resolver, initial: Headers)
    ensures LocationErrorsOnly(Hops(res, initial))
  {
    forall current, m, response | Hops(res, initial)(current, m, response).Err?
      ensures Hops(res, initial)(current, m, response).error == MissingLocationHeader
           || Hops(res, initial)(current, m, response).error == InvalidLocationHeader
    {
      NextHopSpec(res, initial, current, m, response);
    }
  }

  /** What one round of the loop decides: the chain ends with an outcome, or goes on with a hop. */
  datatype Next = Done(outcome: Result<Response, RedirectError>) | Continue(hop: Hop)

  /** One round: send `request`, then stop or compute the next hop. */
  function Advance(client: Client, next: HopFn, request: Request, m: Method, url: Url, count: nat): (r: Next)
    ensures r.Continue? ==> count < MaxRedirects
  {
    match client(request)
    case Err(e) => Done(Err(RemoteError(e)))
    case Ok(response) =>
      if !IsRedirection(response.status) then Done(Ok(response))
      else if count >= MaxRedirects then Done(Err(TooManyRedirects))
      else match next(url, m, response)
        case Err(e) => Done(Err(e))
        case Ok(hop) => Continue(hop)
  }

  /** A round ends with the answer exactly when that answer is not a redirect. */
  lemma AdvanceAnswer(client: Client, next: HopFn, request: Request, m: Method, url: Url, count: nat)
    ensures var r := Advance(client, next, request, m, url, count);
      (r.Done? && r.outcome.Ok? <==> client(request).Ok? && !IsRedirection(client(request).value.status))
      && (r.Done? && r.outcome.Ok? ==> client(request) == Ok(r.outcome.value))
  {
  }

  /** When hops fail only with `Location` errors, a round ends with `TooManyRedirects` exactly when a redirect arrives after the tenth. */
  lemma AdvanceTooMany(client: Client, next: HopFn, request: Request, m: Method, url: Url, count: nat)
    requires LocationErrorsOnly(next)
    ensures Advance(client, next, request, m, url, count) == Done(Err(TooManyRedirects)) <==>
      client(request).Ok? && IsRedirection(client(request).value.status) && count >= MaxRedirects
  {
  }

  /** When hops fail only with `Location` errors, a round ends with `RemoteError` exactly when the client fails, and carries its error. */
  lemma AdvanceRemoteError(client: Client, next: HopFn, request: Request, m: Method, url: Url, count: nat)
    requires LocationErrorsOnly(next)
    ensures var r := Advance(client, next, request, m, url, count);
      (r.Done? && r.outcome.Err? && r.outcome.error.RemoteError? <==> client(request).Err?)
      && (client(request).Err? ==> r == Done(Err(RemoteError(client(request).error))))
  {
  }

  /** A round goes on exactly when a redirect within the limit yields a hop, and goes on with that hop. */
  lemma AdvanceContinue(client: Client, next: HopFn, request: Request, m: Method, url: Url, count: nat)
    ensures var r := Advance(client, next, request, m, url, count);
      (r.Continue? <==> (client(request).Ok? && IsRedirection(client(request).value.status)
                         && count < MaxRedirects && next(url, m, client(request).value).Ok?))
      && (r.Continue? ==> next(url, m, client(request).value) == Ok(r.hop))
  {
  }

  /** The rest of the chain from `request`, sent at `url` with method `m` after `count` redirects:
      the outcome and every request handed to the client. */
  function Run(client: Client, next: HopFn, request: Request, m: Method, url: Url, count: nat)
    : (r: (Result<Response, RedirectError>, seq<Request>))
    requires count <= MaxRedirects
    ensures 1 <= |r.1| <= MaxRedirects + 1 - count && r.1[0] == request
    decreases MaxRedirects - count
  {
    match Advance(client, next, request, m, url, count)
    case Done(outcome) => (outcome, [request])
    case Continue(hop) =>
      var tail := Run(client, next, hop.request, hop.verb, hop.url, count + 1);
      (tail.0, [request] + tail.1)
  }

  /** A round that ends is the whole chain from its request. */
  lemma RunDone(client: Client, next: HopFn, request: Request, m: Method, url: Url, count: nat)
    requires count <= MaxRedirects
    requires Advance(client, next, request, m, url, count).Done?
    ensures Run(client, next, request, m, url, count)
      == (Advance(client, next, request, m, url, count).outcome, [request])
  {
  }

  /** A round that goes on puts its request in front of the rest of the chain. */
  lemma RunContinue(client: Client, next: HopFn, request: Request, m: Method, url: Url, count: nat)
    requires count <= MaxRedirects
    requires Advance(client, next, request, m, url, count).Continue?
    ensures var hop := Advance(client, next, request, m, url, count).hop;
      var tail := Run(client, next, hop.request, hop.verb, hop.url, count + 1);
      Run(client, next, request, m, url, count) == (tail.0, [request] + tail.1)
  {
  }

  /** The last request of a non-empty chain. */
  function Last(sent: seq<Request>): Request
    requires sent != []
  {
    sent[|sent| - 1]
  }

  /** After one more redirect, the chain still splits into what was sent and the rest from the new hop. */
  lemma ChaseStep(client: Client, next: HopFn, whole: (Result<Response, RedirectError>, seq<Request>),
                  before: seq<Request>, current: Request, m: Method, url: Url, count: nat, hop: Hop)
    requires count <= MaxRedirects
    requires Advance(client, next, current, m, url, count) == Continue(hop)
    requires whole.0 == Run(client, next, current, m, url, count).0
    requires whole.1 == before + Run(client, next, current, m, url, count).1
    ensures count + 1 <= MaxRedirects
    ensures whole.0 == Run(client, next, hop.request, hop.verb, hop.url, count + 1).0
    ensures whole.1 == (before + [current]) + Run(client, next, hop.request, hop.verb, hop.url, count + 1).1
  {
    RunContinue(client, next, current, m, url, count);
    ConcatAssoc(before, [current], Run(client, next, hop.request, hop.verb, hop.url, count + 1).1);
  }

  /** `FollowRedirect::respond` as a function of the client and the request. */
  function Follow(client: Client, res: Resolver, request: Request): (Result<Response, RedirectError>, seq<Request>) {
    match res.parse(request.uri)
    case None => (Err(InvalidUrl), [])
    case Some(url) => Run(client, Hops(res, request.headers), request, request.verb, url, 0)
  }

  lemma ConcatAssoc<T>(a: seq<T>, b: seq<T>, c: seq<T>)
    ensures a + (b + c) == (a + b) + c
  {
  }

  /**
   * The loop of `FollowRedirect::respond` from a parsed URL: send, stop on an
   * error, a non-3xx answer or the eleventh redirect, else take the hop `next`
   * computes. `sent` lists the requests the client received.
   */
  method Chase(client: Client, next: HopFn, request: Request, url: Url)
    returns (result: Result<Response, RedirectError>, sent: seq<Request>)
    ensures (result, sent) == Run(client, next, request, request.verb, url, 0)
  {
    var current, currentMethod, currentUrl := request, request.verb, url;
    var redirectCount: nat := 0;
    ghost var whole := Run(client, next, request, request.verb, url, 0);
    sent := [];
    assert [] + whole.1 == whole.1;
    while true
      invariant redirectCount <= MaxRedirects
      invariant whole.0 == Run(client, next, current, currentMethod, currentUrl, redirectCount).0
      invariant whole.1 == sent + Run(client, next, current, currentMethod, currentUrl, redirectCount).1
      decreases MaxRedirects - redirectCount
    {
      var outcome := client(current);
      ghost var before := sent;
      sent := sent + [current];
      if outcome.Err? {
        RunDone(client, next, current, currentMethod, currentUrl, redirectCount);
        return Err(RemoteError(outcome.error)), sent;
      }
      var response := outcome.value;
      if !IsRedirection(response.status) {
        RunDone(client, next, current, currentMethod, currentUrl, redirectCount);
        return Ok(response), sent;
      }
      if redirectCount >= MaxRedirects {
        RunDone(client, next, current, currentMethod, currentUrl, redirectCount);
        return Err(TooManyRedirects), sent;
      }
      var hop := next(currentUrl, currentMethod, response);
      if hop.Err? {
        RunDone(client, next, current, currentMethod, currentUrl, redirectCount);
        return Err(hop.error), sent;
      }
      AdvanceContinue(client, next, current, currentMethod, currentUrl, redirectCount);
      ChaseStep(client, next, whole, before, current, currentMethod, currentUrl, redirectCount, hop.value);
      current, currentUrl, currentMethod := hop.value.request, hop.value.url, hop.value.verb;
      redirectCount := redirectCount + 1;
    }
  }

  /** `FollowRedirect::respond`: parse the request's URI, then follow with hops against its headers. */
  method Respond(client: Client, res: Resolver, request: Request)
    returns (result: Result<Response, RedirectError>, sent: seq<Request>)
    ensures (result, sent) == Follow(client, res, request)
  {
    var parsed := res.parse(request.uri);
    if parsed.None? {
      return Err(InvalidUrl), [];
    }
    result, sent := Chase(client, Hops(res, request.headers), request, parsed.value);
  }
}

/** Properties of the redirect chain. */
module RedirectProperties {
  import opened Common
  import opened Http
  import opened Redirect

  /**
   * How a chain that started at redirect number `count` ends, in terms of its
   * last request: an answer is that request's answer and not a redirect;
   * `TooManyRedirects` comes after the full allowance of requests, the last
   * answered with yet another redirect; `RemoteError` carries the last
   * request's error.
   */
  ghost predicate Ends(client: Client, r: (Result<Response, RedirectError>, seq<Request>), count: nat)
    requires r.1 != []
  {
    (r.0.Ok? ==> client(Last(r.1)) == Ok(r.0.value) && !IsRedirection(r.0.value.status))
    && (r.0 == Err(TooManyRedirects) ==>
          |r.1| == MaxRedirects + 1 - count && client(Last(r.1)).Ok?
          && IsRedirection(client(Last(r.1)).value.status))
    && (r.0.Err? && r.0.error.RemoteError? ==> client(Last(r.1)) == Err(r.0.error.inner))
  }

  /** Every chain ends as `Ends` says, whatever the client answers. */
  lemma {:induction false} RunEnds(client: Client, next: HopFn, request: Request,
                                   m: Method, url: Url, count: nat)
    requires count <= MaxRedirects
    requires LocationErrorsOnly(next)
    ensures Ends(client, Run(client, next, request, m, url, count), count)
    decreases MaxRedirects - count
  {
    var a := Advance(client, next, request, m, url, count);
    if a.Continue? {
      RunEnds(client, next, a.hop.request, a.hop.verb, a.hop.url, count + 1);
      RunEndsContinue(client, next, request, m, url, count);
    } else {
      RunEndsDone(client, next, request, m, url, count);
    }
  }

  lemma RunEndsDone(client: Client, next: HopFn, request: Request, m: Method, url: Url, count: nat)
    requires count <= MaxRedirects
    requires LocationErrorsOnly(next)
    requires Advance(client, next, request, m, url, count).Done?
    ensures Ends(client, Run(client, next, request, m, url, count), count)
  {
    var r := Run(client, next, request, m, url, count);
    RunDone(client, next, request, m, url, count);
    assert Last(r.1) == request;
    AdvanceAnswer(client, next, request, m, url, count);
    AdvanceTooMany(client, next, request, m, url, count);
    AdvanceRemoteError(client, next, request, m, url, count);
  }

  lemma RunEndsContinue(client: Client, next: HopFn, request: Request, m: Method, url: Url, count: nat)
    requires count <= MaxRedirects
    requires Advance(client, next, request, m, url, count).Continue?
    requires var hop := Advance(client, next, request, m, url, count).hop;
      Ends(client, Run(client, next, hop.request, hop.verb, hop.url, count + 1), count + 1)
    ensures Ends(client, Run(client, next, request, m, url, count), count)
  {
    var hop := Advance(client, next, request, m, url, count).hop;
    var tail := Run(client, next, hop.request, hop.verb, hop.url, count + 1);
    RunContinue(client, next, request, m, url, count);
    EndsCons(client, request, tail, count);
  }

  /** Putting one more request in front of a chain moves its start one redirect back. */
  lemma EndsCons(client: Client, request: Request, tail: (Result<Response, RedirectError>, seq<Request>), count: nat)
    requires tail.1 != [] && Ends(client, tail, count + 1)
    ensures Ends(client, (tail.0, [request] + tail.1), count)
  {
    assert Last([request] + tail.1) == Last(tail.1);
  }

  /** What links two consecutive requests of the chain. */
  ghost predicate Linked(client: Client, initial: Headers, a: Request, b: Request) {
    client(a).Ok? && IsRedirection(client(a).value.status)
    && b.verb == NextMethod(client(a).value.status, a.verb)
    && b.body == []
    && (forall n :: Dropped(n) ==> GetAll(b.headers, n) == [])
    && (forall n :: !Dropped(n) && !Credential(n) ==> GetAll(b.headers, n) == GetAll(initial, n))
    && (forall n :: Credential(n) ==> GetAll(b.headers, n) == [] || GetAll(b.headers, n) == GetAll(initial, n))
  }

  /** A hop from a redirect is linked to the request that drew it. */
  lemma HopLinked(client: Client, res: Resolver, initial: Headers, request: Request, url: Url, hop: Hop)
    requires client(request).Ok? && IsRedirection(client(request).value.status)
    requires NextHop(res, initial, url, request.verb, client(request).value) == Ok(hop)
    ensures Linked(client, initial, request, hop.request)
  {
    NextHopSpec(res, initial, url, request.verb, client(request).value);
    HopHeadersSpec(initial, url.host, hop.url.host);
  }

  /** Each request of `sent` follows from the one before. */
  ghost predicate AllLinked(client: Client, initial: Headers, sent: seq<Request>) {
    forall i :: 0 <= i < |sent| - 1 ==> Linked(client, initial, sent[i], sent[i + 1])
  }

  /**
   * Every hop `next` makes from a redirect is linked to the request that drew
   * it, and is sent with the method it records.
   */
  ghost predicate HopsLink(client: Client, initial: Headers, next: HopFn) {
    (forall a: Request, url: Url, hop: Hop ::
       (client(a).Ok? && IsRedirection(client(a).value.status)
        && next(url, a.verb, client(a).value) == Ok(hop)) ==> Linked(client, initial, a, hop.request))
    && (forall url: Url, m: Method, response: Response, hop: Hop ::
          next(url, m, response) == Ok(hop) ==> hop.request.verb == hop.verb)
  }

  lemma HopsLinked(client: Client, res: Resolver, initial: Headers)
    ensures HopsLink(client, initial, Hops(res, initial))
  {
    forall a: Request, url: Url, hop: Hop |
      client(a).Ok? && IsRedirection(client(a).value.status)
      && Hops(res, initial)(url, a.verb, client(a).value) == Ok(hop)
      ensures Linked(client, initial, a, hop.request)
    {
      HopLinked(client, res, initial, a, url, hop);
    }
    forall url: Url, m: Method, response: Response, hop: Hop |
      Hops(res, initial)(url, m, response) == Ok(hop)
      ensures hop.request.verb == hop.verb
    {
      NextHopSpec(res, initial, url, m, response);
    }
  }

  /**
   * Every redirected request follows from the previous answer: its method by
   * `NextMethod`, an empty body, no `Host` or `Content-Length`, every other
   * header of the original request kept, and credentials kept or dropped.
   */
  lemma {:induction false} RunLinked(client: Client, next: HopFn, initial: Headers, request: Request,
                                     m: Method, url: Url, count: nat)
    requires count <= MaxRedirects
    requires request.verb == m
    requires HopsLink(client, initial, next)
    ensures AllLinked(client, initial, Run(client, next, request, m, url, count).1)
    decreases MaxRedirects - count
  {
    var a := Advance(client, next, request, m, url, count);
    if a.Continue? {
      AdvanceContinue(client, next, request, m, url, count);
      RunLinked(client, next, initial, a.hop.request, a.hop.verb, a.hop.url, count + 1);
      RunLinkedContinue(client, next, initial, request, m, url, count);
    } else {
      RunDone(client, next, request, m, url, count);
    }
  }

  lemma RunLinkedContinue(client: Client, next: HopFn, initial: Headers, request: Request,
                          m: Method, url: Url, count: nat)
    requires count <= MaxRedirects
    requires request.verb == m
    requires HopsLink(client, initial, next)
    requires Advance(client, next, request, m, url, count).Continue?
    requires var hop := Advance(client, next, request, m, url, count).hop;
      AllLinked(client, initial, Run(client, next, hop.request, hop.verb, hop.url, count + 1).1)
    ensures AllLinked(client, initial, Run(client, next, request, m, url, count).1)
  {
    var hop := Advance(client, next, request, m, url, count).hop;
    AdvanceContinue(client, next, request, m, url, count);
    assert Linked(client, initial, request, hop.request);
    var tail := Run(client, next, hop.request, hop.verb, hop.url, count + 1);
    RunContinue(client, next, request, m, url, count);
    LinkedCons(client, initial, request, tail.1);
  }

  /** A request linked to the head of a linked chain extends it. */
  lemma LinkedCons(client: Client, initial: Headers, request: Request, rest: seq<Request>)
    requires rest != [] && Linked(client, initial, request, rest[0]) && AllLinked(client, initial, rest)
    ensures AllLinked(client, initial, [request] + rest)
  {
    var sent := [request] + rest;
    forall i | 0 <= i < |sent| - 1 ensures Linked(client, initial, sent[i], sent[i + 1]) {
      if i > 0 { assert sent[i] == rest[i - 1] && sent[i + 1] == rest[i]; }
    }
  }

  /** Following from the start: a non-3xx first answer is returned as it is, after one call. */
  lemma NonRedirectReturned(client: Client, res: Resolver, request: Request)
    requires res.parse(request.uri).Some?
    requires client(request).Ok? && !IsRedirection(client(request).value.status)
    ensures Follow(client, res, request) == (Ok(client(request).value), [request])
  {
  }

  /** From the start, the client sees at most eleven requests, the first being the caller's. */
  lemma FollowBounded(client: Client, res: Resolver, request: Request)
    ensures var sent := Follow(client, res, request).1;
      |sent| <= MaxRedirects + 1 && (sent != [] ==> sent[0] == request)
      && (sent == [] <==> res.parse(request.uri).None?)
  {
  }

  /**
   * How a followed chain ends: as `Ends` says for a chain started from the
   * first request, and with each request following from the one before.
   */
  lemma FollowOutcome(client: Client, res: Resolver, request: Request)
    requires res.parse(request.uri).Some?
    ensures var f := Follow(client, res, request);
      f.1 != [] && Ends(client, f, 0)
      && AllLinked(client, request.headers, f.1)
  {
    var url := res.parse(request.uri).value;
    var next := Hops(res, request.headers);
    assert Follow(client, res, request) == Run(client, next, request, request.verb, url, 0);
    HopsLocationErrorsOnly(res, request.headers);
    RunEnds(client, next, request, request.verb, url, 0);
    HopsLinked(client, res, request.headers);
    RunLinked(client, next, request.headers, request, request.verb, url, 0);
  }

  /** A redirect answered with a POST after 302 is retried as a GET with the original extra headers. */
  lemma PostAfterFoundBecomesGet(initial: Headers, current: Url, res: Resolver, response: Response, name: string)
    requires response.status == Found
    requires !Dropped(name) && !Credential(name)
    requires NextHop(res, initial, current, POST, response).Ok?
    ensures var hop := NextHop(res, initial, current, POST, response).value;
      hop.request.verb == GET && GetAll(hop.request.headers, name) == GetAll(initial, name)
  {
    NextHopSpec(res, initial, current, POST, response);
    var hop := NextHop(res, initial, current, POST, response).value;
    HopHeadersSpec(initial, current.host, hop.url.host);
  }
}
