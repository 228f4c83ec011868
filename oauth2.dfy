/**
 * The OAuth2 client-credentials middleware (section 4.4 of RFC 6749): it
 * keeps one token slot, fetches a token from the token endpoint when the slot
 * holds none that is still valid, and sends `Authorization: Bearer <token>`
 * unless the request already carries an `Authorization` header.
 * Instants and durations are natural numbers of nanoseconds.
 */
module OAuth2 {
  import opened Common
  import opened Http
  import Utf8

  /** `OAuth2Error`: the token request failed, was refused, or its answer could not be read. */
  datatype OAuth2Error =
    | Transport(inner: HttpError)
    | Upstream(status: StatusCode, message: string)
    | InvalidResponse(reason: string)

  /**
   * `OAuth2Error::status`: a transport error passes its status through, a
   * refusal reports the endpoint's status, an unreadable answer is a 502.
   */
  function Status(e: OAuth2Error): (r: Option<StatusCode>)
    ensures r.None? <==> e.Transport? && e.inner.status.None?
    ensures e.Transport? ==> r == e.inner.status
    ensures e.Upstream? ==> r == Some(e.status)
    ensures e.InvalidResponse? ==> r == Some(BadGateway)
  {
    match e
    case Transport(inner) => inner.status
    case Upstream(status, _) => Some(status)
    case InvalidResponse(_) => Some(BadGateway)
  }

  /** The middleware's settings. */
  datatype Config = Config(tokenUrl: string, clientId: string, clientSecret: string,
                           scope: Option<string>, audience: Option<string>, safetyWindow: nat)

  const DefaultSafetyWindow: nat := 30 * NanosPerSec

  /** `OAuth2ClientCredentials::new`: no scope, no audience, a 30 s safety window. */
  function NewConfig(tokenUrl: string, clientId: string, clientSecret: string): (c: Config)
    ensures c.tokenUrl == tokenUrl && c.clientId == clientId && c.clientSecret == clientSecret
    ensures c.scope.None? && c.audience.None? && c.safetyWindow == DefaultSafetyWindow
  {
    Config(tokenUrl, clientId, clientSecret, None, None, DefaultSafetyWindow)
  }

  /** `with_scope`: sets the scope and nothing else. */
  function WithScope(c: Config, scope: string): (r: Config)
    ensures r.scope == Some(scope)
    ensures r.(scope := c.scope) == c
  {
    c.(scope := Some(scope))
  }

  /** `with_audience`: sets the audience and nothing else. */
  function WithAudience(c: Config, audience: string): (r: Config)
    ensures r.audience == Some(audience)
    ensures r.(audience := c.audience) == c
  {
    c.(audience := Some(audience))
  }

  /** `build_body`: the form pairs of the token request, in the order they are appended. */
  function BuildBody(c: Config): seq<(string, string)> {
    [("grant_type", "client_credentials"), ("client_id", c.clientId), ("client_secret", c.clientSecret)]
    + (if c.scope.Some? then [("scope", c.scope.value)] else [])
    + (if c.audience.Some? then [("audience", c.audience.value)] else [])
  }

  function Keys(pairs: seq<(string, string)>): seq<string> {
    if pairs == [] then [] else [pairs[0].0] + Keys(pairs[1..])
  }

  /**
   * The form starts with the grant type and the client's credentials; `scope`
   * follows iff a scope is set, then `audience` iff an audience is set; no key
   * appears twice.
   */
  lemma BuildBodySpec(c: Config)
    ensures var b := BuildBody(c);
      3 <= |b| && b[..3] == [("grant_type", "client_credentials"), ("client_id", c.clientId), ("client_secret", c.clientSecret)]
      && ("scope" in Keys(b) <==> c.scope.Some?)
      && ("audience" in Keys(b) <==> c.audience.Some?)
      && (c.scope.Some? ==> b[3] == ("scope", c.scope.value))
      && (c.audience.Some? ==> b[|b| - 1] == ("audience", c.audience.value))
      && (forall i, j :: 0 <= i < j < |Keys(b)| ==> Keys(b)[i] != Keys(b)[j])
  {
    var b := BuildBody(c);
    var s := if c.scope.Some? then ["scope"] else [];
    var a := if c.audience.Some? then ["audience"] else [];
    KeysCount(b);
    assert Keys(b) == ["grant_type", "client_id", "client_secret"] + s + a by {
      var head := [("grant_type", "client_credentials"), ("client_id", c.clientId), ("client_secret", c.clientSecret)];
      var sp := if c.scope.Some? then [("scope", c.scope.value)] else [];
      var ap := if c.audience.Some? then [("audience", c.audience.value)] else [];
      KeysConcat(head, sp);
      KeysConcat(head + sp, ap);
      KeysCount(head);
    }
  }

  lemma {:induction false} KeysCount(pairs: seq<(string, string)>)
    ensures |Keys(pairs)| == |pairs|
    ensures forall i :: 0 <= i < |pairs| ==> Keys(pairs)[i] == pairs[i].0
  {
    if pairs != [] {
      KeysCount(pairs[1..]);
    }
  }

  lemma {:induction false} KeysConcat(a: seq<(string, string)>, b: seq<(string, string)>)
    ensures Keys(a + b) == Keys(a) + Keys(b)
  {
    if a == [] {
      assert a + b == b;
    } else {
      assert (a + b)[1..] == a[1..] + b;
      KeysConcat(a[1..], b);
    }
  }

  /** A token and the instant from which it is no longer used. */
  datatype TokenInfo = TokenInfo(accessToken: string, expiresAt: nat)

  /** `TokenInfo::is_valid`. */
  predicate IsValid(t: TokenInfo, now: nat) { now < t.expiresAt }

  /** The lifetime an answer without `expires_in` is given, in seconds. */
  const DefaultExpiresIn: nat := 3600

  /**
   * The expiry of a token fetched at `fetchedAt` with `expires_in` seconds:
   * its lifetime less a safety margin of the window or half the lifetime in
   * whole seconds, whichever is smaller (the subtraction saturating at zero).
   */
  function ExpiresAt(window: nat, fetchedAt: nat, expiresIn: Option<nat>): nat {
    var secs := if expiresIn.Some? then expiresIn.value else DefaultExpiresIn;
    var lifetime := secs * NanosPerSec;
    var safety := Min(window, (secs / 2) * NanosPerSec);
    fetchedAt + (if lifetime >= safety then lifetime - safety else 0)
  }

  /**
   * The margin never exceeds half the lifetime, so the expiry lies between
   * the fetch plus the lifetime's larger half and the fetch plus the whole
   * lifetime; a token with a lifetime of at least a second is valid when fetched.
   */
  lemma ExpiresAtBounds(window: nat, fetchedAt: nat, expiresIn: Option<nat>)
    ensures var secs := if expiresIn.Some? then expiresIn.value else DefaultExpiresIn;
      var e := ExpiresAt(window, fetchedAt, expiresIn);
      e + Min(window, (secs / 2) * NanosPerSec) == fetchedAt + secs * NanosPerSec
      && fetchedAt + (secs - secs / 2) * NanosPerSec <= e <= fetchedAt + secs * NanosPerSec
      && (secs >= 1 ==> fetchedAt < e)
  {
    var secs := if expiresIn.Some? then expiresIn.value else DefaultExpiresIn;
    assert (secs / 2) * NanosPerSec <= secs * NanosPerSec;
    assert (secs - secs / 2) * NanosPerSec == secs * NanosPerSec - (secs / 2) * NanosPerSec;
  }

  /** Without `expires_in` and with the default window, a token lives an hour less 30 seconds. */
  lemma DefaultExpiry(fetchedAt: nat)
    ensures ExpiresAt(DefaultSafetyWindow, fetchedAt, None) == fetchedAt + 3570 * NanosPerSec
  {
  }

  /** The token endpoint's reply to the POST of the form (the transport is the crate's default client). */
  type TokenEndpoint = Request -> Result<Response, HttpError>

  /** `application/x-www-form-urlencoded` serialisation of the form pairs. */
  type FormEncoder = seq<(string, string)> -> seq<byte>

  /** JSON decoding of a token answer: the access token and `expires_in`, or None when it does not parse. */
  type TokenDecoder = seq<byte> -> Option<(string, Option<nat>)>

  /** `application/x-www-form-urlencoded`, as the bytes of the header value. */
  const FormContentType: HeaderValue := [0x61, 0x70, 0x70, 0x6c, 0x69, 0x63, 0x61, 0x74, 0x69, 0x6f, 0x6e, 0x2f, 0x78, 0x2d, 0x77, 0x77, 0x77, 0x2d, 0x66, 0x6f, 0x72, 0x6d, 0x2d, 0x75, 0x72, 0x6c, 0x65, 0x6e, 0x63, 0x6f, 0x64, 0x65, 0x64]

  /** The token request: a POST of the encoded form to the token URL. */
  function TokenRequest(c: Config, encode: FormEncoder): Request {
    Request(POST, c.tokenUrl, [(ContentType, FormContentType)], encode(BuildBody(c)))
  }

  /** The body as text, or empty when it is not UTF-8 (`into_string().unwrap_or_else(...)`). */
  function BodyText(body: seq<byte>): string {
    var t := Utf8.Decode(body);
    if t.Some? then t.value else ""
  }

  /**
   * `fetch_token`: one POST to the token endpoint, then the answer read into a
   * token whose expiry counts from `fetchedAt`, the instant the answer was in.
   * A transport failure is `Transport` of it; any non-2xx status is `Upstream`
   * with that status; a 2xx answer that does not decode is `InvalidResponse`;
   * a decoded answer is the token with its computed expiry.
   */
  function FetchToken(c: Config, endpoint: TokenEndpoint, encode: FormEncoder, decode: TokenDecoder,
                      fetchedAt: nat): (r: Result<TokenInfo, OAuth2Error>)
    ensures var answer := endpoint(TokenRequest(c, encode));
      (answer.Err? <==> r.Err? && r.error.Transport?)
      && (answer.Err? ==> r == Err(Transport(answer.error)))
      && (r.Err? && r.error.Upstream? <==> answer.Ok? && !IsSuccess(answer.value.status))
      && (r.Err? && r.error.Upstream? ==> r.error.status == answer.value.status)
      && (r.Err? && r.error.InvalidResponse? <==>
            answer.Ok? && IsSuccess(answer.value.status) && decode(answer.value.body).None?)
      && (r.Ok? <==> answer.Ok? && IsSuccess(answer.value.status) && decode(answer.value.body).Some?)
      && (r.Ok? ==> r.value == TokenInfo(decode(answer.value.body).value.0,
                                         ExpiresAt(c.safetyWindow, fetchedAt, decode(answer.value.body).value.1)))
  {
    match endpoint(TokenRequest(c, encode))
    case Err(e) => Err(Transport(e))
    case Ok(response) =>
      if !IsSuccess(response.status) then Err(Upstream(response.status, BodyText(response.body)))
      else match decode(response.body)
        case None => Err(InvalidResponse("invalid token response"))
        case Some((token, expiresIn)) => Ok(TokenInfo(token, ExpiresAt(c.safetyWindow, fetchedAt, expiresIn)))
  }

  /**
   * `ensure_token` on the slot: a valid token in the slot is returned as it is
   * and the slot kept; otherwise a token is fetched, stored and returned, and
   * a failed fetch returns its error and leaves the slot alone. The token
   * returned is always the one in the slot afterwards.
   */
  function Ensured(slot: Option<TokenInfo>, c: Config, now: nat, endpoint: TokenEndpoint,
                   encode: FormEncoder, decode: TokenDecoder, fetchedAt: nat): (e: (Result<string, OAuth2Error>, Option<TokenInfo>))
    ensures e.0.Ok? ==> e.1.Some? && e.0.value == e.1.value.accessToken
    ensures e.0.Err? ==> e.1 == slot
    ensures slot.Some? && IsValid(slot.value, now) ==> e == (Ok(slot.value.accessToken), slot)
    ensures !(slot.Some? && IsValid(slot.value, now)) ==>
              var f := FetchToken(c, endpoint, encode, decode, fetchedAt);
              (e.0.Err? <==> f.Err?) && (f.Err? ==> e.0.error == f.error) && (f.Ok? ==> e.1 == Some(f.value))
  {
    if slot.Some? && IsValid(slot.value, now) then (Ok(slot.value.accessToken), slot)
    else match FetchToken(c, endpoint, encode, decode, fetchedAt)
      case Err(e) => (Err(e), slot)
      case Ok(t) => (Ok(t.accessToken), Some(t))
  }

  /** While the slot holds a valid token the answer does not depend on the token endpoint: nothing is fetched. */
  lemma ValidTokenNotFetched(slot: Option<TokenInfo>, c: Config, now: nat, endpoint: TokenEndpoint, other: TokenEndpoint,
                             encode: FormEncoder, decode: TokenDecoder, fetchedAt: nat, otherAt: nat)
    requires slot.Some? && IsValid(slot.value, now)
    ensures Ensured(slot, c, now, endpoint, encode, decode, fetchedAt) == Ensured(slot, c, now, other, encode, decode, otherAt)
  {
  }

  /**
   * Two requests in a row: after a fetch whose token is still valid at the
   * second request, the second one gets the same token without the endpoint.
   */
  lemma SecondRequestReusesToken(slot: Option<TokenInfo>, c: Config, now1: nat, now2: nat,
                                 endpoint: TokenEndpoint, second: TokenEndpoint,
                                 encode: FormEncoder, decode: TokenDecoder, fetchedAt: nat)
    requires Ensured(slot, c, now1, endpoint, encode, decode, fetchedAt).0.Ok?
    requires IsValid(Ensured(slot, c, now1, endpoint, encode, decode, fetchedAt).1.value, now2)
    ensures var e := Ensured(slot, c, now1, endpoint, encode, decode, fetchedAt);
      Ensured(e.1, c, now2, second, encode, decode, fetchedAt) == e
  {
  }

  /**
   * One call of the middleware: its outcome (None when building the header
   * panics), the request passed on, the request afterwards, and the slot.
   */
  datatype Step = Step(outcome: Option<Result<Response, MiddlewareError<OAuth2Error>>>,
                       forwarded: Option<Request>, after: Request, slot: Option<TokenInfo>)

  /**
   * `Middleware::handle` as a function of the slot. With an `Authorization`
   * header of its own the request is passed on as it is and the slot is not
   * touched; without one it is passed on with the `Bearer` header of the token
   * `ensure_token` gives, every other header kept, or not at all when no token
   * could be had; the inner endpoint is called at most once.
   */
  function Handled(slot: Option<TokenInfo>, c: Config, request: Request, now: nat, endpoint: TokenEndpoint,
                   encode: FormEncoder, decode: TokenDecoder, fetchedAt: nat, next: Endpoint): (s: Step)
    ensures s.forwarded.Some? ==> s.outcome.Some? && (s.outcome.value, s.after) == Forward(next, s.forwarded.value)
    ensures ContainsKey(request.headers, Authorization) ==> s.forwarded == Some(request) && s.slot == slot
    ensures !ContainsKey(request.headers, Authorization) ==>
              var e := Ensured(slot, c, now, endpoint, encode, decode, fetchedAt);
              s.slot == e.1
              && (e.0.Err? ==> s.outcome == Some(Err(MiddlewareFailure(e.0.error))) && s.forwarded.None? && s.after == request)
              && (e.0.Ok? && IsValueText("Bearer " + e.0.value) ==>
                    s.forwarded.Some?
                    && GetAll(s.forwarded.value.headers, Authorization) == [Utf8.Encode("Bearer " + e.0.value)]
                    && (forall n :: n != Authorization ==> GetAll(s.forwarded.value.headers, n) == GetAll(request.headers, n))
                    && s.forwarded.value.(headers := request.headers) == request)
  {
    if ContainsKey(request.headers, Authorization) then
      var answer := Forward(next, request);
      Step(Some(answer.0), Some(request), answer.1, slot)
    else
      var e := Ensured(slot, c, now, endpoint, encode, decode, fetchedAt);
      match e.0
      case Err(err) => Step(Some(Err(MiddlewareFailure(err))), None, request, e.1)
      case Ok(token) =>
        match ValueFromStr("Bearer " + token)
        case None => Step(None, None, request, e.1)
        case Some(v) =>
          var sent := request.(headers := Insert(request.headers, Authorization, v));
          var answer := Forward(next, sent);
          Step(Some(answer.0), Some(sent), answer.1, e.1)
  }

  /**
   * Two requests without `Authorization` in a row, the second while the token
   * the first one got is still valid: the second carries the same `Bearer`
   * header, the slot stays as the first left it, and whatever the token
   * endpoint would answer the second time does not matter.
   */
  lemma HandledTwice(slot: Option<TokenInfo>, c: Config, first: Request, second: Request, now1: nat, now2: nat,
                     endpoint: TokenEndpoint, other: TokenEndpoint, encode: FormEncoder, decode: TokenDecoder,
                     fetchedAt: nat, otherAt: nat, next: Endpoint)
    requires !ContainsKey(first.headers, Authorization) && !ContainsKey(second.headers, Authorization)
    requires Ensured(slot, c, now1, endpoint, encode, decode, fetchedAt).0.Ok?
    requires IsValid(Ensured(slot, c, now1, endpoint, encode, decode, fetchedAt).1.value, now2)
    ensures var s1 := Handled(slot, c, first, now1, endpoint, encode, decode, fetchedAt, next);
      var s2 := Handled(s1.slot, c, second, now2, other, encode, decode, otherAt, next);
      s2.slot == s1.slot
      && (s1.forwarded.Some? <==> s2.forwarded.Some?)
      && (s1.forwarded.Some? ==>
            GetAll(s2.forwarded.value.headers, Authorization) == GetAll(s1.forwarded.value.headers, Authorization))
  {
    var e := Ensured(slot, c, now1, endpoint, encode, decode, fetchedAt);
    var s1 := Handled(slot, c, first, now1, endpoint, encode, decode, fetchedAt, next);
    assert s1.slot == e.1;
    ValidTokenNotFetched(e.1, c, now2, other, endpoint, encode, decode, otherAt, fetchedAt);
    SecondRequestReusesToken(slot, c, now1, now2, endpoint, endpoint, encode, decode, fetchedAt);
    assert Ensured(e.1, c, now2, other, encode, decode, otherAt) == e;
  }

  /** The middleware: its settings and its token slot. */
  class OAuth2ClientCredentials {
    const config: Config
    var token: Option<TokenInfo>

    /** A middleware with an empty slot. */
    constructor(config: Config)
      ensures this.config == config && token.None?
    {
      this.config := config;
      token := None;
    }

    /** `ensure_token`, the slot read and written in sequence. */
    method EnsureToken(now: nat, endpoint: TokenEndpoint, encode: FormEncoder, decode: TokenDecoder, fetchedAt: nat)
      returns (r: Result<string, OAuth2Error>)
      modifies this
      ensures (r, token) == Ensured(old(token), config, now, endpoint, encode, decode, fetchedAt)
    {
      if token.Some? && IsValid(token.value, now) {
        return Ok(token.value.accessToken);
      }
      var fetched := FetchToken(config, endpoint, encode, decode, fetchedAt);
      if fetched.Err? {
        return Err(fetched.error);
      }
      token := Some(fetched.value);
      r := Ok(fetched.value.accessToken);
    }

    /** `Middleware::handle`: authorize unless already authorized, then pass the request on. */
    method Handle(request: Request, now: nat, endpoint: TokenEndpoint, encode: FormEncoder,
                  decode: TokenDecoder, fetchedAt: nat, next: Endpoint)
      returns (outcome: Option<Result<Response, MiddlewareError<OAuth2Error>>>, forwarded: Option<Request>, after: Request)
      modifies this
      ensures Step(outcome, forwarded, after, token)
        == Handled(old(token), config, request, now, endpoint, encode, decode, fetchedAt, next)
    {
      var sent := request;
      if !ContainsKey(request.headers, Authorization) {
        var t := EnsureToken(now, endpoint, encode, decode, fetchedAt);
        if t.Err? {
          return Some(Err(MiddlewareFailure(t.error))), None, request;
        }
        var value := ValueFromStr("Bearer " + t.value);
        if value.None? {
          return None, None, request;
        }
        sent := sent.(headers := Insert(sent.headers, Authorization, value.value));
      }
      var (res, left) := Forward(next, sent);
      return Some(res), Some(sent), left;
    }
  }
}
