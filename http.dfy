/**
 * The HTTP vocabulary the middlewares share: status codes, methods, header
 * maps (the `http` crate's `HeaderMap`), requests, responses and the errors
 * an inner endpoint may return.
 */
module Http {
  import opened Common
  import Utf8

  // ---------------------------------------------------------------------
  // Status codes

  /** `http::StatusCode` holds the three-digit codes 100 through 999. */
  type StatusCode = s: int | 100 <= s < 1000 witness 200

  const OK: StatusCode := 200
  const PartialContent: StatusCode := 206
  const MovedPermanently: StatusCode := 301
  const Found: StatusCode := 302
  const SeeOther: StatusCode := 303
  const NotModified: StatusCode := 304
  const InternalServerError: StatusCode := 500
  const BadGateway: StatusCode := 502
  const ServiceUnavailable: StatusCode := 503
  const GatewayTimeout: StatusCode := 504

  predicate IsSuccess(s: StatusCode) { 200 <= s < 300 }
  predicate IsRedirection(s: StatusCode) { 300 <= s < 400 }
  predicate IsClientError(s: StatusCode) { 400 <= s < 500 }
  predicate IsServerError(s: StatusCode) { 500 <= s < 600 }

  /** `StatusCode::from_u16`: defined for 100 through 999. */
  function StatusFromU16(n: nat): (r: Option<StatusCode>)
    ensures r.Some? <==> 100 <= n < 1000
    ensures r.Some? ==> r.value == n
  {
    if 100 <= n < 1000 then Some(n) else None
  }

  // ---------------------------------------------------------------------
  // Methods

  datatype Method = GET | HEAD | POST | PUT | DELETE | PATCH | OPTIONS | CONNECT | TRACE
                  | Extension(token: string)

  // ---------------------------------------------------------------------
  // Header maps

  /** Header names as `HeaderName` stores them: lower-case. */
  const Authorization := "authorization"
  const CacheControl := "cache-control"
  const ContentLength := "content-length"
  const ContentType := "content-type"
  const Cookie := "cookie"
  const Date := "date"
  const ETag := "etag"
  const Expires := "expires"
  const Host := "host"
  const IfModifiedSince := "if-modified-since"
  const IfNoneMatch := "if-none-match"
  const LastModified := "last-modified"
  const Location := "location"
  const Range := "range"
  const Age := "age"

  type HeaderValue = seq<byte>

  /** A header map: (name, value) pairs; a name may carry several values. */
  type Headers = seq<(string, HeaderValue)>

  /** Every value stored under `name`, in insertion order (`get_all`). */
  function GetAll(h: Headers, name: string): (vs: seq<HeaderValue>)
    ensures |vs| <= |h|
  {
    if h == [] then []
    else (if h[0].0 == name then [h[0].1] else []) + GetAll(h[1..], name)
  }

  predicate ContainsKey(h: Headers, name: string) { GetAll(h, name) != [] }

  /** The first value stored under `name` (`get`). */
  function Get(h: Headers, name: string): (r: Option<HeaderValue>)
    ensures r.Some? <==> ContainsKey(h, name)
    ensures r.Some? ==> r.value == GetAll(h, name)[0]
  {
    var vs := GetAll(h, name);
    if vs == [] then None else Some(vs[0])
  }

  lemma {:induction false} GetAllConcat(a: Headers, b: Headers, name: string)
    ensures GetAll(a + b, name) == GetAll(a, name) + GetAll(b, name)
  {
    if a != [] {
      assert (a + b)[1..] == a[1..] + b;
      GetAllConcat(a[1..], b, name);
    } else {
      assert a + b == b;
    }
  }

  /** `remove`: drops every value of `name` and nothing else. */
  function Remove(h: Headers, name: string): (r: Headers)
    ensures GetAll(r, name) == []
    ensures forall other :: other != name ==> GetAll(r, other) == GetAll(h, other)
  {
    if h == [] then []
    else if h[0].0 == name then Remove(h[1..], name)
    else [h[0]] + Remove(h[1..], name)
  }

  /** `append`: adds one more value under `name`. */
  function Append(h: Headers, name: string, v: HeaderValue): (r: Headers)
    ensures GetAll(r, name) == GetAll(h, name) + [v]
    ensures forall other :: other != name ==> GetAll(r, other) == GetAll(h, other)
  {
    GetAllConcatSingle(h, name, v);
    h + [(name, v)]
  }

  lemma GetAllConcatSingle(h: Headers, name: string, v: HeaderValue)
    ensures forall other ::
      (GetAll(h + [(name, v)], other) == GetAll(h, other) + (if other == name then [v] else []))
  {
    forall other ensures GetAll(h + [(name, v)], other)
      == GetAll(h, other) + (if other == name then [v] else [])
    {
      GetAllConcat(h, [(name, v)], other);
    }
  }

  /** `insert`: `name` ends up with exactly the one value `v`; other names keep theirs. */
  function Insert(h: Headers, name: string, v: HeaderValue): (r: Headers)
    ensures GetAll(r, name) == [v]
    ensures forall other :: other != name ==> GetAll(r, other) == GetAll(h, other)
  {
    Append(Remove(h, name), name, v)
  }

  /** `header_map.clear()`. */
  const Empty: Headers := []

  // ---------------------------------------------------------------------
  // Header values

  /** The bytes `HeaderValue::from_str` accepts: visible characters, obs-text and tab. */
  predicate IsValueByte(b: byte) { b == 9 || (32 <= b && b != 127) }

  /** The bytes `HeaderValue::to_str` accepts: visible ASCII and tab. */
  predicate IsVisibleAscii(b: byte) { b == 9 || (32 <= b < 127) }

  /** `HeaderValue::to_str`: the text, when every byte is visible ASCII. */
  function ToStr(v: HeaderValue): (r: Option<string>)
    ensures r.Some? <==> forall i :: 0 <= i < |v| ==> IsVisibleAscii(v[i])
    ensures r.Some? ==> |r.value| == |v| && forall i :: 0 <= i < |v| ==> r.value[i] as int == v[i]
  {
    if v == [] then Some("")
    else if !IsVisibleAscii(v[0]) then None
    else match ToStr(v[1..])
      case None => None
      case Some(rest) => Some([v[0] as char] + rest)
  }

  predicate IsValueText(s: string) {
    forall i :: 0 <= i < |s| ==> s[i] == '\t' || (s[i] as int >= 32 && s[i] as int != 127)
  }

  predicate IsVisibleText(s: string) {
    forall i :: 0 <= i < |s| ==> s[i] == '\t' || (32 <= s[i] as int < 127)
  }

  /** Every byte of the UTF-8 form of a `IsValueText` string is a valid header-value byte. */
  lemma {:induction false} ValueTextBytes(s: string)
    requires IsValueText(s)
    ensures forall i :: 0 <= i < |Utf8.Encode(s)| ==> IsValueByte(Utf8.Encode(s)[i])
  {
    if s != [] {
      ValueTextBytes(s[1..]);
      var e := Utf8.EncodeChar(s[0]);
      assert Utf8.Encode(s) == e + Utf8.Encode(s[1..]);
      assert forall i :: 0 <= i < |e| ==> IsValueByte(e[i]);
      forall i | 0 <= i < |Utf8.Encode(s)| ensures IsValueByte(Utf8.Encode(s)[i]) {
        if i >= |e| { assert Utf8.Encode(s)[i] == Utf8.Encode(s[1..])[i - |e|]; }
      }
    }
  }

  /** `HeaderValue::from_str`: the UTF-8 bytes, when they are all allowed in a header value. */
  function ValueFromStr(s: string): (r: Option<HeaderValue>)
    ensures IsValueText(s) ==> r == Some(Utf8.Encode(s))
    ensures r.Some? ==> r.value == Utf8.Encode(s)
  {
    var bs := Utf8.Encode(s);
    if IsValueText(s) then ValueTextBytes(s); Some(bs)
    else if forall i :: 0 <= i < |bs| ==> IsValueByte(bs[i]) then Some(bs)
    else None
  }

  /** A header value built from text that is visible ASCII reads back as that text. */
  lemma ToStrVisible(s: string)
    requires IsVisibleText(s)
    ensures ToStr(Utf8.Encode(s)) == Some(s)
  {
    Utf8.EncodeAscii(s);
    var r := ToStr(Utf8.Encode(s));
    assert r.Some?;
    assert r.value == s;
  }

  // ---------------------------------------------------------------------
  // Messages

  datatype Request = Request(verb: Method, uri: string, headers: Headers, body: seq<byte>)

  datatype Response = Response(status: StatusCode, headers: Headers, body: seq<byte>)

  /** An error from an inner endpoint: what `HttpError::status` reports, and a description. */
  datatype HttpError = HttpError(status: Option<StatusCode>, message: string)

  /**
   * What an inner endpoint does with a request: the outcome, and the request
   * as the endpoint leaves it behind (the transports move the request out and
   * leave a placeholder in its place).
   */
  type Endpoint = Request -> (Result<Response, HttpError>, Request)

  /** The request the transports leave behind: `GET /`, no headers, empty body. */
  const Placeholder: Request := Request(GET, "/", [], [])

  /** `http_kit::middleware::MiddlewareError`: the inner endpoint's error, or the middleware's own. */
  datatype MiddlewareError<M> = EndpointFailure(endpoint: HttpError) | MiddlewareFailure(middleware: M)

  /** `next.respond(request).map_err(MiddlewareError::Endpoint)`: the request passed on once. */
  function Forward<M>(next: Endpoint, request: Request): (r: (Result<Response, MiddlewareError<M>>, Request))
    ensures r.1 == next(request).1
    ensures r.0.Ok? <==> next(request).0.Ok?
    ensures r.0.Ok? ==> r.0.value == next(request).0.value
    ensures r.0.Err? ==> r.0.error == EndpointFailure(next(request).0.error)
  {
    var (res, left) := next(request);
    match res
    case Ok(response) => (Ok(response), left)
    case Err(e) => (Err(EndpointFailure(e)), left)
  }
}
