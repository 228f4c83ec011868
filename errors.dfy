/**
 * The crate's unified error: its variants, the category each one falls in,
 * the status it reports, the classification predicates and the conversion
 * from a middleware's error. Sources that are foreign error objects (I/O,
 * JSON, boxed transport errors) are carried as their description.
 */
module Errors {
  import opened Common
  import H = Http

  datatype CookieErrorKind = LoadFailed(io: string) | ParseFailed(reason: string) | PersistFailed(io: string) | InvalidHeader

  datatype OAuth2ErrorKind =
    | TokenFetchFailed(reason: string)
    | TokenEndpointError(status: H.StatusCode, message: string)
    | InvalidTokenResponse(reason: string)

  datatype DownloadErrorKind = UpstreamError(status: H.StatusCode) | FileSystem(io: string) | BodyRead(reason: string)

  datatype WebSocketErrorKind = EncodeFailed(reason: string) | UnsupportedScheme(scheme: string) | ConnectionFailed(reason: string)

  /** The response of an `Http` error and its body as text, when it was UTF-8. */
  datatype HttpErrorResponse = HttpErrorResponse(response: H.Response, bodyText: Option<string>)

  /** `zenwave::Error`. */
  datatype Error =
    | Http(status: H.StatusCode, message: string, response: HttpErrorResponse)
    | Transport(source: string)
    | Tls(source: string)
    | Timeout
    | TooManyRedirects(max: nat)
    | InvalidRedirectLocation
    | InvalidUri(uri: string)
    | InvalidRequest(reason: string)
    | BodyParse(reason: string)
    | Cookie(cookie: CookieErrorKind)
    | OAuth2(oauth2: OAuth2ErrorKind)
    | Download(download: DownloadErrorKind)
    | WebSocket(websocket: WebSocketErrorKind)
    | Io(io: string)
    | Other(source: string)

  /** `ErrorKind`, the category labels. */
  datatype ErrorKind = HttpKind | TransportKind | TlsKind | TimeoutKind | RedirectKind | RequestKind
                     | BodyParseKind | CookieKind | OAuth2Kind | DownloadKind | WebSocketKind | IoKind | OtherKind

  /** `ErrorKind`'s `Display`. */
  function Label(k: ErrorKind): string {
    match k
    case HttpKind => "http"
    case TransportKind => "transport"
    case TlsKind => "tls"
    case TimeoutKind => "timeout"
    case RedirectKind => "redirect"
    case RequestKind => "request"
    case BodyParseKind => "body_parse"
    case CookieKind => "cookie"
    case OAuth2Kind => "oauth2"
    case DownloadKind => "download"
    case WebSocketKind => "websocket"
    case IoKind => "io"
    case OtherKind => "other"
  }

  /** The category a label names, if any: the inverse of `Label`. */
  function KindOfLabel(s: string): Option<ErrorKind> {
    if s == "http" then Some(HttpKind)
    else if s == "transport" then Some(TransportKind)
    else if s == "tls" then Some(TlsKind)
    else if s == "timeout" then Some(TimeoutKind)
    else if s == "redirect" then Some(RedirectKind)
    else if s == "request" then Some(RequestKind)
    else if s == "body_parse" then Some(BodyParseKind)
    else if s == "cookie" then Some(CookieKind)
    else if s == "oauth2" then Some(OAuth2Kind)
    else if s == "download" then Some(DownloadKind)
    else if s == "websocket" then Some(WebSocketKind)
    else if s == "io" then Some(IoKind)
    else if s == "other" then Some(OtherKind)
    else None
  }

  /** Every label reads back as its own category. */
  lemma LabelRoundTrip(k: ErrorKind)
    ensures KindOfLabel(Label(k)) == Some(k)
  {
  }

  /** No two categories share a label. */
  lemma LabelsDistinct(k: ErrorKind, l: ErrorKind)
    requires k != l
    ensures Label(k) != Label(l)
  {
    LabelRoundTrip(k);
    LabelRoundTrip(l);
  }

  predicate IsNetworkError(e: Error) { e.Transport? || e.Tls? }
  predicate IsTimeout(e: Error) { e.Timeout? }
  predicate IsClientError(e: Error) { e.Http? && H.IsClientError(e.status) }
  predicate IsServerError(e: Error) { e.Http? && H.IsServerError(e.status) }
  predicate IsRedirectError(e: Error) { e.TooManyRedirects? || e.InvalidRedirectLocation? }
  predicate IsRequestError(e: Error) { e.InvalidRequest? || e.InvalidUri? }

  /**
   * `Error::kind`: every variant has a category; the two redirect variants
   * share one, and so do the two request variants. The predicates agree with
   * the categories.
   */
  function Kind(e: Error): (k: ErrorKind)
    ensures IsRedirectError(e) <==> k == RedirectKind
    ensures IsRequestError(e) <==> k == RequestKind
    ensures IsNetworkError(e) <==> k == TransportKind || k == TlsKind
    ensures IsTimeout(e) <==> k == TimeoutKind
    ensures IsClientError(e) || IsServerError(e) ==> k == HttpKind
  {
    match e
    case Http(_, _, _) => HttpKind
    case Transport(_) => TransportKind
    case Tls(_) => TlsKind
    case Timeout => TimeoutKind
    case TooManyRedirects(_) => RedirectKind
    case InvalidRedirectLocation => RedirectKind
    case InvalidUri(_) => RequestKind
    case InvalidRequest(_) => RequestKind
    case BodyParse(_) => BodyParseKind
    case Cookie(_) => CookieKind
    case OAuth2(_) => OAuth2Kind
    case Download(_) => DownloadKind
    case WebSocket(_) => WebSocketKind
    case Io(_) => IoKind
    case Other(_) => OtherKind
  }

  /** A client error is never a server error. */
  lemma ClientNotServer(e: Error)
    ensures !(IsClientError(e) && IsServerError(e))
  {
  }

  /**
   * `HttpError::status` for `Error`. Only three variants carry a status of
   * their own, and it is passed through; a timeout reports 504 and every
   * other error 500, so a client error reports a 4xx and a server error a 5xx.
   */
  function Status(e: Error): (r: H.StatusCode)
    ensures r != H.InternalServerError && r != H.GatewayTimeout ==>
              (e.Http? && r == e.status)
              || (e.OAuth2? && e.oauth2.TokenEndpointError? && r == e.oauth2.status)
              || (e.Download? && e.download.UpstreamError? && r == e.download.status)
    ensures e.Http? ==> r == e.status
    ensures e.OAuth2? && e.oauth2.TokenEndpointError? ==> r == e.oauth2.status
    ensures e.Download? && e.download.UpstreamError? ==> r == e.download.status
    ensures e.Timeout? ==> r == H.GatewayTimeout
    ensures Kind(e) !in {HttpKind, TimeoutKind, OAuth2Kind, DownloadKind} ==> r == H.InternalServerError
    ensures e.OAuth2? && !e.oauth2.TokenEndpointError? ==> r == H.InternalServerError
    ensures e.Download? && !e.download.UpstreamError? ==> r == H.InternalServerError
    ensures IsClientError(e) ==> H.IsClientError(r)
    ensures IsServerError(e) ==> H.IsServerError(r)
  {
    match e
    case Timeout => H.GatewayTimeout
    case Http(status, _, _) => status
    case OAuth2(TokenEndpointError(status, _)) => status
    case Download(UpstreamError(status)) => status
    case _ => H.InternalServerError
  }

  /** `Error::response_body`: the body text of an `Http` error, else nothing. */
  function ResponseBody(e: Error): (r: Option<string>)
    ensures e.Http? ==> r == e.response.bodyText
    ensures !e.Http? ==> r.None?
  {
    if e.Http? then e.response.bodyText else None
  }

  /** `Error::response`: the response of an `Http` error, and only of one. */
  function ResponseOf(e: Error): (r: Option<H.Response>)
    ensures r.Some? <==> e.Http?
    ensures r.Some? ==> r.value == e.response.response
  {
    if e.Http? then Some(e.response.response) else None
  }

  /** `Error::deserialize_http_error`, with the JSON decoder as a parameter: only an `Http` error with body text decodes. */
  function DeserializeHttpError<T>(e: Error, decode: string -> Option<T>): (r: Option<T>)
    ensures r.Some? ==> ResponseBody(e).Some? && r == decode(ResponseBody(e).value)
    ensures ResponseBody(e).Some? ==> r == decode(ResponseBody(e).value)
    ensures e.Http? && e.response.bodyText.Some? ==> r == decode(e.response.bodyText.value)
    ensures !e.Http? || e.response.bodyText.None? ==> r.None?
  {
    match ResponseBody(e)
    case None => None
    case Some(text) => decode(text)
  }

  /** `From<MiddlewareError<E, M>>`: each side goes through its own conversion. */
  function FromMiddleware<M>(err: H.MiddlewareError<M>, fromEndpoint: H.HttpError -> Error, fromMiddleware: M -> Error): (r: Error)
    ensures err.EndpointFailure? ==> r == fromEndpoint(err.endpoint)
    ensures err.MiddlewareFailure? ==> r == fromMiddleware(err.middleware)
  {
    match err
    case EndpointFailure(e) => fromEndpoint(e)
    case MiddlewareFailure(m) => fromMiddleware(m)
  }
}
