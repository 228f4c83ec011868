/**
 * The authentication middlewares: `BearerAuth` and `BasicAuth` add an
 * `Authorization` header unless the request already carries one, then pass
 * the request on (Basic credentials per section 2 of RFC 7617).
 */
module Auth {
  import opened Common
  import opened Http
  import Utf8
  import Base64

  /** What a middleware did with one request: the result, the request passed on, and the request afterwards. */
  datatype Outcome<M> = Outcome(result: Result<Response, MiddlewareError<M>>, forwarded: Request, after: Request)

  /** Inserts `Authorization: value` unless an `Authorization` header is already present. */
  function Authorize(request: Request, value: HeaderValue): (r: Request)
    ensures ContainsKey(request.headers, Authorization) ==> r == request
    ensures !ContainsKey(request.headers, Authorization) ==>
      GetAll(r.headers, Authorization) == [value]
      && (forall other :: other != Authorization ==> GetAll(r.headers, other) == GetAll(request.headers, other))
      && r.verb == request.verb && r.uri == request.uri && r.body == request.body
  {
    if ContainsKey(request.headers, Authorization) then request
    else request.(headers := Insert(request.headers, Authorization, value))
  }

  /** The header text `BearerAuth` sends. */
  function BearerText(token: string): string { "Bearer " + token }

  /**
   * `BearerAuth::handle`: authorize with the token, then pass the request
   * on once. Parsing the header text panics on a token a header value cannot
   * hold, so a request without `Authorization` needs a token that can.
   */
  function Bearer(token: string, request: Request, next: Endpoint): (r: Outcome<()>)
    requires ContainsKey(request.headers, Authorization) || ValueFromStr(BearerText(token)).Some?
    ensures !ContainsKey(request.headers, Authorization) ==>
      r.forwarded == Authorize(request, Utf8.Encode(BearerText(token)))
    ensures ContainsKey(request.headers, Authorization) ==> r.forwarded == request
    ensures (r.result, r.after) == Forward(next, r.forwarded)
    ensures r.result.Err? ==> r.result.error.EndpointFailure?
  {
    var sent := if ContainsKey(request.headers, Authorization) then request
                else Authorize(request, ValueFromStr(BearerText(token)).value);
    var (result, after) := Forward(next, sent);
    Outcome(result, sent, after)
  }

  /** The credentials of `BasicAuth`: `user:password`, or `user:` with no password. */
  function Credentials(username: string, password: Option<string>): string {
    match password
    case Some(p) => username + ":" + p
    case None => username + ":"
  }

  /** A user name without a colon is recovered by splitting the credentials at the first colon. */
  lemma CredentialsSplit(username: string, password: Option<string>)
    requires ':' !in username
    ensures SplitOnce(Credentials(username, password), ':')
      == Some((username, if password.Some? then password.value else ""))
  {
    var p := if password.Some? then password.value else "";
    assert Credentials(username, password) == username + [':'] + p;
    SplitOnceOf(username, p, ':');
  }

  /** The header text of Basic credentials: `Basic ` and the padded base64 of their UTF-8 bytes. */
  function BasicText(credentials: string): string {
    "Basic " + Base64.Encode(Utf8.Encode(credentials))
  }

  /** The base64 text after `Basic ` decodes back to the credentials. */
  lemma BasicTextDecodes(credentials: string)
    ensures var t := BasicText(credentials);
      |t| >= 6 && t[..6] == "Basic "
      && Base64.Decode(t[6..]).Some?
      && Utf8.Decode(Base64.Decode(t[6..]).value) == Some(credentials)
  {
    var bytes := Utf8.Encode(credentials);
    var enc := Base64.Encode(bytes);
    var t := BasicText(credentials);
    assert t[..6] == "Basic " && t[6..] == enc;
    Base64.DecodeEncode(bytes);
    Utf8.DecodeEncode(credentials);
  }

  /** The Basic header text is visible ASCII: it is always a header value and reads back unchanged. */
  lemma BasicTextIsValue(credentials: string)
    ensures IsVisibleText(BasicText(credentials))
    ensures ValueFromStr(BasicText(credentials)).Some?
    ensures ToStr(ValueFromStr(BasicText(credentials)).value) == Some(BasicText(credentials))
  {
    var enc := Base64.Encode(Utf8.Encode(credentials));
    var t := BasicText(credentials);
    Base64.EncodeAlphabet(Utf8.Encode(credentials));
    forall i | 0 <= i < |t| ensures t[i] == '\t' || (32 <= t[i] as int < 127) {
      if i >= 6 { assert t[i] == enc[i - 6]; }
    }
    ToStrVisible(t);
  }

  /** `BasicAuth::handle`: authorize with the Basic credentials, then pass the request on once. */
  function Basic(username: string, password: Option<string>, request: Request, next: Endpoint): (r: Outcome<()>)
    ensures !ContainsKey(request.headers, Authorization) ==>
      r.forwarded == Authorize(request, Utf8.Encode(BasicText(Credentials(username, password))))
    ensures ContainsKey(request.headers, Authorization) ==> r.forwarded == request
    ensures (r.result, r.after) == Forward(next, r.forwarded)
    ensures r.result.Err? ==> r.result.error.EndpointFailure?
  {
    BasicTextIsValue(Credentials(username, password));
    var sent := if ContainsKey(request.headers, Authorization) then request
                else Authorize(request, ValueFromStr(BasicText(Credentials(username, password))).value);
    var (result, after) := Forward(next, sent);
    Outcome(result, sent, after)
  }

  /** A request sent with Basic auth and no header of its own carries exactly the Basic text. */
  lemma BasicHeaderSent(username: string, password: Option<string>, request: Request, next: Endpoint)
    requires !ContainsKey(request.headers, Authorization)
    ensures var sent := Basic(username, password, request, next).forwarded;
      GetAll(sent.headers, Authorization) == [Utf8.Encode(BasicText(Credentials(username, password)))]
      && ToStr(Get(sent.headers, Authorization).value) == Some(BasicText(Credentials(username, password)))
  {
    BasicTextIsValue(Credentials(username, password));
  }
}
