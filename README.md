# zenwave, modelled in Dafny

zenwave is an HTTP client framework. Its value lies in its middlewares, which sit between the caller and any transport and implement protocol behaviour. This project models that middleware core and the helpers it depends on, and proves properties of the model:

- **Cache** (`cache.dfy`): the in-memory response cache.
  - Requests are keyed by GET URI.
  - `Cache-Control` is parsed.
  - Fresh entries are served with an `Age` header.
  - Stale entries are revalidated with `If-None-Match` / `If-Modified-Since`, and a `304` refreshes the entry.
  - An entry is admitted only when `no-store` and `Authorization` allow it.
  - The table is a `map` field of a `Cache` class, and `Handle` is proved against a transition function.
  - The transition takes as a parameter where the credential test looks for `Authorization`. `Handled` is the code as written: the test reads the request after the inner endpoint has had it. `HandledCorrected` reads the request as it was sent (see Findings). The properties hold for both unless a lemma names one.
- **Redirect** (`redirect.dfy`): the redirect follower.
  - It follows at most ten redirects.
  - `Location` is resolved against the current URL.
  - 301/302/303 turn the method into GET.
  - Headers are rebuilt from the original request. `Host` and `Content-Length` are always dropped. `Authorization` and `Cookie` are dropped when the host changes.
- **Retry** (`retry.dfy`): the retry loop with exponential backoff capped at a maximum delay.
- **OAuth2** (`oauth2.dfy`): the client-credentials middleware.
  - It keeps one token slot and fetches a token only when the slot holds none that is still valid.
  - The expiry keeps a safety margin.
  - It builds the form body and classifies the token endpoint's errors.
- **Auth** (`auth.dfy`): the Bearer and Basic middlewares. Basic credentials are base64 (`base64.dfy`) of their UTF-8 bytes (`utf8.dfy`).
- **Errors** (`errors.dfy`): the crate's unified error, its categories and their labels, the status each error reports, and the conversions.
- **Proxy** (`proxy.dfy`): the proxy builder and environment reader, the `NO_PROXY` list, and the matcher that picks a proxy for a URI.
- **Multipart** (`multipart.dfy`): parts, the container, and the `multipart/form-data` encoder with its boundary.
- **Curl** (`curl.dfy`): the libcurl backend's transfer handler.
  - It parses status and header lines.
  - It collects the response body.
  - It hands out the request body chunk by chunk into curl's buffer, which is modelled as an `array`.
- **Download** (`download.dfy`): `download_to_path`.
  - It resumes a partial file with a `Range` request (section 14 of RFC 9110) when the server answers 206.
  - It starts over when the server sends the whole body.
- **WebSocket** (`websocket.dfy`): messages, settings, the scheme check before the handshake, the errors, sending, and the receive loop that answers pings with pongs (section 5.5.2 of RFC 6455).
- **Shared modules**: `Common` has strings and decimal numbers as Rust's standard library treats them. `Http` has status codes, the header multimap, header values, and requests and responses as the `http` crate treats them.

Conventions of the model:

- Time is a natural number of nanoseconds.
- A header map is a sequence of (lower-case name, value bytes) pairs.
- The inner client of a middleware is a parameter: a function from the request it is given to its answer and to the request as it leaves it behind.
- Things computed outside the core are parameters too: URL parsing, HTTP dates, JSON, and form encoding.

Notes on what the code does:

- The redirect follower strips `Authorization` and `Cookie` on each hop whose host differs from the hop before it. The stripping is not carried over to later hops (src/redirect.rs:109-115).
- The redirect follower keeps `Content-Type` on every hop (src/redirect.rs:109-116).
- The redirect follower always sends an empty body on a redirected request, for every status (src/redirect.rs:103-107).
- The retry loop takes no snapshot of the request (src/retry.rs:84-93). See Findings.
- The OAuth2 middleware checks the slot twice under one lock. The model checks it once: without concurrency, the second check cannot differ from the first.

## Model

| member | source | states |
|---|---|---|
| Cache.MaxAgeOf | src/cache.rs:256-260 | an argument is read only from a directive that starts with `max-age=`, and only when it fits a `u64` |
| Cache.LastMaxAgeSpec | src/cache.rs:256-260 | the reference reading of `max-age`: none iff no directive carries a valid one, otherwise the value of the last one that does |
| Cache.FoldDirectivesDescribed | src/cache.rs:247-263 | folding the directives of one value sets each flag iff it was set or its keyword occurs after trimming and lower-casing, and takes the last valid `max-age` |
| Cache.FoldValuesDescribed | src/cache.rs:242-266 | the same over every `Cache-Control` value in order, across value boundaries |
| Cache.FromHeaderMapSpec | src/cache.rs:241-267 | `from_header_map`: a flag is set iff its keyword appears (trimmed, any case) in some text value; `max-age` is the last valid one; anything else is ignored |
| Cache.ExpiresIn | src/cache.rs:135-137 | `expires_in` gives a positive duration only when `Expires` is present, is text, and the date oracle reads it as that duration |
| Cache.ApplyConditionalHeaders | src/cache.rs:176-183 | `If-None-Match` becomes the stored ETag and `If-Modified-Since` the stored Last-Modified, each only when present; all other headers are unchanged |
| Cache.CopyHeaders | src/cache.rs:187-197 | each allow-listed name the 304 carries ends up with exactly the 304's first value; other names keep theirs |
| Cache.RefreshedSpec | src/cache.rs:185-210 | after a 304 the entry is stored at `now`; only the five allow-listed headers change, each to the 304's value when it carries one and otherwise kept; `max-age` replaces the lifetime, otherwise an `Expires` of the merged headers does, otherwise the old lifetime stays; `no-cache` or `must-revalidate` set the flag and nothing clears it; status, body and validators stay |
| Cache.UpdateFrom304 | src/cache.rs:185-210 | the allow-list loop and the lifetime updates give exactly the refreshed entry |
| Cache.ToResponse | src/cache.rs:212-227 | the synthesised response has the stored status, body and every header except `Age` |
| Cache.ToResponseAge | src/cache.rs:213-218 | its `Age` is the decimal text of the whole seconds since storage, and parses back to that number |
| Cache.FromResponse | src/cache.rs:121-165 | a response is kept iff it has a lifetime (`max-age`, else `Expires`) or must be revalidated; the entry records status, headers, body, `now`, lifetime, flag and validators; an unkept response passes through unchanged |
| Cache.Admit | src/cache.rs:88-104 | a response is kept iff it is `Storable` (not `no-store`; no `Authorization` in the headers tested, or `public`; a lifetime or revalidation), and then as `FromResponse` builds it; an unkept response passes through unchanged |
| Cache.CacheKey | src/cache.rs:33-38 | there is a key iff the method is GET, and it is the URI |
| Cache.Cache.constructor | src/cache.rs:27-31 | the table starts empty |
| Cache.Prepare | src/cache.rs:62-73 | before forwarding, a validatable entry is taken out, becomes the pending entry and its validators go on the request; an unvalidatable entry that must be revalidated is evicted; only a fresh, unvalidatable entry under a `no-cache` request stays |
| Cache.Transition | src/cache.rs:42-105 | a call of the middleware changes no key of the table other than the request's URI |
| Cache.Cache.Handle | src/cache.rs:42-105 | the step-by-step table updates, the call of the inner endpoint, and the credential test on the request the endpoint leaves behind give exactly the transition `Handled`, the code as written |
| CacheProperties.NonGetBypasses | src/cache.rs:43-45 | a request that is not GET is forwarded as it is, its result is returned, and the table is unchanged |
| CacheProperties.NoStoreEvicts | src/cache.rs:47-51 | a `no-store` request removes its key, is forwarded as it is, and nothing is stored for it |
| CacheProperties.ServedIffFresh | src/cache.rs:53-60 | the inner endpoint is skipped iff a GET without `no-store` finds an entry that is fresh, not must-revalidate, and the request has no `no-cache`; then the stored response with its `Age` is returned and the table is unchanged |
| CacheProperties.RevalidationIsConditional | src/cache.rs:62-104 | an entry that is not served and has a validator is taken out and its validators are sent as conditional headers; on an error it stays out; on a 304 the refreshed entry is reinserted and returned; on a new response the key holds the entry built from it iff it is `Storable`, and otherwise stays empty and the response is returned |
| CacheProperties.UnvalidatableEvicted | src/cache.rs:70-72 | a stale or must-revalidate entry without a validator is evicted, and the key holds an entry afterwards only if a new response was stored at `now` |
| CacheProperties.UnsolicitedNotModified | src/cache.rs:84-85 | a 304 with no pending entry is returned as it is and the table is unchanged |
| CacheProperties.StoredIff | src/cache.rs:62-104 | for any forwarded GET answered with a new response, whatever the table held: the key maps to the entry built from the response iff it is not `no-store`, the tested request had no `Authorization` or the response is `public`, and it has a lifetime or must be revalidated, and then that entry is answered; otherwise the response is returned, and the key keeps its old entry if it stayed in the table while forwarding and is absent if it was taken out |
| CacheProperties.StoredThenServed | src/cache.rs:280-296 | a forwarded GET without credentials or `no-cache`, answered with `max-age=n` and no `no-store`, `no-cache` or `must-revalidate`, stores the response; a second GET of the URI less than n seconds later is answered from that entry, with the first body, without the inner endpoint |
| CacheProperties.AsWrittenStoresPrivateResponse | src/cache.rs:88-90 | over a transport that leaves the placeholder request, the middleware as written stores a private response to a GET with `Authorization`; with the test on the sent request it does not |
| CacheProperties.PrivateNeverStored | src/cache.rs:89-92 | with the credential test made on the request that was sent, a GET with `Authorization` whose forwarded answer is new and not `public` stores nothing: its key afterwards holds at most the entry it held before |
| Redirect.Status | src/redirect.rs:44-51 | only a remote error has a status, the inner error's; every other error has none |
| Redirect.NextMethod | src/redirect.rs:93-101 | the method changes iff the status is 303 and the method is not GET, or 301/302 and the method is neither GET nor HEAD, and then it becomes GET |
| Redirect.HopHeadersSpec | src/redirect.rs:109-116 | a hop's headers are the original request's without `Host` and `Content-Length`, and without `Authorization` and `Cookie` exactly when the host changes; every other header is kept |
| Redirect.NextHopSpec | src/redirect.rs:77-118 | a missing `Location` is `MissingLocationHeader` and any other failure is `InvalidLocationHeader`; a usable one gives the next request with the method from `NextMethod`, an empty body, the rebuilt headers and the URI of the resolved target |
| Redirect.HopsLocationErrorsOnly | src/redirect.rs:77-91 | a hop fails only with one of the two `Location` errors |
| Redirect.AdvanceAnswer | src/redirect.rs:69-71 | a round ends with a response exactly when the client's answer is not a redirect, and it is that answer |
| Redirect.AdvanceTooMany | src/redirect.rs:73-75 | a round ends with `TooManyRedirects` exactly when a redirect arrives after ten have been followed |
| Redirect.AdvanceRemoteError | src/redirect.rs:63-67 | a round ends with `RemoteError` exactly when the client fails, carrying its error |
| Redirect.AdvanceContinue | src/redirect.rs:73-121 | a round goes on exactly when a redirect within the limit yields a hop, and with that hop |
| Redirect.Run | src/redirect.rs:62-122 | the chain from redirect number `count` hands the client between one and `11 - count` requests, starting with the current one |
| Redirect.Chase | src/redirect.rs:62-122 | the loop, with its counter, URL and method variables, returns what `Run` defines, and the requests it sent |
| Redirect.Respond | src/redirect.rs:55-61 | an unparsable request URI is `InvalidUrl` with nothing sent; otherwise the loop runs with hops rebuilt from the original headers |
| RedirectProperties.RunEnds | src/redirect.rs:62-122 | every chain ends with the last request's non-3xx answer, with `TooManyRedirects` after the full allowance of requests, or with the last request's own error |
| RedirectProperties.HopLinked | src/redirect.rs:93-118 | a hop from a redirect has the rewritten method, an empty body, no `Host` or `Content-Length`, the other original headers, and credentials kept or dropped |
| RedirectProperties.HopsLinked | src/redirect.rs:93-118 | every hop computed from a redirect is linked to the request that drew it and carries the method it records |
| RedirectProperties.RunLinked | src/redirect.rs:103-121 | each request in a chain follows from the answer to the one before, as `HopLinked` says |
| RedirectProperties.NonRedirectReturned | src/redirect.rs:69-71 | a non-3xx first answer is returned as it is, after exactly one call |
| RedirectProperties.FollowBounded | src/redirect.rs:56 | the client receives at most eleven requests, the first being the caller's, and none when the URI does not parse |
| RedirectProperties.FollowOutcome | src/redirect.rs:55-122 | a followed chain ends as `RunEnds` says and every request follows from the one before |
| RedirectProperties.PostAfterFoundBecomesGet | tests/redirect_tests.rs:105-131 | a POST answered with 302 is retried as GET and keeps the other original headers |
| Retry.New | src/retry.rs:54-61 | `Retry::new` keeps the retry count and sets the delays to 100 ms and 5 s |
| Retry.WithMinDelay | src/retry.rs:65-68 | the setter changes the lower delay and nothing else |
| Retry.WithMaxDelay | src/retry.rs:72-75 | the setter changes the upper delay and nothing else |
| Retry.BackoffCapped | src/retry.rs:95-97 | the delay after failure `k` is `min(min_delay * 2^(k-1), max_delay)`: never above `max_delay`, and exactly the doubled lower delay while that is not above it |
| Retry.BackoffMonotone | src/retry.rs:96-97 | later retries never wait less than earlier ones |
| Retry.NextRequest | src/retry.rs:86-87 | the next attempt gets the snapshot when there is one, and otherwise the request the previous attempt left behind |
| Retry.Run | src/retry.rs:86-109 | the attempts from number `k` send between one and `max_retries + 1 - k` requests, starting with the current one, with one delay between each two |
| Retry.Respond | src/retry.rs:84-110 | `respond` as written calls the inner client at most `max_retries + 1` times |
| Retry.Replaying | tests/retry_tests.rs:186-211 | the corrected `respond`: every attempt is sent the caller's request |
| Retry.RunReplays | tests/retry_tests.rs:207-210 | with a snapshot, every attempt from any number on is sent the snapshot |
| Retry.Attempt | src/retry.rs:84-110 | the loop with its `attempts` counter returns the outcome, the requests sent, the delays slept and the request left, exactly as `Respond` defines |
| RetryProperties.RunUnfolds | src/retry.rs:86-107 | every attempt but the last failed, was followed by the backoff for its number and handed the next attempt its request; the last attempt's answer or error is the outcome |
| RetryProperties.RunGivesUp | src/retry.rs:89-93 | an error is returned only after every allowed attempt failed |
| RetryProperties.RespondOutcome | src/retry.rs:84-110 | both of the above for a whole call: an error comes after exactly `max_retries + 1` failures |
| RetryProperties.AnswerReturnedAtOnce | src/retry.rs:87-88 | an answer of any status at the first attempt is returned after one call, with no delay |
| RetryProperties.NoRetriesOneAttempt | src/retry.rs:90-93 | with `max_retries = 0` the inner client is called exactly once |
| RetryProperties.SucceedsAfterFailures | tests/retry_tests.rs:132-156 | a client that fails `n` times and then answers is answered after `n + 1` calls when `n` retries are allowed |
| RetryProperties.AlwaysFailing | tests/retry_tests.rs:158-182 | a client that always fails is called `max_retries + 1` times and its error is returned |
| RetryProperties.RetryLosesBody | src/retry.rs:84-93 | as written, when the first attempt takes the body and fails, the retry is sent without the body |
| RetryProperties.ReplayKeepsBody | tests/retry_tests.rs:186-211 | replaying a snapshot, the retry is sent the caller's body and the call succeeds |
| OAuth2.Status | src/oauth2.rs:40-48 | a transport error passes its own status through (possibly none), a refusal reports the token endpoint's status, an unreadable answer is 502 Bad Gateway; only a transport error can have no status |
| OAuth2.NewConfig | src/oauth2.rs:91-107 | `new` keeps the URL and credentials, sets no scope and no audience, and a 30-second safety window |
| OAuth2.WithScope | src/oauth2.rs:111-116 | sets the scope and leaves every other setting as it was |
| OAuth2.WithAudience | src/oauth2.rs:120-125 | sets the audience and leaves every other setting as it was |
| OAuth2.BuildBodySpec | src/oauth2.rs:195-207 | the form starts with `grant_type=client_credentials`, `client_id`, `client_secret`; `scope` is present iff a scope is set and comes fourth, `audience` is present iff an audience is set and comes last; no key appears twice |
| OAuth2.ExpiresAtBounds | src/oauth2.rs:181-187 | the expiry is the lifetime less `min(window, lifetime/2 in whole seconds)`: at least the fetch plus the larger half of the lifetime, at most the fetch plus the whole lifetime, and later than the fetch for a lifetime of one second or more |
| OAuth2.DefaultExpiry | src/oauth2.rs:181-187 | an answer without `expires_in` under the default window gives a token that lives 3570 seconds |
| OAuth2.FetchToken | src/oauth2.rs:152-193 | one POST of the form to the token URL; each of the four outcomes holds exactly when its condition does: transport failure is `Transport`, a non-2xx status is `Upstream` with that status, an undecodable 2xx body is `InvalidResponse`, a decoded body is the token with its computed expiry |
| OAuth2.Ensured | src/oauth2.rs:127-150 | a valid token in the slot is returned and the slot kept; otherwise the fetch's error is returned with the slot untouched, or the fetched token is returned and stored; a returned token is always the one left in the slot |
| OAuth2.ValidTokenNotFetched | src/oauth2.rs:131-135 | while the slot holds a valid token the result does not depend on the token endpoint or the fetch instant |
| OAuth2.SecondRequestReusesToken | src/oauth2.rs:58-60 | after a successful fetch whose token is still valid at the next call, the next call returns the same token and leaves the slot unchanged |
| OAuth2.Handled | src/oauth2.rs:212-234 | a request with its own `Authorization` is passed on as it is and the slot is not touched; otherwise a failed token fetch is returned as a middleware error without calling the inner endpoint, and a token yields exactly one `Authorization: Bearer <token>` header with every other header and the method, URI and body kept |
| OAuth2.HandledTwice | src/oauth2.rs:56-60 | two requests without `Authorization`, the second while the first one's token is valid: both carry the same `Authorization` header, and the slot stays as the first request left it, whatever the token endpoint would answer the second time |
| OAuth2.OAuth2ClientCredentials.constructor | src/oauth2.rs:91-107 | a new middleware has the given settings and an empty token slot |
| OAuth2.OAuth2ClientCredentials.EnsureToken | src/oauth2.rs:127-150 | the method returns and stores what `Ensured` gives for the slot it found |
| OAuth2.OAuth2ClientCredentials.Handle | src/oauth2.rs:212-234 | the method's outcome, forwarded request and new slot are those of `Handled` for the slot it found |
| Auth.Authorize | src/auth.rs:31-36 | a request that has `Authorization` is left as it is; otherwise it gets exactly one `Authorization` value, and every other header, the method, URI and body are kept |
| Auth.Bearer | src/auth.rs:25-39 | `BearerAuth` forwards the request authorized with `Bearer <token>` (or unchanged if it had `Authorization`) once, and returns the inner endpoint's answer, its errors wrapped as endpoint errors |
| Auth.CredentialsSplit | src/auth.rs:71-74 | for a user name without a colon, the credentials split at the first colon give back the user name and the password (empty when none is set) |
| Auth.BasicTextDecodes | src/auth.rs:76-77 | the header text is `Basic ` followed by base64 that decodes to the UTF-8 bytes of the credentials |
| Auth.BasicTextIsValue | src/auth.rs:77-81 | the header text is visible ASCII, so parsing it as a header value always succeeds and reads back unchanged |
| Auth.Basic | src/auth.rs:62-85 | `BasicAuth` forwards the request authorized with the Basic text (or unchanged if it had `Authorization`) once, and returns the inner endpoint's answer, its errors wrapped as endpoint errors |
| Auth.BasicHeaderSent | src/auth.rs:68-84 | a request without `Authorization` is sent with exactly one `Authorization` header, whose text is the Basic text |
| Errors.LabelRoundTrip | src/error.rs:333-351 | every category's display label reads back as that category |
| Errors.LabelsDistinct | src/error.rs:333-351 | no two categories share a display label |
| Errors.Kind | src/error.rs:190-297 | every variant has a category; `is_redirect_error`, `is_request_error`, `is_network_error` and `is_timeout` each hold exactly when the category is the matching one; client and server errors are `Http` |
| Errors.ClientNotServer | src/error.rs:201-209 | no error is both a client error and a server error |
| Errors.Status | src/error.rs:354-364 | an `Http`, token-endpoint or upstream-download error reports exactly the status it carries; a timeout reports 504; every other variant reports 500; a status other than 500 and 504 comes from one of the three carrying variants; a client error reports a 4xx and a server error a 5xx |
| Errors.ResponseBody | src/error.rs:225-230 | an `Http` error gives exactly its response's body text, and every other error gives none |
| Errors.ResponseOf | src/error.rs:233-238 | there is a response exactly for an `Http` error, and it is that error's response |
| Errors.DeserializeHttpError | src/error.rs:268-276 | an `Http` error with body text gives the JSON decoding of that text; any other error, or one without body text, gives nothing |
| Errors.FromMiddleware | src/error.rs:367-378 | an endpoint error goes through the endpoint's conversion and a middleware error through the middleware's |
| Proxy.Userinfo | src/proxy.rs:139-142 | the userinfo is empty when the authority has no `@`, and otherwise the text before its last `@` |
| Proxy.ParseProxy | src/proxy.rs:136-160 | a proxy string gives a configuration exactly when it parses as a URI with an authority; the configuration keeps the URI, has a `Basic` header (of the userinfo's base64) exactly when the userinfo is non-empty, and has raw credentials exactly when the userinfo has a colon, split at the first one |
| Proxy.WithAll | src/proxy.rs:83-86 | sets the `all` proxy and nothing else |
| Proxy.WithHttp | src/proxy.rs:90-93 | sets the `http` proxy and nothing else |
| Proxy.WithHttps | src/proxy.rs:97-100 | sets the `https` proxy and nothing else |
| Proxy.NoProxyEntries | src/proxy.rs:105-110 | every entry of a `NO_PROXY` list is non-empty, holds no comma and is lower case |
| Proxy.NoProxySingle | src/proxy.rs:105-110 | a non-empty list without a comma is a single entry, its lower-cased self, blanks kept |
| Proxy.NoProxyConcat | src/proxy.rs:105-111 | the entries of two lists joined by a comma are the union of their entries |
| Proxy.WithNoProxy | src/proxy.rs:104-113 | `no_proxy` adds the list's entries to the ones already there and changes nothing else |
| Proxy.Build | src/proxy.rs:117-125 | each of the three proxies is present exactly when it was set and parses, and is then its parsed configuration; the `NO_PROXY` entries are kept |
| Proxy.FromEnvIsBuild | src/proxy.rs:195-215 | reading `HTTP_PROXY`, `HTTPS_PROXY`, `ALL_PROXY` and `NO_PROXY` gives the same matcher as the builder given those values |
| Proxy.ChosenSpec | src/proxy.rs:223-228 | an `http` or `https` destination uses its own scheme's proxy when one is set and the `all` proxy otherwise; other schemes get no proxy |
| Proxy.InterceptOf | src/proxy.rs:217-235 | a URI goes through a proxy exactly when it has a host, its lower-cased host ends with no `NO_PROXY` entry, and its scheme (`http` when it has none) has a proxy; the proxy's URI and credentials are copied over unchanged |
| Proxy.SuffixBypasses | src/proxy.rs:218-221 | a host that ends with any entry goes direct, whatever the scheme and the proxies |
| Proxy.SuffixMatchIsPlain | src/proxy.rs:219 | an instance of `SuffixBypasses`: the match is a plain suffix match, so with the entry `example.com` a URI whose host is `notexample.com`, in any ASCII case, is never sent through a proxy |
| Multipart.NewPart | src/multipart.rs:18-25 | a new part has the given name and data and neither filename nor content type |
| Multipart.TextPart | src/multipart.rs:29-31 | a text part is a new part whose data decodes as UTF-8 back to the text |
| Multipart.BinaryPart | src/multipart.rs:35-47 | a binary part has the given name, data, filename and content type |
| Multipart.WithFilename | src/multipart.rs:51-54 | sets the filename and nothing else |
| Multipart.WithContentType | src/multipart.rs:58-61 | sets the content type and nothing else |
| Multipart.FilenameText | src/multipart.rs:136-138 | the `; filename="…"` text is empty exactly when the part has no filename |
| Multipart.ContentTypeText | src/multipart.rs:142-144 | the `Content-Type` line is empty exactly when the part has no content type |
| Multipart.BodyShape | src/multipart.rs:130-150 | the body always ends with the closing delimiter `--boundary--` CR LF and is only that with no parts; a part added last adds exactly its section before the delimiter |
| Multipart.PartDataInBody | src/multipart.rs:130-148 | each part's section sits between the sections of the parts before it and those after it, and carries its data unchanged between its head and CR LF |
| Multipart.BodyLength | src/multipart.rs:130-150 | the body's length is the sum of the sections' lengths plus the delimiter's, each section being its head, its data in full and two bytes |
| Multipart.HexRoundTrip | src/multipart.rs:155 | lower-case hexadecimal printing reads back as the number |
| Multipart.DefaultBoundaryInjective | src/multipart.rs:154-162 | `zenwave-0x…` boundaries made at different microsecond readings are different |
| Multipart.EncodeWith | src/multipart.rs:126-152 | the loop's result is the override or a fresh boundary, and the body of each part's section in order followed by the closing delimiter |
| Multipart.Encode | src/multipart.rs:122-124 | `encode` uses a fresh boundary and the same body |
| Multipart.Container.constructor | src/multipart.rs:90-92 | a new container has no boundary override and no parts |
| Multipart.Container.SetBoundary | src/multipart.rs:96-99 | sets the override and keeps the parts |
| Multipart.Container.Push | src/multipart.rs:103-111 | the part is appended after the others and the override is kept |
| Multipart.Container.Encode | src/multipart.rs:115-117 | the container's override, or a fresh boundary, and the body of its parts |
| Curl.HeaderNameFrom | src/backend/curl.rs:175 | a name is accepted exactly when it is a non-empty token, and it is stored lower-cased with its length unchanged |
| Curl.StatusOfLine | src/backend/curl.rs:155-163 | only an `HTTP/` line announces a status, and then its second whitespace-separated word reads as that `u16` |
| Curl.StatusLineRead | src/backend/curl.rs:155-163 | a line `HTTP/<version> <code>`, whatever reason follows, announces exactly that code |
| Curl.HeaderOfLine | src/backend/curl.rs:167-180 | a header comes only from a line with a colon, it is the trimmed name lower-cased and the trimmed value; and a token name with a valid value always gives one |
| Curl.HeaderLineRead | src/backend/curl.rs:167-180 | the line `name: value` with a token name and a trimmed, valid value carries exactly that header |
| Curl.ParseLine | src/backend/curl.rs:150-181 | an empty line changes nothing; a status line sets the status and clears the headers; a malformed `HTTP/` line changes nothing; any other line keeps the status and either changes nothing or appends exactly its header after the others |
| Curl.LastStatusWins | src/backend/curl.rs:155-161 | after interim or redirect responses, the handler holds the status of the last status line and exactly the headers of the lines after it, in order |
| Curl.Chunk | src/backend/curl.rs:198-206 | one read hands over nothing once the body is used up, and otherwise the smaller of what is left and the buffer's size, never past the body's end |
| Curl.TransferIsBody | src/backend/curl.rs:197-210 | successive reads hand over the body from the offset in order, without gaps or repeats, and all of it once the buffers are large enough in total |
| Curl.Handler.constructor | src/backend/curl.rs:124-133 | an empty request body is stored as no body; the offset is zero and nothing has been received |
| Curl.Handler.RequestBodyLen | src/backend/curl.rs:135-137 | zero without a body, else the body's length |
| Curl.Handler.IntoResponse | src/backend/curl.rs:139-148 | a response exactly when a status was seen, made of that status, the headers and the body; an error otherwise |
| Curl.Handler.ParseHeaderLine | src/backend/curl.rs:150-181 | the status and headers become what `ParseLine` gives for the line; nothing else changes |
| Curl.Handler.Header | src/backend/curl.rs:190-195 | a UTF-8 line is trimmed and parsed, any other is ignored, and the handler always asks curl to carry on |
| Curl.Handler.Write | src/backend/curl.rs:185-188 | the chunk is appended to the response body and taken whole |
| Curl.Handler.Read | src/backend/curl.rs:197-210 | without a body nothing is read; otherwise `Chunk` bytes go into the front of the buffer, copied from the body at the offset, the offset moves on by that much, and the rest of the buffer is untouched |
| Download.Status | src/client/download.rs:30-39 | a remote error passes the client's status through; a body failure is 502, a file-system failure 500 and an upstream refusal its own status, so only a remote error can lack one |
| Download.DefaultOptions | src/client/download.rs:66-72 | resuming is on by default |
| Download.ExistingLen | src/client/download.rs:80-90 | without resuming there is nothing to resume; otherwise a metadata error other than "not found" is returned, a missing file counts as zero bytes, an existing one as its length |
| Download.Ranged | src/client/download.rs:92-95 | with existing bytes the request carries exactly one `Range: bytes=<n>-`; every other header, the method, the URI and the body are kept; with none the request is unchanged |
| Download.Received | src/client/download.rs:130-134 | the body's chunks are read to the end with no failure exactly when none of them fails |
| Download.Outcome | src/client/download.rs:74-142 | I/O and remote errors leave the file as it was; a status that is neither 2xx nor 206 is `Upstream` and writes nothing; otherwise the file keeps its bytes exactly when there were some and the answer is 206, then gets the chunks in order up to the first failure, and the report's total is the file's length |
| Download.ResumeCompletes | src/client.rs:244-261 | a partial file that the server completes with a 206 ends up holding the whole payload, after asking for exactly the missing bytes, and the report says where it resumed and how much was written |
| Download.RestartRewrites | src/client.rs:264-281 | a server that answers 200 with the whole payload makes the file exactly the payload, from offset zero |
| Download.DownloadToPath | src/client/download.rs:74-142 | the method returns the result and leaves the file content that `Outcome` describes |
| Download.WriteChunks | src/client/download.rs:129-134 | the write loop appends the chunks in order until one fails, returns that failure, and counts exactly the bytes it wrote |
| WebSocket.TextMessage | src/websocket.rs:114-179 | a text message reads back its text and has no bytes |
| WebSocket.BinaryMessage | src/websocket.rs:120-197 | a binary message reads back its bytes and has no text |
| WebSocket.AsText | src/websocket.rs:126-151 | there is text exactly for a text message, and the message is that text |
| WebSocket.AsBytes | src/websocket.rs:135-160 | there are bytes exactly for a binary message, and the message is those bytes |
| WebSocket.Status | src/websocket.rs:36-40 | a websocket error never reports a status |
| WebSocket.ToError | src/websocket.rs:43-62 | an invalid URI becomes the crate's `InvalidUri` (category request) and every other error the matching websocket error (category websocket), its details kept |
| WebSocket.DefaultConfig | src/websocket.rs:77-87 | the default limits are 64 MiB per message and 16 MiB per frame |
| WebSocket.WithMaxMessageSize | src/websocket.rs:96-99 | sets the message limit and keeps the frame limit |
| WebSocket.WithMaxFrameSize | src/websocket.rs:107-110 | sets the frame limit and keeps the message limit |
| WebSocket.Handshake | src/websocket.rs:290-306 | a URI that does not parse is `InvalidUri`; a scheme other than `ws` and `wss` is `UnsupportedScheme` with that scheme; the handshake goes ahead exactly otherwise, with the URL's text and both limits |
| WebSocket.ConnectHandshake | src/websocket.rs:281-283 | `connect` is `connect_with_config` with the default limits |
| WebSocket.ToFrame | src/websocket.rs:485-491 | a text message is sent as a text frame and a binary message as a binary frame, payloads unchanged |
| WebSocket.RecvStopsAtFirst | src/websocket.rs:445-482 | `recv` returns what the first message, close, read error or unanswerable ping says, having answered every earlier ping with a pong of the same payload and skipped pongs and raw frames, and leaves the later frames unread |
| WebSocket.RecvAtEnd | src/websocket.rs:446-454 | a stream that ends with no stopping frame gives `None` after every ping has been answered |
| WebSocket.WasmRecv | src/websocket.rs:816-823 | in the browser a message event gives that message, a close or the end of events gives `None`, and only an error event fails, with its text |
| WebSocket.Socket.constructor | src/websocket.rs:312-325 | a new socket has the frames still to come and has written nothing |
| WebSocket.Socket.SendMessage | src/websocket.rs:417-423 | the message's frame is written after the earlier ones, or the write error is returned and nothing is written; nothing is read |
| WebSocket.Socket.SendText | src/websocket.rs:404-406 | a text frame with the text is written, or the write fails and nothing is written |
| WebSocket.Socket.SendBinary | src/websocket.rs:413-415 | a binary frame with the bytes is written, or the write fails and nothing is written |
| WebSocket.Socket.Send | src/websocket.rs:391-397 | a value that does not encode is `FailToEncodePayload` with nothing written; otherwise its JSON text is sent as a text frame |
| WebSocket.Socket.CloseSocket | src/websocket.rs:430-436 | a close frame is written, or the write error is returned and nothing is written |
| WebSocket.Socket.Receive | src/websocket.rs:445-482 | the loop returns what `Recv` gives for the frames still to come, consumes exactly the frames it read, and writes one pong per ping answered, in order |
| Common.Elapsed | src/cache.rs:169 | `duration_since` on instants: the gap when the later instant comes second, zero otherwise |
| Common.AsciiLower | src/cache.rs:249 | `to_ascii_lowercase` keeps the length and lowers each character on its own: A-Z become a-z, everything else stays |
| Common.AsciiLowerIdempotent | src/proxy.rs:109 | lowering twice is lowering once |
| Common.StripPrefix | src/backend/curl.rs:155 | there is a rest exactly when the text starts with the prefix, and prefix plus rest is the text |
| Common.Trim | src/backend/curl.rs:168-169 | the trimmed text is a slice of the input with only White_Space characters outside it, and it neither starts nor ends with one |
| Common.Split | src/cache.rs:247 | `split` gives at least one piece and no piece holds the separator |
| Common.JoinSplit | src/proxy.rs:107 | joining the pieces with the separator gives back the text, so the split loses nothing |
| Common.SplitOnce | src/backend/curl.rs:167 | there is a split exactly when the character occurs, and its two sides around the character are the text, the first side free of it |
| Common.SplitOnceOf | src/auth.rs:71-74 | text without the character, the character, then anything, splits back into those two sides |
| Common.RSplitOnce | src/proxy.rs:141 | there is a split exactly when the character occurs, and its two sides around the character are the text, the second side free of it |
| Common.ParseUnsigned | src/backend/curl.rs:157 | a parsed value is below the type's limit, and the empty text and a lone `+` do not parse |
| Common.ParseUnsignedSpec | src/cache.rs:257 | a parsed value is the decimal value of the digits after an optional `+` |
| Common.Decimal | src/client/download.rs:93 | `to_string` of an unsigned number is non-empty decimal digits without a leading zero |
| Common.DecimalRoundTrip | src/client/download.rs:93 | reading the printed digits gives back the number |
| Common.ParseDecimal | src/cache.rs:216 | a number printed with `to_string` parses back as the same unsigned value |
| Base64.Encode | src/auth.rs:76 | the standard engine turns n bytes into `4 * ceil(n / 3)` characters |
| Base64.DecodeEncode | src/auth.rs:76 | decoding the encoding gives the bytes back |
| Base64.EncodeAlphabet | src/auth.rs:76-81 | the encoding uses only the 64-character alphabet, with `=` only in the last two positions |
| Utf8.Encode | src/multipart.rs:30 | `into_bytes` gives at least one byte per character |
| Utf8.EncodeConcat | src/multipart.rs:131-150 | the bytes of joined text are the bytes of each part, joined |
| Utf8.EncodeAscii | src/cache.rs:214-217 | ASCII text is its own code points, one byte each |
| Utf8.DecodeEncode | src/auth.rs:76 | every string survives a trip through its UTF-8 bytes |
| Http.StatusFromU16 | src/backend/curl.rs:158 | `StatusCode::from_u16` accepts exactly 100 through 999 and keeps the number |
| Http.Get | src/cache.rs:128-129 | `get` gives a value exactly when the name has one, and then its first value |
| Http.Remove | src/redirect.rs:110-114 | `remove` drops every value of the name and keeps every other name's values |
| Http.Append | src/backend/curl.rs:178 | `append` adds the value after the name's others and keeps every other name's values |
| Http.Insert | src/auth.rs:33-35 | after `insert` the name has exactly that one value and every other name keeps its values |
| Http.ToStr | src/cache.rs:246 | `to_str` succeeds exactly when every byte is visible ASCII or tab, and gives those bytes as characters |
| Http.ValueFromStr | src/backend/curl.rs:176 | `HeaderValue::from_str` of text whose bytes are all allowed succeeds with its UTF-8 bytes, and any value it gives is those bytes |
| Http.ToStrVisible | src/cache.rs:214-217 | a value made from visible ASCII text reads back as that text |
| Http.Forward | src/auth.rs:38 | the request is passed on once: the inner endpoint's response, or its error wrapped as an endpoint error, and the request as the endpoint left it |

## Left out

- Transports: hyper, curl's `perform`, the Apple backend and the browser backend are not part of this model. Only the curl transfer handler is modelled, and each middleware's inner client is a parameter.
- `timeout.rs`, the cookie middlewares and cookie store, `ext.rs`, and the builder glue in `client.rs`: they are not part of the core modelled here.
- Clocks: `Instant::now` and `SystemTime::now` are parameters.
- Timers: the sleeps of the retry loop are left out, and only the delay it would wait is computed.
- Concurrency: locks, the OAuth2 middleware's single-flight refresh under its mutex, and the `Arc` sharing of the websocket halves are left out. Each operation runs alone.
- URL and URI parsing, `Url::join`, HTTP-date parsing, JSON encoding and decoding, and `application/x-www-form-urlencoded` serialisation are parameters (oracles). Their own correctness is not modelled.
- `Display` messages of the errors are left out, apart from the category labels.
- Foreign error sources (I/O errors, boxed transport errors) are carried as a description string.
- `to_lowercase` on `NO_PROXY` entries and proxy hosts is Unicode lower-casing in the source. It is modelled as ASCII lower-casing.
- `HeaderName::from_bytes` is modelled as "a non-empty run of RFC 9110 `tchar`s, stored lower-cased". The `http` crate's own table of accepted bytes is not modelled.
- Integers are unbounded:
  - the panics on overflow of `2u32.pow` and of `Duration * u32` in the retry backoff (src/retry.rs:96-97), and of `Instant + Duration` (src/oauth2.rs:187), are not modelled;
  - the truncation of the browser timer's milliseconds to `u32` is not modelled;
  - download byte counters are unbounded rather than `u64`.
- Cache: buffering the body of a response to be stored always succeeds; the 503 error of src/cache.rs:148 is not modelled.
- Download:
  - File-system failures are not modelled, except the metadata read before the request: opening the file, seeking, writing and flushing always succeed.
  - A resumed file is assumed to be exactly as long as its metadata says.
- WebSocket:
  - `into_text` and `into_bytes` coincide with `as_text` and `as_bytes`, because ownership is not modelled.
  - The copy of the limits into tungstenite's configuration is modelled as handing both limits over.
  - A failing pong write is modelled by the socket's single write error.
  - The browser backend's sending and closing are left out, apart from `recv`.
- Redirect.Run: it is parameterised by the function computing the next hop. `Respond` instantiates it with `Hops`.
- OAuth2.FetchToken: the `Upstream` message is the body text alone, without the `OAuth2 token endpoint returned <status>:` prefix that `format!` adds (src/oauth2.rs:171-174).
- Auth.Bearer: it requires, for a request without `Authorization`, that `Bearer <token>` is a valid header value. The source panics on `unwrap` otherwise (src/auth.rs:35).
- OAuth2.Handled: the panic of `expect` on an invalid Bearer value is an explicit `None` outcome rather than a crash.

## Findings

| source | as written | input that shows it | evidently intended | confidence | as-written member | corrected member |
|---|---|---|---|---|---|---|
| src/cache.rs:89 | `Authorization` is read from the request after `next.respond`. The hyper and curl transports replace that request with an empty `GET /`, so the header is always gone by then. | A GET with `Authorization` answered `200` with `Cache-Control: max-age=60`, not `public`, over a transport that replaces the request: the private response is stored and later served to any caller of that URI. | The credential test is made on the request as it was sent, so that such a response is never stored. | not executed | Cache.Cache.Handle, CacheProperties.AsWrittenStoresPrivateResponse | Cache.Transition, CacheProperties.PrivateNeverStored |
| src/retry.rs:84-93 | Every attempt is handed the same `&mut Request`, and the inner client takes its body. | A POST with body `payload`, retried once after a failure (tests/retry_tests.rs:186-211): the second attempt is sent an empty body. | Each attempt is sent the caller's request, body included, as the test expects. | not executed | RetryProperties.RetryLosesBody | Retry.Replaying, RetryProperties.ReplayKeepsBody |
