/**
 * The in-memory HTTP cache middleware: `Cache-Control` parsing (section 5.2 of
 * RFC 9111), freshness (section 4.2), validation with conditional requests
 * (section 4.3) and the `Age` header (section 5.1), over a table from request
 * URI to stored response.
 *
 * Instants and durations are natural numbers of nanoseconds. The wall clock and
 * HTTP-date parsing used by `expires_in` are one oracle, `DateOracle`.
 */
module Cache {
  import opened Common
  import opened Http
  import Utf8

  // ---------------------------------------------------------------------
  // Cache-Control

  datatype CacheControl = CacheControl(
    noCache: bool, noStore: bool, maxAge: Option<nat>, mustRevalidate: bool, public: bool)

  const NoDirectives := CacheControl(false, false, None, false, false)

  /** The `max-age=` argument of a lower-cased directive, when it is a valid `u64`. */
  function MaxAgeOf(lower: string): (r: Option<nat>)
    ensures r.Some? ==> StartsWith(lower, "max-age=") && r.value < U64Limit
  {
    match StripPrefix(lower, "max-age=")
    case None => None
    case Some(rest) => ParseUnsigned(rest, U64Limit)
  }

  /** A directive as it is matched: trimmed and ASCII lower-cased. */
  function Normal(directive: string): string { AsciiLower(Trim(directive)) }

  /** One directive folded into what has been seen so far. */
  function ApplyDirective(acc: CacheControl, directive: string): CacheControl {
    ApplyNormal(acc, Normal(directive))
  }

  /** The `match` on the lower-cased directive; anything unrecognised is ignored. */
  function ApplyNormal(acc: CacheControl, lower: string): CacheControl {
    if lower == "no-cache" then acc.(noCache := true)
    else if lower == "no-store" then acc.(noStore := true)
    else if lower == "must-revalidate" then acc.(mustRevalidate := true)
    else if lower == "public" then acc.(public := true)
    else match MaxAgeOf(lower)
      case Some(v) => acc.(maxAge := Some(v))
      case None => acc
  }

  function FoldDirectives(acc: CacheControl, ds: seq<string>): CacheControl
    decreases |ds|
  {
    if ds == [] then acc else FoldDirectives(ApplyDirective(acc, ds[0]), ds[1..])
  }

  /** The comma-separated directives of one header value; a value that is not text contributes none. */
  function ValueDirectives(v: HeaderValue): seq<string> {
    match ToStr(v)
    case None => []
    case Some(text) => Split(text, ',')
  }

  function FoldValues(acc: CacheControl, vs: seq<HeaderValue>): CacheControl
    decreases |vs|
  {
    if vs == [] then acc else FoldValues(FoldDirectives(acc, ValueDirectives(vs[0])), vs[1..])
  }

  /** `CacheControl::from_header_map`: every `Cache-Control` value, in order. */
  function FromHeaderMap(h: Headers): CacheControl {
    FoldValues(NoDirectives, GetAll(h, Http.CacheControl))
  }

  // The reference reading: the set of normalised directives and the last valid max-age.

  function NormalAll(ds: seq<string>): seq<string> {
    if ds == [] then [] else [Normal(ds[0])] + NormalAll(ds[1..])
  }

  /** Every normalised directive of every `Cache-Control` value, in order. */
  function Seen(vs: seq<HeaderValue>): seq<string> {
    if vs == [] then [] else NormalAll(ValueDirectives(vs[0])) + Seen(vs[1..])
  }

  /** The value of the last directive that is a valid `max-age`. */
  function LastMaxAge(ns: seq<string>): Option<nat> {
    if ns == [] then None
    else match LastMaxAge(ns[1..])
      case Some(v) => Some(v)
      case None => MaxAgeOf(ns[0])
  }

  /** `LastMaxAge` picks the last valid `max-age`, and is None when there is none. */
  lemma {:induction false} LastMaxAgeSpec(ns: seq<string>)
    ensures LastMaxAge(ns).None? <==> forall i :: 0 <= i < |ns| ==> MaxAgeOf(ns[i]).None?
    ensures LastMaxAge(ns).Some? ==> exists i :: (0 <= i < |ns| && MaxAgeOf(ns[i]) == LastMaxAge(ns)
      && forall j :: i < j < |ns| ==> MaxAgeOf(ns[j]).None?)
  {
    if ns != [] {
      LastMaxAgeSpec(ns[1..]);
      match LastMaxAge(ns[1..])
      case Some(v) =>
        var i :| 0 <= i < |ns| - 1 && MaxAgeOf(ns[1..][i]) == Some(v)
          && forall j :: i < j < |ns| - 1 ==> MaxAgeOf(ns[1..][j]).None?;
        assert MaxAgeOf(ns[i + 1]) == Some(v);
        assert forall j :: i + 1 < j < |ns| ==> ns[j] == ns[1..][j - 1];
      case None =>
        assert forall i :: 1 <= i < |ns| ==> ns[i] == ns[1..][i - 1];
    }
  }

  /** What folding directives `ns` (already normalised) into `acc` must give. */
  predicate Describes(r: CacheControl, acc: CacheControl, ns: seq<string>) {
    FlagsDescribed(r, acc, ns) && r.maxAge == (if LastMaxAge(ns).Some? then LastMaxAge(ns) else acc.maxAge)
  }

  /** Each flag is set iff it was set before or its keyword is among `ns`. */
  predicate FlagsDescribed(r: CacheControl, acc: CacheControl, ns: seq<string>) {
    (r.noCache <==> acc.noCache || "no-cache" in ns)
    && (r.noStore <==> acc.noStore || "no-store" in ns)
    && (r.mustRevalidate <==> acc.mustRevalidate || "must-revalidate" in ns)
    && (r.public <==> acc.public || "public" in ns)
  }

  lemma {:induction false} FoldDirectivesDescribed(acc: CacheControl, ds: seq<string>)
    ensures Describes(FoldDirectives(acc, ds), acc, NormalAll(ds))
    decreases |ds|
  {
    if ds != [] {
      var next := ApplyDirective(acc, ds[0]);
      FoldDirectivesDescribed(next, ds[1..]);
      StepDescribed(FoldDirectives(acc, ds), acc, ds[0], NormalAll(ds[1..]));
      assert NormalAll(ds) == [Normal(ds[0])] + NormalAll(ds[1..]);
    }
  }

  lemma StepDescribed(r: CacheControl, acc: CacheControl, d: string, ns: seq<string>)
    requires Describes(r, ApplyDirective(acc, d), ns)
    ensures Describes(r, acc, [Normal(d)] + ns)
  {
    NormalStepDescribed(r, acc, Normal(d), ns);
  }

  lemma NormalStepDescribed(r: CacheControl, acc: CacheControl, n: string, ns: seq<string>)
    requires Describes(r, ApplyNormal(acc, n), ns)
    ensures Describes(r, acc, [n] + ns)
  {
    var all := [n] + ns;
    assert all[1..] == ns;
    assert LastMaxAge(all) == if LastMaxAge(ns).Some? then LastMaxAge(ns) else MaxAgeOf(n);
    KeywordsDistinct();
    NormalStepFlags(r, acc, n, ns);
  }

  lemma NormalStepFlags(r: CacheControl, acc: CacheControl, n: string, ns: seq<string>)
    requires FlagsDescribed(r, ApplyNormal(acc, n), ns)
    ensures FlagsDescribed(r, acc, [n] + ns)
  {
    KeywordsDistinct();
  }

  /** The four keywords are different words, and none of them is a `max-age`. */
  lemma KeywordsDistinct()
    ensures "no-cache" != "no-store" && "no-cache" != "must-revalidate" && "no-cache" != "public"
    ensures "no-store" != "must-revalidate" && "no-store" != "public" && "must-revalidate" != "public"
    ensures MaxAgeOf("no-cache").None? && MaxAgeOf("no-store").None?
    ensures MaxAgeOf("must-revalidate").None? && MaxAgeOf("public").None?
  {
    assert "no-cache"[2] == '-' && "no-store"[3] == 's' && "no-cache"[3] == 'c';
    assert "must-revalidate"[1] == 'u' && "public"[0] == 'p' && "no-cache"[0] == 'n';
    assert "max-age="[1] == 'a';
  }

  lemma {:induction false} LastMaxAgeConcat(a: seq<string>, b: seq<string>)
    ensures LastMaxAge(a + b) == if LastMaxAge(b).Some? then LastMaxAge(b) else LastMaxAge(a)
    decreases |a|
  {
    if a == [] {
      assert a + b == b;
    } else {
      assert (a + b)[1..] == a[1..] + b;
      LastMaxAgeConcat(a[1..], b);
    }
  }

  lemma {:induction false} FoldValuesDescribed(acc: CacheControl, vs: seq<HeaderValue>)
    ensures Describes(FoldValues(acc, vs), acc, Seen(vs))
    decreases |vs|
  {
    if vs != [] {
      var ds := ValueDirectives(vs[0]);
      var mid := FoldDirectives(acc, ds);
      FoldDirectivesDescribed(acc, ds);
      FoldValuesDescribed(mid, vs[1..]);
      LastMaxAgeConcat(NormalAll(ds), Seen(vs[1..]));
    }
  }

  /**
   * What `CacheControl::from_header_map` reads: a flag is set iff its directive
   * appears (trimmed, in any case) in some `Cache-Control` value that is text;
   * `max-age` is the last directive whose argument parses as `u64`; all else is ignored.
   */
  lemma FromHeaderMapSpec(h: Headers)
    ensures var cc, ns := FromHeaderMap(h), Seen(GetAll(h, Http.CacheControl));
      (cc.noCache <==> "no-cache" in ns)
      && (cc.noStore <==> "no-store" in ns)
      && (cc.mustRevalidate <==> "must-revalidate" in ns)
      && (cc.public <==> "public" in ns)
      && cc.maxAge == LastMaxAge(ns)
  {
    FoldValuesDescribed(NoDirectives, GetAll(h, Http.CacheControl));
  }

  // ---------------------------------------------------------------------
  // Entries

  /** The time from now until an HTTP-date, when the text parses as one: the clock and the date parser. */
  type DateOracle = string -> Option<nat>

  /** `expires_in`: a positive time to the `Expires` date, when there is one. */
  function ExpiresIn(h: Headers, untilDate: DateOracle): (r: Option<nat>)
    ensures r.Some? ==> r.value > 0 && ContainsKey(h, Expires)
    ensures r.Some? ==> (ToStr(Get(h, Expires).value).Some?
      && untilDate(ToStr(Get(h, Expires).value).value) == r)
  {
    match Get(h, Expires)
    case None => None
    case Some(v) =>
      match ToStr(v)
      case None => None
      case Some(text) =>
        match untilDate(text)
        case None => None
        case Some(d) => if d == 0 then None else Some(d)
  }

  /** A stored response (`CachedResponse`). */
  datatype Entry = Entry(
    status: StatusCode, headers: Headers, body: seq<byte>, storedAt: nat,
    freshness: Option<nat>, mustRevalidate: bool,
    etag: Option<HeaderValue>, lastModified: Option<HeaderValue>)

  /** `is_fresh`: younger than its freshness lifetime; no lifetime means never fresh. */
  predicate IsFresh(e: Entry, now: nat) {
    e.freshness.Some? && Elapsed(now, e.storedAt) < e.freshness.value
  }

  /** `can_revalidate`: the entry has a validator. */
  predicate CanRevalidate(e: Entry) { e.etag.Some? || e.lastModified.Some? }

  /** `apply_conditional_headers`: the stored validators become `If-None-Match` / `If-Modified-Since`. */
  function ApplyConditionalHeaders(e: Entry, h: Headers): (r: Headers)
    ensures GetAll(r, IfNoneMatch) == if e.etag.Some? then [e.etag.value] else GetAll(h, IfNoneMatch)
    ensures GetAll(r, IfModifiedSince)
      == if e.lastModified.Some? then [e.lastModified.value] else GetAll(h, IfModifiedSince)
    ensures forall n :: n != IfNoneMatch && n != IfModifiedSince ==> GetAll(r, n) == GetAll(h, n)
  {
    var h1 := if e.etag.Some? then Insert(h, IfNoneMatch, e.etag.value) else h;
    if e.lastModified.Some? then Insert(h1, IfModifiedSince, e.lastModified.value) else h1
  }

  /** The headers a 304 may refresh, in the order they are copied. */
  const Refreshable: seq<string> := [Http.CacheControl, ETag, Expires, Date, LastModified]

  /** Copies the first value of each name in `names` that `from` carries into `h`. */
  function CopyHeaders(h: Headers, from: Headers, names: seq<string>): (r: Headers)
    ensures forall n :: n !in names ==> GetAll(r, n) == GetAll(h, n)
    ensures forall n :: n in names && ContainsKey(from, n) ==> GetAll(r, n) == [Get(from, n).value]
    ensures forall n :: n in names && !ContainsKey(from, n) ==> GetAll(r, n) == GetAll(h, n)
    decreases |names|
  {
    if names == [] then h
    else
      var h1 := match Get(from, names[0])
        case Some(v) => Insert(h, names[0], v)
        case None => h;
      CopyHeaders(h1, from, names[1..])
  }

  /** The entry after a 304: what `update_from_304` leaves. */
  function Refreshed(e: Entry, response: Response, now: nat, untilDate: DateOracle): (u: Entry)
  {
    var headers := CopyHeaders(e.headers, response.headers, Refreshable);
    var cc := FromHeaderMap(response.headers);
    var freshness :=
      if cc.maxAge.Some? then Some(cc.maxAge.value * NanosPerSec)
      else if ExpiresIn(headers, untilDate).Some? then ExpiresIn(headers, untilDate)
      else e.freshness;
    e.(storedAt := now, headers := headers, freshness := freshness,
       mustRevalidate := e.mustRevalidate || cc.noCache || cc.mustRevalidate)
  }

  /**
   * What a 304 changes in an entry: it is stored anew at `now`; only the five
   * refreshable headers are taken from the 304, and one it lacks keeps its old
   * values; a `max-age` replaces the lifetime, otherwise an `Expires` of the
   * merged headers does, otherwise the lifetime stays; `no-cache` or
   * `must-revalidate` set the revalidation flag, which is never cleared;
   * status, body and validators stay.
   */
  lemma RefreshedSpec(e: Entry, response: Response, now: nat, untilDate: DateOracle)
    ensures var u, cc := Refreshed(e, response, now, untilDate), FromHeaderMap(response.headers);
      u.storedAt == now && u.status == e.status && u.body == e.body
      && u.etag == e.etag && u.lastModified == e.lastModified
      && (forall n :: n !in Refreshable ==> GetAll(u.headers, n) == GetAll(e.headers, n))
      && (forall n :: n in Refreshable && ContainsKey(response.headers, n) ==>
            GetAll(u.headers, n) == [Get(response.headers, n).value])
      && (forall n :: n in Refreshable && !ContainsKey(response.headers, n) ==>
            GetAll(u.headers, n) == GetAll(e.headers, n))
      && (cc.maxAge.Some? ==> u.freshness == Some(cc.maxAge.value * NanosPerSec))
      && (cc.maxAge.None? && ExpiresIn(u.headers, untilDate).Some? ==> u.freshness == ExpiresIn(u.headers, untilDate))
      && (cc.maxAge.None? && ExpiresIn(u.headers, untilDate).None? ==> u.freshness == e.freshness)
      && (e.mustRevalidate ==> u.mustRevalidate)
      && (u.mustRevalidate <==> e.mustRevalidate || cc.noCache || cc.mustRevalidate)
  {
  }

  /** `update_from_304`: the allow-list loop over the 304's headers. */
  method UpdateFrom304(e: Entry, response: Response, now: nat, untilDate: DateOracle) returns (u: Entry)
    ensures u == Refreshed(e, response, now, untilDate)
  {
    var headers := e.headers;
    var i := 0;
    while i < |Refreshable|
      invariant 0 <= i <= |Refreshable|
      invariant CopyHeaders(headers, response.headers, Refreshable[i..])
        == CopyHeaders(e.headers, response.headers, Refreshable)
    {
      var name := Refreshable[i];
      assert Refreshable[i..][1..] == Refreshable[i + 1..];
      match Get(response.headers, name) {
        case Some(v) => headers := Insert(headers, name, v);
        case None =>
      }
      i := i + 1;
    }
    var cc := FromHeaderMap(response.headers);
    var freshness := e.freshness;
    if cc.maxAge.Some? {
      freshness := Some(cc.maxAge.value * NanosPerSec);
    }
    var mustRevalidate := e.mustRevalidate;
    if cc.noCache || cc.mustRevalidate {
      mustRevalidate := true;
    }
    if cc.maxAge.None? && ExpiresIn(headers, untilDate).Some? {
      freshness := ExpiresIn(headers, untilDate);
    }
    u := e.(storedAt := now, headers := headers, freshness := freshness, mustRevalidate := mustRevalidate);
  }

  /** Whole seconds elapsed since the entry was stored. */
  function AgeSeconds(e: Entry, now: nat): nat { Elapsed(now, e.storedAt) / NanosPerSec }

  /** `to_response`: the stored response with `Age` set to its age. */
  function ToResponse(e: Entry, now: nat): (r: Response)
    ensures r.status == e.status && r.body == e.body
    ensures forall n :: n != Age ==> GetAll(r.headers, n) == GetAll(e.headers, n)
  {
    var age := match ValueFromStr(Decimal(AgeSeconds(e, now)))
      case Some(v) => v
      case None => Utf8.Encode("0");
    Response(e.status, Insert(e.headers, Age, age), e.body)
  }

  /** The `Age` of a synthesised response is exactly its whole seconds since storage, in decimal. */
  lemma {:induction false} ToResponseAge(e: Entry, now: nat)
    requires AgeSeconds(e, now) < U64Limit
    ensures var r := ToResponse(e, now);
      GetAll(r.headers, Age) == [Utf8.Encode(Decimal(AgeSeconds(e, now)))]
      && ToStr(Get(r.headers, Age).value) == Some(Decimal(AgeSeconds(e, now)))
      && ParseUnsigned(ToStr(Get(r.headers, Age).value).value, U64Limit) == Some(AgeSeconds(e, now))
  {
    var s := Decimal(AgeSeconds(e, now));
    assert IsVisibleText(s) && IsValueText(s);
    ToStrVisible(s);
    ParseDecimal(AgeSeconds(e, now), U64Limit);
  }

  /**
   * `CachedResponse::from_response`: the response is kept iff it has a lifetime
   * (`max-age` first, else `Expires`) or must be revalidated on every use.
   * A kept response is passed on without its `Age`.
   */
  function FromResponse(response: Response, cc: CacheControl, now: nat, requestNoCache: bool,
                        untilDate: DateOracle): (r: (Response, Option<Entry>))
    ensures r.1.None? ==> r.0 == response
    ensures r.1.Some? <==> cc.maxAge.Some? || ExpiresIn(response.headers, untilDate).Some?
                           || cc.noCache || cc.mustRevalidate || requestNoCache
    ensures r.1.Some? ==> (r.1.value.storedAt == now && r.1.value.headers == response.headers
      && r.1.value.status == response.status && r.1.value.body == response.body
      && r.1.value.etag == Get(response.headers, ETag)
      && r.1.value.lastModified == Get(response.headers, LastModified)
      && r.1.value.freshness == (if cc.maxAge.Some? then Some(cc.maxAge.value * NanosPerSec)
                                else ExpiresIn(response.headers, untilDate))
      && r.1.value.mustRevalidate == (cc.noCache || cc.mustRevalidate || requestNoCache))
  {
    var freshness := if cc.maxAge.Some? then Some(cc.maxAge.value * NanosPerSec)
                     else ExpiresIn(response.headers, untilDate);
    var mustRevalidate := cc.noCache || cc.mustRevalidate || requestNoCache;
    if freshness.None? && !mustRevalidate then (response, None)
    else
      (response.(headers := Remove(response.headers, Age)),
       Some(Entry(response.status, response.headers, response.body, now, freshness, mustRevalidate,
                  Get(response.headers, ETag), Get(response.headers, LastModified))))
  }

  /**
   * The three conditions under which a new (non-304) response is kept: it is
   * not `no-store`; `credentials` carry no `Authorization` or it is `public`;
   * it has a lifetime or must be revalidated on every use.
   */
  predicate Storable(requestCc: CacheControl, credentials: Headers, response: Response, untilDate: DateOracle) {
    var cc := FromHeaderMap(response.headers);
    !cc.noStore && (!ContainsKey(credentials, Authorization) || cc.public)
    && (cc.maxAge.Some? || ExpiresIn(response.headers, untilDate).Some?
        || cc.noCache || cc.mustRevalidate || requestCc.noCache)
  }

  /**
   * The decision after a fresh (non-304) response: a shared cache may keep the
   * response of a request with credentials only when it is `public`, and never a
   * `no-store` one. `requestHeaders` are those of the request that carried the credentials.
   */
  function Admit(requestCc: CacheControl, requestHeaders: Headers, response: Response, now: nat,
                 untilDate: DateOracle): (r: (Response, Option<Entry>))
    ensures r.1.Some? ==> !FromHeaderMap(response.headers).noStore
    ensures r.1.Some? && ContainsKey(requestHeaders, Authorization) ==> FromHeaderMap(response.headers).public
    ensures r.1.Some? <==> Storable(requestCc, requestHeaders, response, untilDate)
    ensures r.1.Some? ==> r == FromResponse(response, FromHeaderMap(response.headers), now, requestCc.noCache, untilDate)
    ensures r.1.None? ==> r.0 == response
  {
    var responseCc := FromHeaderMap(response.headers);
    var allowShared := !ContainsKey(requestHeaders, Authorization) || responseCc.public;
    if allowShared && !responseCc.noStore then
      FromResponse(response, responseCc, now, requestCc.noCache, untilDate)
    else (response, None)
  }

  // ---------------------------------------------------------------------
  // The table

  /** `cache_key`: only GET requests are cached, keyed by their URI. */
  function CacheKey(request: Request): (k: Option<string>)
    ensures k.Some? <==> request.verb == GET
    ensures k.Some? ==> k.value == request.uri
  {
    if request.verb != GET then None else Some(request.uri)
  }

  /** A fresh entry is served without asking the inner endpoint. */
  predicate Serves(e: Entry, requestCc: CacheControl, now: nat) {
    !requestCc.noCache && !e.mustRevalidate && IsFresh(e, now)
  }

  /** The entry itself (not the request) demands a trip to the origin. */
  predicate RequiresRevalidation(e: Entry, now: nat) { e.mustRevalidate || !IsFresh(e, now) }

  /** An entry that is not served but stays in the table while the request is forwarded:
      fresh, not must-revalidate and without a validator (the request said `no-cache`). */
  predicate KeptWhileForwarded(entries: map<string, Entry>, key: string, now: nat) {
    key in entries && !CanRevalidate(entries[key]) && !RequiresRevalidation(entries[key], now)
  }

  /** The table, the request sent and the entry awaiting a 304, once a GET that is not served is forwarded. */
  datatype Prepared = Prepared(table: map<string, Entry>, sent: Request, pending: Option<Entry>)

  /** Lines 62-73: a validatable entry is taken out and its validators sent; an unvalidatable one
      that must be revalidated is evicted; otherwise the table stays. */
  function Prepare(entries: map<string, Entry>, key: string, request: Request, now: nat): (p: Prepared)
    ensures p.table == if KeptWhileForwarded(entries, key, now) then entries else entries - {key}
    ensures p.pending.Some? <==> key in entries && CanRevalidate(entries[key])
    ensures p.pending.Some? ==> (p.pending.value == entries[key]
      && p.sent == request.(headers := ApplyConditionalHeaders(entries[key], request.headers)))
    ensures p.pending.None? ==> p.sent == request
  {
    if key in entries && CanRevalidate(entries[key]) then
      var e := entries[key];
      Prepared(entries - {key}, request.(headers := ApplyConditionalHeaders(e, request.headers)), Some(e))
    else if key in entries && RequiresRevalidation(entries[key], now) then Prepared(entries - {key}, request, None)
    else Prepared(entries, request, None)
  }

  /** Where the credential test looks for `Authorization`. */
  datatype CredentialCheck =
    | AfterRespond   // on the request the inner endpoint leaves behind, as line 89 is written
    | BeforeRespond  // on the request as it was sent

  function CredentialHeaders(check: CredentialCheck, sent: Request, left: Request): Headers {
    if check.AfterRespond? then left.headers else sent.headers
  }

  /** One call of the middleware: its result, the request passed on (None: none), the request as
      the caller finds it afterwards, and the new table. */
  datatype Step = Step(result: Result<Response, HttpError>, forwarded: Option<Request>,
                       after: Request, entries: map<string, Entry>)

  /** What the middleware does once the request has been passed on. */
  function Complete(entries: map<string, Entry>, key: string, requestCc: CacheControl,
                    sent: Request, pending: Option<Entry>, now: nat,
                    next: Endpoint, untilDate: DateOracle, check: CredentialCheck): (s: Step)
    ensures s.entries - {key} == entries - {key}
  {
    var (res, left) := next(sent);
    match res
    case Err(_) => Step(res, Some(sent), left, entries)
    case Ok(response) =>
      if response.status == NotModified then
        match pending
        case Some(e) =>
          var u := Refreshed(e, response, now, untilDate);
          StoreThenRemove(entries, key, u);
          Step(Ok(ToResponse(u, now)), Some(sent), left, entries[key := u])
        case None => Step(res, Some(sent), left, entries)
      else
        var (out, kept) := Admit(requestCc, CredentialHeaders(check, sent, left), response, now, untilDate);
        match kept
        case Some(e) =>
          StoreThenRemove(entries, key, e);
          Step(Ok(ToResponse(e, now)), Some(sent), left, entries[key := e])
        case None => Step(Ok(out), Some(sent), left, entries)
  }

  /** Storing under a key and then taking it out leaves the other keys as they were. */
  lemma StoreThenRemove<K, V>(m: map<K, V>, k: K, v: V)
    ensures m[k := v] - {k} == m - {k}
  {
  }

  /** `Cache::handle` as a transition of the table, with the credential test made as `check` says.
      Only the request's own key can change. */
  function Transition(entries: map<string, Entry>, request: Request, now: nat,
                      next: Endpoint, untilDate: DateOracle, check: CredentialCheck): (s: Step)
    ensures s.entries - {request.uri} == entries - {request.uri}
  {
    match CacheKey(request)
    case None => Step(next(request).0, Some(request), next(request).1, entries)
    case Some(key) =>
      var rcc := FromHeaderMap(request.headers);
      RemoveTwice(entries, key);
      if rcc.noStore then Step(next(request).0, Some(request), next(request).1, entries - {key})
      else if key in entries && Serves(entries[key], rcc, now) then
        Step(Ok(ToResponse(entries[key], now)), None, request, entries)
      else
        var p := Prepare(entries, key, request, now);
        Complete(p.table, key, rcc, p.sent, p.pending, now, next, untilDate, check)
  }

  lemma RemoveTwice<K, V>(m: map<K, V>, k: K)
    ensures m - {k} - {k} == m - {k}
  {
  }

  /** A GET without `no-store` whose entry is not served goes to `Complete` with what `Prepare` did. */
  lemma TransitionForwards(entries: map<string, Entry>, request: Request, now: nat, next: Endpoint,
                           untilDate: DateOracle, check: CredentialCheck)
    requires request.verb == GET && !FromHeaderMap(request.headers).noStore
    requires request.uri !in entries || !Serves(entries[request.uri], FromHeaderMap(request.headers), now)
    ensures var p := Prepare(entries, request.uri, request, now);
      Transition(entries, request, now, next, untilDate, check)
      == Complete(p.table, request.uri, FromHeaderMap(request.headers), p.sent, p.pending, now, next, untilDate, check)
  {
  }

  /** `Cache::handle` as written. */
  function Handled(entries: map<string, Entry>, request: Request, now: nat,
                   next: Endpoint, untilDate: DateOracle): Step
  {
    Transition(entries, request, now, next, untilDate, AfterRespond)
  }

  /** `Cache::handle` with the credential test made on the request that was sent. */
  function HandledCorrected(entries: map<string, Entry>, request: Request, now: nat,
                            next: Endpoint, untilDate: DateOracle): Step
  {
    Transition(entries, request, now, next, untilDate, BeforeRespond)
  }

  class Cache {
    var entries: map<string, Entry>

    constructor()
      ensures entries == map[]
    {
      entries := map[];
    }

    /** `Cache::handle`: serve, revalidate, evict or store, step by step on the table. */
    method Handle(request: Request, now: nat, next: Endpoint, untilDate: DateOracle)
      returns (result: Result<Response, HttpError>, forwarded: Option<Request>, after: Request)
      modifies this
      ensures Step(result, forwarded, after, entries) == Handled(old(entries), request, now, next, untilDate)
    {
      var key := CacheKey(request);
      if key.None? {
        var (res, left) := next(request);
        return res, Some(request), left;
      }
      var k := key.value;
      var rcc := FromHeaderMap(request.headers);
      if rcc.noStore {
        entries := entries - {k};
        var (res, left) := next(request);
        return res, Some(request), left;
      }
      if k in entries && !rcc.noCache && !entries[k].mustRevalidate && IsFresh(entries[k], now) {
        return Ok(ToResponse(entries[k], now)), None, request;
      }
      ghost var before := entries;
      var pending: Option<Entry> := None;
      var sent := request;
      if k in entries {
        var e := entries[k];
        var requiresRevalidation := e.mustRevalidate || !IsFresh(e, now);
        var needsRevalidation := rcc.noCache || requiresRevalidation;
        if needsRevalidation && CanRevalidate(e) {
          entries := entries - {k};
          sent := sent.(headers := ApplyConditionalHeaders(e, sent.headers));
          pending := Some(e);
        } else if requiresRevalidation && !CanRevalidate(e) {
          entries := entries - {k};
        }
      }
      assert Prepare(before, k, request, now) == Prepared(entries, sent, pending);
      TransitionForwards(before, request, now, next, untilDate, AfterRespond);
      ghost var goal := Complete(entries, k, rcc, sent, pending, now, next, untilDate, AfterRespond);
      var (res, left) := next(sent);
      forwarded, after := Some(sent), left;
      if res.Err? {
        assert goal == Step(res, forwarded, after, entries);
        return res, forwarded, after;
      }
      var response := res.value;
      if response.status == NotModified {
        if pending.Some? {
          var u := UpdateFrom304(pending.value, response, now, untilDate);
          assert goal == Step(Ok(ToResponse(u, now)), forwarded, after, entries[k := u]);
          entries := entries[k := u];
          return Ok(ToResponse(u, now)), forwarded, after;
        }
        assert goal == Step(res, forwarded, after, entries);
        return res, forwarded, after;
      }
      // Line 89 reads the headers of the request after `next.respond` has had it.
      var (out, kept) := Admit(rcc, left.headers, response, now, untilDate);
      if kept.Some? {
        assert goal == Step(Ok(ToResponse(kept.value, now)), forwarded, after, entries[k := kept.value]);
        entries := entries[k := kept.value];
        result := Ok(ToResponse(kept.value, now));
      } else {
        assert goal == Step(Ok(out), forwarded, after, entries);
        result := Ok(out);
      }
    }
  }
}

/**
 * Properties of `Cache::handle`, stated on its transition for either place of
 * the credential test, unless a lemma names one.
 */
module CacheProperties {
  import opened Common
  import opened Http
  import opened Cache

  /** Only GET is cached: anything else goes to the inner endpoint untouched, table unchanged. */
  lemma NonGetBypasses(entries: map<string, Entry>, request: Request, now: nat, next: Endpoint,
                       untilDate: DateOracle, check: CredentialCheck)
    requires request.verb != GET
    ensures var s := Transition(entries, request, now, next, untilDate, check);
      s.forwarded == Some(request) && s.result == next(request).0 && s.entries == entries
  {
  }

  /** A `no-store` request evicts its key and is forwarded as it is; nothing gets stored. */
  lemma NoStoreEvicts(entries: map<string, Entry>, request: Request, now: nat, next: Endpoint,
                      untilDate: DateOracle, check: CredentialCheck)
    requires request.verb == GET && FromHeaderMap(request.headers).noStore
    ensures var s := Transition(entries, request, now, next, untilDate, check);
      s.forwarded == Some(request) && s.result == next(request).0
      && s.entries == entries - {request.uri} && request.uri !in s.entries
  {
  }

  /**
   * The inner endpoint is skipped iff a GET without `no-store` finds an entry
   * that is fresh, not must-revalidate, and the request has no `no-cache`; the
   * answer is then the stored response with its `Age`, and the table is unchanged.
   */
  lemma ServedIffFresh(entries: map<string, Entry>, request: Request, now: nat, next: Endpoint,
                       untilDate: DateOracle, check: CredentialCheck)
    ensures var s, rcc := Transition(entries, request, now, next, untilDate, check), FromHeaderMap(request.headers);
      (s.forwarded.None? <==> request.verb == GET && !rcc.noStore && request.uri in entries
                              && Serves(entries[request.uri], rcc, now))
      && (s.forwarded.None? ==> s.result == Ok(ToResponse(entries[request.uri], now)) && s.entries == entries)
  {
    var rcc := FromHeaderMap(request.headers);
    if request.verb == GET && !rcc.noStore && !(request.uri in entries && Serves(entries[request.uri], rcc, now)) {
      var p := Prepare(entries, request.uri, request, now);
      CompleteForwards(p.table, request.uri, rcc, p.sent, p.pending, now, next, untilDate, check);
    }
  }

  lemma CompleteForwards(entries: map<string, Entry>, key: string, requestCc: CacheControl,
                         sent: Request, pending: Option<Entry>, now: nat,
                         next: Endpoint, untilDate: DateOracle, check: CredentialCheck)
    ensures Complete(entries, key, requestCc, sent, pending, now, next, untilDate, check).forwarded == Some(sent)
  {
  }

  /**
   * A new (non-304) answer: stored, under its key only, as `FromResponse` builds
   * it iff `Storable`; otherwise passed through with the table unchanged.
   */
  lemma CompleteFresh(entries: map<string, Entry>, key: string, requestCc: CacheControl,
                      sent: Request, pending: Option<Entry>, now: nat,
                      next: Endpoint, untilDate: DateOracle, check: CredentialCheck)
    requires next(sent).0.Ok? && next(sent).0.value.status != NotModified
    ensures var s, response := Complete(entries, key, requestCc, sent, pending, now, next, untilDate, check),
                               next(sent).0.value;
      var e := FromResponse(response, FromHeaderMap(response.headers), now, requestCc.noCache, untilDate).1;
      s.forwarded == Some(sent)
      && (Storable(requestCc, CredentialHeaders(check, sent, next(sent).1), response, untilDate) ==>
            e.Some? && s.entries == entries[key := e.value] && s.result == Ok(ToResponse(e.value, now)))
      && (!Storable(requestCc, CredentialHeaders(check, sent, next(sent).1), response, untilDate) ==>
            s.entries == entries && s.result == Ok(response))
  {
  }

  /** Validation: an entry that is not served but has a validator is taken out of the table and
      its validators go out as conditional headers; the answer decides what comes back. */
  lemma RevalidationIsConditional(entries: map<string, Entry>, request: Request, now: nat,
                                  next: Endpoint, untilDate: DateOracle, check: CredentialCheck)
    requires request.verb == GET && !FromHeaderMap(request.headers).noStore
    requires request.uri in entries && !Serves(entries[request.uri], FromHeaderMap(request.headers), now)
    requires CanRevalidate(entries[request.uri])
    ensures var s, e, key := Transition(entries, request, now, next, untilDate, check), entries[request.uri], request.uri;
      var sent := request.(headers := ApplyConditionalHeaders(e, request.headers));
      var rcc := FromHeaderMap(request.headers);
      s.forwarded == Some(sent)
      && (next(sent).0.Err? ==> s.entries == entries - {key} && s.result == next(sent).0)
      && (next(sent).0.Ok? && next(sent).0.value.status == NotModified ==>
            s.entries == entries[key := Refreshed(e, next(sent).0.value, now, untilDate)]
            && s.result == Ok(ToResponse(Refreshed(e, next(sent).0.value, now, untilDate), now)))
      && (next(sent).0.Ok? && next(sent).0.value.status != NotModified ==>
            var made := FromResponse(next(sent).0.value, FromHeaderMap(next(sent).0.value.headers), now,
                                      rcc.noCache, untilDate).1;
            if Storable(rcc, CredentialHeaders(check, sent, next(sent).1), next(sent).0.value, untilDate)
            then made.Some? && s.entries == entries[key := made.value] && s.result == Ok(ToResponse(made.value, now))
            else s.entries == entries - {key} && s.result == next(sent).0)
  {
    var key, e, rcc := request.uri, entries[request.uri], FromHeaderMap(request.headers);
    var p := Prepare(entries, key, request, now);
    TransitionForwards(entries, request, now, next, untilDate, check);
    CompleteForwards(p.table, key, rcc, p.sent, Some(e), now, next, untilDate, check);
    CompleteOnErrorOr304(p.table, key, rcc, p.sent, e, now, next, untilDate, check);
    if next(p.sent).0.Ok? && next(p.sent).0.value.status == NotModified {
      RemoveThenStore(entries, key, Refreshed(e, next(p.sent).0.value, now, untilDate));
    } else if next(p.sent).0.Ok? {
      CompleteFresh(p.table, key, rcc, p.sent, Some(e), now, next, untilDate, check);
      var made := FromResponse(next(p.sent).0.value, FromHeaderMap(next(p.sent).0.value.headers), now,
                                rcc.noCache, untilDate).1;
      if made.Some? {
        RemoveThenStore(entries, key, made.value);
      }
    }
  }

  /** Storing under a key after taking it out is storing under it. */
  lemma RemoveThenStore<K, V>(m: map<K, V>, k: K, v: V)
    ensures (m - {k})[k := v] == m[k := v]
  {
  }

  lemma CompleteOnErrorOr304(entries: map<string, Entry>, key: string, requestCc: CacheControl,
                             sent: Request, e: Entry, now: nat, next: Endpoint, untilDate: DateOracle,
                             check: CredentialCheck)
    ensures var s := Complete(entries, key, requestCc, sent, Some(e), now, next, untilDate, check);
      (next(sent).0.Err? ==> s.entries == entries && s.result == next(sent).0)
      && (next(sent).0.Ok? && next(sent).0.value.status == NotModified ==>
            s.entries == entries[key := Refreshed(e, next(sent).0.value, now, untilDate)]
            && s.result == Ok(ToResponse(Refreshed(e, next(sent).0.value, now, untilDate), now)))
  {
  }

  /** A stale or must-revalidate entry without a validator is evicted before the request is forwarded. */
  lemma UnvalidatableEvicted(entries: map<string, Entry>, request: Request, now: nat,
                             next: Endpoint, untilDate: DateOracle, check: CredentialCheck)
    requires request.verb == GET && !FromHeaderMap(request.headers).noStore
    requires request.uri in entries && RequiresRevalidation(entries[request.uri], now)
    requires !CanRevalidate(entries[request.uri])
    ensures var s := Transition(entries, request, now, next, untilDate, check);
      s.forwarded == Some(request)
      && (request.uri in s.entries ==> next(request).0.Ok? && s.entries[request.uri].storedAt == now)
  {
  }

  /** A 304 with nothing to reconcile is passed through and nothing is stored under its key. */
  lemma UnsolicitedNotModified(entries: map<string, Entry>, request: Request, now: nat,
                               next: Endpoint, untilDate: DateOracle, check: CredentialCheck)
    requires request.verb == GET && !FromHeaderMap(request.headers).noStore
    requires request.uri !in entries
    requires next(request).0.Ok? && next(request).0.value.status == NotModified
    ensures var s := Transition(entries, request, now, next, untilDate, check);
      s.result == next(request).0 && s.entries == entries
  {
  }

  /**
   * A GET that is forwarded and gets a new response (not a 304): its key maps
   * to the entry built from that response iff the response is `Storable` (not
   * `no-store`; no credentials where the test looks, or `public`; a lifetime or
   * revalidation); otherwise the response is passed through, the key keeps its
   * entry if it stayed in the table while forwarding and is absent if not.
   */
  lemma StoredIff(entries: map<string, Entry>, request: Request, now: nat, next: Endpoint,
                  untilDate: DateOracle, check: CredentialCheck)
    requires request.verb == GET && !FromHeaderMap(request.headers).noStore
    requires request.uri !in entries || !Serves(entries[request.uri], FromHeaderMap(request.headers), now)
    ensures Transition(entries, request, now, next, untilDate, check).forwarded
      == Some(Prepare(entries, request.uri, request, now).sent)
    ensures var sent, key, rcc := Prepare(entries, request.uri, request, now).sent, request.uri, FromHeaderMap(request.headers);
      next(sent).0.Ok? && next(sent).0.value.status != NotModified ==>
      var s, response := Transition(entries, request, now, next, untilDate, check), next(sent).0.value;
      var made := FromResponse(response, FromHeaderMap(response.headers), now, rcc.noCache, untilDate).1;
      (Storable(rcc, CredentialHeaders(check, sent, next(sent).1), response, untilDate) ==>
            made.Some? && s.entries == entries[key := made.value] && s.result == Ok(ToResponse(made.value, now)))
      && (!Storable(rcc, CredentialHeaders(check, sent, next(sent).1), response, untilDate) ==>
            s.result == Ok(response)
            && s.entries == if KeptWhileForwarded(entries, key, now) then entries else entries - {key})
  {
    var key, rcc := request.uri, FromHeaderMap(request.headers);
    var p := Prepare(entries, key, request, now);
    TransitionForwards(entries, request, now, next, untilDate, check);
    CompleteForwards(p.table, key, rcc, p.sent, p.pending, now, next, untilDate, check);
    if next(p.sent).0.Ok? && next(p.sent).0.value.status != NotModified {
      CompleteFresh(p.table, key, rcc, p.sent, p.pending, now, next, untilDate, check);
      var made := FromResponse(next(p.sent).0.value, FromHeaderMap(next(p.sent).0.value.headers), now,
                                rcc.noCache, untilDate).1;
      if made.Some? {
        RemoveThenStore(entries, key, made.value);
      }
    }
  }

  /** `ApplyConditionalHeaders` adds no credentials. */
  lemma ConditionalKeepsCredentials(e: Entry, h: Headers)
    ensures ContainsKey(ApplyConditionalHeaders(e, h), Authorization) <==> ContainsKey(h, Authorization)
  {
    assert Authorization[0] != IfNoneMatch[0] && Authorization[0] != IfModifiedSince[0];
  }

  /**
   * The scenario of the test at lines 280-296: a forwarded GET without
   * credentials or `no-cache` is answered with `max-age=n` and neither
   * `no-store`, `no-cache` nor `must-revalidate`; a second GET of the URI
   * within n seconds is answered from the table without the inner endpoint,
   * with the first body.
   */
  lemma StoredThenServed(entries: map<string, Entry>, request: Request, now: nat, later: nat,
                         next: Endpoint, untilDate: DateOracle, again: Request, check: CredentialCheck)
    requires request.verb == GET && again.verb == GET && again.uri == request.uri
    requires var rcc := FromHeaderMap(request.headers); !rcc.noStore && !rcc.noCache
    requires request.uri !in entries || !Serves(entries[request.uri], FromHeaderMap(request.headers), now)
    requires !ContainsKey(request.headers, Authorization)
    requires var sent := Prepare(entries, request.uri, request, now).sent;
      next(sent).0.Ok? && next(sent).0.value.status != NotModified
      && !ContainsKey(next(sent).1.headers, Authorization)
      && var cc := FromHeaderMap(next(sent).0.value.headers);
      cc.maxAge.Some? && !cc.noStore && !cc.noCache && !cc.mustRevalidate
      && Elapsed(later, now) < cc.maxAge.value * NanosPerSec
    requires var rcc := FromHeaderMap(again.headers); !rcc.noStore && !rcc.noCache
    ensures var sent := Prepare(entries, request.uri, request, now).sent;
      var s := Transition(entries, request, now, next, untilDate, check);
      var t := Transition(s.entries, again, later, next, untilDate, check);
      request.uri in s.entries && s.entries[request.uri].body == next(sent).0.value.body
      && t.forwarded.None? && t.result == Ok(ToResponse(s.entries[request.uri], later))
  {
    var key, rcc := request.uri, FromHeaderMap(request.headers);
    var p := Prepare(entries, key, request, now);
    var response := next(p.sent).0.value;
    if p.pending.Some? {
      ConditionalKeepsCredentials(entries[key], request.headers);
    }
    assert !ContainsKey(CredentialHeaders(check, p.sent, next(p.sent).1), Authorization);
    var made := FromResponse(response, FromHeaderMap(response.headers), now, rcc.noCache, untilDate).1;
    assert Storable(rcc, CredentialHeaders(check, p.sent, next(p.sent).1), response, untilDate);
    assert made.Some? && made.value.body == response.body && !made.value.mustRevalidate
      && made.value.storedAt == now && made.value.freshness == Some(FromHeaderMap(response.headers).maxAge.value * NanosPerSec);
    StoredIff(entries, request, now, next, untilDate, check);
    var s := Transition(entries, request, now, next, untilDate, check);
    assert key in s.entries && s.entries[key] == made.value;
    assert Serves(s.entries[key], FromHeaderMap(again.headers), later);
    ServedIffFresh(s.entries, again, later, next, untilDate, check);
  }

  // ---------------------------------------------------------------------
  // The credential test, as written and corrected

  /**
   * As written, over a transport that leaves `Placeholder` behind, a private
   * response to a GET with `Authorization` is stored; with the test made on the
   * request that was sent it is not.
   */
  lemma AsWrittenStoresPrivateResponse(entries: map<string, Entry>, request: Request, now: nat,
                                       next: Endpoint, untilDate: DateOracle)
    requires request.verb == GET && request.uri !in entries && ContainsKey(request.headers, Authorization)
    requires !FromHeaderMap(request.headers).noStore
    requires next(request).1 == Placeholder && next(request).0.Ok?
    requires var response := next(request).0.value; var cc := FromHeaderMap(response.headers);
      response.status != NotModified && !cc.public && !cc.noStore && cc.maxAge.Some?
    ensures request.uri in Handled(entries, request, now, next, untilDate).entries
    ensures request.uri !in HandledCorrected(entries, request, now, next, untilDate).entries
  {
    StoredIff(entries, request, now, next, untilDate, AfterRespond);
    StoredIff(entries, request, now, next, untilDate, BeforeRespond);
  }

  /**
   * With the credential test made on the request that was sent, a GET with
   * `Authorization` whose forwarded answer is new and not `public` stores
   * nothing: its key afterwards holds at most the entry it held before.
   */
  lemma PrivateNeverStored(entries: map<string, Entry>, request: Request, now: nat, next: Endpoint,
                           untilDate: DateOracle)
    requires request.verb == GET && ContainsKey(request.headers, Authorization)
    ensures var s := HandledCorrected(entries, request, now, next, untilDate);
      s.forwarded.Some? && next(s.forwarded.value).0.Ok?
      && next(s.forwarded.value).0.value.status != NotModified
      && !FromHeaderMap(next(s.forwarded.value).0.value.headers).public
      ==> (request.uri in s.entries ==> request.uri in entries && s.entries[request.uri] == entries[request.uri])
  {
    var key, rcc := request.uri, FromHeaderMap(request.headers);
    if !rcc.noStore && (key !in entries || !Serves(entries[key], rcc, now)) {
      var p := Prepare(entries, key, request, now);
      if p.pending.Some? {
        ConditionalKeepsCredentials(entries[key], request.headers);
      }
      if next(p.sent).0.Ok? && next(p.sent).0.value.status != NotModified {
        StoredIff(entries, request, now, next, untilDate, BeforeRespond);
      }
    }
  }
}
