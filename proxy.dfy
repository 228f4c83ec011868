/**
 * Proxy selection for the proxy-capable backends: a builder (or the
 * `HTTP_PROXY`, `HTTPS_PROXY`, `ALL_PROXY` and `NO_PROXY` environment
 * variables) gives a matcher, and the matcher picks the proxy, if any, for a
 * destination URI. URI parsing is the `http` crate's and is a parameter.
 */
module Proxy {
  import opened Common
  import opened Http
  import Utf8
  import Auth

  /** What the model needs of a parsed `http::Uri`: its text and the parts `intercept` and `parse` read. */
  datatype Uri = Uri(text: string, scheme: Option<string>, authority: Option<string>, host: Option<string>)

  /** `Uri::from_str`. */
  type UriParser = string -> Option<Uri>

  /** A proxy: its URI, the `Basic` header for its credentials, and the credentials split at the first colon. */
  datatype ProxyConfig = ProxyConfig(uri: Uri, basicAuth: Option<HeaderValue>, rawAuth: Option<(string, string)>)

  /** The userinfo of an authority: the text before its last `@`, or empty without one. */
  function Userinfo(authority: string): (u: string)
    ensures '@' !in authority ==> u == ""
    ensures '@' in authority ==> StartsWith(authority, u + "@") && '@' !in authority[|u| + 1..]
  {
    match RSplitOnce(authority, '@')
    case None => ""
    case Some((user, host)) =>
      assert authority[..|user| + 1] == user + "@" && authority[|user| + 1..] == host;
      user
  }

  /**
   * `ProxyConfig::parse`: nothing for a string that is not a URI or has no
   * authority; otherwise the URI, a `Basic` header exactly when the userinfo
   * is non-empty, and the userinfo split at its first colon, if it has one.
   */
  function ParseProxy(parse: UriParser, value: string): (r: Option<ProxyConfig>)
    ensures r.Some? <==> parse(value).Some? && parse(value).value.authority.Some?
    ensures r.Some? ==>
      var u := Userinfo(parse(value).value.authority.value);
      r.value.uri == parse(value).value
      && (r.value.basicAuth.Some? <==> u != "")
      && (u != "" ==> r.value.basicAuth == Some(Utf8.Encode(Auth.BasicText(u))))
      && r.value.rawAuth == SplitOnce(u, ':')
      && (r.value.rawAuth.None? <==> ':' !in u)
  {
    match parse(value)
    case None => None
    case Some(uri) =>
      match uri.authority
      case None => None
      case Some(authority) =>
        var u := Userinfo(authority);
        Auth.BasicTextIsValue(u);
        var basic := if u != "" then ValueFromStr(Auth.BasicText(u)) else None;
        Some(ProxyConfig(uri, basic, SplitOnce(u, ':')))
  }

  /** `ProxyBuilder`. */
  datatype Builder = Builder(http: Option<string>, https: Option<string>, all: Option<string>, noProxy: set<string>)

  /** `Proxy::builder`. */
  const EmptyBuilder: Builder := Builder(None, None, None, {})

  function WithAll(b: Builder, value: string): (r: Builder)
    ensures r.all == Some(value) && r.(all := b.all) == b
  {
    b.(all := Some(value))
  }

  function WithHttp(b: Builder, value: string): (r: Builder)
    ensures r.http == Some(value) && r.(http := b.http) == b
  {
    b.(http := Some(value))
  }

  function WithHttps(b: Builder, value: string): (r: Builder)
    ensures r.https == Some(value) && r.(https := b.https) == b
  {
    b.(https := Some(value))
  }

  /** The entries of a `NO_PROXY` list: its comma-separated pieces, empty ones dropped, lower-cased, not trimmed. */
  function NoProxyEntries(raw: string): (entries: set<string>)
    ensures forall e :: e in entries ==> e != [] && ',' !in e && AsciiLower(e) == e
  {
    var pieces := Split(raw, ',');
    forall i | 0 <= i < |pieces| ensures AsciiLower(AsciiLower(pieces[i])) == AsciiLower(pieces[i]) {
      AsciiLowerIdempotent(pieces[i]);
    }
    set i | 0 <= i < |pieces| && pieces[i] != [] :: AsciiLower(pieces[i])
  }

  /** A piece without a comma is one entry of its own, blanks and all. */
  lemma NoProxySingle(raw: string)
    requires raw != [] && ',' !in raw
    ensures NoProxyEntries(raw) == {AsciiLower(raw)}
  {
    SplitWithout(raw, ',');
    var pieces := Split(raw, ',');
    assert pieces == [raw];
    assert AsciiLower(raw) in NoProxyEntries(raw) by {
      assert 0 < |pieces| && pieces[0] != [] && AsciiLower(pieces[0]) == AsciiLower(raw);
    }
    forall e | e in NoProxyEntries(raw) ensures e == AsciiLower(raw) {
      var i :| 0 <= i < |pieces| && pieces[i] != [] && AsciiLower(pieces[i]) == e;
    }
  }

  /** The entries of two lists joined by a comma are the entries of each. */
  lemma NoProxyConcat(a: string, b: string)
    ensures NoProxyEntries(a + "," + b) == NoProxyEntries(a) + NoProxyEntries(b)
  {
    SplitConcat(a, b, ',');
    var pa, pb := Split(a, ','), Split(b, ',');
    var p := Split(a + "," + b, ',');
    assert p == pa + pb;
    forall e | e in NoProxyEntries(a + "," + b) ensures e in NoProxyEntries(a) + NoProxyEntries(b) {
      var i :| 0 <= i < |p| && p[i] != [] && AsciiLower(p[i]) == e;
      if i < |pa| { assert p[i] == pa[i]; } else { assert p[i] == pb[i - |pa|]; }
    }
    forall e | e in NoProxyEntries(a) ensures e in NoProxyEntries(a + "," + b) {
      var i :| 0 <= i < |pa| && pa[i] != [] && AsciiLower(pa[i]) == e;
      assert p[i] == pa[i];
    }
    forall e | e in NoProxyEntries(b) ensures e in NoProxyEntries(a + "," + b) {
      var i :| 0 <= i < |pb| && pb[i] != [] && AsciiLower(pb[i]) == e;
      assert p[|pa| + i] == pb[i];
    }
  }

  lemma SplitWithout(s: string, sep: char)
    requires sep !in s
    ensures Split(s, sep) == [s]
    decreases |s|
  {
    if s != [] {
      SplitWithout(s[1..], sep);
      assert [s[0]] + s[1..] == s;
    }
  }

  lemma {:induction false} SplitConcat(a: string, b: string, sep: char)
    ensures Split(a + [sep] + b, sep) == Split(a, sep) + Split(b, sep)
    decreases |a|
  {
    var s := a + [sep] + b;
    if a == [] {
      assert s[0] == sep && s[1..] == b;
    } else {
      assert s[0] == a[0] && s[1..] == a[1..] + [sep] + b;
      SplitConcat(a[1..], b, sep);
    }
  }

  /** `ProxyBuilder::no_proxy`: the list's entries are added to those already there; nothing else changes. */
  function WithNoProxy(b: Builder, raw: string): (r: Builder)
    ensures forall e :: e in r.noProxy <==> e in b.noProxy || e in NoProxyEntries(raw)
    ensures r.(noProxy := b.noProxy) == b
  {
    b.(noProxy := b.noProxy + NoProxyEntries(raw))
  }

  /** `Matcher`. */
  datatype Matcher = Matcher(http: Option<ProxyConfig>, https: Option<ProxyConfig>, all: Option<ProxyConfig>,
                             noProxy: set<string>)

  function ParseSetting(parse: UriParser, value: Option<string>): Option<ProxyConfig> {
    if value.Some? then ParseProxy(parse, value.value) else None
  }

  /** `ProxyBuilder::build`: each proxy string is parsed, and one that does not parse is no proxy at all. */
  function Build(b: Builder, parse: UriParser): (m: Matcher)
    ensures m.noProxy == b.noProxy
    ensures m.http.Some? <==> b.http.Some? && ParseProxy(parse, b.http.value).Some?
    ensures m.https.Some? <==> b.https.Some? && ParseProxy(parse, b.https.value).Some?
    ensures m.all.Some? <==> b.all.Some? && ParseProxy(parse, b.all.value).Some?
    ensures b.http.Some? ==> m.http == ParseProxy(parse, b.http.value)
    ensures b.https.Some? ==> m.https == ParseProxy(parse, b.https.value)
    ensures b.all.Some? ==> m.all == ParseProxy(parse, b.all.value)
  {
    Matcher(ParseSetting(parse, b.http), ParseSetting(parse, b.https), ParseSetting(parse, b.all), b.noProxy)
  }

  /** The process environment. */
  type Environment = string -> Option<string>

  /** `Matcher::from_env`. */
  function FromEnv(env: Environment, parse: UriParser): Matcher {
    var noProxy := if env("NO_PROXY").Some? then NoProxyEntries(env("NO_PROXY").value) else {};
    Matcher(ParseSetting(parse, env("HTTP_PROXY")), ParseSetting(parse, env("HTTPS_PROXY")),
            ParseSetting(parse, env("ALL_PROXY")), noProxy)
  }

  /** Reading the environment is the builder given the three variables and the `NO_PROXY` list. */
  lemma FromEnvIsBuild(env: Environment, parse: UriParser)
    ensures var b := Builder(env("HTTP_PROXY"), env("HTTPS_PROXY"), env("ALL_PROXY"), {});
      FromEnv(env, parse) == Build(if env("NO_PROXY").Some? then WithNoProxy(b, env("NO_PROXY").value) else b, parse)
  {
  }

  /** `Intercept`: what a backend needs to send a request through the proxy. */
  datatype Intercept = Intercept(uri: Uri, basicAuth: Option<HeaderValue>, rawAuth: Option<(string, string)>)

  /** A host is not proxied when it ends with any `NO_PROXY` entry (a plain suffix match). */
  predicate Bypassed(noProxy: set<string>, host: string) {
    exists e :: e in noProxy && EndsWith(host, e)
  }

  /** The scheme `intercept` goes by: the URI's, or `http` without one. */
  function SchemeOf(uri: Uri): string {
    if uri.scheme.Some? then uri.scheme.value else "http"
  }

  /** The proxy for a scheme: the scheme's own proxy, else the `all` proxy; none for other schemes. */
  function Chosen(m: Matcher, scheme: string): Option<ProxyConfig> {
    if scheme == "http" then (if m.http.Some? then m.http else m.all)
    else if scheme == "https" then (if m.https.Some? then m.https else m.all)
    else None
  }

  /** The scheme's own proxy wins over the `all` proxy, which serves only `http` and `https`. */
  lemma ChosenSpec(m: Matcher, scheme: string)
    ensures scheme != "http" && scheme != "https" ==> Chosen(m, scheme).None?
    ensures scheme == "http" && m.http.Some? ==> Chosen(m, scheme) == m.http
    ensures scheme == "https" && m.https.Some? ==> Chosen(m, scheme) == m.https
    ensures scheme == "http" && m.http.None? ==> Chosen(m, scheme) == m.all
    ensures scheme == "https" && m.https.None? ==> Chosen(m, scheme) == m.all
    ensures Chosen(m, scheme).Some? ==> Chosen(m, scheme) in {m.http, m.https, m.all}
  {
  }

  /**
   * `Matcher::intercept`: a URI is sent through a proxy exactly when it has a
   * host, its lower-cased host matches no `NO_PROXY` entry, and its scheme has
   * a proxy; the proxy's URI and credentials are copied as they are.
   */
  function InterceptOf(m: Matcher, uri: Uri): (r: Option<Intercept>)
    ensures r.Some? <==> uri.host.Some? && !Bypassed(m.noProxy, AsciiLower(uri.host.value)) && Chosen(m, SchemeOf(uri)).Some?
    ensures r.Some? ==>
      var c := Chosen(m, SchemeOf(uri)).value;
      r.value == Intercept(c.uri, c.basicAuth, c.rawAuth)
  {
    if uri.host.None? then None
    else
      var host := AsciiLower(uri.host.value);
      if Bypassed(m.noProxy, host) then None
      else match Chosen(m, SchemeOf(uri))
        case None => None
        case Some(c) => Some(Intercept(c.uri, c.basicAuth, c.rawAuth))
  }

  /** A host any entry is a suffix of goes direct, whatever its scheme and the proxies configured. */
  lemma SuffixBypasses(m: Matcher, uri: Uri, entry: string)
    requires entry in m.noProxy && uri.host.Some? && EndsWith(AsciiLower(uri.host.value), entry)
    ensures InterceptOf(m, uri).None?
  {
  }

  /** The suffix match is not a domain match: an entry `example.com` also bypasses `notexample.com`. */
  lemma SuffixMatchIsPlain(m: Matcher, uri: Uri)
    requires "example.com" in m.noProxy && uri.host.Some? && AsciiLower(uri.host.value) == "notexample.com"
    ensures InterceptOf(m, uri).None?
  {
    var host := "notexample.com";
    assert host[|host| - |"example.com"|..] == "example.com";
    SuffixBypasses(m, uri, "example.com");
  }
}
