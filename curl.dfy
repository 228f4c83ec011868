/**
 * The libcurl backend's transfer handler: the status and header lines curl
 * hands over one at a time (section 4 of RFC 9112), the response body it
 * writes in chunks, and the request body it pulls in chunks into a buffer
 * of its own. The curl calls themselves are not part of this model.
 */
module Curl {
  import opened Common
  import opened Http
  import Utf8

  // ---------------------------------------------------------------------
  // Header names

  /** The characters `HeaderName::from_bytes` accepts: the `tchar`s of RFC 9110. */
  predicate IsTokenChar(c: char) {
    ('a' <= c <= 'z') || ('A' <= c <= 'Z') || ('0' <= c <= '9')
    || c == '!' || c == '#' || c == '$' || c == '%' || c == '&' || c == '\'' || c == '*'
    || c == '+' || c == '-' || c == '.' || c == '^' || c == '_' || c == '`' || c == '|' || c == '~'
  }

  predicate IsToken(s: string) { s != [] && forall i :: 0 <= i < |s| ==> IsTokenChar(s[i]) }

  /** `HeaderName::from_bytes`: a non-empty token, stored lower-case. */
  function HeaderNameFrom(s: string): (r: Option<string>)
    ensures r.Some? <==> IsToken(s)
    ensures r.Some? ==> r.value == AsciiLower(s) && |r.value| == |s|
  {
    if IsToken(s) then Some(AsciiLower(s)) else None
  }

  // ---------------------------------------------------------------------
  // Header lines

  const HttpPrefix: string := "HTTP/"

  /**
   * The status an `HTTP/...` line announces: its second word, read as a
   * `u16` and accepted as a status code. Any other line announces none.
   */
  function StatusOfLine(line: string): (r: Option<StatusCode>)
    ensures r.Some? ==> StartsWith(line, HttpPrefix)
    ensures r.Some? ==> var words := Words(line[|HttpPrefix|..]);
      |words| >= 2 && ParseUnsigned(words[1], U16Limit) == Some(r.value as nat)
  {
    match StripPrefix(line, HttpPrefix)
    case None => None
    case Some(rest) =>
      var words := Words(rest);
      if |words| < 2 then None
      else
        match ParseUnsigned(words[1], U16Limit)
        case None => None
        case Some(v) => StatusFromU16(v)
  }

  /**
   * The header a `name: value` line carries: split at the first colon, both
   * sides trimmed, kept only when the name is a token and the value is one a
   * header value may hold.
   */
  function HeaderOfLine(line: string): (r: Option<(string, HeaderValue)>)
    ensures r.Some? ==> ':' in line
    ensures r.Some? ==> var (n, v) := SplitOnce(line, ':').value;
      IsToken(Trim(n)) && r.value == (AsciiLower(Trim(n)), Utf8.Encode(Trim(v)))
    ensures ':' in line && IsToken(Trim(SplitOnce(line, ':').value.0)) && IsValueText(Trim(SplitOnce(line, ':').value.1)) ==> r.Some?
  {
    match SplitOnce(line, ':')
    case None => None
    case Some((n, v)) =>
      var name, value := Trim(n), Trim(v);
      if name == [] then None
      else
        match (HeaderNameFrom(name), ValueFromStr(value))
        case (Some(hn), Some(hv)) => Some((hn, hv))
        case _ => None
  }

  /** What the handler has gathered from the header lines so far. */
  datatype Parsed = Parsed(status: Option<StatusCode>, headers: Headers)

  /**
   * `parse_header_line`: a status line starts a new response, so it sets the
   * status and forgets the headers gathered so far; a malformed status line,
   * an empty line or a line that is not a valid header changes nothing; a
   * valid header is added after the ones already there.
   */
  function ParseLine(p: Parsed, line: string): (r: Parsed)
    ensures line == [] ==> r == p
    ensures StatusOfLine(line).Some? ==> r == Parsed(StatusOfLine(line), [])
    ensures StartsWith(line, HttpPrefix) && StatusOfLine(line).None? ==> r == p
    ensures StartsWith(line, HttpPrefix) ==> |r.headers| <= |p.headers|
    ensures !StartsWith(line, HttpPrefix) ==> r.status == p.status
    ensures !StartsWith(line, HttpPrefix) && HeaderOfLine(line).None? ==> r == p
    ensures !StartsWith(line, HttpPrefix) && HeaderOfLine(line).Some? ==>
      var (name, v) := HeaderOfLine(line).value;
      r.headers == p.headers + [(name, v)] && GetAll(r.headers, name) == GetAll(p.headers, name) + [v]
  {
    if line == [] then p
    else if StartsWith(line, HttpPrefix) then
      match StatusOfLine(line)
      case Some(s) => Parsed(Some(s), Empty)
      case None => p
    else
      match HeaderOfLine(line)
      case None => p
      case Some((name, v)) => GetAllConcatSingle(p.headers, name, v); p.(headers := p.headers + [(name, v)])
  }

  /** The lines one after another. */
  function ParseLines(p: Parsed, lines: seq<string>): Parsed
    decreases |lines|
  {
    if lines == [] then p else ParseLine(ParseLines(p, lines[..|lines| - 1]), lines[|lines| - 1])
  }

  /** The headers a run of lines without a status line adds, in order. */
  function HeadersOf(lines: seq<string>): Headers
    decreases |lines|
  {
    if lines == [] then []
    else
      var last := lines[|lines| - 1];
      HeadersOf(lines[..|lines| - 1])
      + (if !StartsWith(last, HttpPrefix) && HeaderOfLine(last).Some? then [HeaderOfLine(last).value] else [])
  }

  /**
   * After interim responses and redirects curl follows, the handler holds the
   * last status line's status and exactly the headers that came after it.
   */
  lemma {:induction false} LastStatusWins(p: Parsed, before: seq<string>, statusLine: string, after: seq<string>)
    requires StatusOfLine(statusLine).Some?
    requires forall i :: 0 <= i < |after| ==> StatusOfLine(after[i]).None?
    ensures ParseLines(p, before + [statusLine] + after) == Parsed(StatusOfLine(statusLine), HeadersOf(after))
    decreases |after|
  {
    var front := before + [statusLine];
    if after == [] {
      SnocInit(before, statusLine);
      assert front + after == front;
    } else {
      var init, last := after[..|after| - 1], after[|after| - 1];
      FoldStep(p, front, after);
      HeadersStep(after);
      LastStatusWins(p, before, statusLine, init);
      LineAfterStatus(ParseLines(p, front + init), last);
    }
  }

  /** Folding a non-empty run of lines ends with its last line. */
  lemma FoldStep(p: Parsed, front: seq<string>, after: seq<string>)
    requires after != []
    ensures ParseLines(p, front + after) == ParseLine(ParseLines(p, front + after[..|after| - 1]), after[|after| - 1])
  {
    SnocSplit(front, after);
  }

  lemma HeadersStep(after: seq<string>)
    requires after != []
    ensures var last := after[|after| - 1];
      HeadersOf(after) == HeadersOf(after[..|after| - 1])
      + (if !StartsWith(last, HttpPrefix) && HeaderOfLine(last).Some? then [HeaderOfLine(last).value] else [])
  {
  }

  lemma SnocInit<T>(a: seq<T>, x: T)
    ensures (a + [x])[..|a|] == a && (a + [x])[|a|] == x
  {
  }

  /** The last element of a non-empty tail splits off the whole. */
  lemma SnocSplit<T>(a: seq<T>, b: seq<T>)
    requires b != []
    ensures (a + b)[..|a + b| - 1] == a + b[..|b| - 1] && (a + b)[|a + b| - 1] == b[|b| - 1]
  {
  }

  /** A line that is not a status line keeps the status and adds at most its own header. */
  lemma LineAfterStatus(q: Parsed, line: string)
    requires StatusOfLine(line).None?
    ensures ParseLine(q, line) == Parsed(q.status, q.headers
      + (if !StartsWith(line, HttpPrefix) && HeaderOfLine(line).Some? then [HeaderOfLine(line).value] else []))
  {
  }

  // ---------------------------------------------------------------------
  // Status lines and header lines a server writes

  lemma {:induction false} WordLengthOf(w: string, t: string)
    requires forall i :: 0 <= i < |w| ==> !IsWhitespace(w[i])
    requires t == [] || IsWhitespace(t[0])
    ensures WordLength(w + t) == |w|
    decreases |w|
  {
    if w != [] {
      assert (w + t)[1..] == w[1..] + t;
      WordLengthOf(w[1..], t);
    }
  }

  /** A word followed by whitespace or nothing is the first word. */
  lemma WordsCons(w: string, t: string)
    requires w != [] && forall i :: 0 <= i < |w| ==> !IsWhitespace(w[i])
    requires t == [] || IsWhitespace(t[0])
    ensures Words(w + t) == [w] + Words(t)
  {
    var s := w + t;
    assert TrimStart(s) == s;
    WordLengthOf(w, t);
    assert s[..|w|] == w && s[|w|..] == t;
  }

  lemma WordsSpace(y: string)
    ensures Words([' '] + y) == Words(y)
  {
    assert ([' '] + y)[1..] == y;
  }

  /** A status line `HTTP/<version> <code>` and whatever reason follows it announces that code. */
  lemma StatusLineRead(version: string, code: StatusCode, reason: string)
    requires version != [] && forall i :: 0 <= i < |version| ==> !IsWhitespace(version[i])
    requires reason == [] || IsWhitespace(reason[0])
    ensures StatusOfLine(HttpPrefix + version + " " + Decimal(code) + reason) == Some(code)
  {
    var d := Decimal(code);
    var tail := d + reason;
    var rest := version + ([' '] + tail);
    var line := HttpPrefix + version + " " + d + reason;
    assert StripPrefix(line, HttpPrefix) == Some(rest) by {
      assert line == HttpPrefix + rest;
      assert line[..|HttpPrefix|] == HttpPrefix && line[|HttpPrefix|..] == rest;
    }
    assert forall i :: 0 <= i < |d| ==> !IsWhitespace(d[i]) by {
      assert AllDigits(d);
    }
    TwoWords(version, d, reason);
    ParseDecimal(code, U16Limit);
    StatusOfWords(line, rest, code);
  }

  /** A space, then a word followed by whitespace or nothing. */
  lemma SpacedWord(b: string, rest: string)
    requires b != [] && forall i :: 0 <= i < |b| ==> !IsWhitespace(b[i])
    requires rest == [] || IsWhitespace(rest[0])
    ensures Words([' '] + (b + rest)) == [b] + Words(rest)
  {
    WordsCons(b, rest);
    WordsSpace(b + rest);
  }

  /** Two words separated by a space, then whitespace or nothing. */
  lemma TwoWords(a: string, b: string, rest: string)
    requires a != [] && forall i :: 0 <= i < |a| ==> !IsWhitespace(a[i])
    requires b != [] && forall i :: 0 <= i < |b| ==> !IsWhitespace(b[i])
    requires rest == [] || IsWhitespace(rest[0])
    ensures Words(a + ([' '] + (b + rest))) == [a] + ([b] + Words(rest))
  {
    WordsCons(a, [' '] + (b + rest));
    SpacedWord(b, rest);
  }

  lemma StatusOfWords(line: string, rest: string, code: StatusCode)
    requires StripPrefix(line, HttpPrefix) == Some(rest)
    requires |Words(rest)| >= 2 && ParseUnsigned(Words(rest)[1], U16Limit) == Some(code as nat)
    ensures StatusOfLine(line) == Some(code)
  {
  }

  lemma TrimUnchanged(s: string)
    requires s == [] || (!IsWhitespace(s[0]) && !IsWhitespace(s[|s| - 1]))
    ensures Trim(s) == s
  {
  }

  /** A header line `name: value` with a token name and a trimmed value carries that header. */
  lemma HeaderLineRead(name: string, value: string)
    requires IsToken(name) && IsValueText(value)
    requires value == [] || (!IsWhitespace(value[0]) && !IsWhitespace(value[|value| - 1]))
    ensures HeaderOfLine(name + ": " + value) == Some((AsciiLower(name), Utf8.Encode(value)))
  {
    var v := [' '] + value;
    assert name + ": " + value == name + [':'] + v;
    assert ':' !in name by {
      assert forall i :: 0 <= i < |name| ==> IsTokenChar(name[i]);
    }
    SplitOnceOf(name, v, ':');
    TrimUnchanged(name);
    TrimSpace(value);
    HeaderOfSplit(name + [':'] + v, name, v);
  }

  lemma TrimSpace(s: string)
    requires s == [] || (!IsWhitespace(s[0]) && !IsWhitespace(s[|s| - 1]))
    ensures Trim([' '] + s) == s
  {
    var t := [' '] + s;
    assert t[1..] == s && IsWhitespace(t[0]);
    assert TrimStart(t) == TrimStart(s);
    TrimUnchanged(s);
  }

  lemma HeaderOfSplit(line: string, n: string, v: string)
    requires SplitOnce(line, ':') == Some((n, v))
    requires IsToken(Trim(n)) && IsValueText(Trim(v))
    ensures HeaderOfLine(line) == Some((AsciiLower(Trim(n)), Utf8.Encode(Trim(v))))
  {
  }

  // ---------------------------------------------------------------------
  // Pulling the request body

  /** How many bytes one `read` into a buffer of `cap` bytes hands over. */
  function Chunk(len: nat, offset: nat, cap: nat): (n: nat)
    ensures offset >= len ==> n == 0
    ensures offset < len ==> n == Min(len - offset, cap)
    ensures offset + n <= len || n == 0
  {
    if offset >= len then 0 else Min(len - offset, cap)
  }

  function Sum(caps: seq<nat>): nat
    decreases |caps|
  {
    if caps == [] then 0 else caps[0] + Sum(caps[1..])
  }

  /** The bytes successive reads into buffers of sizes `caps` hand over, one after another. */
  function Transfer(body: seq<byte>, offset: nat, caps: seq<nat>): seq<byte>
    requires offset <= |body|
    decreases |caps|
  {
    if caps == [] then []
    else
      var n := Chunk(|body|, offset, caps[0]);
      body[offset..offset + n] + Transfer(body, offset + n, caps[1..])
  }

  /**
   * Successive reads hand over the body from the offset on, in order, with
   * nothing skipped or repeated, as far as the buffers reach; once the
   * buffers are large enough in total, they have handed over all of it.
   */
  lemma {:induction false} TransferIsBody(body: seq<byte>, offset: nat, caps: seq<nat>)
    requires offset <= |body|
    ensures Transfer(body, offset, caps) == body[offset..offset + Min(Sum(caps), |body| - offset)]
    ensures Sum(caps) >= |body| - offset ==> Transfer(body, offset, caps) == body[offset..]
    decreases |caps|
  {
    if caps != [] {
      var n := Chunk(|body|, offset, caps[0]);
      TransferIsBody(body, offset + n, caps[1..]);
      var m := Min(Sum(caps[1..]), |body| - offset - n);
      assert n + m == Min(Sum(caps), |body| - offset) by {
        ChunkThenRest(|body|, offset, caps[0], Sum(caps[1..]));
      }
      SliceJoin(body, offset, offset + n, offset + n + m);
    }
  }

  lemma ChunkThenRest(len: nat, offset: nat, cap: nat, more: nat)
    requires offset <= len
    ensures var n := Chunk(len, offset, cap);
      n + Min(more, len - offset - n) == Min(cap + more, len - offset)
  {
  }

  lemma SliceJoin<T>(s: seq<T>, i: nat, j: nat, k: nat)
    requires i <= j <= k <= |s|
    ensures s[i..j] + s[j..k] == s[i..k]
  {
  }

  // ---------------------------------------------------------------------
  // The handler

  /** `CurlHandler`. */
  class Handler {
    var requestBody: Option<seq<byte>>
    var offset: nat
    var responseBody: seq<byte>
    var headers: Headers
    var status: Option<StatusCode>

    /** The read position never passes the end of the request body. */
    predicate Valid()
      reads this
    {
      match requestBody
      case None => offset == 0
      case Some(body) => offset <= |body|
    }

    /** `CurlHandler::new`: an empty body is no body at all. */
    constructor(body: seq<byte>)
      ensures requestBody == (if body == [] then None else Some(body))
      ensures offset == 0 && responseBody == [] && headers == [] && status.None?
      ensures RequestBodyLen() == |body| && Valid()
    {
      requestBody := if body == [] then None else Some(body);
      offset := 0;
      responseBody := [];
      headers := Empty;
      status := None;
    }

    /** `request_body_len`. */
    function RequestBodyLen(): (n: nat)
      reads this
      ensures requestBody.None? ==> n == 0
      ensures requestBody.Some? ==> n == |requestBody.value|
    {
      match requestBody
      case None => 0
      case Some(body) => |body|
    }

    /** `into_response`: the status, the headers and the body, once a status line has been seen. */
    function IntoResponse(): (r: Result<Response, string>)
      reads this
      ensures r.Ok? <==> status.Some?
      ensures r.Ok? ==> r.value == Response(status.value, headers, responseBody)
    {
      match status
      case None => Err("curl response missing HTTP status line")
      case Some(s) => Ok(Response(s, headers, responseBody))
    }

    /** `parse_header_line`. */
    method ParseHeaderLine(line: string)
      modifies this
      ensures Parsed(status, headers) == ParseLine(old(Parsed(status, headers)), line)
      ensures requestBody == old(requestBody) && offset == old(offset) && responseBody == old(responseBody)
    {
      if line == [] {
        return;
      }
      if StartsWith(line, HttpPrefix) {
        var s := StatusOfLine(line);
        if s.Some? {
          status := s;
          headers := Empty;
        }
        return;
      }
      var h := HeaderOfLine(line);
      if h.Some? {
        headers := headers + [h.value];
      }
    }

    /** `Handler::header`: a line that is UTF-8 is trimmed and parsed; any other is ignored. Always carries on. */
    method Header(data: seq<byte>) returns (ok: bool)
      modifies this
      ensures ok
      ensures Utf8.Decode(data).None? ==> Parsed(status, headers) == old(Parsed(status, headers))
      ensures Utf8.Decode(data).Some? ==>
        Parsed(status, headers) == ParseLine(old(Parsed(status, headers)), Trim(Utf8.Decode(data).value))
      ensures requestBody == old(requestBody) && offset == old(offset) && responseBody == old(responseBody)
    {
      var line := Utf8.Decode(data);
      if line.Some? {
        ParseHeaderLine(Trim(line.value));
      }
      ok := true;
    }

    /** `Handler::write`: the chunk is kept after what came before, and taken whole. */
    method Write(data: seq<byte>) returns (n: nat)
      modifies this
      ensures responseBody == old(responseBody) + data && n == |data|
      ensures requestBody == old(requestBody) && offset == old(offset)
      ensures headers == old(headers) && status == old(status)
    {
      responseBody := responseBody + data;
      n := |data|;
    }

    /**
     * `Handler::read`: copies the next bytes of the request body into the
     * front of `buf`, as many as fit and remain, and moves past them.
     */
    method Read(buf: array<byte>) returns (n: nat)
      modifies this, buf
      ensures requestBody == old(requestBody) && responseBody == old(responseBody)
      ensures headers == old(headers) && status == old(status)
      ensures old(Valid()) ==> Valid()
      ensures requestBody.None? ==> n == 0 && offset == old(offset)
      ensures requestBody.Some? ==> n == Chunk(|requestBody.value|, old(offset), buf.Length)
      ensures offset == old(offset) + n && n <= buf.Length
      ensures requestBody.Some? && n > 0 ==>
        old(offset) + n <= |requestBody.value| && buf[..n] == requestBody.value[old(offset)..old(offset) + n]
      ensures buf[n..] == old(buf[n..])
    {
      if requestBody.None? {
        return 0;
      }
      var body := requestBody.value;
      if offset >= |body| {
        return 0;
      }
      n := Min(|body| - offset, buf.Length);
      var start := offset;
      forall i | 0 <= i < n {
        buf[i] := body[start + i];
      }
      offset := offset + n;
    }
  }
}
