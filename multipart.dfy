/**
 * `multipart/form-data` bodies: parts with a name, optional filename and
 * content type, and raw data; a container that collects parts; and the
 * encoder that writes each part between boundary lines.
 */
module Multipart {
  import opened Common
  import Utf8

  /** `MultipartPart`. */
  datatype Part = Part(name: string, filename: Option<string>, contentType: Option<string>, data: seq<byte>)

  /** `MultipartPart::new`: a field of raw bytes and no metadata. */
  function NewPart(name: string, data: seq<byte>): (p: Part)
    ensures p.name == name && p.data == data && p.filename.None? && p.contentType.None?
  {
    Part(name, None, None, data)
  }

  /** `MultipartPart::text`: a field whose data is the UTF-8 of the text, so it decodes back to the text. */
  function TextPart(name: string, value: string): (p: Part)
    ensures p == NewPart(name, p.data)
    ensures Utf8.Decode(p.data) == Some(value)
  {
    Utf8.DecodeEncode(value);
    NewPart(name, Utf8.Encode(value))
  }

  /** `MultipartPart::binary`: a field with both filename and content type. */
  function BinaryPart(name: string, filename: string, contentType: string, data: seq<byte>): (p: Part)
    ensures p.name == name && p.data == data
    ensures p.filename == Some(filename) && p.contentType == Some(contentType)
  {
    Part(name, Some(filename), Some(contentType), data)
  }

  /** `with_filename`: sets the filename and nothing else. */
  function WithFilename(p: Part, filename: string): (r: Part)
    ensures r.filename == Some(filename) && r.(filename := p.filename) == p
  {
    p.(filename := Some(filename))
  }

  /** `with_content_type`: sets the content type and nothing else. */
  function WithContentType(p: Part, contentType: string): (r: Part)
    ensures r.contentType == Some(contentType) && r.(contentType := p.contentType) == p
  {
    p.(contentType := Some(contentType))
  }

  // ---------------------------------------------------------------------
  // The wire layout

  /** CR LF. */
  const Crlf: seq<byte> := [13, 10]

  /** The fixed text of the layout. */
  const Dashes: string := "--"
  const LineEnd: string := "\r\n"
  const DispositionStart: string := "Content-Disposition: form-data; name=\""
  const FilenameStart: string := "; filename=\""
  const Quote: string := "\""
  const ContentTypeStart: string := "Content-Type: "

  /** `; filename="…"` when the part has a filename, else nothing. */
  function FilenameText(p: Part): (t: string)
    ensures t == [] <==> p.filename.None?
  {
    if p.filename.Some? then FilenameStart + p.filename.value + Quote else ""
  }

  /** The `Content-Disposition` line of a part. */
  function DispositionText(p: Part): string {
    DispositionStart + p.name + Quote + FilenameText(p) + LineEnd
  }

  /** The `Content-Type` line of a part that has a content type, else nothing. */
  function ContentTypeText(p: Part): (t: string)
    ensures t == [] <==> p.contentType.None?
  {
    if p.contentType.Some? then ContentTypeStart + p.contentType.value + LineEnd else ""
  }

  /** Everything of a part's section before its data: the boundary line, the header lines, the blank line. */
  function Head(boundary: string, p: Part): seq<byte> {
    Utf8.Encode(Dashes + boundary + LineEnd) + Utf8.Encode(DispositionText(p)) + Utf8.Encode(ContentTypeText(p)) + Crlf
  }

  /** One part's section: its head, its data as they are, and CR LF. */
  function Section(boundary: string, p: Part): seq<byte> {
    Head(boundary, p) + p.data + Crlf
  }

  /** The closing delimiter `--boundary--` and CR LF. */
  function Closing(boundary: string): seq<byte> {
    Utf8.Encode(Dashes + boundary + Dashes + LineEnd)
  }

  /** Byte strings one after another. */
  function Concat(chunks: seq<seq<byte>>): seq<byte>
    decreases |chunks|
  {
    if chunks == [] then [] else Concat(chunks[..|chunks| - 1]) + chunks[|chunks| - 1]
  }

  lemma {:induction false} ConcatAppend(xs: seq<seq<byte>>, ys: seq<seq<byte>>)
    ensures Concat(xs + ys) == Concat(xs) + Concat(ys)
    decreases |ys|
  {
    if ys == [] {
      assert xs + ys == xs;
    } else {
      var all := xs + ys;
      assert all[..|all| - 1] == xs + ys[..|ys| - 1];
      ConcatAppend(xs, ys[..|ys| - 1]);
    }
  }

  lemma ConcatSnoc(xs: seq<seq<byte>>, x: seq<byte>)
    ensures Concat(xs + [x]) == Concat(xs) + x
  {
    assert (xs + [x])[..|xs|] == xs;
  }

  /** One more chunk of a run adds exactly that chunk. */
  lemma ConcatTake(xs: seq<seq<byte>>, i: nat)
    requires i < |xs|
    ensures Concat(xs[..i + 1]) == Concat(xs[..i]) + xs[i]
  {
    assert xs[..i + 1][..i] == xs[..i];
  }

  /** Chunk `k` sits between the chunks before it and those after it. */
  lemma ConcatAt(xs: seq<seq<byte>>, k: nat)
    requires k < |xs|
    ensures Concat(xs) == Concat(xs[..k]) + xs[k] + Concat(xs[k + 1..])
  {
    assert xs == xs[..k + 1] + xs[k + 1..];
    ConcatAppend(xs[..k + 1], xs[k + 1..]);
    ConcatTake(xs, k);
  }

  /** The total length of the chunks. */
  function TotalLength(chunks: seq<seq<byte>>): nat
    decreases |chunks|
  {
    if chunks == [] then 0 else TotalLength(chunks[..|chunks| - 1]) + |chunks[|chunks| - 1]|
  }

  lemma {:induction false} ConcatLength(xs: seq<seq<byte>>)
    ensures |Concat(xs)| == TotalLength(xs)
    decreases |xs|
  {
    if xs != [] {
      ConcatLength(xs[..|xs| - 1]);
    }
  }

  /** The sections of the parts, in order. */
  function Sections(boundary: string, parts: seq<Part>): (cs: seq<seq<byte>>)
    ensures |cs| == |parts|
    ensures forall i :: 0 <= i < |parts| ==> cs[i] == Section(boundary, parts[i])
  {
    seq(|parts|, i requires 0 <= i < |parts| => Section(boundary, parts[i]))
  }

  /** The whole body: every section, then the closing delimiter. */
  function Body(boundary: string, parts: seq<Part>): seq<byte> {
    Concat(Sections(boundary, parts)) + Closing(boundary)
  }

  /**
   * The body always ends with the closing delimiter, and is exactly that
   * with no parts; a part added at the end adds exactly its section before it.
   */
  lemma BodyShape(boundary: string, parts: seq<Part>, p: Part)
    ensures var b := Body(boundary, parts);
      |Closing(boundary)| <= |b| && b[|b| - |Closing(boundary)|..] == Closing(boundary)
    ensures Body(boundary, []) == Closing(boundary)
    ensures Body(boundary, parts + [p]) == Concat(Sections(boundary, parts)) + Section(boundary, p) + Closing(boundary)
  {
    var b := Body(boundary, parts);
    assert b[|b| - |Closing(boundary)|..] == Closing(boundary);
    assert Sections(boundary, []) == [];
    assert Sections(boundary, parts + [p]) == Sections(boundary, parts) + [Section(boundary, p)];
    ConcatSnoc(Sections(boundary, parts), Section(boundary, p));
  }

  /**
   * Every part's section sits in the body between the sections of the parts
   * before it and those after it, and carries the part's data as they are.
   */
  lemma PartDataInBody(boundary: string, parts: seq<Part>, k: nat)
    requires k < |parts|
    ensures var cs := Sections(boundary, parts);
      Body(boundary, parts) == Concat(cs[..k]) + (Head(boundary, parts[k]) + parts[k].data + Crlf) + Concat(cs[k + 1..]) + Closing(boundary)
  {
    ConcatAt(Sections(boundary, parts), k);
  }

  /** The body's length: the sections', each its head, its data in full and CR LF, plus the closing delimiter's. */
  lemma BodyLength(boundary: string, parts: seq<Part>)
    ensures |Body(boundary, parts)| == TotalLength(Sections(boundary, parts)) + |Closing(boundary)|
    ensures forall i :: 0 <= i < |parts| ==>
      |Sections(boundary, parts)[i]| == |Head(boundary, parts[i])| + |parts[i].data| + 2
  {
    ConcatLength(Sections(boundary, parts));
  }

  // ---------------------------------------------------------------------
  // Boundaries

  function HexDigit(d: nat): (c: char)
    requires d < 16
  {
    if d < 10 then ('0' as int + d) as char else ('a' as int + d - 10) as char
  }

  predicate IsHexDigit(c: char) { '0' <= c <= '9' || 'a' <= c <= 'f' }

  function HexDigitValue(c: char): (d: nat)
    requires IsHexDigit(c)
    ensures d < 16
  {
    if c <= '9' then c as int - '0' as int else c as int - 'a' as int + 10
  }

  /** `{:x}`: lower-case hexadecimal, no leading zeros. */
  function Hex(n: nat): (s: string)
    ensures s != [] && forall i :: 0 <= i < |s| ==> IsHexDigit(s[i])
    decreases n
  {
    if n < 16 then [HexDigit(n)] else Hex(n / 16) + [HexDigit(n % 16)]
  }

  function HexValue(s: string): nat
    requires forall i :: 0 <= i < |s| ==> IsHexDigit(s[i])
    decreases |s|
  {
    if s == [] then 0 else HexValue(s[..|s| - 1]) * 16 + HexDigitValue(s[|s| - 1])
  }

  /** Hexadecimal printing reads back as the number. */
  lemma {:induction false} HexRoundTrip(n: nat)
    ensures HexValue(Hex(n)) == n
    decreases n
  {
    if n >= 16 {
      HexRoundTrip(n / 16);
      var s := Hex(n);
      assert s[..|s| - 1] == Hex(n / 16);
    }
  }

  /** `default_boundary`: `zenwave-` and the clock in microseconds since the epoch as `{:#x}`. */
  function DefaultBoundary(micros: nat): string {
    "zenwave-0x" + Hex(micros)
  }

  /** Boundaries made at different microseconds are different. */
  lemma DefaultBoundaryInjective(m: nat, n: nat)
    requires DefaultBoundary(m) == DefaultBoundary(n)
    ensures m == n
  {
    var prefix := "zenwave-0x";
    assert Hex(m) == DefaultBoundary(m)[|prefix|..];
    assert Hex(n) == DefaultBoundary(n)[|prefix|..];
    HexRoundTrip(m);
    HexRoundTrip(n);
  }

  /** `encode_with`: the override, or a fresh boundary; then each part's section in order; then the closing delimiter. */
  method EncodeWith(boundaryOverride: Option<string>, parts: seq<Part>, micros: nat) returns (boundary: string, body: seq<byte>)
    ensures boundary == if boundaryOverride.Some? then boundaryOverride.value else DefaultBoundary(micros)
    ensures body == Body(boundary, parts)
  {
    boundary := if boundaryOverride.Some? then boundaryOverride.value else DefaultBoundary(micros);
    body := [];
    for i := 0 to |parts|
      invariant body == Concat(Sections(boundary, parts)[..i])
    {
      var part := parts[i];
      var section := Utf8.Encode(Dashes + boundary + LineEnd);
      section := section + Utf8.Encode(DispositionText(part));
      if part.contentType.Some? {
        section := section + Utf8.Encode(ContentTypeStart + part.contentType.value + LineEnd);
      } else {
        assert Utf8.Encode(ContentTypeText(part)) == [];
      }
      section := section + Crlf + part.data + Crlf;
      assert section == Section(boundary, part);
      ConcatTake(Sections(boundary, parts), i);
      body := body + section;
    }
    assert Sections(boundary, parts)[..|parts|] == Sections(boundary, parts);
    body := body + Utf8.Encode(Dashes + boundary + Dashes + LineEnd);
  }

  /** `multipart::encode`: the parts under a fresh boundary. */
  method Encode(parts: seq<Part>, micros: nat) returns (boundary: string, body: seq<byte>)
    ensures boundary == DefaultBoundary(micros) && body == Body(boundary, parts)
  {
    boundary, body := EncodeWith(None, parts, micros);
  }

  /** `Multipart`: an optional boundary and the parts so far. */
  class Container {
    var boundary: Option<string>
    var parts: seq<Part>

    /** `Multipart::new`: no boundary, no parts. */
    constructor()
      ensures boundary.None? && parts == []
    {
      boundary := None;
      parts := [];
    }

    /** `Multipart::boundary`: sets the boundary override. */
    method SetBoundary(b: string)
      modifies this
      ensures boundary == Some(b) && parts == old(parts)
    {
      boundary := Some(b);
    }

    /** `push` (and `with_part`, its builder form): the part goes at the end, the others keep their order. */
    method Push(p: Part)
      modifies this
      ensures parts == old(parts) + [p] && boundary == old(boundary)
    {
      parts := parts + [p];
    }

    /** `Multipart::encode`: the configured boundary, or a fresh one, and the body of the parts. */
    method Encode(micros: nat) returns (b: string, body: seq<byte>)
      ensures b == if boundary.Some? then boundary.value else DefaultBoundary(micros)
      ensures body == Body(b, parts)
    {
      b, body := EncodeWith(boundary, parts, micros);
    }
  }
}
