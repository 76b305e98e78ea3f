/** The byte layout MultipartFormData.swift produces, and a specification parser for it
    (section 5.1.1 of RFC 2046). */
module MultipartSpec {
  import opened Words
  import opened Parsing

  datatype Header = Header(name: seq<byte>, value: seq<byte>)

  datatype Part = Part(headers: seq<Header>, body: seq<byte>)

  const CR: byte := 13
  const CRLF: seq<byte> := [13, 10]
  const DASHES: seq<byte> := [45, 45]
  const COLON: seq<byte> := [58]
  const COLON_SPACE: seq<byte> := [58, 32]

  // ---------- The layout ----------

  datatype BoundaryType = Initial | Encapsulated | Final

  /** BoundaryGenerator.boundaryData. */
  function BoundaryData(kind: BoundaryType, boundary: seq<byte>): seq<byte> {
    match kind
    case Initial => DASHES + boundary + CRLF
    case Encapsulated => CRLF + DASHES + boundary + CRLF
    case Final => CRLF + DASHES + boundary + DASHES + CRLF
  }

  function Line(h: Header): seq<byte> {
    h.name + COLON_SPACE + h.value
  }

  /** encodeHeaders. */
  function EncodeHeaders(headers: seq<Header>): seq<byte> {
    if headers == [] then CRLF else Line(headers[0]) + CRLF + EncodeHeaders(headers[1..])
  }

  /** The parts of a fresh form from one part on, the delimiter before it already written. */
  function EncodeParts(boundary: seq<byte>, parts: seq<Part>): seq<byte>
    requires parts != []
  {
    EncodeHeaders(parts[0].headers) + parts[0].body +
    (if |parts| == 1 then BoundaryData(Final, boundary)
     else BoundaryData(Encapsulated, boundary) + EncodeParts(boundary, parts[1..]))
  }

  function EncodeForm(boundary: seq<byte>, parts: seq<Part>): seq<byte> {
    if parts == [] then [] else BoundaryData(Initial, boundary) + EncodeParts(boundary, parts)
  }

  // ---------- The parser ----------

  predicate StartsWith(p: seq<byte>, s: seq<byte>) {
    |p| <= |s| && s[..|p|] == p
  }

  /** Where `p` first occurs in `s`. */
  function Find(p: seq<byte>, s: seq<byte>): (r: Option<nat>)
    ensures r.Some? ==> r.value + |p| <= |s|
  {
    if StartsWith(p, s) then Some(0)
    else if s == [] then None
    else match Find(p, s[1..])
      case None => None
      case Some(k) => Some(k + 1)
  }

  /** The delimiter of RFC 2046. */
  function Delimiter(boundary: seq<byte>): seq<byte> {
    CRLF + DASHES + boundary
  }

  /** Header lines up to the empty line. */
  function ParseHeaders(s: seq<byte>): (r: Parse<seq<Header>>)
    ensures r.Ok? ==> |r.rest| < |s|
    decreases |s|
  {
    match Find(CRLF, s)
    case None => Fail
    case Some(k) =>
      if k == 0 then Ok([], s[2..])
      else
        match Find(COLON_SPACE, s[..k])
        case None => Fail
        case Some(c) =>
          var (more, rest) :- ParseHeaders(s[k + 2..]);
          Ok([Header(s[..c], s[c + 2..k])] + more, rest)
  }

  /** Body parts, each ended by the first delimiter after its headers; `--` closes the last one. */
  function ParseParts(boundary: seq<byte>, s: seq<byte>): Option<seq<Part>>
    decreases |s|
  {
    match ParseHeaders(s)
    case Fail => None
    case Ok(headers, t) => (
      match Find(Delimiter(boundary), t)
      case None => None
      case Some(k) =>
        var part, after := Part(headers, t[..k]), t[k + |Delimiter(boundary)|..];
        if StartsWith(CRLF, after) then
          match ParseParts(boundary, after[2..])
          case None => None
          case Some(more) => Some([part] + more)
        else if StartsWith(DASHES, after) then Some([part])
        else None)
  }

  function ParseForm(boundary: seq<byte>, s: seq<byte>): Option<seq<Part>> {
    var first := BoundaryData(Initial, boundary);
    if StartsWith(first, s) then ParseParts(boundary, s[|first|..]) else None
  }

  // ---------- Searching ----------

  /** A marker whose first byte does not come back in it cannot straddle the end of a text and the marker
      that follows: the first match is the real one exactly when the text has none. */
  lemma {:induction false} FindAtEnd(p: seq<byte>, text: seq<byte>, tail: seq<byte>)
    requires p != [] && p[0] !in p[1..]
    ensures Find(p, text + p + tail) == Some(|text|) <==> Find(p, text) == None
  {
    var s := text + p + tail;
    if text == [] {
      assert s[..|p|] == p;
    } else {
      assert s[1..] == text[1..] + p + tail;
      assert StartsWith(p, s) <==> StartsWith(p, text) by { NoStraddle(p, text, tail); }
      FindAtEnd(p, text[1..], tail);
    }
  }

  lemma NoStraddle(p: seq<byte>, text: seq<byte>, tail: seq<byte>)
    requires p != [] && p[0] !in p[1..] && text != []
    ensures StartsWith(p, text + p + tail) <==> StartsWith(p, text)
  {
    var s := text + p + tail;
    if |p| <= |text| {
      assert s[..|p|] == text[..|p|];
    } else {
      assert s[|text|] == p[0] && p[|text|] == p[1..][|text| - 1];
      assert |p| <= |s| ==> s[..|p|][|text|] == s[|text|];
    }
  }

  // ---------- Unique decodability ----------

  /** The first ": " of the line separates name and value, and the line is one line. */
  predicate GoodHeader(h: Header) {
    Find(COLON, h.name) == None && Find(CRLF, Line(h)) == None
  }

  predicate GoodHeaders(headers: seq<Header>) {
    forall i :: 0 <= i < |headers| ==> GoodHeader(headers[i])
  }

  lemma {:induction false} NoColonNoSeparator(s: seq<byte>)
    requires Find(COLON, s) == None
    ensures Find(COLON_SPACE, s) == None
  {
    if s != [] {
      assert s[..1] == [s[0]] && (|s| >= 2 ==> s[..2][0] == s[0]);
      NoColonNoSeparator(s[1..]);
    }
  }

  lemma LineSplits(h: Header)
    requires GoodHeader(h)
    ensures Find(COLON_SPACE, Line(h)) == Some(|h.name|)
    ensures Line(h)[..|h.name|] == h.name && Line(h)[|h.name| + 2..] == h.value
  {
    NoColonNoSeparator(h.name);
    FindAtEnd(COLON_SPACE, h.name, h.value);
  }

  lemma {:induction false} HeadersRoundTrip(headers: seq<Header>, rest: seq<byte>)
    requires GoodHeaders(headers)
    ensures ParseHeaders(EncodeHeaders(headers) + rest) == Ok(headers, rest)
    decreases |headers|
  {
    hide Find, GoodHeader, Line;
    if headers == [] {
      EmptyLine(rest);
    } else {
      var h, more := headers[0], EncodeHeaders(headers[1..]);
      HeadersRoundTrip(headers[1..], rest);
      OneLine(h, more + rest, headers[1..], rest);
      assert Line(h) + CRLF + more + rest == Line(h) + CRLF + (more + rest);
      assert [h] + headers[1..] == headers;
    }
  }

  lemma EmptyLine(rest: seq<byte>)
    ensures ParseHeaders(CRLF + rest) == Ok([], rest)
  {
    var s := CRLF + rest;
    assert s[..2] == CRLF && s[2..] == rest;
  }

  lemma OneLine(h: Header, tail: seq<byte>, headers: seq<Header>, rest: seq<byte>)
    requires GoodHeader(h) && ParseHeaders(tail) == Ok(headers, rest)
    ensures ParseHeaders(Line(h) + CRLF + tail) == Ok([h] + headers, rest)
  {
    hide Find, Line;
    var line, n := Line(h), |h.name|;
    var s := line + CRLF + tail;
    FindAtEnd(CRLF, line, tail);
    LineSplits(h);
    LineNotEmpty(h);
    assert s[..|line|] == line && s[|line| + 2..] == tail;
    assert s[..n] == line[..n] && s[n + 2..|line|] == line[n + 2..];
  }

  lemma LineNotEmpty(h: Header)
    ensures |Line(h)| >= |h.name| + 2
  {
  }

  predicate NoDelimiter(boundary: seq<byte>, parts: seq<Part>) {
    forall i :: 0 <= i < |parts| ==> Find(Delimiter(boundary), parts[i].body) == None
  }

  lemma DelimiterStartsOnce(boundary: seq<byte>)
    requires CR !in boundary
    ensures var d := Delimiter(boundary); d != [] && d[0] !in d[1..]
  {
    var d := Delimiter(boundary);
    assert d[1..] == [10, 45, 45] + boundary;
  }

  lemma BodyFound(d: seq<byte>, boundary: seq<byte>, body: seq<byte>, tail: seq<byte>)
    requires d == Delimiter(boundary) && CR !in boundary
    ensures var t := body + d + tail;
      if Find(d, body) == None then Find(d, t) == Some(|body|) && t[..|body|] == body && t[|body| + |d|..] == tail
      else Find(d, t).Some? ==> t[..Find(d, t).value] != body
  {
    hide Find, Delimiter;
    var t := body + d + tail;
    DelimiterStartsOnce(boundary);
    FindAtEnd(d, body, tail);
    assert t[..|body|] == body && t[|body| + |d|..] == tail;
    if Find(d, body) != None && Find(d, t).Some? {
      assert |t[..Find(d, t).value]| != |body|;
    }
  }

  function Prepend(part: Part, more: Option<seq<Part>>): Option<seq<Part>> {
    if more.Some? then Some([part] + more.value) else None
  }

  /** What the parser makes of one encoded part. */
  lemma ParsesPart(boundary: seq<byte>, part: Part, rest: seq<byte>, last: bool)
    requires CR !in boundary && GoodHeaders(part.headers)
    ensures var tail := if last then DASHES + CRLF else CRLF + rest;
      var r := ParseParts(boundary, EncodeHeaders(part.headers) + (part.body + Delimiter(boundary) + tail));
      if Find(Delimiter(boundary), part.body) != None then r.Some? ==> r.value[0] != part
      else r == if last then Some([part]) else Prepend(part, ParseParts(boundary, rest))
  {
    hide Find, ParseHeaders, EncodeHeaders, GoodHeaders, Delimiter;
    var d, tail := Delimiter(boundary), if last then DASHES + CRLF else CRLF + rest;
    HeadersRoundTrip(part.headers, part.body + d + tail);
    BodyFound(d, boundary, part.body, tail);
    assert StartsWith(CRLF, tail) <==> !last;
    assert !last ==> tail[2..] == rest;
    assert last ==> StartsWith(DASHES, tail);
  }

  lemma {:induction false} PartsRoundTrip(boundary: seq<byte>, parts: seq<Part>)
    requires parts != [] && CR !in boundary && forall i :: 0 <= i < |parts| ==> GoodHeaders(parts[i].headers)
    ensures ParseParts(boundary, EncodeParts(boundary, parts)) == Some(parts) <==> NoDelimiter(boundary, parts)
    decreases |parts|
  {
    hide Find, ParseParts, EncodeParts, EncodeHeaders, GoodHeaders, Delimiter;
    var first, more := parts[0], parts[1..];
    assert parts == [first] + more;
    assert NoDelimiter(boundary, parts) <==> Find(Delimiter(boundary), first.body) == None && NoDelimiter(boundary,
        more) by {
      assert parts[0] == first;
      assert forall i :: 0 <= i < |more| ==> more[i] == parts[i + 1];
    }
    OnePart(boundary, parts);
    if more == [] {
      assert parts == [first];
      ParsesPart(boundary, first, [], true);
    } else {
      ParsesPart(boundary, first, EncodeParts(boundary, more), false);
      PartsRoundTrip(boundary, more);
    }
  }

  lemma OnePart(boundary: seq<byte>, parts: seq<Part>)
    requires parts != []
    ensures var rest := if |parts| == 1 then DASHES + CRLF else CRLF + EncodeParts(boundary, parts[1..]);
      EncodeParts(boundary, parts) == EncodeHeaders(parts[0].headers) + (parts[0].body + Delimiter(boundary) + rest)
  {
  }

  /** The framing is uniquely decodable: with one-line headers and a boundary without CR, the parser gives
      back the very list of headers and bodies exactly when no body contains the delimiter. */
  lemma FormRoundTrip(boundary: seq<byte>, parts: seq<Part>)
    requires parts != [] && CR !in boundary && forall i :: 0 <= i < |parts| ==> GoodHeaders(parts[i].headers)
    ensures ParseForm(boundary, EncodeForm(boundary, parts)) == Some(parts) <==> NoDelimiter(boundary, parts)
  {
    hide ParseParts, EncodeParts, NoDelimiter;
    var first := BoundaryData(Initial, boundary);
    var s := EncodeForm(boundary, parts);
    assert s[..|first|] == first && s[|first|..] == EncodeParts(boundary, parts);
    PartsRoundTrip(boundary, parts);
  }

  /** Different forms never share an encoding. */
  lemma FormsDistinct(boundary: seq<byte>, a: seq<Part>, b: seq<Part>)
    requires CR !in boundary && NoDelimiter(boundary, a) && NoDelimiter(boundary, b)
    requires forall i :: 0 <= i < |a| ==> GoodHeaders(a[i].headers)
    requires forall i :: 0 <= i < |b| ==> GoodHeaders(b[i].headers)
    ensures EncodeForm(boundary, a) == EncodeForm(boundary, b) ==> a == b
  {
    hide NoDelimiter, GoodHeaders, ParseForm;
    if a != [] { FormRoundTrip(boundary, a); }
    if b != [] { FormRoundTrip(boundary, b); }
  }
}
