/** The multipart form as text: the literal characters around the boundary, the headers and the bodies. */
module MultipartText {
  import opened Words
  import opened MultipartSpec

  function Ascii(text: string): seq<byte> {
    seq(|text|, i requires 0 <= i < |text| => (text[i] as int) % 256)
  }

  /** One line for each header. */
  function HeaderText(headers: seq<Header>): seq<byte> {
    if headers == [] then []
    else headers[0].name + Ascii(": ") + headers[0].value + Ascii("\r\n") + HeaderText(headers[1..])
  }

  /** A dashed boundary line, the headers, an empty line, the body; after the last part the closing line. */
  function PartText(boundary: seq<byte>, part: Part, first: bool, last: bool): seq<byte> {
    (if first then Ascii("--") else Ascii("\r\n--")) + boundary + Ascii("\r\n") +
    HeaderText(part.headers) + Ascii("\r\n") + part.body +
    (if last then Ascii("\r\n--") + boundary + Ascii("--\r\n") else [])
  }

  function FormText(boundary: seq<byte>, parts: seq<Part>, i: nat): seq<byte>
    requires i <= |parts|
    decreases |parts| - i
  {
    if i == |parts| then []
    else PartText(boundary, parts[i], i == 0, i == |parts| - 1) + FormText(boundary, parts, i + 1)
  }

  lemma Characters()
    ensures Ascii("\r\n") == [13, 10] && Ascii("--") == [45, 45] && Ascii(": ") == [58, 32]
    ensures Ascii("\r\n--") == [13, 10] + [45, 45] && Ascii("--\r\n") == [45, 45] + [13, 10]
  {
    assert '\r' as int == 13 && '\n' as int == 10 && '-' as int == 45 && ':' as int == 58 && ' ' as int == 32;
  }

  lemma {:induction false} HeadersAsText(headers: seq<Header>)
    ensures EncodeHeaders(headers) == HeaderText(headers) + Ascii("\r\n")
  {
    hide Ascii;
    Characters();
    if headers == [] {
      assert [] + CRLF == CRLF;
    } else {
      HeadersAsText(headers[1..]);
      var line, more := Line(headers[0]) + CRLF, HeaderText(headers[1..]);
      assert line + (more + CRLF) == line + more + CRLF;
    }
  }

  lemma BoundariesAsText(boundary: seq<byte>)
    ensures BoundaryData(Initial, boundary) == Ascii("--") + boundary + Ascii("\r\n")
    ensures BoundaryData(Encapsulated, boundary) == Ascii("\r\n--") + boundary + Ascii("\r\n")
    ensures BoundaryData(Final, boundary) == Ascii("\r\n--") + boundary + Ascii("--\r\n")
  {
    hide Ascii;
    Characters();
    assert CRLF + DASHES + boundary + DASHES + CRLF == CRLF + DASHES + boundary + (DASHES + CRLF);
  }

  lemma PartAsText(boundary: seq<byte>, part: Part, first: bool, last: bool)
    ensures PartText(boundary, part, first, last) ==
      BoundaryData(if first then Initial else Encapsulated, boundary) + EncodeHeaders(part.headers) + part.body +
      (if last then BoundaryData(Final, boundary) else [])
  {
    hide Ascii, BoundaryData, EncodeHeaders, HeaderText;
    BoundariesAsText(boundary);
    HeadersAsText(part.headers);
    var head := BoundaryData(if first then Initial else Encapsulated, boundary);
    assert head + (HeaderText(part.headers) + Ascii("\r\n")) == head + HeaderText(part.headers) + Ascii("\r\n");
  }

  lemma Flat(a: seq<byte>, b: seq<byte>, c: seq<byte>, d: seq<byte>)
    ensures a + (b + c + d) == a + b + c + d && a + b + c + [] + d == a + b + c + d && a + [] == a
  {
  }

  lemma {:induction false} PartsAsText(boundary: seq<byte>, parts: seq<Part>, i: nat)
    requires i < |parts|
    ensures BoundaryData(if i == 0 then Initial else Encapsulated, boundary) + EncodeParts(boundary, parts[i..]) ==
      FormText(boundary, parts, i)
    decreases |parts| - i
  {
    hide PartText, BoundaryData, EncodeHeaders;
    var head := BoundaryData(if i == 0 then Initial else Encapsulated, boundary);
    var headers, body := EncodeHeaders(parts[i].headers), parts[i].body;
    var last := i == |parts| - 1;
    PartAsText(boundary, parts[i], i == 0, last);
    if last {
      Flat(head, headers, body, BoundaryData(Final, boundary));
      Flat(head + headers + body + BoundaryData(Final, boundary), [], [], []);
    } else {
      PartsAsText(boundary, parts, i + 1);
      assert parts[i..][1..] == parts[i + 1..];
      Flat(head, headers, body, FormText(boundary, parts, i + 1));
    }
  }

  /** The encoded form is this text. */
  lemma FormAsText(boundary: seq<byte>, parts: seq<Part>)
    ensures EncodeForm(boundary, parts) == FormText(boundary, parts, 0)
  {
    if parts != [] {
      PartsAsText(boundary, parts, 0);
      assert parts[0..] == parts;
    }
  }
}
