/** MultipartFormData.swift: the in-memory encoder and the streaming writer over chunked streams. */
module Multipart {
  import opened Words
  import opened Parsing
  import opened MultipartSpec

  /** An InputStream over fixed bytes: every read returns a nonempty chunk of its own choosing until the
      end, where it may still claim to have bytes and then reads none. */
  class BodyStream {
    const content: seq<byte>
    var position: nat

    ghost predicate Valid()
      reads this
    {
      position <= |content|
    }

    constructor (bytes: seq<byte>)
      ensures content == bytes && position == 0
    {
      content, position := bytes, 0;
    }

    method HasBytesAvailable() returns (available: bool)
      requires Valid()
      ensures position < |content| ==> available
    {
      var claims: bool := *;
      available := position < |content| || claims;
    }

    method Read(maxLength: nat) returns (chunk: seq<byte>)
      requires Valid() && maxLength > 0
      modifies this
      ensures Valid() && position == old(position) + |chunk| && |chunk| <= maxLength
      ensures chunk == content[old(position)..position]
      ensures chunk == [] <==> old(position) == |content|
    {
      if position == |content| {
        return [];
      }
      var n: nat :| 1 <= n <= maxLength && position + n <= |content|;
      chunk := content[position..position + n];
      position := position + n;
    }
  }

  /** What fits into `capacity` bytes. */
  function Fit(capacity: nat, bytes: seq<byte>): seq<byte> {
    if |bytes| <= capacity then bytes else bytes[..capacity]
  }

  lemma FitTwice(capacity: nat, a: seq<byte>, b: seq<byte>)
    ensures Fit(capacity, Fit(capacity, a) + b) == Fit(capacity, a + b)
  {
  }

  /** An OutputStream to a file with space for `capacity` bytes: while there is space, every write accepts
      at least one byte. */
  class OutputFile {
    const capacity: nat
    var written: seq<byte>

    ghost predicate Valid()
      reads this
    {
      |written| <= capacity
    }

    constructor (space: nat)
      ensures Valid() && capacity == space && written == []
    {
      capacity, written := space, [];
    }

    method HasSpaceAvailable() returns (available: bool)
      ensures available <==> |written| < capacity
    {
      available := |written| < capacity;
    }

    method Write(buffer: seq<byte>, maxLength: nat) returns (count: nat)
      requires 0 < maxLength <= |buffer| && |written| < capacity
      modifies this
      ensures Valid() && 1 <= count <= maxLength && written == old(written) + buffer[..count]
    {
      count :| 1 <= count <= maxLength && |written| + count <= capacity;
      written := written + buffer[..count];
    }
  }

  lemma FitAfter(capacity: nat, a: seq<byte>, b: seq<byte>, c: seq<byte>)
    ensures Fit(capacity, Fit(capacity, a + b) + c) == Fit(capacity, a + (b + c))
  {
    FitTwice(capacity, a + b, c);
    Regroup(a, b, c);
  }

  lemma Regroup(a: seq<byte>, b: seq<byte>, c: seq<byte>)
    ensures a + b + c == a + (b + c)
  {
  }

  class BodyPart {
    const headers: seq<Header>
    const bodyStream: BodyStream
    const bodyContentLength: nat
    var hasInitialBoundary: bool
    var hasFinalBoundary: bool

    constructor (partHeaders: seq<Header>, stream: BodyStream, length: nat)
      ensures headers == partHeaders && bodyStream == stream && bodyContentLength == length
      ensures !hasInitialBoundary && !hasFinalBoundary
    {
      headers, bodyStream, bodyContentLength := partHeaders, stream, length;
      hasInitialBoundary, hasFinalBoundary := false, false;
    }

    /** The stream holds exactly the declared number of bytes. */
    predicate LengthMatches() {
      |bodyStream.content| == bodyContentLength
    }

    function Whole(): Part {
      Part(headers, bodyStream.content)
    }

    /** What fits in the declared length. */
    function Declared(): Part {
      Part(headers, Fit(bodyContentLength, bodyStream.content))
    }
  }

  lemma DeclaredIsPrefix(part: BodyPart)
    ensures var body, content := part.Declared().body, part.bodyStream.content;
      && body <= content && part.Declared().headers == part.headers
      && |body| == if |content| <= part.bodyContentLength then |content| else part.bodyContentLength
  {
  }

  ghost function WholeParts(parts: seq<BodyPart>): seq<Part> {
    seq(|parts|, i requires 0 <= i < |parts| => parts[i].Whole())
  }

  ghost function Truncated(parts: seq<BodyPart>): seq<Part> {
    seq(|parts|, i requires 0 <= i < |parts| => parts[i].Declared())
  }

  // ---------- Part by part ----------

  /** One part as either encoder emits it, by its boundary flags. */
  function PartBytes(boundary: seq<byte>, initial: bool, final: bool, part: Part): seq<byte> {
    BoundaryData(if initial then Initial else Encapsulated, boundary) + EncodeHeaders(part.headers) + part.body +
    (if final then BoundaryData(Final, boundary) else [])
  }

  /** The first `i` parts of a fresh form. */
  function Emitted(boundary: seq<byte>, parts: seq<Part>, i: nat): seq<byte>
    requires i <= |parts|
  {
    if i == 0 then [] else Emitted(boundary, parts, i - 1) + PartBytes(boundary, i == 1, i == |parts|, parts[i - 1])
  }

  function Remaining(boundary: seq<byte>, parts: seq<Part>, i: nat): seq<byte>
    requires i <= |parts|
  {
    if i == |parts| then []
    else BoundaryData(if i == 0 then Initial else Encapsulated, boundary) + EncodeParts(boundary, parts[i..])
  }

  lemma NothingEmittedYet(boundary: seq<byte>, parts: seq<Part>)
    ensures Emitted(boundary, parts, 0) == []
    ensures forall capacity: nat :: Fit(capacity, Emitted(boundary, parts, 0)) == []
  {
  }

  lemma EmittedStep(boundary: seq<byte>, parts: seq<Part>, i: nat)
    requires i < |parts|
    ensures Emitted(boundary, parts, i + 1) ==
      Emitted(boundary, parts, i) + PartBytes(boundary, i == 0, i == |parts| - 1, parts[i])
  {
  }

  lemma OneMorePart(boundary: seq<byte>, parts: seq<Part>, i: nat)
    requires i < |parts|
    ensures Remaining(boundary, parts, i) ==
      PartBytes(boundary, i == 0, i + 1 == |parts|, parts[i]) + Remaining(boundary, parts, i + 1)
  {
    hide BoundaryData, EncodeHeaders;
    assert parts[i..][1..] == parts[i + 1..];
  }

  lemma NothingEmitted(boundary: seq<byte>, parts: seq<Part>)
    ensures [] + Remaining(boundary, parts, 0) == EncodeForm(boundary, parts)
  {
    assert parts[0..] == parts;
  }

  lemma {:induction false} EmittedThenRemaining(boundary: seq<byte>, parts: seq<Part>, i: nat)
    requires i <= |parts|
    ensures Emitted(boundary, parts, i) + Remaining(boundary, parts, i) == EncodeForm(boundary, parts)
  {
    hide PartBytes, Remaining;
    if i == 0 {
      NothingEmitted(boundary, parts);
    } else {
      EmittedThenRemaining(boundary, parts, i - 1);
      OneMorePart(boundary, parts, i - 1);
      Regroup(Emitted(boundary, parts, i - 1), PartBytes(boundary, i == 1, i == |parts|, parts[i - 1]),
              Remaining(boundary, parts, i));
    }
  }

  /** Flags on the first and the last part are all it takes to frame the form. */
  lemma EmittedIsForm(boundary: seq<byte>, parts: seq<Part>)
    ensures Emitted(boundary, parts, |parts|) == EncodeForm(boundary, parts)
  {
    EmittedThenRemaining(boundary, parts, |parts|);
  }

  /** The form object. */
  class FormData {
    const boundary: seq<byte>
    const streamBufferSize: nat := 1024
    var bodyParts: seq<BodyPart>

    constructor (formBoundary: seq<byte>)
      ensures boundary == formBoundary && bodyParts == []
    {
      boundary, bodyParts := formBoundary, [];
    }

    /** Parts and streams are separate objects. */
    ghost predicate Separate()
      reads this
    {
      forall i, j :: 0 <= i < j < |bodyParts| ==>
        bodyParts[i] != bodyParts[j] && bodyParts[i].bodyStream != bodyParts[j].bodyStream
    }

    /** No encoder has run on the form yet. */
    ghost predicate Fresh()
      reads this, bodyParts, set p | p in bodyParts :: p.bodyStream
    {
      && Separate()
      && forall p :: p in bodyParts ==> !p.hasInitialBoundary && !p.hasFinalBoundary && p.bodyStream.position == 0
    }

    ghost function Parts(): seq<Part>
      reads this
    {
      WholeParts(bodyParts)
    }

    ghost function DeclaredParts(): seq<Part>
      reads this
    {
      Truncated(bodyParts)
    }

    /** append(_:withLength:headers:). */
    method Append(stream: BodyStream, length: nat, headers: seq<Header>)
      requires Fresh() && stream.position == 0 && forall p :: p in bodyParts ==> p.bodyStream != stream
      modifies this
      ensures Fresh() && Parts() == old(Parts()) + [Part(headers, stream.content)]
      ensures |bodyParts| == |old(bodyParts)| + 1 && bodyParts[..|old(bodyParts)|] == old(bodyParts)
      ensures var p := bodyParts[|old(bodyParts)|];
        fresh(p) && p.headers == headers && p.bodyStream == stream && p.bodyContentLength == length
    {
      var part := new BodyPart(headers, stream, length);
      bodyParts := bodyParts + [part];
    }

    /** The flags both encoders set before they start. */
    method SetBoundaryFlags()
      requires Fresh()
      modifies bodyParts
      ensures forall i :: 0 <= i < |bodyParts| ==>
        (bodyParts[i].hasInitialBoundary <==> i == 0) && (bodyParts[i].hasFinalBoundary <==> i == |bodyParts| - 1)
    {
      if bodyParts != [] {
        bodyParts[0].hasInitialBoundary := true;
        bodyParts[|bodyParts| - 1].hasFinalBoundary := true;
      }
    }

    /** encodeBodyStream: fails unless the stream delivers exactly the declared length. */
    method EncodeBodyStream(part: BodyPart) returns (r: Option<seq<byte>>)
      requires part.bodyStream.position == 0
      modifies part.bodyStream
      ensures r == if part.LengthMatches() then Some(part.bodyStream.content) else None
    {
      var stream := part.bodyStream;
      var encoded: seq<byte> := [];
      while true
        invariant stream.Valid() && encoded == stream.content[..stream.position]
        decreases |stream.content| - stream.position
      {
        var available := stream.HasBytesAvailable();
        if !available { break; }
        var chunk := stream.Read(streamBufferSize);
        if |chunk| == 0 { break; }
        encoded := encoded + chunk;
      }
      assert encoded == stream.content;
      r := if |encoded| == part.bodyContentLength then Some(encoded) else None;
    }

    /** encode(_:). */
    method EncodePart(part: BodyPart) returns (r: Option<seq<byte>>)
      requires part.bodyStream.position == 0
      modifies part.bodyStream
      ensures r == if part.LengthMatches()
        then Some(PartBytes(boundary, part.hasInitialBoundary, part.hasFinalBoundary, part.Whole())) else None
    {
      var encoded := BoundaryData(if part.hasInitialBoundary then Initial else Encapsulated, boundary);
      encoded := encoded + EncodeHeaders(part.headers);
      var body := EncodeBodyStream(part);
      if body == None { return None; }
      encoded := encoded + body.value;
      if part.hasFinalBoundary {
        encoded := encoded + BoundaryData(Final, boundary);
      } else {
        assert encoded + [] == encoded;
      }
      r := Some(encoded);
    }

    /** encode(): the whole form, unless some stream is not as long as declared. */
    method Encode() returns (r: Option<seq<byte>>)
      requires Fresh()
      modifies bodyParts, set p | p in bodyParts :: p.bodyStream
      ensures r == if forall p :: p in bodyParts ==> p.LengthMatches()
        then Some(EncodeForm(boundary, Parts())) else None
    {
      hide PartBytes, EncodeForm, BoundaryData, Emitted;
      var list := bodyParts;
      ghost var parts := WholeParts(list);
      SetBoundaryFlags();
      var encoded: seq<byte> := [];
      NothingEmittedYet(boundary, parts);
      for i := 0 to |list|
        invariant forall j :: 0 <= j < i ==> list[j].LengthMatches()
        invariant forall j :: i <= j < |list| ==> list[j].bodyStream.position == 0
        invariant encoded == Emitted(boundary, parts, i)
        modifies set p | p in list :: p.bodyStream
      {
        var data := EncodePart(list[i]);
        if data == None { return None; }
        encoded := encoded + data.value;
        EmittedStep(boundary, parts, i);
      }
      EmittedIsForm(boundary, parts);
      r := Some(encoded);
    }

    /** write(_:to:) on a buffer: repeated until every byte is accepted or there is no space left. */
    method WriteBuffer(data: seq<byte>, output: OutputFile)
      requires output.Valid()
      modifies output
      ensures output.Valid() && output.written == Fit(output.capacity, old(output.written) + data)
    {
      var buffer: seq<byte>, bytesToWrite: nat := data, |data|;
      while true
        invariant output.Valid() && bytesToWrite <= |buffer| && (bytesToWrite > 0 ==> bytesToWrite == |buffer|)
        invariant old(output.written) + data == output.written + (if bytesToWrite > 0 then buffer else [])
        decreases bytesToWrite
      {
        if bytesToWrite == 0 { break; }
        var space := output.HasSpaceAvailable();
        if !space { break; }
        ghost var before := output.written;
        var bytesWritten := output.Write(buffer, bytesToWrite);
        bytesToWrite := bytesToWrite - bytesWritten;
        assert before + buffer == output.written + buffer[bytesWritten..];
        if bytesToWrite > 0 {
          buffer := buffer[bytesWritten..];
        }
      }
      assert output.written + [] == output.written;
    }

    /** writeBodyStream: at most the declared length, in chunks no larger than the buffer. */
    method WriteBodyStream(part: BodyPart, output: OutputFile)
      requires output.Valid() && part.bodyStream.position == 0
      modifies part.bodyStream, output
      ensures output.Valid() && output.written == Fit(output.capacity, old(output.written) + part.Declared().body)
    {
      var stream := part.bodyStream;
      var bytesLeftToRead: nat := part.bodyContentLength;
      while bytesLeftToRead > 0
        invariant stream.Valid() && stream.position + bytesLeftToRead == part.bodyContentLength
        invariant output.Valid()
        invariant output.written == Fit(output.capacity, old(output.written) + stream.content[..stream.position])
        decreases bytesLeftToRead
      {
        var available := stream.HasBytesAvailable();
        if !available { break; }
        var bufferSize := if streamBufferSize < bytesLeftToRead then streamBufferSize else bytesLeftToRead;
        ghost var copied := stream.content[..stream.position];
        var chunk := stream.Read(bufferSize);
        if |chunk| == 0 { break; }
        WriteBuffer(chunk, output);
        FitTwice(output.capacity, old(output.written) + copied, chunk);
        Regroup(old(output.written), copied, chunk);
        bytesLeftToRead := bytesLeftToRead - |chunk|;
        assert copied + chunk == stream.content[..stream.position];
      }
      if stream.position == |stream.content| {
        assert stream.content[..stream.position] == stream.content;
      }
    }

    /** write(_:to:) on a part. */
    method WritePart(part: BodyPart, output: OutputFile)
      requires output.Valid() && part.bodyStream.position == 0
      modifies part.bodyStream, output
      ensures output.Valid()
      ensures output.written == Fit(output.capacity, old(output.written) +
        PartBytes(boundary, part.hasInitialBoundary, part.hasFinalBoundary, part.Declared()))
    {
      hide BoundaryData, EncodeHeaders, Fit;
      ghost var n, before := output.capacity, output.written;
      ghost var a, b := BoundaryData(if part.hasInitialBoundary then Initial else Encapsulated, boundary),
          EncodeHeaders(part.headers);
      ghost var c := part.Declared().body;
      WriteBuffer(BoundaryData(if part.hasInitialBoundary then Initial else Encapsulated, boundary), output);
      WriteBuffer(EncodeHeaders(part.headers), output);
      FitAfter(n, before, a, b);
      WriteBodyStream(part, output);
      FitAfter(n, before, a + b, c);
      if part.hasFinalBoundary {
        WriteBuffer(BoundaryData(Final, boundary), output);
        FitAfter(n, before, a + b + c, BoundaryData(Final, boundary));
      } else {
        assert a + b + c + [] == a + b + c;
      }
    }

    /** writeEncodedData(to:), once the file is open: the form, as far as there is space, and no error. */
    method WriteEncodedData(output: OutputFile)
      requires Fresh() && output.Valid() && output.written == []
      modifies output, bodyParts, set p | p in bodyParts :: p.bodyStream
      ensures output.written == Fit(output.capacity, EncodeForm(boundary, DeclaredParts()))
    {
      hide PartBytes, EncodeForm, BoundaryData, Fit, Emitted;
      var list := bodyParts;
      ghost var parts := Truncated(list);
      SetBoundaryFlags();
      NothingEmittedYet(boundary, parts);
      for i := 0 to |list|
        invariant forall j :: i <= j < |list| ==> list[j].bodyStream.position == 0
        invariant output.Valid() && output.written == Fit(output.capacity, Emitted(boundary, parts, i))
        modifies output, set p | p in list :: p.bodyStream
      {
        WritePart(list[i], output);
        FitTwice(output.capacity, Emitted(boundary, parts, i), PartBytes(boundary, i == 0, i == |list| - 1, parts[i]));
        EmittedStep(boundary, parts, i);
      }
      EmittedIsForm(boundary, parts);
    }

    /** When every stream is as long as declared the two encoders emit the same bytes. */
    lemma EncodersAgree()
      requires forall p :: p in bodyParts ==> p.LengthMatches()
      ensures EncodeForm(boundary, DeclaredParts()) == EncodeForm(boundary, Parts())
    {
      forall i | 0 <= i < |bodyParts| ensures bodyParts[i].Declared() == bodyParts[i].Whole() {
        assert bodyParts[i] in bodyParts;
      }
      assert DeclaredParts() == Parts();
    }
  }

  // ---------- Both encoders ----------

  /** One append: the bytes of its stream and the length it is declared with. */
  datatype Input = Input(headers: seq<Header>, content: seq<byte>, length: nat)

  function WholeInputs(inputs: seq<Input>): seq<Part> {
    seq(|inputs|, i requires 0 <= i < |inputs| => Part(inputs[i].headers, inputs[i].content))
  }

  function DeclaredInputs(inputs: seq<Input>): seq<Part> {
    seq(|inputs|, i requires 0 <= i < |inputs| => Part(inputs[i].headers, Fit(inputs[i].length, inputs[i].content)))
  }

  predicate LengthsMatch(inputs: seq<Input>) {
    forall i :: 0 <= i < |inputs| ==> |inputs[i].content| == inputs[i].length
  }

  ghost predicate BuiltFrom(parts: seq<BodyPart>, inputs: seq<Input>) {
    && |parts| == |inputs|
    && forall i :: 0 <= i < |inputs| ==>
         && parts[i].headers == inputs[i].headers && parts[i].bodyStream.content == inputs[i].content
         && parts[i].bodyContentLength == inputs[i].length
  }

  lemma BuiltParts(parts: seq<BodyPart>, inputs: seq<Input>)
    requires BuiltFrom(parts, inputs)
    ensures WholeParts(parts) == WholeInputs(inputs) && Truncated(parts) == DeclaredInputs(inputs)
    ensures (forall p :: p in parts ==> p.LengthMatches()) <==> LengthsMatch(inputs)
  {
    if forall p :: p in parts ==> p.LengthMatches() {
      forall i | 0 <= i < |inputs|
        ensures |inputs[i].content| == inputs[i].length
      {
        assert parts[i] in parts;
      }
    }
  }

  method BuildForm(boundary: seq<byte>, inputs: seq<Input>) returns (form: FormData)
    ensures fresh(form) && form.boundary == boundary && form.Fresh() && BuiltFrom(form.bodyParts, inputs)
    ensures forall p :: p in form.bodyParts ==> fresh(p) && fresh(p.bodyStream)
  {
    form := new FormData(boundary);
    for i := 0 to |inputs|
      invariant fresh(form) && form.boundary == boundary && form.Fresh() && BuiltFrom(form.bodyParts, inputs[..i])
      invariant forall p :: p in form.bodyParts ==> fresh(p) && fresh(p.bodyStream)
    {
      var stream := new BodyStream(inputs[i].content);
      form.Append(stream, inputs[i].length, inputs[i].headers);
    }
    assert inputs[..|inputs|] == inputs;
  }

  method EncodeInMemory(boundary: seq<byte>, inputs: seq<Input>) returns (encoded: Option<seq<byte>>)
    ensures encoded == if LengthsMatch(inputs) then Some(EncodeForm(boundary, WholeInputs(inputs))) else None
  {
    hide EncodeForm, BuiltFrom, LengthsMatch;
    var form := BuildForm(boundary, inputs);
    BuiltParts(form.bodyParts, inputs);
    encoded := form.Encode();
  }

  method WriteToFile(boundary: seq<byte>, inputs: seq<Input>, space: nat) returns (written: seq<byte>)
    ensures written == Fit(space, EncodeForm(boundary, DeclaredInputs(inputs)))
  {
    hide EncodeForm, BuiltFrom, Fit;
    var form := BuildForm(boundary, inputs);
    BuiltParts(form.bodyParts, inputs);
    var output := new OutputFile(space);
    form.WriteEncodedData(output);
    written := output.written;
  }

  /** Two equal forms, one encoded in memory and one written to a file: where encode() succeeds, the file
      holds the same bytes as far as there is space. */
  method EncodeBothWays(boundary: seq<byte>, inputs: seq<Input>, space: nat)
    returns (encoded: Option<seq<byte>>, written: seq<byte>)
    ensures encoded.Some? <==> LengthsMatch(inputs)
    ensures encoded.Some? ==> encoded.value == EncodeForm(boundary, WholeInputs(inputs))
    ensures written == Fit(space, EncodeForm(boundary, DeclaredInputs(inputs)))
    ensures encoded.Some? ==> written == Fit(space, encoded.value)
  {
    hide EncodeForm, Fit;
    encoded := EncodeInMemory(boundary, inputs);
    written := WriteToFile(boundary, inputs, space);
    if LengthsMatch(inputs) {
      DeclaredIsWhole(inputs);
    }
  }

  lemma DeclaredIsWhole(inputs: seq<Input>)
    requires LengthsMatch(inputs)
    ensures DeclaredInputs(inputs) == WholeInputs(inputs)
  {
  }
}
