/** Repeated scalars: packed runs, single elements and any mixture of them decode alike; and how
    whole encodings concatenate. */
module Arrays {
  import opened Words
  import opened Parsing
  import opened Varints
  import opened Wire
  import opened Schema
  import opened Defaulting
  import opened EncoderSpec
  import opened DecoderSpec
  import opened Streams
  import opened Merge
  import opened RoundTrip

  /** One record of a repeated scalar field: a packed run, or a single element under its own wire type. */
  datatype Chunk = Run(vs: seq<Value>) | Single(v: Value)

  function ChunkElements(c: Chunk): seq<Value> {
    match c case Run(vs) => vs case Single(v) => [v]
  }

  function Elements(chunks: seq<Chunk>): seq<Value> {
    if chunks == [] then [] else ChunkElements(chunks[0]) + Elements(chunks[1..])
  }

  function ChunkBytes(f: Field, c: Chunk): Option<seq<byte>> {
    match c
    case Run(vs) => (
      match EncodePacked(f, vs)
      case None => None
      case Some(payload) => Some(EncodeTag(WT_STRING, f.tag) + Delimited(payload)))
    case Single(v) =>
      if v.VInt? then Cat(Some(EncodeTag(WireTypeOf(f.ltype), f.tag)), EncodeScalar(f, v.n)) else None
  }

  /** The length of a run fits its 32-bit prefix. */
  predicate ShortChunk(f: Field, c: Chunk) {
    c.Run? && EncodePacked(f, c.vs).Some? ==> |EncodePacked(f, c.vs).value| < WORD32
  }

  function ChunksBytes(f: Field, chunks: seq<Chunk>): Option<seq<byte>> {
    if chunks == [] then Some([]) else Cat(ChunkBytes(f, chunks[0]), ChunksBytes(f, chunks[1..]))
  }

  lemma PutAllOne(items: seq<Value>, v: Value)
    ensures PutAll(items, |items|, [v]) == Put(items, |items|, v)
  {
    assert PutAll(Put(items, |items|, v), |items| + 1, []) == Put(items, |items|, v);
  }

  /** An array with `vs` appended. */
  function Appended(a: Slot, vs: seq<Value>): Slot
    requires a.SRep?
  {
    Grown(a, a.items + vs)
  }

  lemma AppendedTwice(a: Slot, vs: seq<Value>, ws: seq<Value>)
    requires a.SRep?
    ensures Appended(Appended(a, vs), ws) == Appended(a, vs + ws) && Appended(a, []) == a
  {
    assert a.items + vs + ws == a.items + (vs + ws) && a.items + [] == a.items;
    GrownTwice(a, a.items + vs, a.items + vs + ws);
  }

  lemma OneChunk(fields: seq<Field>, i: nat, st: DState, a: Slot, c: Chunk)
    requires ValidTable(fields) && i < |fields| && !FixedCount(fields[i])
    requires ScalarItems(fields[i], ChunkElements(c)) && ArrayReady(fields, i, st, a, |ChunkElements(c)|)
    requires ChunkBytes(fields[i], c).Some? && ShortChunk(fields[i], c)
    ensures DecodeLoop(fields, st, ChunkBytes(fields[i], c).value) ==
      Done(st.(m := st.m[SlotOf(fields, i) := Appended(a, ChunkElements(c))]), [], false)
  {
    hide DecodeLoop, DecodePacked, EncodePacked, PutAll, EncodeTag, ReadDelimited, ValidTable, DecodeScalar,
         EncodeScalar, Grown;
    var f := fields[i];
    var pos := |a.items|;
    var vs := ChunkElements(c);
    PutAllAppends(a.items, vs);
    NotRequired(fields, i, st);
    match c
    case Run(run) =>
      assert vs == run;
      var payload := EncodePacked(f, run).value;
      PackedRoundTrip(f, a.items, pos, run);
      DelimitedRoundTrip(payload, []);
      assert Delimited(payload) + [] == Delimited(payload);
      OneRecord(fields, i, st, WT_STRING, Delimited(payload));
      LoopEnd(fields, Stored(fields, i, st, Appended(a, vs), pos + |vs|));
    case Single(v) =>
      assert vs == [v] && vs[0] == v;
      PutAllOne(a.items, v);
      var e := EncodeScalar(f, v.n).value;
      ScalarRoundTrip(f, v.n, []);
      assert e + [] == e;
      OneRecord(fields, i, st, WireTypeOf(f.ltype), e);
      LoopEnd(fields, Stored(fields, i, st, Appended(a, vs), pos + 1));
  }

  /** One record too many for the array fails, whatever follows. */
  lemma OverfullChunk(fields: seq<Field>, i: nat, st: DState, a: Slot, c: Chunk, rest: seq<byte>)
    requires ValidTable(fields) && i < |fields| && !FixedCount(fields[i])
    requires ScalarItems(fields[i], ChunkElements(c)) && ArrayReady(fields, i, st, a, 0)
    requires |a.items| + |ChunkElements(c)| > fields[i].arraySize
    requires ChunkBytes(fields[i], c).Some? && ShortChunk(fields[i], c)
    ensures DecodeLoop(fields, st, ChunkBytes(fields[i], c).value + rest) == Failed
  {
    hide DecodeLoop, DecodePacked, EncodePacked, EncodeTag, ReadDelimited, ValidTable, DecodeScalar, EncodeScalar;
    var f := fields[i];
    match c
    case Run(run) =>
      var payload := EncodePacked(f, run).value;
      PackedOverflow(f, a.items, |a.items|, run);
      DelimitedRoundTrip(payload, rest);
      BadRecord(fields, i, st, WT_STRING, Delimited(payload) + rest);
      assert ChunkBytes(f, c).value + rest == EncodeTag(WT_STRING, f.tag) + (Delimited(payload) + rest);
    case Single(v) =>
      var e := EncodeScalar(f, v.n).value;
      assert ChunkElements(c) == [v];
      BadRecord(fields, i, st, WireTypeOf(f.ltype), e + rest);
      assert ChunkBytes(f, c).value + rest == EncodeTag(WireTypeOf(f.ltype), f.tag) + (e + rest);
  }

  lemma {:induction false} PackedOverflow(f: Field, items: seq<Value>, pos: nat, ys: seq<Value>)
    requires ScalarItems(f, ys) && pos + |ys| > f.arraySize && pos <= f.arraySize
    ensures EncodePacked(f, ys).Some? && DecodePacked(f, items, pos, EncodePacked(f, ys).value) == None
    decreases |ys|
  {
    hide DecodeScalar, EncodeScalar;
    ScalarRoundTrip(f, ys[0].n, []);
    if pos == f.arraySize {
      PackedRoundTripSome(f, ys);
    } else {
      PackedOverflow(f, Put(items, pos, ys[0]), pos + 1, ys[1..]);
      ScalarRoundTrip(f, ys[0].n, EncodePacked(f, ys[1..]).value);
    }
  }

  lemma {:induction false} PackedRoundTripSome(f: Field, ys: seq<Value>)
    requires ScalarItems(f, ys)
    ensures EncodePacked(f, ys).Some? && (ys != [] ==> EncodePacked(f, ys).value != [])
    decreases |ys|
  {
    hide DecodeScalar, EncodeScalar;
    if ys != [] {
      ScalarRoundTrip(f, ys[0].n, []);
      PackedRoundTripSome(f, ys[1..]);
    }
  }

  lemma BadRecord(fields: seq<Field>, i: nat, st: DState, wireType: nat, e: seq<byte>)
    requires ValidTable(fields) && i < |fields| && !FixedCount(fields[i])
    requires SlotOf(fields, i) < |st.m| && wireType < 8
    requires forall k: nat :: DecodeField(fields[i], st.m[SlotOf(fields, i)], k, wireType, e) == Fail
    ensures DecodeLoop(fields, st, EncodeTag(wireType, fields[i].tag) + e) == Failed
  {
    hide DecodeField, DecodeTag, EncodeTag, DecodeVarint32;
    FindUnique(fields, i);
    TagRoundTrip(wireType, fields[i].tag, e);
    var s := EncodeTag(wireType, fields[i].tag) + e;
    assert s != [] by { TagOfEmpty(); }
    assert DecodeOne(fields, st, wireType, fields[i].tag, e) == Fail;
    LoopTurn(fields, st, s);
  }

  /** Any mixture of packed runs and single elements that fits appends its elements in order; one that
      does not fit fails. */
  lemma {:induction false} MixedRecords(fields: seq<Field>, i: nat, st: DState, a: Slot, chunks: seq<Chunk>)
    requires ValidTable(fields) && i < |fields| && !FixedCount(fields[i])
    requires ScalarItems(fields[i], Elements(chunks)) && ArrayReady(fields, i, st, a, 0)
    requires ChunksBytes(fields[i], chunks).Some?
    requires forall j :: 0 <= j < |chunks| ==> ShortChunk(fields[i], chunks[j])
    ensures DecodeLoop(fields, st, ChunksBytes(fields[i], chunks).value) ==
      if |a.items| + |Elements(chunks)| <= fields[i].arraySize
      then Done(st.(m := st.m[SlotOf(fields, i) := Appended(a, Elements(chunks))]), [], false) else Failed
    decreases |chunks|
  {
    hide DecodeLoop, ChunkBytes, ShortChunk, ValidTable, ScalarFits, Grown;
    var f, k := fields[i], SlotOf(fields, i);
    if chunks == [] {
      LoopEnd(fields, st);
      AppendedTwice(a, [], []);
    } else {
      var vs, rest := ChunkElements(chunks[0]), Elements(chunks[1..]);
      var e, tail := ChunkBytes(f, chunks[0]).value, ChunksBytes(f, chunks[1..]).value;
      SplitItems(f, chunks);
      if |a.items| + |vs| > f.arraySize {
        OverfullChunk(fields, i, st, a, chunks[0], tail);
      } else {
        OneChunk(fields, i, st, a, chunks[0]);
        var st' := st.(m := st.m[k := Appended(a, vs)]);
        LoopSegment(fields, st, e, tail);
        AppendedItems(a, vs);
        MixedRecords(fields, i, st', Appended(a, vs), chunks[1..]);
        AppendedTwice(a, vs, rest);
      }
    }
  }

  lemma AppendedItems(a: Slot, vs: seq<Value>)
    requires a.SRep?
    ensures Appended(a, vs).SRep? && Appended(a, vs).items == a.items + vs
  {
  }

  lemma SplitItems(f: Field, chunks: seq<Chunk>)
    requires chunks != [] && ScalarItems(f, Elements(chunks))
    ensures ScalarItems(f, ChunkElements(chunks[0])) && ScalarItems(f, Elements(chunks[1..]))
  {
    hide ScalarFits, ChunkElements;
    var vs, rest := ChunkElements(chunks[0]), Elements(chunks[1..]);
    assert forall j :: 0 <= j < |rest| ==> rest[j] == Elements(chunks)[|vs| + j];
    assert forall j :: 0 <= j < |vs| ==> vs[j] == Elements(chunks)[j];
  }

  /** Two splittings of the same elements into runs and single records have the same outcome: the same array
      and count if they fit, failure if they do not. */
  lemma PackedAndUnpackedAgree(fields: seq<Field>, i: nat, m: seq<Slot>, x: seq<Chunk>, y: seq<Chunk>)
    requires ValidTable(fields) && i < |fields| && !FixedCount(fields[i])
    requires ScalarItems(fields[i], Elements(x)) && Elements(x) == Elements(y)
    requires SlotOf(fields, i) < |m| && m[SlotOf(fields, i)].SRep? && fields[i].htype.Repeated?
    requires |m[SlotOf(fields, i)].items| <= fields[i].arraySize
    requires ChunksBytes(fields[i], x).Some? && forall j :: 0 <= j < |x| ==> ShortChunk(fields[i], x[j])
    requires ChunksBytes(fields[i], y).Some? && forall j :: 0 <= j < |y| ==> ShortChunk(fields[i], y[j])
    ensures var a := m[SlotOf(fields, i)];
      var r := DecodeNoInit(fields, m, ChunksBytes(fields[i], x).value);
      && r == DecodeNoInit(fields, m, ChunksBytes(fields[i], y).value)
      && (RequiredIndex(fields, |fields|) == 0 ==>
            r == if |a.items| + |Elements(x)| <= fields[i].arraySize
                 then Ok(m[SlotOf(fields, i) := Appended(a, Elements(x))], []) else Fail)
  {
    hide DecodeLoop, ShortChunk, ValidTable, ScalarFits, Appended, RequiredSeen, ChunksBytes, Elements;
    MixedRecords(fields, i, Start(m), m[SlotOf(fields, i)], x);
    MixedRecords(fields, i, Start(m), m[SlotOf(fields, i)], y);
    NothingRequired(fields);
  }

  lemma NothingRequired(fields: seq<Field>)
    ensures RequiredIndex(fields, |fields|) == 0 ==> RequiredSeen(fields, {})
  {
  }

  // ---------- Concatenating encodings ----------

  predicate NoFixedCount(fields: seq<Field>) {
    forall i :: 0 <= i < |fields| ==> !FixedCount(fields[i])
  }

  lemma {:induction false} NoFixedState(fields: seq<Field>, st: DState, s: seq<byte>)
    requires NoFixedCount(fields) && st.fixedField == None
    ensures var o := DecodeLoop(fields, st, s); o.Done? ==> o.st.fixedField == None
    decreases |s|
  {
    hide DecodeField, SkipField, DecodeVarint32, DecodeTag;
    if s != [] {
      TagShape(s);
      var tr := DecodeTag(s);
      if tr.Tag? {
        var r := DecodeOne(fields, st, tr.wireType, tr.tag, tr.rest);
        if r.Ok? {
          NoFixedState(fields, r.value, r.rest);
        }
      }
    }
  }

  /** Decoding two encodings back to back is merging the second message into the first. */
  lemma EncodingsConcatenate(fields: seq<Field>, prior: seq<Slot>, m1: seq<Slot>, m2: seq<Slot>)
    requires ValidTable(fields) && NoFixedCount(fields) && Encodable(fields, m1) && Encodable(fields, m2)
    requires var first := MergeMsg(fields, Defaults(fields, prior), m1); Mergeable(fields, first, m2)
    requires Encode(fields, m1).Some? && Short(fields, m1)
    requires Encode(fields, m2).Some? && Short(fields, m2)
    ensures Decode(fields, prior, Encode(fields, m1).value + Encode(fields, m2).value) ==
      Ok(MergeMsg(fields, MergeMsg(fields, Defaults(fields, prior), m1), m2), [])
  {
    hide DecodeLoop, Encodable, Mergeable, Short, MergeMsg, Encode, ValidTable, NoFixedCount;
    var d, a := Defaults(fields, prior), Encode(fields, m1).value;
    DefaultsMergeable(fields, prior, m1);
    MessageMerges(fields, d, m1);
    MessageMerges(fields, MergeMsg(fields, d, m1), m2);
    WholeEncoding(fields, d, m1);
    NoFixedState(fields, Start(d), a);
    ConcatenationIsMerge(fields, d, a, Encode(fields, m2).value);
  }

  lemma WholeEncoding(fields: seq<Field>, m1: seq<Slot>, m2: seq<Slot>)
    requires ValidTable(fields) && Encodable(fields, m2) && Mergeable(fields, m1, m2)
    requires Encode(fields, m2).Some? && Short(fields, m2)
    ensures var o := DecodeLoop(fields, Start(m1), Encode(fields, m2).value); o.Done? && !o.terminated
  {
    hide Encodable, Mergeable, Short, EncodeUpTo, DecodeLoop, ValidTable;
    PrefixMerges(fields, |fields|, m1, m2);
  }

  /** Fixed-count arrays are the exception: each half fills the array, whatever it held, and the concatenation
      overflows it. */
  lemma FixedCountDoesNotConcatenate(f: Field, v: Value, a: seq<byte>)
    requires f == Field(1, Repeated, LBool, 0, 0, 1, 1, None) && a == [0x08, 0x01]
    ensures DecodeNoInit([f], [SRep([v], [])], a) == Ok([SRep([VInt(1)], [])], [])
    ensures DecodeNoInit([f], [SRep([v], [])], a + a) == Fail
  {
    hide DecodeLoop, DecodeOne;
    var full := DState([SRep([VInt(1)], [])], {}, Some(0), 1);
    OneBool(f, [SRep([v], [])], a, []);
    OneBool(f, [SRep([v], [])], a, a);
    assert a + [] == a;
    LoopEnd([f], full);
    NoRequired(f);
    OneTooMany(f, full, a, [0x01]);
  }

  lemma NoRequired(f: Field)
    requires f.htype.Repeated?
    ensures TrackedRequired([f]) == 0
  {
    assert RequiredIndex([f], 1) == RequiredIndex([f], 0);
  }

  lemma OneTooMany(f: Field, full: DState, a: seq<byte>, one: seq<byte>)
    requires f == Field(1, Repeated, LBool, 0, 0, 1, 1, None) && a == [0x08, 0x01] && one == [0x01]
    requires full == DState([SRep([VInt(1)], [])], {}, Some(0), 1)
    ensures DecodeLoop([f], full, a) == Failed
  {
    hide DecodeVarint32, DecodeField;
    TagRoundTrip(0, 1, one);
    assert EncodeTag(0, 1) + one == a;
    assert SlotOf([f], 0) == 0;
    FindUnique([f], 0);
    AtCapacity(f, full.m[0], one);
    assert DecodeOne([f], full, 0, 1, one) == Fail;
  }

  lemma AtCapacity(f: Field, slot: Slot, s: seq<byte>)
    requires FixedCount(f) && slot.SRep?
    ensures DecodeField(f, slot, f.arraySize, WT_VARINT, s) == Fail
  {
    hide DecodeValue;
  }

  lemma OneBool(f: Field, m: seq<Slot>, a: seq<byte>, rest: seq<byte>)
    requires f == Field(1, Repeated, LBool, 0, 0, 1, 1, None) && a == [0x08, 0x01]
    requires |m| == 1 && m[0].SRep? && |m[0].items| == 1 && m[0].spare == []
    ensures DecodeLoop([f], Start(m), a + rest) ==
      DecodeLoop([f], DState([SRep([VInt(1)], [])], {}, Some(0), 1), rest)
  {
    hide DecodeLoop, DecodeField;
    var s := [0x01] + rest;
    assert a + rest == EncodeTag(0, 1) + s;
    assert SlotOf([f], 0) == 0;
    OneTrue(f, m[0], s, rest);
    OneRecord([f], 0, Start(m), 0, s);
    assert m[0 := SRep([VInt(1)], [])] == [SRep([VInt(1)], [])];
  }

  lemma OneTrue(f: Field, slot: Slot, s: seq<byte>, rest: seq<byte>)
    requires f == Field(1, Repeated, LBool, 0, 0, 1, 1, None) && slot.SRep? && |slot.items| == 1 && slot.spare == []
    requires s == [0x01] + rest
    ensures DecodeField(f, slot, 0, WT_VARINT, s) == Ok((SRep([VInt(1)], []), 1), rest)
  {
    hide DecodeScalar, ReadDelimited, DecodePacked;
    assert slot.items[0 := VInt(1)] == [VInt(1)];
    TrueScalar(f, s, rest);
  }

  lemma TrueScalar(f: Field, s: seq<byte>, rest: seq<byte>)
    requires f.ltype.LBool? && s == [0x01] + rest
    ensures DecodeScalar(f, s) == Ok(VInt(1), rest)
  {
    assert s[1..] == rest;
  }
}
