/** How decoding composes along the byte stream: a run of fields does the same whatever follows it, so
    concatenated messages merge and unknown fields are transparent. */
module Streams {
  import opened Words
  import opened Parsing
  import opened Varints
  import opened Wire
  import opened Schema
  import opened Defaulting
  import opened DecoderSpec

  lemma DecodeScalarAppend(f: Field, s: seq<byte>, t: seq<byte>)
    ensures var r := DecodeScalar(f, s); r.Ok? ==> DecodeScalar(f, s + t) == Ok(r.value, r.rest + t)
  {
    hide DecodeVarint, DecodeVarint32;
    DecodeVarintAppend(s, t);
    DecodeVarint32Append(s, t);
    if |s| >= 8 { ReadAppend(s, 8, t); }
    if |s| >= 4 { ReadAppend(s, 4, t); }
  }

  lemma DecodeBlobAppend(f: Field, s: seq<byte>, t: seq<byte>)
    ensures var r := DecodeBlob(f, s); r.Ok? ==> DecodeBlob(f, s + t) == Ok(r.value, r.rest + t)
  {
    hide DecodeVarint32;
    DecodeVarint32Append(s, t);
    var r := DecodeVarint32(s);
    if r.Ok? && r.value <= |r.rest| {
      ReadAppend(r.rest, r.value, t);
    }
  }

  lemma DecodeValueAppend(f: Field, prior: Value, s: seq<byte>, t: seq<byte>)
    ensures var r := DecodeValue(f, prior, s); r.Ok? ==> DecodeValue(f, prior, s + t) == Ok(r.value, r.rest + t)
  {
    hide DecodeScalar, DecodeBlob, ReadDelimited, DecodeNoInit;
    DecodeScalarAppend(f, s, t);
    DecodeBlobAppend(f, s, t);
    ReadDelimitedAppend(s, t);
  }

  lemma DecodeFieldAppend(f: Field, slot: Slot, k: nat, wireType: nat, s: seq<byte>, t: seq<byte>)
    ensures var r := DecodeField(f, slot, k, wireType, s);
      r.Ok? ==> DecodeField(f, slot, k, wireType, s + t) == Ok(r.value, r.rest + t)
  {
    hide DecodeValue, ReadDelimited, DecodePacked;
    ReadDelimitedAppend(s, t);
    match (f.htype, slot)
    case (Required, SOne(x)) => DecodeValueAppend(f, x, s, t);
    case (Optional, SOne(x)) => DecodeValueAppend(f, x, s, t);
    case (Optional, SOpt(_, x)) => DecodeValueAppend(f, x, s, t);
    case (Repeated, SRep(items, _)) =>
      DecodeValueAppend(f, CellAt(slot, if FixedCount(f) then k else |items|), s, t);
    case (Oneof, SOneof(which, x)) => DecodeValueAppend(f, x, s, t); DecodeValueAppend(f, UnionBase(f), s, t);
    case _ =>
  }

  lemma DecodeOneAppend(fields: seq<Field>, st: DState, wireType: nat, tag: nat, s: seq<byte>, t: seq<byte>)
    ensures var r := DecodeOne(fields, st, wireType, tag, s);
      r.Ok? ==> DecodeOne(fields, st, wireType, tag, s + t) == Ok(r.value, r.rest + t)
  {
    hide DecodeField, SkipField, DecodeVarint32;
    DecodeVarint32Append(s, t);
    SkipFieldAppend(s, wireType, t);
    var i := FindField(fields, tag);
    if i < |fields| && SlotOf(fields, i) < |st.m| {
      var k := if st.fixedField == Some(i) then st.fixedSize else 0;
      DecodeFieldAppend(fields[i], st.m[SlotOf(fields, i)], k, wireType, s, t);
    }
  }

  /** A stream of whole fields, decoded to its end, leaves the decoder ready to go on with `b`. */
  lemma {:induction false} LoopSegment(fields: seq<Field>, st: DState, a: seq<byte>, b: seq<byte>)
    requires DecodeLoop(fields, st, a).Done? && !DecodeLoop(fields, st, a).terminated
    ensures DecodeLoop(fields, st, a + b) == DecodeLoop(fields, DecodeLoop(fields, st, a).st, b)
    decreases |a|
  {
    hide DecodeOne, DecodeTag;
    if a == [] {
      assert a + b == b;
    } else {
      DecodeVarint32Consumes(a);
      TagShape(a);
      var tr := DecodeTag(a);
      DecodeTagAppend(a, b);
      DecodeOneAppend(fields, st, tr.wireType, tr.tag, tr.rest, b);
      var r := DecodeOne(fields, st, tr.wireType, tr.tag, tr.rest);
      LoopSegment(fields, r.value, r.rest, b);
    }
  }

  lemma TagShape(s: seq<byte>)
    ensures DecodeTag(s).Tag? ==> |DecodeTag(s).rest| < |s|
  {
    hide DecodeVarint32;
    DecodeVarint32Consumes(s);
  }

  /** The loop from just after a tag. */
  function AfterTag(fields: seq<Field>, st: DState, wireType: nat, tag: nat, s: seq<byte>): Outcome {
    match DecodeOne(fields, st, wireType, tag, s)
    case Fail => Failed
    case Ok(st', rest) => DecodeLoop(fields, st', rest)
  }

  lemma LoopTurn(fields: seq<Field>, st: DState, s: seq<byte>)
    requires s != []
    ensures DecodeTag(s).BadTag? ==> DecodeLoop(fields, st, s) == Failed
    ensures DecodeTag(s).EndOfMessage? ==> DecodeLoop(fields, st, s) == Done(st, DecodeTag(s).rest, true)
    ensures var t := DecodeTag(s);
      t.Tag? ==> |t.rest| < |s| && DecodeLoop(fields, st, s) == AfterTag(fields, st, t.wireType, t.tag, t.rest)
  {
    hide DecodeOne, DecodeTag;
    TagShape(s);
  }

  lemma LoopEnd(fields: seq<Field>, st: DState)
    ensures DecodeLoop(fields, st, []) == Done(st, [], false)
  {
  }

  // ---------- Concatenation is merging ----------

  /** The required fields already seen do not influence decoding; they are only carried along. */
  lemma {:induction false} SeenFrame(fields: seq<Field>, st: DState, more: set<nat>, s: seq<byte>)
    ensures var o := DecodeLoop(fields, st, s);
      DecodeLoop(fields, st.(seen := st.seen + more), s) ==
        if o.Failed? then Failed else o.(st := o.st.(seen := o.st.seen + more))
    decreases |s|
  {
    hide DecodeField, SkipField, DecodeVarint32, DecodeTag;
    if s != [] {
      TagShape(s);
      var tr := DecodeTag(s);
      if tr.Tag? {
        var r := DecodeOne(fields, st, tr.wireType, tr.tag, tr.rest);
        var st2 := st.(seen := st.seen + more);
        if r.Ok? {
          SeenFrame(fields, r.value, more, r.rest);
          var i := FindField(fields, tr.tag);
          assert i < |fields| ==> Mark(fields, i, st2.seen) == Mark(fields, i, st.seen) + more;
          assert DecodeOne(fields, st2, tr.wireType, tr.tag, tr.rest) == Ok(r.value.(seen := r.value.seen + more),
              r.rest);
        } else {
          assert DecodeOne(fields, st2, tr.wireType, tr.tag, tr.rest) == Fail;
        }
      }
    }
  }

  /** If `a` and then `b` decode one after the other into the same struct, their concatenation decodes in
      one call to the same struct. `a` must be whole fields up to its end, without a zero terminator and
      without a fixed-count array. */
  lemma ConcatenationIsMerge(fields: seq<Field>, m: seq<Slot>, a: seq<byte>, b: seq<byte>)
    requires DecodeNoInit(fields, m, a).Ok?
    requires var o := DecodeLoop(fields, Start(m), a); !o.terminated && o.st.fixedField == None
    requires DecodeNoInit(fields, DecodeNoInit(fields, m, a).value, b).Ok?
    ensures DecodeNoInit(fields, m, a + b) == DecodeNoInit(fields, DecodeNoInit(fields, m, a).value, b)
  {
    hide DecodeLoop, RequiredSeen;
    var st := DecodeLoop(fields, Start(m), a).st;
    LoopSegment(fields, Start(m), a, b);
    FixedSizeStartsAtZero(fields, Start(m), a);
    SeenFrame(fields, Start(st.m), st.seen, b);
    assert Start(st.m).(seen := {} + st.seen) == st;
    var o := DecodeLoop(fields, Start(st.m), b);
    RequiredSeenMore(fields, o.st.seen, st.seen);
  }

  lemma RequiredSeenMore(fields: seq<Field>, seen: set<nat>, more: set<nat>)
    ensures RequiredSeen(fields, seen) ==> RequiredSeen(fields, seen + more)
  {
  }

  lemma {:induction false} FixedSizeStartsAtZero(fields: seq<Field>, st: DState, s: seq<byte>)
    requires st.fixedField == None ==> st.fixedSize == 0
    ensures var o := DecodeLoop(fields, st, s);
      o.Done? && o.st.fixedField == None ==> o.st.fixedSize == 0
    decreases |s|
  {
    hide DecodeField, SkipField, DecodeVarint32, DecodeTag;
    if s != [] {
      TagShape(s);
      var tr := DecodeTag(s);
      if tr.Tag? {
        var r := DecodeOne(fields, st, tr.wireType, tr.tag, tr.rest);
        if r.Ok? {
          FixedSizeStartsAtZero(fields, r.value, r.rest);
        }
      }
    }
  }

  // ---------- Unknown fields ----------

  /** One complete field whose number is not in the table; of an empty table not even the terminator's. */
  predicate UnknownField(fields: seq<Field>, u: seq<byte>) {
    var t := DecodeTag(u);
    && t.Tag? && (fields != [] || t.tag != 0) && FindField(fields, t.tag) == |fields|
    && SkipField(t.rest, t.wireType) == Ok((), [])
  }

  /** Inserting an unknown field between two fields changes nothing, also inside a fixed-count array. */
  lemma UnknownFieldTransparent(fields: seq<Field>, m: seq<Slot>, a: seq<byte>, u: seq<byte>, b: seq<byte>)
    requires var o := DecodeLoop(fields, Start(m), a); o.Done? && !o.terminated
    requires UnknownField(fields, u)
    ensures DecodeNoInit(fields, m, a + u + b) == DecodeNoInit(fields, m, a + b)
  {
    hide DecodeLoop;
    var st := DecodeLoop(fields, Start(m), a).st;
    SkipsUnknown(fields, st, u);
    LoopSegment(fields, Start(m), a, b);
    LoopSegment(fields, Start(m), a, u + b);
    LoopSegment(fields, st, u, b);
    assert a + u + b == a + (u + b);
  }

  lemma SkipsUnknown(fields: seq<Field>, st: DState, u: seq<byte>)
    requires UnknownField(fields, u)
    ensures DecodeLoop(fields, st, u) == Done(st, [], false)
  {
    hide DecodeTag, SkipField, DecodeVarint32;
    TagShape(u);
    var t := DecodeTag(u);
    assert u != [] by { TagOfEmpty(); }
    assert DecodeOne(fields, st, t.wireType, t.tag, t.rest) == Ok(st, []);
    assert DecodeLoop(fields, st, []) == Done(st, [], false);
  }

  lemma TagOfEmpty()
    ensures !DecodeTag([]).Tag?
  {
  }

  /** The four wire types give unknown fields: any varint, 4 or 8 raw bytes, or a delimited payload. */
  lemma UnknownFieldForms(fields: seq<Field>, tag: nat, payload: seq<byte>)
    requires tag < 0x2000_0000 && (fields != [] || tag != 0) && FindField(fields, tag) == |fields|
    ensures VarintLen(payload) == |payload| > 0 && tag != 0 ==>
      UnknownField(fields, EncodeVarint(8 * tag + 0) + payload)
    ensures |payload| == 8 ==> UnknownField(fields, EncodeVarint(8 * tag + 1) + payload)
    ensures |payload| < WORD32 ==> UnknownField(fields, EncodeVarint(8 * tag + 2) + EncodeVarint(|payload|) + payload)
    ensures |payload| == 4 ==> UnknownField(fields, EncodeVarint(8 * tag + 5) + payload)
  {
    hide EncodeVarint, EncodeTag, VarintLen, SkipField, FindField, UnknownField, Delimited;
    TagWords(tag);
    if VarintLen(payload) == |payload| > 0 && tag != 0 {
      VarintSkipped(payload);
      RecordUnknown(fields, WT_VARINT, tag, payload);
    }
    if |payload| == 8 || |payload| == 4 {
      RawSkipped(payload);
      RecordUnknown(fields, if |payload| == 8 then WT_64BIT else WT_32BIT, tag, payload);
    }
    if |payload| < WORD32 {
      DelimitedSkipped(payload);
      RecordUnknown(fields, WT_STRING, tag, Delimited(payload));
      DelimitedParts(EncodeVarint(8 * tag + 2), payload);
    }
  }

  lemma TagWords(tag: nat)
    ensures EncodeTag(WT_VARINT, tag) == EncodeVarint(8 * tag + 0)
    ensures EncodeTag(WT_64BIT, tag) == EncodeVarint(8 * tag + 1)
    ensures EncodeTag(WT_STRING, tag) == EncodeVarint(8 * tag + 2)
    ensures EncodeTag(WT_32BIT, tag) == EncodeVarint(8 * tag + 5)
  {
    hide EncodeVarint;
  }

  lemma VarintSkipped(payload: seq<byte>)
    requires VarintLen(payload) == |payload| > 0
    ensures SkipField(payload, WT_VARINT) == Ok((), [])
  {
    SkipVarintExactly(payload);
  }

  lemma RawSkipped(payload: seq<byte>)
    requires |payload| == 8 || |payload| == 4
    ensures SkipField(payload, if |payload| == 8 then WT_64BIT else WT_32BIT) == Ok((), [])
  {
  }

  lemma DelimitedParts(head: seq<byte>, payload: seq<byte>)
    ensures head + Delimited(payload) == head + EncodeVarint(|payload|) + payload
  {
    hide EncodeVarint;
  }

  lemma RecordUnknown(table: seq<Field>, wireType: nat, tag: nat, e: seq<byte>)
    requires wireType < 8 && tag < 0x2000_0000 && (tag > 0 || (wireType > 0 && table != []))
    requires FindField(table, tag) == |table| && SkipField(e, wireType) == Ok((), [])
    ensures UnknownField(table, EncodeTag(wireType, tag) + e)
  {
    hide SkipField, EncodeTag, DecodeTag, FindField;
    TagRoundTrip(wireType, tag, e);
  }

  lemma DelimitedSkipped(payload: seq<byte>)
    requires |payload| < WORD32
    ensures SkipField(Delimited(payload), WT_STRING) == Ok((), [])
  {
    hide DecodeVarint32, EncodeVarint;
    Varint32RoundTrip(|payload|, payload);
    assert payload[|payload|..] == [];
  }

  /** With an empty table, four raw bytes of field number 0 are read as a bool and may fail; with any other
      table they are skipped. */
  lemma FieldZeroBreaksEmptyTable()
    ensures var u: seq<byte> := [0x05, 0x80, 0x80, 0x80, 0x80];
      && DecodeNoInit([], [], []).Ok? && DecodeNoInit([], [], u) == Fail
      && forall fields :: fields != [] && FindField(fields, 0) == |fields| ==> UnknownField(fields, u)
  {
    hide FindField, DecodeVarint32;
    var u, payload: seq<byte> := [0x05, 0x80, 0x80, 0x80, 0x80], [0x80, 0x80, 0x80, 0x80];
    assert u[1..] == payload;
    FiveAsTag(u, payload);
    LoopTurn([], Start([]), u);
    LoopEnd([], Start([]));
    Unended(payload);
    assert payload[4..] == [];
  }

  lemma FiveAsTag(u: seq<byte>, payload: seq<byte>)
    requires u != [] && u[0] == 5 && u[1..] == payload
    ensures DecodeTag(u) == Tag(5, 0, payload)
  {
  }

  lemma Unended(payload: seq<byte>)
    requires payload == [0x80, 0x80, 0x80, 0x80]
    ensures DecodeVarint32(payload) == Fail
  {
    assert payload[1..] == [0x80, 0x80, 0x80];
    assert VarintLen([0x80, 0x80]) == 0;
    assert VarintLen(payload) == 0;
    DecodeVarint32Exactly(payload);
  }
}
