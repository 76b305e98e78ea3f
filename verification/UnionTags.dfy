/** The which-field of a union: before a field of the union is decoded, the alternative set before is looked up
    in the table, and one that the table does not have makes the decoder fail. */
module UnionTags {
  import opened Words
  import opened Parsing
  import opened Varints
  import opened Wire
  import opened Schema
  import opened Defaulting
  import opened DecoderSpec
  import opened Streams
  import opened RoundTrip
  import opened Preservation

  /** A which-field that holds no alternative, or one that the table has. */
  predicate TagKnown(fields: seq<Field>, which: nat) {
    which == 0 || exists j :: 0 <= j < |fields| && fields[j].tag == which
  }

  predicate TagsKnown(fields: seq<Field>, m: seq<Slot>) {
    forall i :: 0 <= i < |fields| && SlotOf(fields, i) < |m| && fields[i].htype.Oneof? ==>
      m[SlotOf(fields, i)].SOneof? ==> TagKnown(fields, m[SlotOf(fields, i)].which)
  }

  lemma ReleasableExactly(fields: seq<Field>, i: nat, slot: Slot)
    requires i < |fields|
    ensures Releasable(fields, fields[i], slot) <==>
      (fields[i].htype.Oneof? && slot.SOneof? ==> TagKnown(fields, slot.which))
  {
    if slot.SOneof? && FindField(fields, slot.which) < |fields| {
      assert fields[FindField(fields, slot.which)].tag == slot.which;
    }
  }

  lemma ResetKnown(fields: seq<Field>, prior: seq<Slot>)
    ensures TagsKnown(fields, Defaults(fields, prior))
  {
    hide DefaultSlot;
    forall i | 0 <= i < |fields|
      ensures var at := SlotOf(fields, i);
        at < NumSlots(fields) && (fields[i].htype.Oneof? ==> Defaults(fields, prior)[at] == SOneof(0, VInt(0)))
    {
      DefaultsAt(fields, |fields|, i, prior);
      if fields[i].htype.Oneof? { OneofDefault(fields[i]); }
    }
  }

  lemma OneKeepsTags(fields: seq<Field>, st: DState, wireType: nat, tag: nat, s: seq<byte>)
    requires ValidTable(fields) && TagsKnown(fields, st.m) && DecodeOne(fields, st, wireType, tag, s).Ok?
    ensures TagsKnown(fields, DecodeOne(fields, st, wireType, tag, s).value.m)
  {
    hide DecodeField, SkipField, DecodeVarint32, ValidField, Mark;
    var i := FindField(fields, tag);
    if i < |fields| {
      var at := SlotOf(fields, i);
      var k := if st.fixedField == Some(i) then st.fixedSize else 0;
      FindUnique(fields, i);
      if fields[i].htype.Oneof? {
        DecodedUnionTag(fields[i], st.m[at], k, wireType, s);
      }
      forall j | 0 <= j < |fields| && SlotOf(fields, j) == at && j != i
        ensures fields[i].htype.Oneof?
      {
        if j < i { SlotOfMonotone(fields, j, i); } else { SlotOfMonotone(fields, i, j); }
      }
    }
  }

  lemma {:induction false} LoopKeepsTags(fields: seq<Field>, st: DState, s: seq<byte>)
    requires ValidTable(fields) && TagsKnown(fields, st.m) && DecodeLoop(fields, st, s).Done?
    ensures TagsKnown(fields, DecodeLoop(fields, st, s).st.m)
    decreases |s|
  {
    hide DecodeOne, DecodeTag, TagsKnown, ValidTable;
    if s != [] {
      TagShape(s);
      var tr := DecodeTag(s);
      if tr.Tag? {
        var r := DecodeOne(fields, st, tr.wireType, tr.tag, tr.rest);
        OneKeepsTags(fields, st, tr.wireType, tr.tag, tr.rest);
        LoopKeepsTags(fields, r.value, r.rest);
      }
    }
  }

  /** After a reset no union of the message has an unknown tag at any field boundary, whatever the struct held
      and whatever was decoded. */
  lemma KnownAfterReset(fields: seq<Field>, prior: seq<Slot>, s: seq<byte>)
    requires ValidTable(fields) && DecodeLoop(fields, Start(Defaults(fields, prior)), s).Done?
    ensures TagsKnown(fields, DecodeLoop(fields, Start(Defaults(fields, prior)), s).st.m)
  {
    hide TagsKnown, ValidTable, Defaults, DecodeLoop;
    ResetKnown(fields, prior);
    LoopKeepsTags(fields, Start(Defaults(fields, prior)), s);
  }

  /** Without a reset a record of a union with an unknown tag fails, whatever it holds and whatever follows. */
  lemma UnknownTagFails(fields: seq<Field>, i: nat, st: DState, wireType: nat, e: seq<byte>)
    requires ValidTable(fields) && i < |fields| && wireType < 8
    requires fields[i].htype.Oneof? && SlotOf(fields, i) < |st.m|
    requires var slot := st.m[SlotOf(fields, i)]; slot.SOneof? && !TagKnown(fields, slot.which)
    ensures DecodeLoop(fields, st, EncodeTag(wireType, fields[i].tag) + e) == Failed
  {
    hide DecodeField, DecodeTag, EncodeTag, DecodeVarint32, TagKnown, Releasable;
    ReleasableExactly(fields, i, st.m[SlotOf(fields, i)]);
    FindUnique(fields, i);
    TagRoundTrip(wireType, fields[i].tag, e);
    var s := EncodeTag(wireType, fields[i].tag) + e;
    assert s != [] by { TagOfEmpty(); }
    LoopTurn(fields, st, s);
  }
}
