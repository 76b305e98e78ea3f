/** The merging laws of the Protocol Buffers encoding, stated of the decoder alone: of a field that is not
    repeated the last record counts, and the records of a submessage count as one with all their payloads. */
module MergingLaws {
  import opened Words
  import opened Parsing
  import opened Varints
  import opened Wire
  import opened Schema
  import opened Defaulting
  import opened DecoderSpec
  import opened Streams

  lemma PriorIrrelevant(f: Field, x: Value, x': Value, s: seq<byte>)
    requires !f.ltype.LSubmessage?
    ensures DecodeValue(f, x, s) == DecodeValue(f, x', s)
  {
  }

  /** Decoding into a slot that another record has been decoded into before: the same as without it. */
  lemma SlotForgets(f: Field, slot: Slot, slot': Slot, k: nat, k': nat, wireType: nat, s: seq<byte>)
    requires !f.htype.Repeated? && DecodeField(f, slot', k', wireType, s).Ok?
    requires slot.SOne? <==> slot'.SOne?
    requires slot.SOpt? <==> slot'.SOpt?
    requires slot.SOneof? <==> slot'.SOneof?
    requires f.ltype.LSubmessage? ==> slot.SOneof? && slot.which != f.tag && slot'.SOneof? && slot'.which != f.tag
    ensures var r, r' := DecodeField(f, slot, k, wireType, s), DecodeField(f, slot', k', wireType, s);
      r.Ok? && r.rest == r'.rest && r.value.0 == r'.value.0
  {
    hide DecodeValue;
    match slot
    case SOne(x) => if !f.ltype.LSubmessage? { PriorIrrelevant(f, x, slot'.v, s); }
    case SOpt(_, x) => if !f.ltype.LSubmessage? { PriorIrrelevant(f, x, slot'.v, s); }
    case SOneof(_, x) =>
      if !f.ltype.LSubmessage? { PriorIrrelevant(f, x, slot'.v, s); }
    case SRep(_, _) =>
  }

  /** The last one wins: after a record of field `i`, or of another alternative of its union, a record of field
      `j` leaves what it would have left by itself. Of a submessage that is so when the alternative has
      changed. */
  lemma LastOneWins(fields: seq<Field>, i: nat, j: nat, st: DState, w1: nat, s1: seq<byte>, w2: nat, s2: seq<byte>)
    requires ValidTable(fields) && i < |fields| && j < |fields| && SlotOf(fields, i) == SlotOf(fields, j)
    requires !fields[i].htype.Repeated? && !fields[j].htype.Repeated?
    requires fields[j].ltype.LSubmessage? ==>
      i != j && SlotOf(fields, j) < |st.m| && (st.m[SlotOf(fields, j)].SOneof? ==>
        st.m[SlotOf(fields, j)].which != fields[j].tag)
    requires DecodeOne(fields, st, w1, fields[i].tag, s1).Ok?
    requires DecodeOne(fields, DecodeOne(fields, st, w1, fields[i].tag, s1).value, w2, fields[j].tag, s2).Ok?
    ensures var first := DecodeOne(fields, st, w1, fields[i].tag, s1).value;
      var both, alone := DecodeOne(fields, first, w2, fields[j].tag, s2), DecodeOne(fields, st, w2, fields[j].tag, s2);
      alone.Ok? && alone.rest == both.rest && alone.value.m == both.value.m
  {
    hide DecodeField, ValidField, SkipField, DecodeVarint32, Mark, FindField;
    FindUnique(fields, i);
    FindUnique(fields, j);
    var at, slot := SlotOf(fields, i), st.m[SlotOf(fields, i)];
    var k := if st.fixedField == Some(i) then st.fixedSize else 0;
    KeepsShape(fields[i], slot, k, w1, s1);
    var first := DecodeOne(fields, st, w1, fields[i].tag, s1).value;
    if i != j { OneSlot(fields, i, j); }
    SlotForgets(fields[j], slot, first.m[at], if st.fixedField == Some(j) then st.fixedSize else 0,
        if first.fixedField == Some(j) then first.fixedSize else 0, w2, s2);
  }

  lemma OneSlot(fields: seq<Field>, i: nat, j: nat)
    requires ValidTable(fields) && i < |fields| && j < |fields| && SlotOf(fields, i) == SlotOf(fields, j) && i != j
    ensures fields[i].htype.Oneof? && fields[j].htype.Oneof? && fields[i].tag != fields[j].tag
  {
    if i < j { SlotOfMonotone(fields, i, j); } else { SlotOfMonotone(fields, j, i); }
  }

  lemma KeepsShape(f: Field, slot: Slot, k: nat, wireType: nat, s: seq<byte>)
    requires !f.htype.Repeated? && DecodeField(f, slot, k, wireType, s).Ok?
    ensures var r := DecodeField(f, slot, k, wireType, s).value.0;
      && (slot.SOne? <==> r.SOne?) && (slot.SOpt? <==> r.SOpt?) && (slot.SOneof? <==> r.SOneof?)
      && (slot.SOpt? ==> r.has) && (slot.SOneof? <==> f.htype.Oneof?) && (r.SOneof? ==> r.which == f.tag)
  {
    hide DecodeValue;
  }

  /** What a submessage of field `f` in this slot is merged into. */
  function MergedInto(f: Field, slot: Slot): Value {
    match slot
    case SOne(x) => x
    case SOpt(_, x) => x
    case SOneof(which, x) => if which == f.tag then x else UnionBase(f)
    case SRep(_, _) => VInt(0)
  }

  /** Two records of a submessage decode as one that has both payloads, whatever its struct held. (The payloads
      decode one after the other, the first as whole fields and without a fixed-count array.) */
  lemma SubmessagesMerge(f: Field, slot: Slot, k: nat, wireType: nat, p1: seq<byte>, p2: seq<byte>)
    requires f.ltype.LSubmessage? && !f.htype.Repeated? && |p1 + p2| < WORD32
    requires DecodeField(f, slot, k, wireType, Delimited(p1)).Ok?
    requires var first := DecodeField(f, slot, k, wireType, Delimited(p1)).value.0;
      DecodeField(f, first, k, wireType, Delimited(p2)).Ok?
    requires MergedInto(f, slot).VMsg? ==>
      var o := DecodeLoop(f.ltype.fields, Start(MergedInto(f, slot).slots), p1);
      o.Done? ==> !o.terminated && o.st.fixedField == None
    ensures var first := DecodeField(f, slot, k, wireType, Delimited(p1)).value.0;
      DecodeField(f, slot, k, wireType, Delimited(p1 + p2)) == DecodeField(f, first, k, wireType, Delimited(p2))
  {
    hide DecodeNoInit, Delimited, ReadDelimited, DecodeLoop, UnionBase;
    var x := MergedInto(f, slot);
    OnePayloadDecoded(f, slot, k, wireType, p1);
    var first := DecodeField(f, slot, k, wireType, Delimited(p1)).value.0;
    OnePayloadDecoded(f, first, k, wireType, p2);
    DoneIfDecoded(f.ltype.fields, x.slots, p1);
    ConcatenationIsMerge(f.ltype.fields, x.slots, p1, p2);
    OnePayloadDecoded(f, slot, k, wireType, p1 + p2);
  }

  lemma DoneIfDecoded(fields: seq<Field>, m: seq<Slot>, s: seq<byte>)
    requires DecodeNoInit(fields, m, s).Ok?
    ensures DecodeLoop(fields, Start(m), s).Done?
  {
    hide DecodeLoop;
  }

  /** One record of a submessage, by its payload. */
  lemma OnePayloadDecoded(f: Field, slot: Slot, k: nat, wireType: nat, p: seq<byte>)
    requires f.ltype.LSubmessage? && !f.htype.Repeated? && |p| < WORD32
    ensures var d, x := DecodeField(f, slot, k, wireType, Delimited(p)), MergedInto(f, slot);
      if (slot.SOne? && !f.htype.Oneof?) || (slot.SOpt? && f.htype.Optional?) || (slot.SOneof? && f.htype.Oneof?) then
        && (d.Ok? <==> x.VMsg? && DecodeNoInit(f.ltype.fields, x.slots, p).Ok?)
        && (d.Ok? ==>
              var v := VMsg(DecodeNoInit(f.ltype.fields, x.slots, p).value);
              d == Ok((if slot.SOne? then SOne(v) else if slot.SOpt? then SOpt(true, v) else SOneof(f.tag, v), k), []))
      else d == Fail
  {
    hide DecodeNoInit, Delimited, ReadDelimited, UnionBase, DecodeVarint32;
    DelimitedRoundTrip(p, []);
    assert Delimited(p) + [] == Delimited(p);
  }
}
