/** pb_encode and pb_decode together, over real buffers. */
module Codec {
  import opened Words
  import opened Parsing
  import opened Schema
  import opened EncoderSpec
  import opened DecoderSpec
  import opened Merge
  import opened RoundTrip
  import opened Fidelity
  import opened InputStream
  import Encoder
  import Decoder

  lemma {:induction false} EncodableMatches(fields: seq<Field>, m: seq<Slot>)
    requires ValidTable(fields) && Encodable(fields, m)
    ensures Matches(fields, m)
    decreases fields
  {
    hide EncodableSlot, MatchesSlot, ValidField;
    forall i | 0 <= i < |fields|
      ensures var k := SlotOf(fields, i); k < |m| && MatchesSlot(fields[i], m[k])
    {
      EncodableAt(fields, i, m);
      SlotMatches(fields[i], m[SlotOf(fields, i)]);
    }
  }

  lemma {:induction false} SlotMatches(f: Field, slot: Slot)
    requires ValidField(f) && EncodableSlot(f, slot)
    ensures MatchesSlot(f, slot)
    decreases f, 1
  {
    hide EncodableValue, MatchesValue, IsDefaultValue;
    match slot
    case SOne(v) => if IsDefaultValue(f, v) { DefaultMatches(f, v); } else { ValueMatches(f, v); }
    case SOpt(has, v) => if has { ValueMatches(f, v); }
    case SRep(items, _) =>
      forall j | 0 <= j < |items| ensures MatchesValue(f, items[j]) { ValueMatches(f, items[j]); }
    case SOneof(which, v) => if which == f.tag { ValueMatches(f, v); }
  }

  lemma {:induction false} ValueMatches(f: Field, v: Value)
    requires ValidField(f) && EncodableValue(f, v)
    ensures MatchesValue(f, v)
    decreases f, 0
  {
    if v.VMsg? {
      EncodableMatches(f.ltype.fields, v.slots);
    }
  }

  lemma {:induction false} DefaultMatches(f: Field, v: Value)
    requires ValidField(f) && IsDefaultValue(f, v)
    ensures MatchesValue(f, v)
    decreases f, 0
  {
    if v.VMsg? {
      AllDefaultMatches(f.ltype.fields, v.slots);
    }
  }

  lemma {:induction false} AllDefaultMatches(fields: seq<Field>, m: seq<Slot>)
    requires ValidTable(fields) && |m| == NumSlots(fields) && AllDefault(fields, m)
    ensures Matches(fields, m)
    decreases fields
  {
    hide IsDefaultSlot, MatchesSlot, ValidField;
    forall i | 0 <= i < |fields|
      ensures var k := SlotOf(fields, i); k < |m| && MatchesSlot(fields[i], m[k])
    {
      DefaultSlotMatches(fields[i], m[SlotOf(fields, i)]);
    }
  }

  lemma {:induction false} DefaultSlotMatches(f: Field, slot: Slot)
    requires ValidField(f) && IsDefaultSlot(f, slot)
    ensures MatchesSlot(f, slot)
    decreases f, 1
  {
    hide MatchesValue, IsDefaultValue;
    TagPositive(f);
    if slot.SOne? { DefaultMatches(f, slot.v); }
  }

  /** The round trip, carried out: whatever the buffer and the destination held before, encoding succeeds iff
      the limit admits the message, and decoding what was written then succeeds and gives the message back,
      exactly when its unencoded zeros are the defaults. */
  method EncodeThenDecode(buffer: array<byte>, limit: nat, fields: seq<Field>, m: seq<Slot>, dest: Decoder.Struct)
    returns (ok: bool)
    requires limit <= buffer.Length < WORD64 && |dest.slots| == NumSlots(fields)
    requires ValidTable(fields) && Encodable(fields, m) && Short(fields, m)
    requires Encode(fields, m).Some? ==> |Encode(fields, m).value| < WORD64
    modifies buffer, dest
    ensures Encode(fields, m).Some? && (ok <==> |Encode(fields, m).value| <= limit)
    ensures ok ==> (SameMessage(fields, m, dest.slots) <==> Agrees(fields, m))
    ensures buffer[limit..] == old(buffer[limit..])
  {
    hide Encode, Encodable, Short, Matches, ValidTable, Agrees, SameMessage, Decode;
    EncodableMatches(fields, m);
    MessageRoundTrip(fields, dest.slots, m);
    var written;
    ok, written := Encoder.EncodeToBuffer(buffer, limit, fields, m);
    if ok {
      var stream := new IStream(buffer, 0, written);
      assert stream.Window() == buffer[..written];
      ok := Decoder.ReadMessage(stream, fields, dest);
    }
  }
}
