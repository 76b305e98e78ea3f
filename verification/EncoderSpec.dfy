/** The bytes pb_encode produces for a struct, as a function of the field table and the slots.
    `None` is an encoding error; so is a struct that does not match its table. */
module EncoderSpec {
  import opened Words
  import opened Parsing
  import opened Varints
  import opened Wire
  import opened Schema

  function Cat(a: Option<seq<byte>>, b: Option<seq<byte>>): Option<seq<byte>> {
    if a.Some? && b.Some? then Some(a.value + b.value) else None
  }

  /** Length of the C string in a char buffer of `max` bytes (pb_enc_string's strnlen loop). */
  function StrLen(chars: seq<byte>, max: nat): (n: nat)
    ensures n <= |chars| && n <= max
    ensures forall k :: 0 <= k < n ==> chars[k] != 0
    ensures n == |chars| || n == max || chars[n] == 0
  {
    if chars == [] || max == 0 || chars[0] == 0 then 0 else 1 + StrLen(chars[1..], max - 1)
  }

  /** The field encoders of the packable types. */
  function EncodeScalar(f: Field, n: int): Option<seq<byte>> {
    match f.ltype
    case LBool => Some(EncodeVarint(if n != 0 then 1 else 0))
    case LVarint => if IntRange(f.dataSize) != 0 then Some(EncodeVarint(n % WORD64)) else None
    case LUVarint => if IntRange(f.dataSize) != 0 then Some(EncodeVarint(n % WORD64)) else None
    case LSVarint =>
      if IntRange(f.dataSize) != 0 && -0x8000_0000_0000_0000 <= n < 0x8000_0000_0000_0000
      then Some(EncodeVarint(Zigzag(n))) else None
    case LFixed32 => Some(EncodeFixed(n % WORD32, 4))
    case LFixed64 => Some(EncodeFixed(n % WORD64, 8))
    case _ => None
  }

  /** The field encoders (PB_ENCODERS), without the tag. */
  function EncodeValue(f: Field, v: Value): Option<seq<byte>>
    decreases f, 0
  {
    match v
    case VInt(n) => EncodeScalar(f, n)
    case VBytes(data) => (
      match f.ltype
      case LBytes => if |data| + BYTES_HEADER > f.dataSize then None else Some(Delimited(data))
      case LString => Some(Delimited(data[..StrLen(data, f.dataSize)]))
      case LFixedBytes => if |data| == f.dataSize then Some(Delimited(data)) else None
      case _ => None)
    case VMsg(slots) => (
      match f.ltype
      case LSubmessage(sub) => (
        match Encode(sub, slots)
        case None => None
        case Some(payload) => Some(Delimited(payload)))
      case _ => None)
  }

  /** pb_encode_tag_for_field's wire type. */
  function WireTypeOf(t: LType): nat {
    match t
    case LFixed32 => WT_32BIT
    case LFixed64 => WT_64BIT
    case LBytes => WT_STRING
    case LString => WT_STRING
    case LSubmessage(_) => WT_STRING
    case LFixedBytes => WT_STRING
    case _ => WT_VARINT
  }

  function EncodeTagged(f: Field, v: Value): Option<seq<byte>>
    decreases f, 1
  {
    Cat(Some(EncodeTag(WireTypeOf(f.ltype), f.tag)), EncodeValue(f, v))
  }

  /** The items of a packed array, back to back. */
  function EncodePacked(f: Field, items: seq<Value>): Option<seq<byte>>
  {
    if items == [] then Some([])
    else Cat(if items[0].VInt? then EncodeScalar(f, items[0].n) else None, EncodePacked(f, items[1..]))
  }

  /** The items of an array that cannot be packed, each with its tag. */
  function EncodeTaggedItems(f: Field, items: seq<Value>): Option<seq<byte>>
    decreases f, 2, items
  {
    if items == [] then Some([])
    else Cat(EncodeTagged(f, items[0]), EncodeTaggedItems(f, items[1..]))
  }

  /** encode_array. */
  function EncodeArray(f: Field, items: seq<Value>): Option<seq<byte>>
    decreases f, 3
  {
    if items == [] then Some([])
    else if |items| > f.arraySize then None
    else if Packable(f.ltype) then
      match EncodePacked(f, items)
      case None => None
      case Some(payload) => Some(EncodeTag(WT_STRING, f.tag) + Delimited(payload))
    else EncodeTaggedItems(f, items)
  }

  /** pb_check_proto3_default_value on the data of a singular field. */
  predicate IsDefaultValue(f: Field, v: Value)
    decreases f, 0
  {
    match v
    case VInt(n) => Packable(f.ltype) && n == 0
    case VBytes(data) =>
      || (f.ltype.LFixedBytes? && f.dataSize == |data| == 0)
      || (f.ltype.LString? && (data == [] || data[0] == 0))
      || (f.ltype.LBytes? && data == [])
    case VMsg(slots) =>
      f.ltype.LSubmessage? && |slots| == NumSlots(f.ltype.fields) && AllDefault(f.ltype.fields, slots)
  }

  predicate IsDefaultSlot(f: Field, slot: Slot)
    decreases f, 1
  {
    match (f.htype, slot)
    case (Optional, SOne(v)) => f.sizeOffset == 0 && IsDefaultValue(f, v)
    case (Optional, SOpt(has, _)) => f.sizeOffset != 0 && !has
    case (Repeated, SRep(items, _)) => !FixedCount(f) && items == []
    case (Oneof, SOneof(which, _)) => which == 0
    case _ => false
  }

  predicate AllDefault(fields: seq<Field>, m: seq<Slot>)
    requires |m| == NumSlots(fields)
    decreases fields
  {
    forall i :: 0 <= i < |fields| ==>
      SlotOf(fields, i) < |m| && IsDefaultSlot(fields[i], m[SlotOf(fields, i)])
  }

  /** encode_basic_field. */
  function EncodeField(f: Field, slot: Slot): Option<seq<byte>>
    decreases f, 4
  {
    match (f.htype, slot)
    case (Required, SOne(v)) => EncodeTagged(f, v)
    case (Optional, SOne(v)) => if IsDefaultValue(f, v) then Some([]) else EncodeTagged(f, v)
    case (Optional, SOpt(has, v)) => if has then EncodeTagged(f, v) else Some([])
    case (Repeated, SRep(items, _)) => EncodeArray(f, items)
    case (Oneof, SOneof(which, v)) => if which == f.tag then EncodeTagged(f, v) else Some([])
    case _ => None
  }

  function EncodeUpTo(fields: seq<Field>, i: nat, m: seq<Slot>): Option<seq<byte>>
    requires i <= |fields|
    decreases fields, i
  {
    if i == 0 then Some([])
    else if SlotOf(fields, i - 1) >= |m| then None
    else Cat(EncodeUpTo(fields, i - 1, m), EncodeField(fields[i - 1], m[SlotOf(fields, i - 1)]))
  }

  /** pb_encode. */
  function Encode(fields: seq<Field>, m: seq<Slot>): Option<seq<byte>>
    decreases fields, |fields| + 1
  {
    EncodeUpTo(fields, |fields|, m)
  }

  // ---------- Structs that have the types their table declares ----------

  predicate MatchesValue(f: Field, v: Value)
    decreases f, 0
  {
    match v
    case VInt(_) => Packable(f.ltype)
    case VBytes(data) => f.ltype.LBytes? || f.ltype.LString? || (f.ltype.LFixedBytes? && |data| == f.dataSize)
    case VMsg(slots) => f.ltype.LSubmessage? && Matches(f.ltype.fields, slots)
  }

  /** Only what is present is looked at. */
  predicate MatchesSlot(f: Field, slot: Slot)
    decreases f, 1
  {
    match (f.htype, slot)
    case (Required, SOne(v)) => MatchesValue(f, v)
    case (Optional, SOne(v)) => f.sizeOffset == 0 && MatchesValue(f, v)
    case (Optional, SOpt(has, v)) => f.sizeOffset != 0 && (has ==> MatchesValue(f, v))
    case (Repeated, SRep(items, _)) =>
      && (FixedCount(f) ==> |items| == f.arraySize)
      && forall j :: 0 <= j < |items| ==> MatchesValue(f, items[j])
    case (Oneof, SOneof(which, v)) => which == f.tag ==> MatchesValue(f, v)
    case _ => false
  }

  /** The struct has the shape that its table describes, which pb_encode.h asks of its callers. */
  predicate Matches(fields: seq<Field>, m: seq<Slot>)
    decreases fields
  {
    && |m| == NumSlots(fields)
    && forall i :: 0 <= i < |fields| ==> SlotOf(fields, i) < |m| && MatchesSlot(fields[i], m[SlotOf(fields, i)])
  }

  lemma MatchesAt(fields: seq<Field>, i: nat, m: seq<Slot>)
    requires i < |fields| && Matches(fields, m)
    ensures SlotOf(fields, i) < |m| && MatchesSlot(fields[i], m[SlotOf(fields, i)])
  {
  }

  // ---------- Lengths the wire can carry ----------

  /** Length prefixes are 32-bit: a submessage that is emitted encodes to less than 4 GiB ... */
  predicate ShortValue(f: Field, v: Value)
    decreases f, 0
  {
    f.ltype.LSubmessage? && v.VMsg? ==>
      && Short(f.ltype.fields, v.slots)
      && (Encode(f.ltype.fields, v.slots).Some? ==> |Encode(f.ltype.fields, v.slots).value| < WORD32)
  }

  /** ... and so does a packed array. */
  predicate ShortSlot(f: Field, slot: Slot)
    decreases f, 1
  {
    match slot
    case SOne(v) => f.htype.Required? || !IsDefaultValue(f, v) ==> ShortValue(f, v)
    case SOpt(has, v) => has ==> ShortValue(f, v)
    case SRep(items, _) =>
      if Packable(f.ltype) then EncodePacked(f, items).Some? ==> |EncodePacked(f, items).value| < WORD32
      else forall j :: 0 <= j < |items| ==> ShortValue(f, items[j])
    case SOneof(which, v) => which == f.tag ==> ShortValue(f, v)
  }

  predicate Short(fields: seq<Field>, m: seq<Slot>)
    decreases fields
  {
    forall i :: 0 <= i < |fields| && SlotOf(fields, i) < |m| ==> ShortSlot(fields[i], m[SlotOf(fields, i)])
  }
}
