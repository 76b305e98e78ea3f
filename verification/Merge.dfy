/** The reference meaning of decoding an encoded message into a struct: a field-by-field merge
    ("Last One Wins", "Length-Delimited Records" and "Packed Repeated Fields" in the Protocol Buffers
    encoding documentation). Nothing here mentions bytes on the wire. */
module Merge {
  import opened Words
  import opened Schema
  import opened Defaulting
  import opened EncoderSpec

  /** The incoming value replaces the old one; submessages merge, strings end at their terminator. */
  function MergeValue(f: Field, x: Value, y: Value): Value
    decreases f, 0
  {
    match (f.ltype, x, y)
    case (LSubmessage(sub), VMsg(xs), VMsg(ys)) => VMsg(MergeMsg(sub, xs, ys))
    case (LString, _, VBytes(chars)) => VBytes(chars[..StrLen(chars, f.dataSize)])
    case _ => y
  }

  /** Elements of repeated fields are built up in their cells, which are reset first. */
  function MergeItems(f: Field, cells: seq<Value>, ys: seq<Value>): (r: seq<Value>)
    ensures |r| == |ys|
    decreases f, 1, ys
  {
    if ys == [] then []
    else
      var cell := if cells == [] then VInt(0) else cells[0];
      [MergeValue(f, ElementBase(f, cell), ys[0])] + MergeItems(f, Drop(cells, 1), ys[1..])
  }

  /** Absent fields keep what is there; repeated fields are appended to, fixed-count arrays replaced;
      a oneof keeps its submessage only while the same alternative is set again. */
  function MergeSlot(f: Field, a: Slot, b: Slot): Slot
    decreases f, 2
  {
    match (a, b)
    case (SOne(x), SOne(y)) =>
      if f.htype.Required? || !IsDefaultValue(f, y) then SOne(MergeValue(f, x, y)) else a
    case (SOpt(_, x), SOpt(has, y)) => if has then SOpt(true, MergeValue(f, x, y)) else a
    case (SRep(xs, spare), SRep(ys, _)) =>
      if FixedCount(f) then Grown(a, MergeItems(f, xs + spare, ys)) else Grown(a, xs + MergeItems(f, spare, ys))
    case (SOneof(w, x), SOneof(which, y)) =>
      if which != f.tag then a
      else SOneof(which, MergeValue(f, if w == which then x else UnionBase(f), y))
    case _ => a
  }

  function MergeUpTo(fields: seq<Field>, i: nat, m1: seq<Slot>, m2: seq<Slot>): (m: seq<Slot>)
    requires i <= |fields|
    ensures |m| == |m1|
    decreases fields, i
  {
    if i == 0 then m1
    else
      var m := MergeUpTo(fields, i - 1, m1, m2);
      var k := SlotOf(fields, i - 1);
      if k < |m| && k < |m2| then m[k := MergeSlot(fields[i - 1], m[k], m2[k])] else m
  }

  function MergeMsg(fields: seq<Field>, m1: seq<Slot>, m2: seq<Slot>): (m: seq<Slot>)
    ensures |m| == |m1|
    decreases fields, |fields| + 1
  {
    MergeUpTo(fields, |fields|, m1, m2)
  }

  // ---------- Structs that can be encoded, and structs that can be merged into ----------

  predicate ScalarFits(f: Field, n: int) {
    match f.ltype
    case LBool => n == 0 || n == 1
    case LVarint => IntRange(f.dataSize) != 0 && -(IntRange(f.dataSize) / 2) <= n < IntRange(f.dataSize) / 2
    case LUVarint => 0 <= n < IntRange(f.dataSize)
    case LSVarint => IntRange(f.dataSize) != 0 && -(IntRange(f.dataSize) / 2) <= n < IntRange(f.dataSize) / 2
    case LFixed32 => 0 <= n < WORD32
    case LFixed64 => 0 <= n < WORD64
    case _ => false
  }

  /** The C type's values, strings NUL-terminated inside their buffer, byte counts within capacity. */
  predicate EncodableValue(f: Field, v: Value)
    decreases f, 0
  {
    match v
    case VInt(n) => ScalarFits(f, n)
    case VBytes(data) =>
      || (f.ltype.LBytes? && |data| + BYTES_HEADER <= f.dataSize)
      || (f.ltype.LString? && StrLen(data, f.dataSize) < f.dataSize)
      || (f.ltype.LFixedBytes? && |data| == f.dataSize)
    case VMsg(slots) => f.ltype.LSubmessage? && Encodable(f.ltype.fields, slots)
  }

  predicate EncodableSlot(f: Field, slot: Slot)
    decreases f, 1
  {
    match (f.htype, slot)
    case (Required, SOne(v)) => EncodableValue(f, v)
    case (Optional, SOne(v)) => f.sizeOffset == 0 && (IsDefaultValue(f, v) || EncodableValue(f, v))
    case (Optional, SOpt(has, v)) => f.sizeOffset != 0 && (has ==> EncodableValue(f, v))
    case (Repeated, SRep(items, _)) =>
      && (if FixedCount(f) then |items| == f.arraySize else |items| <= f.arraySize)
      && forall j :: 0 <= j < |items| ==> EncodableValue(f, items[j])
    case (Oneof, SOneof(which, v)) => which == f.tag ==> EncodableValue(f, v)
    case _ => false
  }

  predicate Encodable(fields: seq<Field>, m: seq<Slot>)
    decreases fields
  {
    && |m| == NumSlots(fields)
    && forall i :: 0 <= i < |fields| ==>
         SlotOf(fields, i) < |m| && EncodableSlot(fields[i], m[SlotOf(fields, i)])
  }

  /** Whether the encoder looks at the slot's data for this field. */
  predicate Emits(f: Field, b: Slot) {
    b.SOneof? ==> b.which == f.tag
  }

  /** The struct merged into has the table's shape, room for the incoming array elements, and no unknown tag
      where an alternative comes in. */
  predicate MergeableValue(f: Field, x: Value, y: Value)
    decreases f, 0
  {
    f.ltype.LSubmessage? && y.VMsg? ==> x.VMsg? && Mergeable(f.ltype.fields, x.slots, y.slots)
  }

  predicate MergeableSlot(f: Field, a: Slot, b: Slot)
    decreases f, 1
  {
    match (a, b)
    case (SOne(x), SOne(y)) => f.htype.Required? || !IsDefaultValue(f, y) ==> MergeableValue(f, x, y)
    case (SOpt(_, x), SOpt(has, y)) => has ==> MergeableValue(f, x, y)
    case (SRep(xs, _), SRep(ys, _)) =>
      if FixedCount(f) then |xs| == f.arraySize else |xs| + |ys| <= f.arraySize
    case (SOneof(w, x), SOneof(which, y)) => which == f.tag && w == f.tag ==> MergeableValue(f, x, y)
    case _ => false
  }

  predicate Mergeable(fields: seq<Field>, m1: seq<Slot>, m2: seq<Slot>)
    decreases fields
  {
    && |m1| == NumSlots(fields) && |m2| == NumSlots(fields)
    && forall i :: 0 <= i < |fields| ==>
         && SlotOf(fields, i) < |m1| && MergeableSlot(fields[i], m1[SlotOf(fields, i)], m2[SlotOf(fields, i)])
         && (Emits(fields[i], m2[SlotOf(fields, i)]) ==> Releasable(fields, fields[i], m1[SlotOf(fields, i)]))
  }
}
