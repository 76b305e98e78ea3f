/** What the merge of the round trip means for a reader of the struct. */
module Fidelity {
  import opened Words
  import opened Parsing
  import opened Schema
  import opened Defaulting
  import opened EncoderSpec
  import opened DecoderSpec
  import opened Merge
  import opened RoundTrip

  // ---------- A merge acts on each member separately ----------

  lemma {:induction false} KeptAfter(fields: seq<Field>, j: nat, i: nat, m1: seq<Slot>, m2: seq<Slot>)
    requires i < j <= |fields| && ValidTable(fields) && Encodable(fields, m2) && Mergeable(fields, m1, m2)
    requires Emits(fields[i], m2[SlotOf(fields, i)])
    ensures SlotOf(fields, i) < |m1|
    ensures MergeUpTo(fields, j, m1, m2)[SlotOf(fields, i)] == MergeUpTo(fields, i + 1, m1, m2)[SlotOf(fields, i)]
    decreases j
  {
    hide MergeSlot, Encodable, Mergeable, ValidTable;
    SlotInRange(fields, i);
    MergeableShape(fields, m1, m2);
    if j > i + 1 {
      var k := SlotOf(fields, i);
      KeptAfter(fields, j - 1, i, m1, m2);
      SlotOfMonotone(fields, i, j - 1);
      if SlotOf(fields, j - 1) == k {
        OneofSlot(fields, i, m2);
        DistinctTags(fields, i, j - 1);
        MergeSlotSkips(fields[j - 1], MergeUpTo(fields, j - 1, m1, m2)[k], m2[k]);
      }
    }
  }

  /** The member of field `i` holds that field's own merge, whatever the other fields did. */
  lemma MergeAt(fields: seq<Field>, i: nat, m1: seq<Slot>, m2: seq<Slot>)
    requires i < |fields| && ValidTable(fields) && Encodable(fields, m2) && Mergeable(fields, m1, m2)
    requires Emits(fields[i], m2[SlotOf(fields, i)])
    ensures var k := SlotOf(fields, i);
      MergeMsg(fields, m1, m2)[k] == MergeSlot(fields[i], m1[k], m2[k])
  {
    hide MergeSlot, Encodable, Mergeable, ValidTable;
    SlotInRange(fields, i);
    MergeableShape(fields, m1, m2);
    KeptAfter(fields, |fields|, i, m1, m2);
    Untouched(fields, i, i, m1, m2);
  }

  /** An alternative that is not the incoming one is never the outcome of a merge, unless it was there
      before and the incoming which-field names no alternative of the union. */
  lemma {:induction false} OtherAlternative(fields: seq<Field>, j: nat, i: nat, m1: seq<Slot>, m2: seq<Slot>)
    requires j <= |fields| && i < |fields| && ValidTable(fields) && Encodable(fields, m2) && Mergeable(fields, m1, m2)
    requires !Emits(fields[i], m2[SlotOf(fields, i)])
    ensures var k := SlotOf(fields, i);
      var r := MergeUpTo(fields, j, m1, m2)[k];
      r == m1[k] || (r.SOneof? && r.which == m2[k].which)
    decreases j
  {
    hide Encodable, Mergeable, ValidTable, MergeValue;
    SlotInRange(fields, i);
    MergeableShape(fields, m1, m2);
    if j > 0 {
      OtherAlternative(fields, j - 1, i, m1, m2);
    }
  }

  // ---------- Equality up to what a struct's reader can see ----------

  /** Same integer, same bytes, same C string, same submessage. */
  predicate SameValue(f: Field, x: Value, y: Value)
    decreases f, 0
  {
    match (f.ltype, x, y)
    case (LSubmessage(sub), VMsg(xs), VMsg(ys)) => SameMessage(sub, xs, ys)
    case (LString, VBytes(a), VBytes(b)) => a[..StrLen(a, f.dataSize)] == b[..StrLen(b, f.dataSize)]
    case _ => x == y
  }

  /** Same presence; same contents where present. */
  predicate SameSlot(f: Field, a: Slot, b: Slot)
    decreases f, 1
  {
    match (a, b)
    case (SOne(x), SOne(y)) => SameValue(f, x, y)
    case (SOpt(has, x), SOpt(has', y)) => has == has' && (has ==> SameValue(f, x, y))
    case (SRep(xs, _), SRep(ys, _)) => |xs| == |ys| && forall j :: 0 <= j < |xs| ==> SameValue(f, xs[j], ys[j])
    case (SOneof(w, x), SOneof(w', y)) => (w == f.tag <==> w' == f.tag) && (w == f.tag ==> SameValue(f, x, y))
    case _ => false
  }

  /** Equal up to absent optionals, inactive alternatives, cells past an array's count and bytes after a
      string's terminator. */
  predicate SameMessage(fields: seq<Field>, a: seq<Slot>, b: seq<Slot>)
    decreases fields
  {
    && |a| == |b| == NumSlots(fields)
    && forall i :: 0 <= i < |fields| ==>
         SlotOf(fields, i) < |a| && SameSlot(fields[i], a[SlotOf(fields, i)], b[SlotOf(fields, i)])
  }

  // ---------- Zero values that are not encoded ----------

  /** A proto3 singular field holding zero is not encoded; the decoder's default for it must be zero too. */
  predicate AgreesValue(f: Field, v: Value)
    decreases f, 0
  {
    f.ltype.LSubmessage? && v.VMsg? ==> Agrees(f.ltype.fields, v.slots)
  }

  predicate AgreesSlot(f: Field, slot: Slot)
    decreases f, 1
  {
    match slot
    case SOne(v) =>
      && AgreesValue(f, v)
      && (!f.htype.Required? && IsDefaultValue(f, v) && !f.ltype.LSubmessage? ==>
            SameValue(f, v, DefaultValue(f, VInt(0))))
    case SOpt(has, v) => has ==> AgreesValue(f, v)
    case SRep(items, _) => forall j :: 0 <= j < |items| ==> AgreesValue(f, items[j])
    case SOneof(which, v) => which == f.tag ==> AgreesValue(f, v)
  }

  predicate Agrees(fields: seq<Field>, m: seq<Slot>)
    decreases fields
  {
    forall i :: 0 <= i < |fields| && SlotOf(fields, i) < |m| ==> AgreesSlot(fields[i], m[SlotOf(fields, i)])
  }

  lemma {:induction false} StrLenOfPrefix(chars: seq<byte>, max: nat)
    ensures var p := chars[..StrLen(chars, max)]; p[..StrLen(p, max)] == p
  {
    if StrLen(chars, max) > 0 {
      StrLenOfPrefix(chars[1..], max - 1);
      var p := chars[..StrLen(chars, max)];
      assert p[1..] == chars[1..][..StrLen(chars[1..], max - 1)];
      assert StrLen(p, max) == |p|;
    }
  }

  /** A default value of a proto3 field, which is not encoded, comes back as the field's default. */
  lemma {:induction false} DefaultIsSame(f: Field, v: Value, prior: Value)
    requires ValidField(f) && f.htype.Optional? && f.sizeOffset == 0 && IsDefaultValue(f, v)
    ensures SameValue(f, v, DefaultValue(f, prior)) <==> AgreesSlot(f, SOne(v))
    decreases f, 0
  {
    if v.VMsg? {
      AllDefaultIsSame(f.ltype.fields, v.slots, SlotsIn(prior));
    }
  }

  lemma {:induction false} AllDefaultIsSame(fields: seq<Field>, m: seq<Slot>, prior: seq<Slot>)
    requires ValidTable(fields) && |m| == NumSlots(fields) && AllDefault(fields, m)
    ensures SameMessage(fields, m, Defaults(fields, prior)) <==> Agrees(fields, m)
    decreases fields
  {
    hide AgreesSlot, SameSlot, IsDefaultSlot, DefaultSlot, DefaultsUpTo, ValidField;
    var d := Defaults(fields, prior);
    forall i | 0 <= i < |fields|
      ensures var k := SlotOf(fields, i);
        k < |m| && (SameSlot(fields[i], m[k], d[k]) <==> AgreesSlot(fields[i], m[k]))
    {
      DefaultsAt(fields, |fields|, i, prior);
      DefaultSlotIsSame(fields[i], m[SlotOf(fields, i)], PriorSlot(prior, SlotOf(fields, i)));
    }
  }

  lemma {:induction false} DefaultSlotIsSame(f: Field, slot: Slot, p: Slot)
    requires ValidField(f) && IsDefaultSlot(f, slot)
    ensures SameSlot(f, slot, DefaultSlot(f, p)) <==> AgreesSlot(f, slot)
    decreases f, 1
  {
    hide SameValue, AgreesValue, IsDefaultValue, DefaultValue;
    TagPositive(f);
    if slot.SOne? {
      DefaultIsSame(f, slot.v, Contents(p));
    }
  }

  lemma {:induction false} MergedValueIsSame(f: Field, x: Value, prior: Value, y: Value)
    requires ValidField(f) && EncodableValue(f, y)
    requires f.ltype.LSubmessage? ==> x == VMsg(Defaults(f.ltype.fields, SlotsIn(prior)))
    ensures SameValue(f, y, MergeValue(f, x, y)) <==> AgreesValue(f, y)
    decreases f, 0
  {
    hide SameMessage, Agrees, MergeMsg, Defaults, ScalarFits, Encodable;
    match y
    case VInt(_) =>
    case VBytes(chars) => if f.ltype.LString? { StrLenOfPrefix(chars, f.dataSize); }
    case VMsg(slots) => FreshMergeIsSame(f.ltype.fields, SlotsIn(prior), slots);
  }

  lemma {:induction false} MergedItemsAreSame(f: Field, cells: seq<Value>, ys: seq<Value>)
    requires ValidField(f) && forall j :: 0 <= j < |ys| ==> EncodableValue(f, ys[j])
    ensures forall j :: 0 <= j < |ys| ==> (SameValue(f, ys[j], MergeItems(f, cells, ys)[j]) <==> AgreesValue(f, ys[j]))
    decreases f, 1, |ys|
  {
    hide EncodableValue, SameValue, MergeValue, AgreesValue;
    if ys != [] {
      var cell := if cells == [] then VInt(0) else cells[0];
      MergedValueIsSame(f, ElementBase(f, cell), cell, ys[0]);
      MergedItemsAreSame(f, Drop(cells, 1), ys[1..]);
      var rest := MergeItems(f, Drop(cells, 1), ys[1..]);
      forall j | 0 <= j < |ys|
        ensures SameValue(f, ys[j], MergeItems(f, cells, ys)[j]) <==> AgreesValue(f, ys[j])
      {
        if j > 0 {
          assert ys[j] == ys[1..][j - 1] && MergeItems(f, cells, ys)[j] == rest[j - 1];
        }
      }
    }
  }

  lemma {:induction false} MergedSlotIsSame(f: Field, p: Slot, b: Slot)
    requires ValidField(f) && EncodableSlot(f, b) && Emits(f, b)
    ensures SameSlot(f, b, MergeSlot(f, DefaultSlot(f, p), b)) <==> AgreesSlot(f, b)
    decreases f, 2
  {
    hide EncodableValue, SameValue, AgreesValue, MergeValue, MergeItems, IsDefaultValue, ValidField;
    match b
    case SOne(y) =>
      if f.htype.Required? || !IsDefaultValue(f, y) {
        MergedValueIsSame(f, DefaultValue(f, Contents(p)), Contents(p), y);
      } else {
        DefaultIsSame(f, y, Contents(p));
      }
    case SOpt(has, y) => if has { MergedValueIsSame(f, DefaultValue(f, Contents(p)), Contents(p), y); }
    case SRep(ys, _) => MergedArrayIsSame(f, DefaultSlot(f, p), ys, b);
    case SOneof(which, y) =>
      TagPositive(f);
      MergedValueIsSame(f, UnionBase(f), ZeroItem(f), y);
  }

  lemma {:induction false} MergedArrayIsSame(f: Field, a: Slot, ys: seq<Value>, b: Slot)
    requires ValidField(f) && f.htype.Repeated? && EncodableSlot(f, b) && b.SRep? && b.items == ys && a.SRep?
    requires if FixedCount(f) then |a.items| == |ys| else a.items == []
    ensures SameSlot(f, b, MergeSlot(f, a, b)) <==> AgreesSlot(f, b)
    decreases f, 1, |ys| + 1
  {
    hide EncodableValue, SameValue, AgreesValue, MergeItems, ValidField;
    var cells := if FixedCount(f) then a.items + a.spare else a.spare;
    MergedItemsAreSame(f, cells, ys);
    assert [] + MergeItems(f, a.spare, ys) == MergeItems(f, a.spare, ys);
    var zs := MergeItems(f, cells, ys);
    assert MergeSlot(f, a, b).SRep? && MergeSlot(f, a, b).items == zs;
    assert forall j :: 0 <= j < |ys| ==> ys[j] == b.items[j];
  }

  lemma TagPositive(f: Field)
    requires ValidField(f)
    ensures f.tag > 0
  {
  }

  /** Merging a message into a struct that has been reset gives the message back, as far as a reader can
      tell, exactly when its unencoded zeros agree with the defaults. */
  lemma {:induction false} FreshMergeIsSame(fields: seq<Field>, prior: seq<Slot>, m: seq<Slot>)
    requires ValidTable(fields) && Encodable(fields, m)
    ensures SameMessage(fields, m, MergeMsg(fields, Defaults(fields, prior), m)) <==> Agrees(fields, m)
    decreases fields
  {
    hide EncodableSlot, MergeSlot, SameSlot, AgreesSlot, ValidField, MergeUpTo, MergeMsg, Mergeable, DefaultSlot;
    DefaultsMergeable(fields, prior, m);
    var r := MergeMsg(fields, Defaults(fields, prior), m);
    forall i | 0 <= i < |fields|
      ensures var k := SlotOf(fields, i);
        k < |m| && (SameSlot(fields[i], m[k], r[k]) <==> AgreesSlot(fields[i], m[k]))
    {
      var f, k := fields[i], SlotOf(fields, i);
      DefaultsAt(fields, |fields|, i, prior);
      if Emits(f, m[k]) {
        MergeAt(fields, i, Defaults(fields, prior), m);
        MergedSlotIsSame(f, PriorSlot(prior, k), m[k]);
      } else {
        Inactive(fields, i, prior, m);
      }
    }
  }

  lemma Inactive(fields: seq<Field>, i: nat, prior: seq<Slot>, m: seq<Slot>)
    requires i < |fields| && ValidTable(fields) && Encodable(fields, m) && Mergeable(fields, Defaults(fields, prior), m)
    requires SlotOf(fields, i) < |m| && !Emits(fields[i], m[SlotOf(fields, i)])
    ensures var k := SlotOf(fields, i);
      SameSlot(fields[i], m[k], MergeMsg(fields, Defaults(fields, prior), m)[k]) && AgreesSlot(fields[i], m[k])
  {
    hide MergeUpTo, Mergeable, ValidTable, ValidField, SameValue, AgreesValue, EncodableValue, Encodable, MergeSlot;
    var k := SlotOf(fields, i);
    ValidAt(fields, i);
    TagPositive(fields[i]);
    DefaultsAt(fields, |fields|, i, prior);
    EncodableAt(fields, i, m);
    OtherAlternative(fields, |fields|, i, Defaults(fields, prior), m);
  }

  /** The message comes back: decoding the encoding of `m` succeeds whatever the struct held, consumes every
      byte and yields a struct equal to `m` up to absent optionals, inactive alternatives and tails of arrays
      and strings, exactly when the defaults of its unencoded zeros are zero. */
  lemma MessageRoundTrip(fields: seq<Field>, prior: seq<Slot>, m: seq<Slot>)
    requires ValidTable(fields) && Encodable(fields, m) && Short(fields, m)
    ensures Encode(fields, m).Some?
    ensures var r := Decode(fields, prior, Encode(fields, m).value);
      r.Ok? && r.rest == [] && (SameMessage(fields, m, r.value) <==> Agrees(fields, m))
  {
    hide Encode, Decode, Encodable, Short, ValidTable, Agrees, SameMessage, MergeMsg;
    EncodeDecode(fields, prior, m);
    FreshMergeIsSame(fields, prior, m);
  }

  function FiveByDefault(): Field {
    Field(1, Optional, LVarint, 0, 0, 4, 0, Some(VInt(5)))
  }

  /** A field without presence whose default is five, holding zero: nothing is encoded, and five comes back. */
  lemma ZeroComesBackAsDefault(prior: seq<Slot>)
    ensures var fields, m := [FiveByDefault()], [SOne(VInt(0))];
      && ValidTable(fields) && Encodable(fields, m) && Short(fields, m)
      && Encode(fields, m) == Some([]) && Decode(fields, prior, []) == Ok([SOne(VInt(5))], [])
      && !SameMessage(fields, m, [SOne(VInt(5))])
  {
    hide Encode, DecodeNoInit, Defaults;
    NothingEncoded([FiveByDefault()], [SOne(VInt(0))]);
    FiveDecoded([FiveByDefault()], prior);
    assert [FiveByDefault()][0] == FiveByDefault() && SlotOf([FiveByDefault()], 0) == 0;
  }

  lemma NothingEncoded(fields: seq<Field>, m: seq<Slot>)
    requires fields == [FiveByDefault()] && m == [SOne(VInt(0))]
    ensures Encode(fields, m) == Some([])
  {
    assert EncodeField(fields[0], m[0]) == Some([]);
    assert EncodeUpTo(fields, 0, m) == Some([]);
    var nothing: seq<byte> := [];
    assert nothing + nothing == nothing;
    assert EncodeUpTo(fields, |fields|, m) == Some(nothing);
  }

  lemma FiveDecoded(fields: seq<Field>, prior: seq<Slot>)
    requires fields == [FiveByDefault()]
    ensures Decode(fields, prior, []) == Ok([SOne(VInt(5))], [])
  {
    assert DefaultsUpTo(fields, 1, prior) == [] + [SOne(VInt(5))];
    var d := Defaults(fields, prior);
    assert d == [SOne(VInt(5))];
    assert RequiredIndex(fields, |fields|) == 0;
    assert DecodeLoop(fields, Start(d), []) == Done(Start(d), [], false);
  }

  // ---------- Tables whose singular fields default to zero ----------

  predicate NoSingularDefaults(fields: seq<Field>)
    decreases fields
  {
    forall i :: 0 <= i < |fields| ==> NoSingularDefault(fields[i])
  }

  predicate NoSingularDefault(f: Field)
    decreases f
  {
    && (f.htype.Optional? && f.sizeOffset == 0 ==> f.ptr == None)
    && (f.ltype.LSubmessage? ==> NoSingularDefaults(f.ltype.fields))
  }

  /** proto3 has no explicit defaults, so there every message agrees. */
  lemma {:induction false} WithoutDefaults(fields: seq<Field>, m: seq<Slot>)
    requires ValidTable(fields) && NoSingularDefaults(fields) && Encodable(fields, m)
    ensures Agrees(fields, m)
    decreases fields
  {
    hide AgreesSlot, EncodableSlot, NoSingularDefault, ValidField;
    forall i | 0 <= i < |fields| && SlotOf(fields, i) < |m| ensures AgreesSlot(fields[i], m[SlotOf(fields, i)]) {
      EncodableAt(fields, i, m);
      SlotWithoutDefaults(fields[i], m[SlotOf(fields, i)]);
    }
  }

  lemma {:induction false} SlotWithoutDefaults(f: Field, slot: Slot)
    requires ValidField(f) && NoSingularDefault(f) && EncodableSlot(f, slot)
    ensures AgreesSlot(f, slot)
    decreases f, 1
  {
    hide EncodableValue, AgreesValue, SameValue;
    match slot
    case SOne(v) => OneWithoutDefaults(f, v);
    case SOpt(has, v) => if has { ValueWithoutDefaults(f, v); }
    case SRep(items, _) =>
      forall j | 0 <= j < |items| ensures AgreesValue(f, items[j]) { ValueWithoutDefaults(f, items[j]); }
    case SOneof(which, v) => if which == f.tag { ValueWithoutDefaults(f, v); }
  }

  lemma {:induction false} OneWithoutDefaults(f: Field, v: Value)
    requires ValidField(f) && NoSingularDefault(f) && EncodableSlot(f, SOne(v))
    ensures AgreesSlot(f, SOne(v))
    decreases f, 0, 1
  {
    if v.VMsg? {
      if EncodableValue(f, v) { ValueWithoutDefaults(f, v); } else { DefaultWithoutDefaults(f.ltype.fields, v.slots); }
    }
  }

  lemma {:induction false} ValueWithoutDefaults(f: Field, v: Value)
    requires ValidField(f) && NoSingularDefault(f) && EncodableValue(f, v)
    ensures AgreesValue(f, v)
    decreases f, 0, 0
  {
    if v.VMsg? {
      WithoutDefaults(f.ltype.fields, v.slots);
    }
  }

  lemma {:induction false} DefaultWithoutDefaults(fields: seq<Field>, m: seq<Slot>)
    requires ValidTable(fields) && NoSingularDefaults(fields) && |m| == NumSlots(fields) && AllDefault(fields, m)
    ensures Agrees(fields, m)
    decreases fields
  {
    hide AgreesSlot, IsDefaultSlot, NoSingularDefault, ValidField;
    forall i | 0 <= i < |fields| && SlotOf(fields, i) < |m| ensures AgreesSlot(fields[i], m[SlotOf(fields, i)]) {
      DefaultSlotAgrees(fields[i], m[SlotOf(fields, i)]);
    }
  }

  lemma {:induction false} DefaultSlotAgrees(f: Field, slot: Slot)
    requires ValidField(f) && NoSingularDefault(f) && IsDefaultSlot(f, slot)
    ensures AgreesSlot(f, slot)
    decreases f, 1
  {
    TagPositive(f);
    if slot.SOne? && slot.v.VMsg? {
      DefaultWithoutDefaults(f.ltype.fields, slot.v.slots);
    }
  }
}
