/** Whether what was decoded can be encoded again. Nothing initialises the elements of a fixed-count array, so
    that depends on what the struct held: every such array, at every depth, must be filled by the stream or
    have held encodable elements. */
module Reencoding {
  import opened Words
  import opened Parsing
  import opened Varints
  import opened Wire
  import opened Schema
  import opened Layout
  import opened Defaulting
  import opened EncoderSpec
  import opened DecoderSpec
  import opened Merge
  import opened RoundTrip
  import opened Fidelity
  import opened Streams
  import opened Records
  import opened Concatenation
  import opened FieldFolds
  import opened Soundness
  import opened Preservation

  // ---------- The condition ----------

  function Payload(r: Record): seq<byte> {
    if ReadDelimited(r.at).Ok? then ReadDelimited(r.at).value else []
  }

  function Payloads(recs: seq<Record>): seq<seq<byte>> {
    if recs == [] then [] else [Payload(recs[0])] + Payloads(recs[1..])
  }

  /** The elements of a fixed-count array before its last filling. */
  function HeldBefore(f: Field, slot: Slot, recs: seq<Record>): seq<Value> {
    if f.arraySize <= |recs| then
      match Fold(f, slot, 0, recs[..|recs| - f.arraySize])
      case Some((SRep(items, _), _)) => items
      case _ => []
    else []
  }

  function CellOf(cells: seq<Value>, j: nat): Value {
    if j < |cells| then cells[j] else VInt(0)
  }

  /** A field without a record keeps what its slot held; one with records is built from them, its
      submessages on top of what they held. */
  predicate SlotFilledOrHeld(f: Field, slot: Slot, recs: seq<Record>)
    decreases f
  {
    if recs == [] then EncodableSlot(f, slot)
    else match f.ltype
      case LSubmessage(sub) => (
        match slot
        case SOne(v) => FilledOrHeld(sub, SlotsIn(v), Payloads(recs))
        case SOpt(_, v) => FilledOrHeld(sub, SlotsIn(v), Payloads(recs))
        case SRep(items, spare) =>
          if FixedCount(f) then
            var cells, first := HeldBefore(f, slot, recs), |recs| - f.arraySize;
            forall j :: 0 <= j < f.arraySize && 0 <= first + j ==>
              FilledOrHeld(sub, Defaults(sub, SlotsIn(CellOf(cells, j))), [Payload(recs[first + j])])
          else
            && (forall j :: 0 <= j < |items| ==> EncodableValue(f, items[j]))
            && forall j :: 0 <= j < |recs| ==>
                 FilledOrHeld(sub, Defaults(sub, SlotsIn(CellOf(spare, j))), [Payload(recs[j])])
        case SOneof(_, _) => true)
      case _ => true
  }

  predicate FilledOrHeld(fields: seq<Field>, m: seq<Slot>, ss: seq<seq<byte>>)
    decreases fields
  {
    forall i :: 0 <= i < |fields| && SlotOf(fields, i) < |m| && !fields[i].htype.Oneof? ==>
      SlotFilledOrHeld(fields[i], m[SlotOf(fields, i)], AllRecords(fields, ss, i))
  }

  // ---------- Slots without submessages ----------

  /** A sound slot is encodable unless it is a fixed-count array or has a submessage. */
  lemma PlainSlotEncodable(f: Field, slot: Slot)
    requires SoundSlot(false, f, slot) && !f.ltype.LSubmessage? && !FixedCount(f) && !f.htype.Oneof?
    ensures EncodableSlot(f, slot)
  {
    hide SoundValue, EncodableValue, SoundCell;
    match slot
    case SOne(v) => PlainValueEncodable(f, v);
    case SOpt(_, v) => PlainValueEncodable(f, v);
    case SRep(items, _) =>
      forall j | 0 <= j < |items| ensures EncodableValue(f, items[j]) { PlainValueEncodable(f, items[j]); }
    case SOneof(_, _) =>
  }

  lemma PlainValueEncodable(f: Field, v: Value)
    requires !f.ltype.LSubmessage? && SoundValue(false, f, v)
    ensures EncodableValue(f, v)
  {
    hide SoundValue, EncodableValue;
    ScalarSound(false, f, v);
    SoundValueEncodable(f, v);
  }

  lemma UnionEncodable(f: Field, slot: Slot)
    requires SoundSlot(false, f, slot) && f.htype.Oneof?
    ensures EncodableSlot(f, slot)
  {
    hide SoundValue, EncodableValue;
    if slot.which == f.tag { SoundValueEncodable(f, slot.v); }
  }

  // ---------- Scalars, strings and bytes: filling replaces every element ----------

  predicate Filled(f: Field, slot: Slot, t: nat) {
    slot.SRep? && forall j :: 0 <= j < |slot.items| && j < t ==> EncodableValue(f, slot.items[j])
  }

  lemma {:induction false} RunFills(f: Field, items: seq<Value>, pos: nat, s: seq<byte>)
    requires Packable(f.ltype) && pos <= |items| && DecodePacked(f, items, pos, s).Some?
    requires f.arraySize <= |items|
    ensures var r := DecodePacked(f, items, pos, s).value;
      && |r.0| == |items| && pos <= r.1 <= |items|
      && (forall j :: pos <= j < r.1 ==> EncodableValue(f, r.0[j]))
      && forall j :: 0 <= j < |items| && !(pos <= j < r.1) ==> r.0[j] == items[j]
    decreases |s|
  {
    hide DecodeScalar, ScalarFits;
    if s != [] {
      var r := DecodeScalar(f, s);
      DecodedScalarFits(f, s);
      RunFills(f, Put(items, pos, r.value), pos + 1, r.rest);
    }
  }

  /** One record of a fixed-count array of scalars, strings or bytes. */
  lemma OneFills(f: Field, slot: Slot, t: nat, wireType: nat, s: seq<byte>)
    requires FixedCount(f) && !f.ltype.LSubmessage? && RoomyField(f) && ValidField(f)
    requires slot.SRep? && |slot.items| == f.arraySize && slot.spare == [] && Filled(f, slot, t)
    requires DecodeField(f, slot, Position(f, t), wireType, s).Ok?
    ensures var r := DecodeField(f, slot, Position(f, t), wireType, s).value;
      && r.0.SRep? && |r.0.items| == f.arraySize && r.0.spare == [] && r.1 >= Position(f, t)
      && Filled(f, r.0, t - Position(f, t) + r.1)
  {
    hide DecodeValue, ReadDelimited, DecodePacked, EncodableValue, RoomyField, ValidField, Position, Filled;
    hide Grown, Put, CellAt;
    var pos := Position(f, t);
    PlaceInArray(f, t);
    PositionBelow(f, t);
    if wireType == WT_STRING && Packable(f.ltype) {
      RunFills(f, slot.items, pos, ReadDelimited(s).value);
      var r := DecodePacked(f, slot.items, pos, ReadDelimited(s).value).value;
      NoSpare(slot, r.0);
      FilledOn(f, slot, t, r.0, r.1);
    } else {
      var v := DecodeValue(f, CellAt(slot, pos), s).value;
      DecodedElementFits(f, CellAt(slot, pos), s);
      var items := slot.items[pos := v];
      assert Put(slot.items, pos, v) == items by { PutInside(slot.items, pos, v); }
      NoSpare(slot, items);
      FilledOn(f, slot, t, items, pos + 1);
    }
  }

  lemma NoSpare(slot: Slot, items: seq<Value>)
    requires slot.SRep? && slot.spare == []
    ensures Grown(slot, items) == SRep(items, [])
  {
  }

  lemma PutInside(items: seq<Value>, pos: nat, v: Value)
    requires pos < |items|
    ensures Put(items, pos, v) == items[pos := v]
  {
  }

  /** The elements from the position of the `t`-th on have been replaced. */
  lemma FilledOn(f: Field, slot: Slot, t: nat, items: seq<Value>, end: nat)
    requires FixedCount(f) && slot.SRep? && |slot.items| == |items| == f.arraySize && Filled(f, slot, t)
    requires Position(f, t) <= end <= f.arraySize && Position(f, t) <= t
    requires forall j :: Position(f, t) <= j < end ==> EncodableValue(f, items[j])
    requires forall j :: 0 <= j < |items| && !(Position(f, t) <= j < end) ==> items[j] == slot.items[j]
    ensures Filled(f, SRep(items, []), t - Position(f, t) + end)
  {
    hide EncodableValue, Position;
    PlaceInArray(f, t);
  }

  lemma PlaceInArray(f: Field, t: nat)
    requires FixedCount(f)
    ensures Position(f, t) <= f.arraySize
    ensures f.arraySize > 0 ==>
      if t < f.arraySize then Position(f, t) == t else t - Position(f, t) >= f.arraySize
  {
    if f.arraySize > 0 { BelowOrPast(t, f.arraySize); }
  }

  lemma BelowOrPast(t: nat, n: nat)
    requires n > 0
    ensures t < n ==> t % n == t
    ensures t >= n ==> t - t % n >= n
  {
    if t < n { SmallMod(t, n); } else { RoundedDown(t, n, 1, n); }
  }

  lemma DecodedElementFits(f: Field, prior: Value, s: seq<byte>)
    requires !f.ltype.LSubmessage? && RoomyField(f) && ValidField(f) && DecodeValue(f, prior, s).Ok?
    ensures EncodableValue(f, DecodeValue(f, prior, s).value)
  {
    hide DecodeValue, SoundValue, EncodableValue;
    DecodeValueSound(false, f, prior, s);
    PlainValueEncodable(f, DecodeValue(f, prior, s).value);
  }

  lemma {:induction false} FoldFills(f: Field, slot: Slot, t: nat, recs: seq<Record>)
    requires FixedCount(f) && !f.ltype.LSubmessage? && RoomyField(f) && ValidField(f)
    requires slot.SRep? && |slot.items| == f.arraySize && slot.spare == [] && Filled(f, slot, t)
    requires Fold(f, slot, t, recs).Some?
    ensures var r := Fold(f, slot, t, recs).value;
      r.0.SRep? && |r.0.items| == f.arraySize && Filled(f, r.0, r.1)
    decreases |recs|
  {
    hide DecodeField, Filled, RoomyField, ValidField;
    if recs == [] {
      assert Filled(f, slot, t);
      FilledArray(f, slot, t);
    } else {
      OneFills(f, slot, t, recs[0].wireType, recs[0].at);
      var r := DecodeField(f, slot, Position(f, t), recs[0].wireType, recs[0].at).value;
      FoldFills(f, r.0, t - Position(f, t) + r.1, recs[1..]);
    }
  }

  lemma FilledArray(f: Field, slot: Slot, t: nat)
    requires Filled(f, slot, t)
    ensures slot.SRep?
  {
  }

  // ---------- Submessages ----------

  lemma OnePayload(fields: seq<Field>, m: seq<Slot>, s: seq<byte>)
    requires DecodeNoInit(fields, m, s).Ok?
    ensures DecodeAll(fields, m, [s]) == Some(DecodeNoInit(fields, m, s).value)
  {
    hide DecodeNoInit;
    var ss := [s];
    assert ss[1..] == [];
    NoPayloads(fields, DecodeNoInit(fields, m, s).value);
  }

  /** What DecodeValue says of a submessage that decodes. */
  lemma SubmessageDecoded(f: Field, prior: Value, s: seq<byte>)
    requires f.ltype.LSubmessage? && DecodeValue(f, prior, s).Ok?
    ensures var v := DecodeValue(f, prior, s).value;
      && v.VMsg? && ReadDelimited(s).Ok? && MergeBase(f, prior).VMsg?
      && DecodeAll(f.ltype.fields, MergeBase(f, prior).slots, [ReadDelimited(s).value]) == Some(v.slots)
  {
    hide ReadDelimited, DecodeNoInit, Defaults;
    DecodeVarint32Consumes(s);
    OnePayload(f.ltype.fields, MergeBase(f, prior).slots, ReadDelimited(s).value);
  }

  predicate Singular(f: Field, slot: Slot) {
    && f.ltype.LSubmessage? && !f.htype.Repeated? && !f.htype.Oneof?
    && (slot.SOne? || slot.SOpt?) && slot.v.VMsg?
  }

  lemma DecodeAllFirst(fields: seq<Field>, m: seq<Slot>, s: seq<byte>, ss: seq<seq<byte>>)
    requires DecodeAll(fields, m, [s]).Some?
    ensures DecodeAll(fields, m, [s] + ss) == DecodeAll(fields, DecodeAll(fields, m, [s]).value, ss)
  {
    hide DecodeNoInit;
    var one := [s];
    assert (one + ss)[1..] == ss && one[1..] == [];
  }

  /** The records of a singular submessage decode its payloads one after the other. */
  lemma {:induction false} SingularFold(f: Field, slot: Slot, t: nat, recs: seq<Record>)
    requires Singular(f, slot) && Fold(f, slot, t, recs).Some?
    ensures var r := Fold(f, slot, t, recs).value.0;
      && Singular(f, r) && r.SOpt? == slot.SOpt? && (recs != [] && r.SOpt? ==> r.has)
      && (recs == [] ==> r == slot)
      && DecodeAll(f.ltype.fields, slot.v.slots, Payloads(recs)) == Some(r.v.slots)
    decreases |recs|
  {
    hide DecodeValue, DecodeAll, ReadDelimited;
    if recs == [] {
      NoPayloads(f.ltype.fields, slot.v.slots);
    } else {
      var s := recs[0].at;
      var d := DecodeField(f, slot, Position(f, t), recs[0].wireType, s).value;
      SubmessageDecoded(f, slot.v, s);
      SingularFold(f, d.0, t - Position(f, t) + d.1, recs[1..]);
      DecodeAllFirst(f.ltype.fields, slot.v.slots, Payload(recs[0]), Payloads(recs[1..]));
    }
  }

  lemma NoPayloads(fields: seq<Field>, m: seq<Slot>)
    ensures DecodeAll(fields, m, []) == Some(m)
  {
  }

  /** Element `v` was decoded from record `r` over the reset `cell`. */
  predicate BuiltFrom(f: Field, cell: Value, r: Record, v: Value)
    requires f.ltype.LSubmessage?
  {
    v.VMsg? && DecodeAll(f.ltype.fields, Defaults(f.ltype.fields, SlotsIn(cell)), [Payload(r)]) == Some(v.slots)
  }

  lemma OneElement(f: Field, a: Slot, pos: nat, r: Record) returns (v: Value)
    requires f.ltype.LSubmessage? && f.htype.Repeated? && a.SRep? && (FixedCount(f) || pos == |a.items|)
    requires DecodeField(f, a, pos, r.wireType, r.at).Ok?
    ensures pos < f.arraySize && BuiltFrom(f, CellAt(a, pos), r, v)
    ensures DecodeField(f, a, pos, r.wireType, r.at).value == (Grown(a, Put(a.items, pos, v)), pos + 1)
  {
    hide DecodeValue, DecodeAll, ReadDelimited, Grown, Put, CellAt, Defaults;
    SubmessageDecoded(f, CellAt(a, pos), r.at);
    v := DecodeValue(f, CellAt(a, pos), r.at).value;
  }

  /** The next element of a counted array takes its first spare cell. */
  lemma CountedElement(f: Field, a: Slot, r: Record) returns (v: Value)
    requires f.ltype.LSubmessage? && f.htype.Repeated? && !FixedCount(f) && a.SRep?
    requires DecodeField(f, a, |a.items|, r.wireType, r.at).Ok?
    ensures var b := DecodeField(f, a, |a.items|, r.wireType, r.at).value.0;
      b == Grown(a, a.items + [v]) && b.SRep? && b.items == a.items + [v] && b.spare == Drop(a.spare, 1)
    ensures BuiltFrom(f, CellOf(a.spare, 0), r, v)
  {
    hide DecodeField, BuiltFrom;
    v := OneElement(f, a, |a.items|, r);
  }

  /** The next element of a fixed-count array replaces the one at its position. */
  lemma FixedElement(f: Field, a: Slot, pos: nat, r: Record) returns (v: Value)
    requires f.ltype.LSubmessage? && FixedCount(f) && a.SRep? && |a.items| == f.arraySize && a.spare == []
    requires DecodeField(f, a, pos, r.wireType, r.at).Ok?
    ensures pos < f.arraySize && BuiltFrom(f, a.items[pos], r, v)
    ensures DecodeField(f, a, pos, r.wireType, r.at).value == (SRep(a.items[pos := v], []), pos + 1)
  {
    hide DecodeField, BuiltFrom;
    v := OneElement(f, a, pos, r);
  }

  lemma FoldStep(f: Field, slot: Slot, t: nat, recs: seq<Record>)
    requires recs != [] && Fold(f, slot, t, recs).Some?
    ensures var d := DecodeField(f, slot, Position(f, t), recs[0].wireType, recs[0].at);
      && d.Ok? && d.value.1 >= Position(f, t) && t >= Position(f, t)
      && Fold(f, slot, t, recs) == Fold(f, d.value.0, t - Position(f, t) + d.value.1, recs[1..])
  {
    hide DecodeField, Position;
    PositionBelow(f, t);
  }

  lemma PositionBelow(f: Field, t: nat)
    ensures Position(f, t) <= t
  {
  }

  /** The elements a counted array gains, one from each record. */
  lemma {:induction false} CountedFold(f: Field, a: Slot, t: nat, recs: seq<Record>) returns (added: seq<Value>)
    requires f.ltype.LSubmessage? && f.htype.Repeated? && !FixedCount(f) && a.SRep? && Fold(f, a, t, recs).Some?
    ensures |added| == |recs| && Fold(f, a, t, recs).value.0 == Grown(a, a.items + added)
    ensures forall j :: 0 <= j < |recs| ==> BuiltFrom(f, CellOf(a.spare, j), recs[j], added[j])
    decreases |recs|
  {
    hide DecodeField, BuiltFrom, Fold, Grown, Drop, CellOf;
    if recs == [] {
      added := [];
      NothingAdded(f, a, t);
    } else {
      var t' := FoldCounted(f, a, t, recs);
      var v := CountedElement(f, a, recs[0]);
      var b := DecodeField(f, a, |a.items|, recs[0].wireType, recs[0].at).value.0;
      var more := CountedFold(f, b, t', recs[1..]);
      added := [v] + more;
      assert a.items + [v] + more == a.items + added;
      GrownTwice(a, a.items + [v], a.items + added);
      forall j | 0 <= j < |recs| ensures BuiltFrom(f, CellOf(a.spare, j), recs[j], added[j]) {
        if j > 0 {
          assert recs[1..][j - 1] == recs[j] && added[j] == more[j - 1];
          NextCell(a.spare, j);
        }
      }
    }
  }

  lemma NextCell(cells: seq<Value>, j: nat)
    requires j > 0
    ensures CellOf(Drop(cells, 1), j - 1) == CellOf(cells, j)
  {
  }

  lemma NothingAdded(f: Field, a: Slot, t: nat)
    requires a.SRep?
    ensures Fold(f, a, t, []) == Some((a, t)) && Grown(a, a.items + []) == a
  {
    assert a.items + [] == a.items;
  }

  /** A counted array ignores the decoder's position. */
  lemma FoldCounted(f: Field, a: Slot, t: nat, recs: seq<Record>) returns (t': nat)
    requires f.htype.Repeated? && !FixedCount(f) && a.SRep? && recs != [] && Fold(f, a, t, recs).Some?
    ensures var d := DecodeField(f, a, |a.items|, recs[0].wireType, recs[0].at);
      && d.Ok? && Fold(f, d.value.0, t', recs[1..]).Some?
      && Fold(f, a, t, recs).value.0 == Fold(f, d.value.0, t', recs[1..]).value.0
  {
    hide DecodeField, Fold;
    FoldStep(f, a, t, recs);
    CountIgnored(f, a, 0, |a.items|, recs[0].wireType, recs[0].at);
    t' := t + DecodeField(f, a, 0, recs[0].wireType, recs[0].at).value.1;
  }

  /** One filling of a fixed-count array of submessages: each element from its own record. */
  lemma {:induction false} RunFold(f: Field, a: Slot, t: nat, recs: seq<Record>)
    requires f.ltype.LSubmessage? && FixedCount(f) && a.SRep? && |a.items| == f.arraySize && a.spare == []
    requires Fold(f, a, t, recs).Some? && Position(f, t) + |recs| <= f.arraySize
    ensures var r, pos := Fold(f, a, t, recs).value, Position(f, t);
      && r.0.SRep? && |r.0.items| == f.arraySize && r.0.spare == []
      && (forall j :: 0 <= j < |recs| ==> BuiltFrom(f, a.items[pos + j], recs[j], r.0.items[pos + j]))
      && forall j :: 0 <= j < f.arraySize && !(pos <= j < pos + |recs|) ==> r.0.items[j] == a.items[j]
    decreases |recs|
  {
    hide DecodeField, BuiltFrom, Fold, Position;
    if recs == [] {
      FoldNone(f, a, t);
    } else {
      FoldStep(f, a, t, recs);
      var pos, rest := Position(f, t), recs[1..];
      var v := FixedElement(f, a, pos, recs[0]);
      var b := SRep(a.items[pos := v], []);
      if rest == [] {
        FoldNone(f, b, t + 1);
      } else {
        NextPosition(f, t);
        RunFold(f, b, t + 1, rest);
      }
      var r := Fold(f, a, t, recs).value.0;
      forall j | 0 <= j < |recs| ensures BuiltFrom(f, a.items[pos + j], recs[j], r.items[pos + j]) {
        if j > 0 { assert rest[j - 1] == recs[j] && r.items[pos + 1 + (j - 1)] == r.items[pos + j]; }
      }
    }
  }

  lemma NextPosition(f: Field, t: nat)
    requires FixedCount(f) && Position(f, t) + 1 < f.arraySize
    ensures Position(f, t + 1) == Position(f, t) + 1
  {
    var n := f.arraySize;
    DivModUnique(t + 1, t / n, t % n + 1, n);
  }

  /** Every prefix of the records decodes too. */
  lemma {:induction false} FoldPrefix(f: Field, slot: Slot, t: nat, a: seq<Record>, b: seq<Record>)
    requires Fold(f, slot, t, a + b).Some?
    ensures Fold(f, slot, t, a).Some?
    decreases |a|
  {
    hide DecodeField;
    if a != [] {
      assert (a + b)[0] == a[0] && (a + b)[1..] == a[1..] + b;
      var d := DecodeField(f, slot, Position(f, t), a[0].wireType, a[0].at).value;
      FoldPrefix(f, d.0, t - Position(f, t) + d.1, a[1..], b);
    }
  }

  /** A fixed-count array of submessages takes one element from each record. */
  lemma {:induction false} FoldCounts(f: Field, a: Slot, t: nat, recs: seq<Record>)
    requires f.ltype.LSubmessage? && FixedCount(f) && a.SRep? && |a.items| == f.arraySize && a.spare == []
    requires Fold(f, a, t, recs).Some?
    ensures var r := Fold(f, a, t, recs).value;
      r.0.SRep? && |r.0.items| == f.arraySize && r.0.spare == [] && r.1 == t + |recs|
    decreases |recs|
  {
    hide DecodeField, BuiltFrom, Fold, Position;
    if recs == [] {
      FoldNone(f, a, t);
    } else {
      FoldStep(f, a, t, recs);
      var v := FixedElement(f, a, Position(f, t), recs[0]);
      FoldCounts(f, SRep(a.items[Position(f, t) := v], []), t + 1, recs[1..]);
    }
  }

  // ---------- The condition is exact ----------

  lemma {:induction false} AllSound(fields: seq<Field>, m: seq<Slot>, ss: seq<seq<byte>>)
    requires RoomyTable(fields) && ValidTable(fields) && Sound(false, fields, m) && DecodeAll(fields, m, ss).Some?
    ensures Sound(false, fields, DecodeAll(fields, m, ss).value)
    decreases |ss|
  {
    hide DecodeNoInit, RoomyTable, ValidTable, Sound;
    if ss != [] {
      DecodeSound(false, fields, m, ss[0]);
      AllSound(fields, DecodeNoInit(fields, m, ss[0]).value, ss[1..]);
    }
  }

  lemma {:induction false} StructExact(fields: seq<Field>, m: seq<Slot>, ss: seq<seq<byte>>)
    requires RoomyTable(fields) && ValidTable(fields) && Sound(false, fields, m) && DecodeAll(fields, m, ss).Some?
    ensures Encodable(fields, DecodeAll(fields, m, ss).value) <==> FilledOrHeld(fields, m, ss)
    decreases fields
  {
    hide DecodeAll, EncodableSlot, SlotFilledOrHeld, SoundSlot, AllRecords;
    hide RoomyTable, ValidTable, RoomyField, ValidField;
    AllSound(fields, m, ss);
    var m' := DecodeAll(fields, m, ss).value;
    forall i | 0 <= i < |fields|
      ensures var at := SlotOf(fields, i);
        && at < |m| == |m'|
        && (EncodableSlot(fields[i], m'[at]) <==>
              (fields[i].htype.Oneof? || SlotFilledOrHeld(fields[i], m[at], AllRecords(fields, ss, i))))
    {
      SoundAt(false, fields, i, m);
      SoundAt(false, fields, i, m');
      RoomyAt(fields, i);
      if fields[i].htype.Oneof? {
        UnionEncodable(fields[i], m'[SlotOf(fields, i)]);
      } else {
        NoPosition(fields[i]);
        var t := AllFold(fields, m, ss, i, 0, false);
        SlotExact(fields[i], m[SlotOf(fields, i)], AllRecords(fields, ss, i), m'[SlotOf(fields, i)], t);
      }
    }
  }

  lemma NoPosition(f: Field)
    ensures Position(f, 0) == 0
  {
  }

  lemma {:induction false} SlotExact(f: Field, slot: Slot, recs: seq<Record>, slot': Slot, t: nat)
    requires RoomyField(f) && ValidField(f) && !f.htype.Oneof?
    requires SoundSlot(false, f, slot) && SoundSlot(false, f, slot')
    requires Fold(f, slot, 0, recs) == Some((slot', t)) && Position(f, t) == 0
    requires recs != [] && FixedCount(f) && f.arraySize > 0 ==> t > 0
    ensures EncodableSlot(f, slot') <==> SlotFilledOrHeld(f, slot, recs)
    decreases f, 2
  {
    hide EncodableSlot, SoundSlot, Fold, RoomyField, ValidField, FilledOrHeld;
    if recs == [] {
      FoldNone(f, slot, 0);
    } else if f.ltype.LSubmessage? {
      if !f.htype.Repeated? { SingularExact(f, slot, recs, slot', t); }
      else if FixedCount(f) { FixedExact(f, slot, recs, slot', t); }
      else { CountedExact(f, slot, recs, slot', t); }
    } else if FixedCount(f) {
      PlainFixedExact(f, slot, recs, slot', t);
    } else {
      PlainSlotEncodable(f, slot');
    }
  }

  lemma PlainFixedExact(f: Field, slot: Slot, recs: seq<Record>, slot': Slot, t: nat)
    requires RoomyField(f) && ValidField(f) && FixedCount(f) && !f.ltype.LSubmessage? && SoundSlot(false, f, slot)
    requires Fold(f, slot, 0, recs) == Some((slot', t)) && Position(f, t) == 0
    requires recs != [] && (f.arraySize > 0 ==> t > 0)
    ensures EncodableSlot(f, slot')
  {
    hide Fold, RoomyField, ValidField, EncodableValue, SoundValue, SoundCell;
    FoldFills(f, slot, 0, recs);
    if f.arraySize > 0 { BelowOrPast(t, f.arraySize); }
  }

  lemma {:induction false} SingularExact(f: Field, slot: Slot, recs: seq<Record>, slot': Slot, t: nat)
    requires RoomyField(f) && ValidField(f) && SoundSlot(false, f, slot) && SoundSlot(false, f, slot')
    requires f.ltype.LSubmessage? && !f.htype.Repeated? && !f.htype.Oneof?
    requires Fold(f, slot, 0, recs) == Some((slot', t)) && recs != []
    ensures EncodableSlot(f, slot') <==> SlotFilledOrHeld(f, slot, recs)
    decreases f, 1
  {
    hide Fold, DecodeAll, FilledOrHeld, Sound, Encodable, Payloads, RoomyTable, ValidTable;
    var sub := f.ltype.fields;
    SingularShape(f, slot);
    SingularFold(f, slot, 0, recs);
    StructExact(sub, slot.v.slots, Payloads(recs));
    if IsDefaultValue(f, slot'.v) { DefaultEncodable(sub, slot'.v.slots); }
  }

  lemma SingularShape(f: Field, slot: Slot)
    requires SoundSlot(false, f, slot) && f.ltype.LSubmessage? && !f.htype.Repeated? && !f.htype.Oneof?
    ensures Singular(f, slot) && Sound(false, f.ltype.fields, slot.v.slots)
  {
    hide Sound;
  }

  /** A struct of zeros has no fixed-count array to worry about. */
  lemma {:induction false} DefaultEncodable(fields: seq<Field>, m: seq<Slot>)
    requires |m| == NumSlots(fields) && AllDefault(fields, m) && Sound(false, fields, m)
    ensures Encodable(fields, m)
    decreases fields
  {
    hide EncodableSlot, IsDefaultSlot, SoundSlot;
    forall i | 0 <= i < |fields| ensures var k := SlotOf(fields, i); k < |m| && EncodableSlot(fields[i], m[k]) {
      SoundAt(false, fields, i, m);
      DefaultSlotEncodable(fields[i], m[SlotOf(fields, i)]);
    }
  }

  lemma DefaultSlotEncodable(f: Field, slot: Slot)
    requires IsDefaultSlot(f, slot) && SoundSlot(false, f, slot)
    ensures EncodableSlot(f, slot)
  {
    hide EncodableValue, SoundValue, IsDefaultValue;
    if f.htype.Oneof? { UnionEncodable(f, slot); }
  }

  /** An element decoded from its record is encodable exactly under the condition for its cell. */
  lemma {:induction false} ElementExact(f: Field, cell: Value, r: Record, v: Value)
    requires RoomyField(f) && ValidField(f) && f.ltype.LSubmessage? && BuiltFrom(f, cell, r, v)
    ensures EncodableValue(f, v) <==>
      FilledOrHeld(f.ltype.fields, Defaults(f.ltype.fields, SlotsIn(cell)), [Payload(r)])
    decreases f, 0
  {
    hide DecodeAll, FilledOrHeld, Sound, Encodable, Defaults, RoomyTable, ValidTable;
    ResetSound(false, f.ltype.fields, SlotsIn(cell));
    StructExact(f.ltype.fields, Defaults(f.ltype.fields, SlotsIn(cell)), [Payload(r)]);
  }

  lemma {:induction false} CountedExact(f: Field, slot: Slot, recs: seq<Record>, slot': Slot, t: nat)
    requires RoomyField(f) && ValidField(f) && SoundSlot(false, f, slot) && SoundSlot(false, f, slot')
    requires f.ltype.LSubmessage? && f.htype.Repeated? && !FixedCount(f)
    requires Fold(f, slot, 0, recs) == Some((slot', t)) && recs != []
    ensures EncodableSlot(f, slot') <==> SlotFilledOrHeld(f, slot, recs)
    decreases f, 1
  {
    hide Fold, BuiltFrom, FilledOrHeld, EncodableValue, SoundValue, SoundCell, RoomyField, ValidField, Defaults;
    var added := CountedFold(f, slot, 0, recs);
    var items, spare := slot.items, slot.spare;
    assert slot'.items == items + added;
    forall j | 0 <= j < |recs|
      ensures EncodableValue(f, added[j]) <==>
        FilledOrHeld(f.ltype.fields, Defaults(f.ltype.fields, SlotsIn(CellOf(spare, j))), [Payload(recs[j])])
    {
      ElementExact(f, CellOf(spare, j), recs[j], added[j]);
    }
    BothEncodable(f, items, added);
  }

  lemma BothEncodable(f: Field, a: seq<Value>, b: seq<Value>)
    ensures (forall j :: 0 <= j < |a + b| ==> EncodableValue(f, (a + b)[j])) <==>
      (forall j :: 0 <= j < |a| ==> EncodableValue(f, a[j])) && (forall j :: 0 <= j < |b| ==> EncodableValue(f, b[j]))
  {
    hide EncodableValue;
    assert forall j :: 0 <= j < |a| ==> a[j] == (a + b)[j];
    assert forall j :: 0 <= j < |b| ==> b[j] == (a + b)[|a| + j];
  }

  /** The last filling of the array, over what the earlier ones left. */
  lemma LastFilling(f: Field, a: Slot, recs: seq<Record>, a': Slot, t: nat)
    requires f.ltype.LSubmessage? && FixedCount(f) && a.SRep? && |a.items| == f.arraySize && a.spare == []
    requires Fold(f, a, 0, recs) == Some((a', t)) && Position(f, t) == 0 && recs != [] && f.arraySize > 0
    ensures f.arraySize <= |recs| && |HeldBefore(f, a, recs)| == f.arraySize && a'.SRep? && |a'.items| == f.arraySize
    ensures forall j :: 0 <= j < f.arraySize ==>
      BuiltFrom(f, HeldBefore(f, a, recs)[j], recs[|recs| - f.arraySize + j], a'.items[j])
  {
    hide Fold, BuiltFrom;
    var n := f.arraySize;
    FoldCounts(f, a, 0, recs);
    BelowOrPast(|recs|, n);
    var first := |recs| - n;
    var early, last := recs[..first], recs[first..];
    assert recs == early + last;
    FoldPrefix(f, a, 0, early, last);
    FoldAppend(f, a, 0, early, last);
    FoldCounts(f, a, 0, early);
    OneLess(|recs|, n);
    RunFold(f, Fold(f, a, 0, early).value.0, first, last);
    assert forall j :: 0 <= j < n ==> last[j] == recs[first + j];
  }

  lemma OneLess(t: nat, n: nat)
    requires 0 < n <= t && t % n == 0
    ensures (t - n) % n == 0
  {
    assert t - n == (t / n - 1) * n by { MulDistribute(-1, t / n, n, 1); }
    DivModUnique(t - n, t / n - 1, 0, n);
  }

  lemma {:induction false} FixedExact(f: Field, slot: Slot, recs: seq<Record>, slot': Slot, t: nat)
    requires RoomyField(f) && ValidField(f) && SoundSlot(false, f, slot) && SoundSlot(false, f, slot')
    requires f.ltype.LSubmessage? && FixedCount(f)
    requires Fold(f, slot, 0, recs) == Some((slot', t)) && Position(f, t) == 0 && recs != []
    ensures EncodableSlot(f, slot') <==> SlotFilledOrHeld(f, slot, recs)
    decreases f, 1
  {
    hide Fold, BuiltFrom, FilledOrHeld, EncodableValue, SoundValue, SoundCell;
    hide RoomyField, ValidField, Defaults, HeldBefore;
    if f.arraySize > 0 {
      LastFilling(f, slot, recs, slot', t);
      var cells, first := HeldBefore(f, slot, recs), |recs| - f.arraySize;
      forall j | 0 <= j < f.arraySize
        ensures EncodableValue(f, slot'.items[j]) <==>
          FilledOrHeld(f.ltype.fields, Defaults(f.ltype.fields, SlotsIn(CellOf(cells, j))), [Payload(recs[first + j])])
      {
        ElementExact(f, cells[j], recs[first + j], slot'.items[j]);
      }
    }
  }

  // ---------- Encoding again ----------

  /** The struct can be encoded, and the encoding decodes into cleared memory as the same message. */
  predicate Reencodes(fields: seq<Field>, m: seq<Slot>) {
    && Encode(fields, m).Some?
    && var r := Decode(fields, ZeroUpTo(fields, |fields|), Encode(fields, m).value);
       r.Ok? && SameMessage(fields, m, r.value)
  }

  lemma {:induction false} SameValueEncodable(f: Field, x: Value, y: Value)
    requires SameValue(f, x, y) && SoundValue(true, f, y)
    ensures EncodableValue(f, x)
    decreases f, 0
  {
    if y.VMsg? {
      SameEncodable(f.ltype.fields, x.slots, y.slots);
    }
  }

  lemma {:induction false} SameSlotEncodable(f: Field, a: Slot, b: Slot)
    requires SameSlot(f, a, b) && SoundSlot(true, f, b)
    ensures EncodableSlot(f, a)
    decreases f, 1
  {
    hide SameValue, SoundValue, SoundCell, EncodableValue;
    match a
    case SOne(x) => SameValueEncodable(f, x, b.v);
    case SOpt(has, x) => if has { SameValueEncodable(f, x, b.v); }
    case SRep(xs, _) =>
      forall j | 0 <= j < |xs| ensures EncodableValue(f, xs[j]) { SameValueEncodable(f, xs[j], b.items[j]); }
    case SOneof(w, x) => if w == f.tag { SameValueEncodable(f, x, b.v); }
  }

  lemma {:induction false} SameEncodable(fields: seq<Field>, a: seq<Slot>, b: seq<Slot>)
    requires SameMessage(fields, a, b) && Sound(true, fields, b)
    ensures Encodable(fields, a)
    decreases fields
  {
    hide SameSlot, SoundSlot, EncodableSlot;
    forall i | 0 <= i < |fields| ensures var k := SlotOf(fields, i); k < |a| && EncodableSlot(fields[i], a[k]) {
      SoundAt(true, fields, i, b);
      SameSlotEncodable(fields[i], a[SlotOf(fields, i)], b[SlotOf(fields, i)]);
    }
  }

  /** Only encodable structs survive being encoded and decoded again. */
  lemma ReencodesOnlyEncodable(fields: seq<Field>, m: seq<Slot>)
    requires RoomyTable(fields) && ValidTable(fields) && Reencodes(fields, m)
    ensures Encodable(fields, m)
  {
    hide Encode, DecodeNoInit, SameMessage, Sound, Encodable, RoomyTable, ValidTable, Defaults, ZeroUpTo;
    var z := ZeroUpTo(fields, |fields|);
    ZeroStructSound(fields);
    ResetSound(true, fields, z);
    DecodeSound(true, fields, Defaults(fields, z), Encode(fields, m).value);
    SameEncodable(fields, m, Decode(fields, z, Encode(fields, m).value).value);
  }

  /** Whatever the struct held and whatever the bytes: what pb_decode leaves can be encoded again exactly when
      every fixed-count array, at every depth, was filled by the stream or held encodable elements. While lengths
      are below 2^32, the encoding decodes to the same message exactly when, besides, the zeros it leaves out are
      defaults. */
  lemma DecodedReencodes(fields: seq<Field>, prior: seq<Slot>, s: seq<byte>)
    requires RoomyTable(fields) && ValidTable(fields) && Decode(fields, prior, s).Ok?
    ensures var m, held := Decode(fields, prior, s).value, FilledOrHeld(fields, Defaults(fields, prior), [s]);
      && (held <==> Encodable(fields, m))
      && (Reencodes(fields, m) ==> held)
      && (Short(fields, m) ==> (Reencodes(fields, m) <==> held && Agrees(fields, m)))
  {
    hide Encode, DecodeNoInit, Sound, Encodable, Short, Agrees, RoomyTable, ValidTable, SameMessage, Defaults,
         FilledOrHeld, ZeroUpTo;
    var d, m := Defaults(fields, prior), Decode(fields, prior, s).value;
    ResetSound(false, fields, prior);
    OnePayload(fields, d, s);
    StructExact(fields, d, [s]);
    if Reencodes(fields, m) { ReencodesOnlyEncodable(fields, m); }
    if Encodable(fields, m) && Short(fields, m) {
      MessageRoundTrip(fields, ZeroUpTo(fields, |fields|), m);
    }
  }

  /** A struct that is sound once reset re-encodes after any stream; one cleared with memset is. */
  lemma SoundStructReencodes(fields: seq<Field>, prior: seq<Slot>, s: seq<byte>)
    requires RoomyTable(fields) && ValidTable(fields) && Decode(fields, prior, s).Ok?
    requires Sound(true, fields, Defaults(fields, prior)) || prior == ZeroUpTo(fields, |fields|)
    ensures FilledOrHeld(fields, Defaults(fields, prior), [s])
  {
    hide DecodeNoInit, Sound, Encodable, RoomyTable, ValidTable, Defaults, FilledOrHeld, ZeroUpTo;
    if prior == ZeroUpTo(fields, |fields|) {
      ZeroStructSound(fields);
      ResetSound(true, fields, prior);
    }
    DecodeSound(true, fields, Defaults(fields, prior), s);
    SoundIsEncodable(fields, Decode(fields, prior, s).value);
    DecodedReencodes(fields, prior, s);
  }

  // ---------- A struct that does not re-encode ----------

  const EIGHT: seq<byte> := [65, 66, 67, 68, 69, 70, 71, 72]

  function TwoStrings(): Field {
    Field(1, Repeated, LString, 0, 0, 8, 2, None)
  }

  lemma EightLong()
    ensures StrLen(EIGHT, 8) == 8
  {
    assert forall k :: 0 <= k < 8 ==> EIGHT[k] != 0;
  }

  lemma ResetStrings()
    ensures var d := Defaults([TwoStrings()], [SRep([VBytes(EIGHT), VBytes(EIGHT)], [])]);
      |d| == 1 && d[0].SRep? && |d[0].items| == 2 && d[0].items[1] == VBytes(EIGHT)
  {
    hide ZeroPrefix;
    var f := TwoStrings();
    var p := SRep([VBytes(EIGHT), VBytes(EIGHT)], []);
    var cells := Cells(f, p);
    assert cells == [VBytes(EIGHT), VBytes(EIGHT)];
    assert ZeroCells(f, cells[1..], 0) == cells[1..];
    assert DefaultsUpTo([f], 1, [p]) == [] + [DefaultSlot(f, p)];
  }

  /** Two strings of eight bytes without a terminator, an empty stream: the second string survives, and what
      the encoder writes for it does not decode. */
  lemma StaleStringDoesNotReencode()
    ensures var fields := [TwoStrings()];
      var prior := [SRep([VBytes(EIGHT), VBytes(EIGHT)], [])];
      && Decode(fields, prior, []).Ok?
      && !FilledOrHeld(fields, Defaults(fields, prior), [[]]) && !Reencodes(fields, Decode(fields, prior, []).value)
  {
    hide Defaults, DefaultsUpTo, FilledOrHeld, DecodeLoop, Scan, RoomyTable, ValidTable, Encodable, Reencodes;
    var f := TwoStrings();
    var fields := [f];
    var prior := [SRep([VBytes(EIGHT), VBytes(EIGHT)], [])];
    var d := Defaults(fields, prior);
    ResetStrings();
    EightLong();
    LoopEnd(fields, Start(d));
    assert RequiredIndex(fields, 1) == RequiredIndex(fields, 0);
    assert Decode(fields, prior, []) == Ok(d, []);
    TableOfStrings();
    assert SlotOf(fields, 0) == 0;
    assert !EncodableValue(f, d[0].items[1]);
    assert !EncodableSlot(f, d[0]);
    NotEncodable(fields, 0, d);
    DecodedReencodes(fields, prior, []);
  }

  lemma TableOfStrings()
    ensures ValidTable([TwoStrings()]) && RoomyTable([TwoStrings()])
  {
  }

  lemma NotEncodable(fields: seq<Field>, i: nat, m: seq<Slot>)
    requires i < |fields| && SlotOf(fields, i) < |m| && !EncodableSlot(fields[i], m[SlotOf(fields, i)])
    ensures !Encodable(fields, m)
  {
  }
}
