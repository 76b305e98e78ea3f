/** Decoding any bytes keeps a sound struct sound. */
module Preservation {
  import opened Words
  import opened Parsing
  import opened Varints
  import opened Wire
  import opened Schema
  import opened Defaulting
  import opened DecoderSpec
  import opened Merge
  import opened RoundTrip
  import opened Soundness
  import Streams

  // ---------- Decoded values fit ----------

  lemma WrapRange(n: int, m: nat)
    requires m > 0 && m % 2 == 0
    ensures 0 - m / 2 <= SignedWrap(n, m) < m / 2
  {
  }

  lemma {:induction false} FixedValueBound(b: seq<byte>)
    ensures FixedValue(b) < Pow2(8 * |b|)
  {
    if b != [] {
      FixedValueBound(b[1..]);
      Pow2Add(8, 8 * |b[1..]|);
      assert Pow2(8) == 256;
    }
  }

  lemma DecodedScalarFits(f: Field, s: seq<byte>)
    requires DecodeScalar(f, s).Ok?
    ensures DecodeScalar(f, s).value.VInt? && ScalarFits(f, DecodeScalar(f, s).value.n)
  {
    hide DecodeVarint, DecodeVarint32, FixedValue, UnZigzag, Pow2, SignedWrap;
    DecodeVarintConsumes(s);
    match f.ltype
    case LVarint => WrapRange(DecodeScalar(f, s).value.n, IntRange(f.dataSize));
    case LSVarint => WrapRange(DecodeScalar(f, s).value.n, IntRange(f.dataSize));
    case LFixed32 => Pow2Values(); FixedValueBound(s[..4]);
    case LFixed64 => Pow2Values(); FixedValueBound(s[..8]);
    case _ =>
  }

  lemma DecodedBlobFits(strict: bool, f: Field, s: seq<byte>)
    requires DecodeBlob(f, s).Ok?
    ensures SoundValue(strict, f, DecodeBlob(f, s).value)
  {
    hide DecodeVarint32;
  }

  // ---------- Arrays ----------

  lemma PutSound(strict: bool, f: Field, a: Slot, pos: nat, v: Value)
    requires a.SRep? && SoundArray(strict, f, a.items, a.spare) && pos < f.arraySize && pos <= |a.items|
    requires SoundValue(strict, f, v) && SoundCell(strict, f, v)
    ensures var b := Grown(a, Put(a.items, pos, v));
      b.SRep? && SoundArray(strict, f, b.items, b.spare) && pos + 1 <= |b.items|
  {
    hide SoundValue, SoundCell;
    var items, spare := Put(a.items, pos, v), Grown(a, Put(a.items, pos, v)).spare;
    forall j | 0 <= j < |items|
      ensures ((FixedCount(f) && !strict) || SoundValue(strict, f, items[j])) && SoundCell(strict, f, items[j])
    {
      if j != pos { assert items[j] == a.items[j]; }
    }
    if pos == |a.items| {
      assert spare == a.spare[1..];
    } else {
      assert spare == a.spare[0..];
    }
  }

  lemma {:induction false} DecodedRunSound(strict: bool, f: Field, a: Slot, pos: nat, s: seq<byte>)
    requires a.SRep? && SoundArray(strict, f, a.items, a.spare) && pos <= |a.items| && Packable(f.ltype)
    requires DecodePacked(f, a.items, pos, s).Some?
    ensures var r := DecodePacked(f, a.items, pos, s).value; var b := Grown(a, r.0);
      && |r.0| >= |a.items| && b.SRep? && SoundArray(strict, f, b.items, b.spare) && r.1 <= |b.items|
    decreases |s|
  {
    hide DecodeScalar, SoundArray, ScalarFits, Put, Grown;
    if s == [] {
      GrownSelf(a);
    } else {
      var r := DecodeScalar(f, s);
      DecodedScalarFits(f, s);
      ScalarSound(strict, f, r.value);
      PutSound(strict, f, a, pos, r.value);
      var items := Put(a.items, pos, r.value);
      PutGrows(a, pos, r.value);
      DecodedRunSound(strict, f, Grown(a, items), pos + 1, r.rest);
      GrownTwice(a, items, DecodePacked(f, a.items, pos, s).value.0);
    }
  }

  lemma PutGrows(a: Slot, pos: nat, v: Value)
    requires a.SRep?
    ensures var items := Put(a.items, pos, v);
      |items| >= |a.items| && Grown(a, items).SRep? && Grown(a, items).items == items
  {
  }

  // ---------- Fields ----------

  lemma DelimitedShorter(s: seq<byte>)
    ensures ReadDelimited(s).Ok? ==> |ReadDelimited(s).value| < |s|
  {
    hide DecodeVarint32;
    DecodeVarint32Consumes(s);
  }

  /** The struct a submessage's payload is decoded into is sound. */
  predicate SoundBase(strict: bool, f: Field, prior: Value) {
    f.ltype.LSubmessage? ==> SoundValue(strict, f, MergeBase(f, prior))
  }

  lemma {:induction false} DecodeValueSound(strict: bool, f: Field, prior: Value, s: seq<byte>)
    requires RoomyField(f) && ValidField(f) && DecodeValue(f, prior, s).Ok? && SoundBase(strict, f, prior)
    ensures SoundValue(strict, f, DecodeValue(f, prior, s).value)
    decreases |s|, 0
  {
    hide DecodeScalar, DecodeBlob, ReadDelimited, DecodeNoInit, ScalarFits, ElementBase;
    if Packable(f.ltype) {
      DecodedScalarFits(f, s);
    } else if f.ltype.LSubmessage? {
      DelimitedShorter(s);
      DecodeSound(strict, f.ltype.fields, MergeBase(f, prior).slots, ReadDelimited(s).value);
    } else {
      DecodedBlobFits(strict, f, s);
    }
  }

  lemma CellBase(strict: bool, f: Field, a: Slot, pos: nat)
    requires ValidField(f) && RoomyField(f) && f.htype.Repeated?
    requires a.SRep? && SoundArray(strict, f, a.items, a.spare) && pos < f.arraySize && pos <= |a.items|
    ensures SoundBase(strict, f, CellAt(a, pos))
  {
    hide SoundValue, Sound, Defaults;
    if f.ltype.LSubmessage? {
      assert SoundCell(strict, f, CellAt(a, pos));
      SoundMessage(strict, f, ElementBase(f, CellAt(a, pos)));
    }
  }

  lemma SoundMessage(strict: bool, f: Field, v: Value)
    requires f.ltype.LSubmessage? && v.VMsg?
    ensures SoundValue(strict, f, v) <==> Sound(strict, f.ltype.fields, v.slots)
  {
  }

  lemma {:induction false} ElementsSound(strict: bool, f: Field, a: Slot, k: nat, wireType: nat, s: seq<byte>)
    requires RoomyField(f) && ValidField(f) && f.htype.Repeated? && DecodeField(f, a, k, wireType, s).Ok?
    requires a.SRep? && SoundArray(strict, f, a.items, a.spare) && (FixedCount(f) ==> k <= f.arraySize)
    ensures var r := DecodeField(f, a, k, wireType, s).value;
      SoundSlot(strict, f, r.0) && (FixedCount(f) ==> r.1 <= f.arraySize)
    decreases |s|, 1
  {
    hide DecodeValue, ReadDelimited, DecodePacked, SoundValue, RoomyField, ValidField, Put, Grown, CellAt;
    var pos := if FixedCount(f) then k else |a.items|;
    if wireType == WT_STRING && Packable(f.ltype) {
      DecodedRunSound(strict, f, a, pos, ReadDelimited(s).value);
    } else {
      CellBase(strict, f, a, pos);
      DecodeValueSound(strict, f, CellAt(a, pos), s);
      var v := DecodeValue(f, CellAt(a, pos), s).value;
      SoundValueReset(strict, f, v);
      PutSound(strict, f, a, pos, v);
    }
  }

  lemma {:induction false} DecodeFieldSound(strict: bool, f: Field, slot: Slot, k: nat, wireType: nat, s: seq<byte>)
    requires RoomyField(f) && ValidField(f) && SoundSlot(strict, f, slot) && DecodeField(f, slot, k, wireType, s).Ok?
    requires FixedCount(f) ==> k <= f.arraySize
    ensures var r := DecodeField(f, slot, k, wireType, s).value;
      SoundSlot(strict, f, r.0) && (FixedCount(f) ==> r.1 <= f.arraySize)
    decreases |s|, 2
  {
    hide DecodeValue, ReadDelimited, DecodePacked, SoundValue, RoomyField, ValidField, UnionBase, SoundArray;
    match (f.htype, slot)
    case (Required, SOne(x)) => DecodeValueSound(strict, f, x, s);
    case (Optional, SOne(x)) => DecodeValueSound(strict, f, x, s);
    case (Optional, SOpt(_, x)) => DecodeValueSound(strict, f, x, s);
    case (Repeated, SRep(items, _)) => ElementsSound(strict, f, slot, k, wireType, s);
    case (Oneof, SOneof(which, x)) =>
      if f.ltype.LSubmessage? { UnionBaseSound(f); }
      DecodeValueSound(true, f, if f.ltype.LSubmessage? && which != f.tag then UnionBase(f) else x, s);
  }

  // ---------- Whole structs ----------

  predicate SoundState(strict: bool, fields: seq<Field>, st: DState) {
    && Sound(strict, fields, st.m)
    && (st.fixedField.Some? ==>
          st.fixedField.value < |fields| && FixedCount(fields[st.fixedField.value]) &&
          st.fixedSize <= fields[st.fixedField.value].arraySize)
  }

  /** Storing a field's slot keeps the whole struct sound: other alternatives of a union are inactive. */
  lemma StoreSound(strict: bool, fields: seq<Field>, i: nat, m: seq<Slot>, slot: Slot)
    requires ValidTable(fields) && Sound(strict, fields, m) && i < |fields| && SoundSlot(strict, fields[i], slot)
    requires fields[i].htype.Oneof? ==> slot.SOneof? && slot.which == fields[i].tag
    ensures SlotOf(fields, i) < |m| && Sound(strict, fields, m[SlotOf(fields, i) := slot])
  {
    hide SoundValue, SoundArray, ValidField;
    SoundAt(strict, fields, i, m);
    var m' := m[SlotOf(fields, i) := slot];
    forall j | 0 <= j < |fields|
      ensures SlotOf(fields, j) < |m'| && SoundSlot(strict, fields[j], m'[SlotOf(fields, j)])
    {
      SoundAt(strict, fields, j, m);
      if j != i && SlotOf(fields, j) == SlotOf(fields, i) {
        if j < i { SlotOfMonotone(fields, j, i); DistinctTags(fields, j, i); }
        else { SlotOfMonotone(fields, i, j); DistinctTags(fields, i, j); }
      }
    }
  }

  lemma {:induction false} DecodeOneSound(
    strict: bool, fields: seq<Field>, st: DState, wireType: nat, tag: nat, s: seq<byte>)
    requires RoomyTable(fields) && ValidTable(fields) && SoundState(strict, fields, st)
    requires DecodeOne(fields, st, wireType, tag, s).Ok?
    ensures SoundState(strict, fields, DecodeOne(fields, st, wireType, tag, s).value)
    decreases |s|, 3
  {
    hide DecodeField, SkipField, DecodeVarint32, RoomyTable, ValidTable, Sound, SoundSlot, RoomyField, ValidField;
    var i := FindField(fields, tag);
    if i < |fields| {
      var k := if st.fixedField == Some(i) then st.fixedSize else 0;
      RoomyAt(fields, i);
      SoundAt(strict, fields, i, st.m);
      DecodeFieldSound(strict, fields[i], st.m[SlotOf(fields, i)], k, wireType, s);
      var r := DecodeField(fields[i], st.m[SlotOf(fields, i)], k, wireType, s).value;
      if fields[i].htype.Oneof? { DecodedUnionTag(fields[i], st.m[SlotOf(fields, i)], k, wireType, s); }
      StoreSound(strict, fields, i, st.m, r.0);
    }
  }

  lemma DecodedUnionTag(f: Field, slot: Slot, k: nat, wireType: nat, s: seq<byte>)
    requires f.htype.Oneof? && DecodeField(f, slot, k, wireType, s).Ok?
    ensures var r := DecodeField(f, slot, k, wireType, s).value.0; r.SOneof? && r.which == f.tag
  {
    hide DecodeValue;
  }

  lemma {:induction false} DecodeLoopSound(strict: bool, fields: seq<Field>, st: DState, s: seq<byte>)
    requires RoomyTable(fields) && ValidTable(fields) && SoundState(strict, fields, st)
    requires DecodeLoop(fields, st, s).Done?
    ensures SoundState(strict, fields, DecodeLoop(fields, st, s).st)
    decreases |s|, 4
  {
    hide DecodeOne, DecodeTag, SoundState, RoomyTable, ValidTable;
    if s != [] {
      Streams.TagShape(s);
      var tr := DecodeTag(s);
      if tr.Tag? {
        var r := DecodeOne(fields, st, tr.wireType, tr.tag, tr.rest);
        DecodeOneSound(strict, fields, st, tr.wireType, tr.tag, tr.rest);
        DecodeLoopSound(strict, fields, r.value, r.rest);
      }
    }
  }

  /** For every byte string: a successful decode leaves counts within their arrays, strings terminated and
      integers in range, at every nesting depth. */
  lemma {:induction false} DecodeSound(strict: bool, fields: seq<Field>, m: seq<Slot>, s: seq<byte>)
    requires RoomyTable(fields) && ValidTable(fields) && Sound(strict, fields, m) && DecodeNoInit(fields, m, s).Ok?
    ensures Sound(strict, fields, DecodeNoInit(fields, m, s).value)
    decreases |s|, 5
  {
    hide DecodeLoop, RequiredSeen, FixedComplete, RoomyTable, ValidTable;
    DecodeLoopSound(strict, fields, Start(m), s);
  }
}
