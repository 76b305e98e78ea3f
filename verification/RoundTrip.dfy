/** Decoding the encoding of a message merges the message into the struct; into a fresh struct it gives
    the message back. */
module RoundTrip {
  import opened Words
  import opened Parsing
  import opened Varints
  import opened Wire
  import opened Schema
  import opened Defaulting
  import opened EncoderSpec
  import opened DecoderSpec
  import opened Streams
  import opened Merge

  // ---------- Single values ----------

  lemma SignedRoundTrip(n: int, size: nat)
    requires IntRange(size) != 0 && -(IntRange(size) / 2) <= n < IntRange(size) / 2
    ensures NarrowSigned(n % WORD64, size) == Some(n)
  {
    var range := IntRange(size);
    assert SignedWrap(n, range) == n by { WrapOfSmall(n, range); }
    if size == 8 {
      WrapOfSmall(n, WORD64);
      assert (n % WORD64) % WORD64 == n % WORD64;
    } else {
      WrapOfSmall(n, WORD32);
      assert n % WORD64 % WORD32 == n % WORD32 by { LowWord(n); }
    }
  }

  lemma WrapOfSmall(n: int, m: nat)
    requires m > 0 && m % 2 == 0 && 0 - m / 2 <= n < m / 2
    ensures SignedWrap(n, m) == n
    ensures n % m == if n < 0 then n + m else n
  {
    if n < 0 { DivModUnique(n, -1, n + m, m); } else { DivModUnique(n, 0, n, m); }
  }

  lemma LowWord(n: int)
    requires 0 - 0x8000_0000 <= n < 0x8000_0000
    ensures n % WORD64 % WORD32 == n % WORD32
  {
    WrapOfSmall(n, WORD64);
    WrapOfSmall(n, WORD32);
    if n < 0 { DivModUnique(n + WORD64, 0xFFFF_FFFF, n + WORD32, WORD32); } else { DivModUnique(n, 0, n, WORD32); }
  }

  /** Every scalar type: what the encoder writes, the decoder reads back. */
  lemma ScalarRoundTrip(f: Field, n: int, rest: seq<byte>)
    requires ScalarFits(f, n)
    ensures EncodeScalar(f, n).Some? && EncodeScalar(f, n).value != []
    ensures DecodeScalar(f, EncodeScalar(f, n).value + rest) == Ok(VInt(n), rest)
  {
    hide EncodeVarint, DecodeVarint, DecodeVarint32, FixedValue, EncodeFixed, Zigzag, UnZigzag, NarrowSigned;
    match f.ltype
    case LBool =>
      Varint32RoundTrip(n, rest);
    case LVarint =>
      VarintRoundTrip(n % WORD64, rest);
      SignedRoundTrip(n, f.dataSize);
    case LUVarint =>
      VarintRoundTrip(n % WORD64, rest);
      SmallMod(n, WORD64);
      SmallMod(n, IntRange(f.dataSize));
    case LSVarint =>
      ZigzagRoundTrip(n);
      VarintRoundTrip(Zigzag(n), rest);
      WrapOfSmall(n, IntRange(f.dataSize));
    case LFixed32 =>
      FixedBack(n, 4, rest);
    case LFixed64 =>
      FixedBack(n, 8, rest);
    case _ =>
  }

  lemma FixedBack(n: nat, k: nat, rest: seq<byte>)
    requires (k == 4 && n < WORD32) || (k == 8 && n < WORD64)
    ensures n % (if k == 4 then WORD32 else WORD64) == n
    ensures Read(EncodeFixed(n, k) + rest, k) == Ok(EncodeFixed(n, k), rest)
    ensures FixedValue(EncodeFixed(n, k)) == n
  {
    hide FixedValue, EncodeFixed, Pow2;
    Pow2Values();
    FixedRoundTrip(n, k);
    var e := EncodeFixed(n, k);
    assert (e + rest)[..k] == e && (e + rest)[k..] == rest;
  }

  /** Strings, bytes and fixed-length bytes. */
  lemma BlobRoundTrip(f: Field, data: seq<byte>)
    requires ValidField(f) && EncodableValue(f, VBytes(data))
    ensures EncodeValue(f, VBytes(data)).Some?
    ensures DecodeBlob(f, EncodeValue(f, VBytes(data)).value) == Ok(MergeValue(f, VInt(0), VBytes(data)), [])
  {
    hide DecodeVarint32, EncodeVarint;
    var payload := if f.ltype.LString? then data[..StrLen(data, f.dataSize)] else data;
    assert EncodeValue(f, VBytes(data)).value == Delimited(payload);
    Varint32RoundTrip(|payload|, payload);
    assert Delimited(payload) == EncodeVarint(|payload|) + payload;
    assert payload[..|payload|] == payload && payload[|payload|..] == [];
    if f.ltype.LFixedBytes? && |data| == 0 {
      assert seq(0, _ => 0 as byte) == data;
    }
  }

  // ---------- Records ----------

  /** A record of field `i` is one turn of the decoding loop. */
  lemma OneRecord(fields: seq<Field>, i: nat, st: DState, wireType: nat, e: seq<byte>)
    requires ValidTable(fields) && i < |fields| && SlotOf(fields, i) < |st.m| && wireType < 8
    requires FixedCount(fields[i]) ==> st.fixedField == Some(i) || FixedComplete(fields, st)
    requires Releasable(fields, fields[i], st.m[SlotOf(fields, i)])
    requires var k := if st.fixedField == Some(i) then st.fixedSize else 0;
      DecodeField(fields[i], st.m[SlotOf(fields, i)], k, wireType, e).Ok?
    ensures var f, slot := fields[i], SlotOf(fields, i);
      var k := if st.fixedField == Some(i) then st.fixedSize else 0;
      var r := DecodeField(f, st.m[slot], k, wireType, e);
      DecodeLoop(fields, st, EncodeTag(wireType, f.tag) + e) ==
        DecodeLoop(fields, Stored(fields, i, st, r.value.0, r.value.1), r.rest)
  {
    hide DecodeField, DecodeTag, EncodeTag, DecodeVarint32;
    var f := fields[i];
    FindUnique(fields, i);
    TagRoundTrip(wireType, f.tag, e);
    var s := EncodeTag(wireType, f.tag) + e;
    assert s != [] by { TagOfEmpty(); }
  }

  /** The decoder's state once field `i` has been decoded to `slot`, its count being `k`. */
  function Stored(fields: seq<Field>, i: nat, st: DState, slot: Slot, k: nat): DState
    requires i < |fields| && SlotOf(fields, i) < |st.m|
  {
    DState(st.m[SlotOf(fields, i) := slot], Mark(fields, i, st.seen),
           if FixedCount(fields[i]) then Some(i) else st.fixedField,
           if FixedCount(fields[i]) then k else st.fixedSize)
  }

  // ---------- Arrays ----------

  /** Storing `vs` at positions `pos`, `pos + 1`, ... */
  function PutAll(items: seq<Value>, pos: nat, vs: seq<Value>): seq<Value>
    decreases |vs|
  {
    if vs == [] then items else PutAll(Put(items, pos, vs[0]), pos + 1, vs[1..])
  }

  lemma {:induction false} PutAllAppends(items: seq<Value>, vs: seq<Value>)
    ensures PutAll(items, |items|, vs) == items + vs
    decreases |vs|
  {
    if vs != [] {
      PutAllAppends(items + [vs[0]], vs[1..]);
    }
  }

  lemma {:induction false} PutAllReplaces(items: seq<Value>, pos: nat, vs: seq<Value>)
    requires pos + |vs| == |items|
    ensures PutAll(items, pos, vs) == items[..pos] + vs
    decreases |vs|
  {
    if vs != [] {
      PutAllReplaces(items[pos := vs[0]], pos + 1, vs[1..]);
      assert items[pos := vs[0]][..pos + 1] == items[..pos] + [vs[0]];
    }
  }

  predicate ScalarItems(f: Field, ys: seq<Value>) {
    Packable(f.ltype) && forall j :: 0 <= j < |ys| ==> ys[j].VInt? && ScalarFits(f, ys[j].n)
  }

  /** A packed run delivers its elements in order, with room for all of them. */
  lemma {:induction false} PackedRoundTrip(f: Field, items: seq<Value>, pos: nat, ys: seq<Value>)
    requires ScalarItems(f, ys) && pos + |ys| <= f.arraySize
    ensures EncodePacked(f, ys).Some?
    ensures DecodePacked(f, items, pos, EncodePacked(f, ys).value) == Some((PutAll(items, pos, ys), pos + |ys|))
    decreases |ys|
  {
    hide DecodeScalar, EncodeScalar;
    if ys != [] {
      PackedRoundTrip(f, Put(items, pos, ys[0]), pos + 1, ys[1..]);
      ScalarRoundTrip(f, ys[0].n, EncodePacked(f, ys[1..]).value);
    }
  }

  lemma {:induction false} MergeScalarItems(f: Field, cells: seq<Value>, ys: seq<Value>)
    requires ScalarItems(f, ys)
    ensures MergeItems(f, cells, ys) == ys
    decreases |ys|
  {
    if ys != [] {
      MergeScalarItems(f, Drop(cells, 1), ys[1..]);
    }
  }

  /** How many elements of array `i` the decoder holds. */
  function ArrayPos(fields: seq<Field>, i: nat, st: DState, a: Slot): nat
    requires i < |fields| && a.SRep?
  {
    if !FixedCount(fields[i]) then |a.items| else if st.fixedField == Some(i) then st.fixedSize else 0
  }

  /** The decoder's state once `vs` has been added to array `i`. */
  function Extended(fields: seq<Field>, i: nat, st: DState, a: Slot, vs: seq<Value>): DState
    requires i < |fields| && SlotOf(fields, i) < |st.m| && a.SRep?
  {
    var pos := ArrayPos(fields, i, st, a);
    if vs == [] then st
    else Stored(fields, i, st, Grown(a, PutAll(a.items, pos, vs)), pos + |vs|)
  }

  predicate ArrayReady(fields: seq<Field>, i: nat, st: DState, a: Slot, n: nat) {
    && i < |fields| && fields[i].htype.Repeated? && a.SRep?
    && SlotOf(fields, i) < |st.m| && st.m[SlotOf(fields, i)] == a
    && (FixedCount(fields[i]) ==> st.fixedField == Some(i) || FixedComplete(fields, st))
    && ArrayPos(fields, i, st, a) + n <= fields[i].arraySize
    && ArrayPos(fields, i, st, a) <= |a.items|
  }

  /** The cells of an array from position `pos` on. */
  function CellsFrom(a: Slot, pos: nat): seq<Value>
    requires a.SRep?
  {
    Drop(a.items + a.spare, pos)
  }

  /** The value a decoded value is merged into. */
  function MergeBase(f: Field, x: Value): Value {
    if f.htype.Repeated? then ElementBase(f, x) else x
  }

  // ---------- Fresh structs ----------

  lemma {:induction false} DefaultsAt(fields: seq<Field>, j: nat, i: nat, prior: seq<Slot>)
    requires i < j <= |fields|
    ensures SlotOf(fields, i) < |DefaultsUpTo(fields, j, prior)|
    ensures DefaultsUpTo(fields, j, prior)[SlotOf(fields, i)] ==
      DefaultSlot(fields[i], PriorSlot(prior, SlotOf(fields, i)))
    decreases j
  {
    hide DefaultSlot;
    SlotOfMonotone(fields, i, j - 1);
    if i < j - 1 {
      DefaultsAt(fields, j - 1, i, prior);
    } else if j >= 2 && SharesSlot(fields[j - 2], fields[j - 1]) {
      DefaultsAt(fields, j - 1, j - 2, prior);
      OneofDefault(fields[j - 2]);
      OneofDefault(fields[j - 1]);
    }
  }

  /** Anything that can be encoded fits into a struct that has been reset. */
  lemma {:induction false} DefaultsMergeable(fields: seq<Field>, prior: seq<Slot>, m: seq<Slot>)
    requires ValidTable(fields) && Encodable(fields, m)
    ensures Mergeable(fields, Defaults(fields, prior), m)
    decreases fields
  {
    hide EncodableSlot, MergeableSlot, DefaultSlot, DefaultsUpTo;
    var d := Defaults(fields, prior);
    forall i | 0 <= i < |fields|
      ensures var k := SlotOf(fields, i);
        k < |d| && MergeableSlot(fields[i], d[k], m[k]) && Releasable(fields, fields[i], d[k])
    {
      DefaultsAt(fields, |fields|, i, prior);
      DefaultSlotMergeable(fields[i], PriorSlot(prior, SlotOf(fields, i)), m[SlotOf(fields, i)]);
      if fields[i].htype.Oneof? { OneofDefault(fields[i]); }
    }
  }

  lemma {:induction false} DefaultSlotMergeable(f: Field, p: Slot, b: Slot)
    requires ValidField(f) && EncodableSlot(f, b)
    ensures MergeableSlot(f, DefaultSlot(f, p), b)
    decreases f, 1
  {
    hide EncodableValue, MergeableValue, Cells;
    match b
    case SOne(y) => if EncodableValue(f, y) { FreshMergeable(f, Contents(p), y); } else { assert !f.htype.Required?; }
    case SOpt(has, y) => if has { FreshMergeable(f, Contents(p), y); }
    case _ =>
  }

  lemma {:induction false} FreshMergeable(f: Field, x: Value, y: Value)
    requires ValidField(f) && EncodableValue(f, y)
    ensures MergeableValue(f, ElementBase(f, x), y) && MergeableValue(f, DefaultValue(f, x), y)
    decreases f, 0
  {
    if y.VMsg? {
      DefaultsMergeable(f.ltype.fields, SlotsIn(x), y.slots);
    }
  }

  // ---------- Whole messages ----------

  lemma {:induction false} ValueMerges(f: Field, x: Value, y: Value)
    requires ValidField(f) && EncodableValue(f, y) && MergeableValue(f, MergeBase(f, x), y)
    requires EncodeValue(f, y).Some? && ShortValue(f, y)
    ensures DecodeValue(f, x, EncodeValue(f, y).value) == Ok(MergeValue(f, MergeBase(f, x), y), [])
    decreases f, 0
  {
    hide DecodeScalar, EncodeScalar, DecodeBlob, ReadDelimited, DecodeNoInit;
    var e := EncodeValue(f, y).value;
    match y
    case VInt(n) =>
      ScalarRoundTrip(f, n, []);
      assert e + [] == e;
    case VBytes(data) =>
      BlobRoundTrip(f, data);
    case VMsg(slots) =>
      var sub := f.ltype.fields;
      var payload := Encode(sub, slots).value;
      DelimitedRoundTrip(payload, []);
      assert Delimited(payload) + [] == e;
      MessageMerges(sub, MergeBase(f, x).slots, slots);
  }

  lemma {:induction false} MessageMerges(fields: seq<Field>, m1: seq<Slot>, m2: seq<Slot>)
    requires ValidTable(fields) && Encodable(fields, m2) && Mergeable(fields, m1, m2)
    requires Encode(fields, m2).Some? && Short(fields, m2)
    ensures DecodeNoInit(fields, m1, Encode(fields, m2).value) == Ok(MergeMsg(fields, m1, m2), [])
    decreases fields, |fields| + 1
  {
    PrefixMerges(fields, |fields|, m1, m2);
  }

  lemma {:induction false} PrefixMerges(fields: seq<Field>, i: nat, m1: seq<Slot>, m2: seq<Slot>)
    requires i <= |fields| && ValidTable(fields) && Encodable(fields, m2) && Mergeable(fields, m1, m2)
    requires EncodeUpTo(fields, i, m2).Some? && Short(fields, m2)
    ensures var o := DecodeLoop(fields, Start(m1), EncodeUpTo(fields, i, m2).value);
      && o.Done? && o.rest == [] && !o.terminated && o.st.m == MergeUpTo(fields, i, m1, m2)
      && FixedComplete(fields, o.st) && (o.st.fixedField.Some? ==> o.st.fixedField.value < i)
      && SeenUpTo(RequiredIndex(fields, i), o.st.seen)
    decreases fields, i, 0
  {
    hide DecodeLoop, EncodeField, MergeSlot, EncodableSlot, MergeableSlot, ShortSlot, Mark, FixedComplete, SeenUpTo;
    hide Encodable, Mergeable, Short, ValidTable, Emits, Releasable, RequiredIndex;
    if i > 0 {
      var k := SlotOf(fields, i - 1);
      SlotInRange(fields, i - 1);
      MergeableShape(fields, m1, m2);
      SlotReady(fields, i - 1, m1, m2);
      PrefixMerges(fields, i - 1, m1, m2);
      var e1, e2 := EncodeUpTo(fields, i - 1, m2).value, EncodeField(fields[i - 1], m2[k]).value;
      var st := DecodeLoop(fields, Start(m1), e1).st;
      assert EncodeUpTo(fields, i, m2).value == e1 + e2;
      LoopSegment(fields, Start(m1), e1, e2);
      if Emits(fields[i - 1], m2[k]) {
        Untouched(fields, i - 1, i - 1, m1, m2);
      } else {
        MergeSlotSkips(fields[i - 1], st.m[k], m2[k]);
      }
      FieldMerges(fields, i - 1, st, m1[k], m2[k]);
      MarkTracks(fields, i, st.seen);
    } else {
      LoopEnd(fields, Start(m1));
      NothingYet(fields, m1);
    }
  }

  lemma NothingYet(fields: seq<Field>, m: seq<Slot>)
    ensures FixedComplete(fields, Start(m)) && SeenUpTo(RequiredIndex(fields, 0), Start(m).seen)
  {
  }

  lemma SlotReady(fields: seq<Field>, i: nat, m1: seq<Slot>, m2: seq<Slot>)
    requires i < |fields| && Encodable(fields, m2) && Mergeable(fields, m1, m2) && Short(fields, m2)
    ensures var k := SlotOf(fields, i);
      && k < |m1| == |m2| && ShortSlot(fields[i], m2[k]) && EncodableSlot(fields[i], m2[k])
      && MergeableSlot(fields[i], m1[k], m2[k]) && (Emits(fields[i], m2[k]) ==> Releasable(fields, fields[i], m1[k]))
  {
  }

  predicate SeenUpTo(n: nat, seen: set<nat>) {
    forall k: nat :: k < n && k < PB_MAX_REQUIRED_FIELDS ==> k in seen
  }

  lemma MarkTracks(fields: seq<Field>, i: nat, seen: set<nat>)
    requires 0 < i <= |fields| && SeenUpTo(RequiredIndex(fields, i - 1), seen)
    ensures SeenUpTo(RequiredIndex(fields, i), Mark(fields, i - 1, seen))
  {
  }

  lemma MergeSlotSkips(f: Field, a: Slot, b: Slot)
    requires !Emits(f, b)
    ensures MergeSlot(f, a, b) == a
  {
  }

  /** What decoding the encoding of one field must leave behind. */
  predicate FieldDone(fields: seq<Field>, i: nat, st: DState, m: seq<Slot>, o: Outcome)
    requires i < |fields|
  {
    && o.Done? && o.rest == [] && !o.terminated
    && o.st.m == m && o.st.seen == Mark(fields, i, st.seen)
    && FixedComplete(fields, o.st) && (o.st.fixedField.Some? ==> o.st.fixedField.value <= i)
  }

  lemma {:induction false} FieldMerges(fields: seq<Field>, i: nat, st: DState, a: Slot, b: Slot)
    requires ValidTable(fields) && i < |fields| && SlotOf(fields, i) < |st.m|
    requires EncodableSlot(fields[i], b) && MergeableSlot(fields[i], a, b)
    requires Emits(fields[i], b) ==> st.m[SlotOf(fields, i)] == a && Releasable(fields, fields[i], a)
    requires EncodeField(fields[i], b).Some? && ShortSlot(fields[i], b)
    requires FixedComplete(fields, st) && (st.fixedField.Some? ==> st.fixedField.value < i)
    ensures FieldDone(fields, i, st,
      if Emits(fields[i], b) then st.m[SlotOf(fields, i) := MergeSlot(fields[i], a, b)] else st.m,
      DecodeLoop(fields, st, EncodeField(fields[i], b).value))
    decreases fields, i, 1, 0
  {
    hide DecodeLoop, EncodeTagged, EncodeArray, MergeValue, MergeItems, EncodableValue, MergeableValue, ShortValue,
        ValidTable, ValidField;
    hide Mark;
    var f := fields[i];
    LoopEnd(fields, st);
    match (f.htype, b)
    case (Required, SOne(y)) => SingularMerges(fields, i, st, a.v, y);
    case (Optional, SOne(y)) =>
      if !IsDefaultValue(f, y) { SingularMerges(fields, i, st, a.v, y); } else { NotRequired(fields, i, st); }
    case (Optional, SOpt(has, y)) =>
      if has { SingularMerges(fields, i, st, a.v, y); } else { NotRequired(fields, i, st); }
    case (Repeated, SRep(ys, _)) => ArrayMerges(fields, i, st, a, b);
    case (Oneof, SOneof(which, y)) =>
      if which == f.tag { OneofMerges(fields, i, st, a.which, a.v, y); } else { NotRequired(fields, i, st); }
  }

  lemma NotRequired(fields: seq<Field>, i: nat, st: DState)
    requires i < |fields| && !fields[i].htype.Required?
    ensures Mark(fields, i, st.seen) == st.seen
  {
  }

  lemma {:induction false} SingularMerges(fields: seq<Field>, i: nat, st: DState, x: Value, y: Value)
    requires ValidTable(fields) && i < |fields| && SlotOf(fields, i) < |st.m|
    requires EncodableValue(fields[i], y) && MergeableValue(fields[i], x, y)
    requires fields[i].htype.Required? || fields[i].htype.Optional?
    requires EncodeTagged(fields[i], y).Some? && ShortValue(fields[i], y)
    requires FixedComplete(fields, st) && (st.fixedField.Some? ==> st.fixedField.value < i)
    requires var slot := st.m[SlotOf(fields, i)];
      (slot.SOne? && slot.v == x) || (fields[i].htype.Optional? && slot.SOpt? && slot.v == x)
    ensures FieldDone(fields, i, st,
      st.m[SlotOf(fields, i) :=
        var v := MergeValue(fields[i], x, y); if st.m[SlotOf(fields, i)].SOne? then SOne(v) else SOpt(true, v)],
      DecodeLoop(fields, st, EncodeTagged(fields[i], y).value))
    decreases fields, i, 0, 0
  {
    hide DecodeLoop, DecodeValue, EncodeValue, EncodeTag, MergeValue, EncodableValue, MergeableValue, ShortValue,
        ValidTable, ValidField, Mark;
    var f := fields[i];
    ValidAt(fields, i);
    var e := EncodeValue(f, y).value;
    ValueMerges(f, x, y);
    OneRecord(fields, i, st, WireTypeOf(f.ltype), e);
    var k := if st.fixedField == Some(i) then st.fixedSize else 0;
    var r := DecodeField(f, st.m[SlotOf(fields, i)], k, WireTypeOf(f.ltype), e);
    LoopEnd(fields, Stored(fields, i, st, r.value.0, r.value.1));
  }

  lemma {:induction false} OneofMerges(fields: seq<Field>, i: nat, st: DState, w: nat, x: Value, y: Value)
    requires ValidTable(fields) && i < |fields| && SlotOf(fields, i) < |st.m|
    requires fields[i].htype.Oneof? && st.m[SlotOf(fields, i)] == SOneof(w, x)
    requires Releasable(fields, fields[i], SOneof(w, x))
    requires EncodableValue(fields[i], y) && (w == fields[i].tag ==> MergeableValue(fields[i], x, y))
    requires EncodeTagged(fields[i], y).Some? && ShortValue(fields[i], y)
    requires FixedComplete(fields, st) && (st.fixedField.Some? ==> st.fixedField.value < i)
    ensures FieldDone(fields, i, st,
      st.m[SlotOf(fields, i) := MergeSlot(fields[i], SOneof(w, x), SOneof(fields[i].tag, y))],
      DecodeLoop(fields, st, EncodeTagged(fields[i], y).value))
    decreases fields, i, 0, 0
  {
    hide DecodeLoop, DecodeValue, EncodeValue, EncodeTag, MergeValue, EncodableValue, MergeableValue, ShortValue,
        ValidTable, ValidField, Mark;
    var f := fields[i];
    ValidAt(fields, i);
    var e := EncodeValue(f, y).value;
    var base := if f.ltype.LSubmessage? && w != f.tag then UnionBase(f) else x;
    FreshMergeable(f, ZeroItem(f), y);
    if !f.ltype.LSubmessage? { BaseIrrelevant(f, x, UnionBase(f), y); }
    ValueMerges(f, base, y);
    OneRecord(fields, i, st, WireTypeOf(f.ltype), e);
    var k := if st.fixedField == Some(i) then st.fixedSize else 0;
    var r := DecodeField(f, st.m[SlotOf(fields, i)], k, WireTypeOf(f.ltype), e);
    LoopEnd(fields, Stored(fields, i, st, r.value.0, r.value.1));
  }

  /** Only submessages look at what they are merged into. */
  lemma BaseIrrelevant(f: Field, x: Value, x': Value, y: Value)
    requires !f.ltype.LSubmessage?
    ensures MergeableValue(f, x, y) && MergeValue(f, x, y) == MergeValue(f, x', y)
  {
  }

  lemma {:induction false} ArrayMerges(fields: seq<Field>, i: nat, st: DState, a: Slot, b: Slot)
    requires ValidTable(fields) && i < |fields| && SlotOf(fields, i) < |st.m|
    requires fields[i].htype.Repeated? && st.m[SlotOf(fields, i)] == a && a.SRep? && b.SRep?
    requires EncodableSlot(fields[i], b) && MergeableSlot(fields[i], a, b)
    requires EncodeArray(fields[i], b.items).Some? && ShortSlot(fields[i], b)
    requires FixedComplete(fields, st) && (st.fixedField.Some? ==> st.fixedField.value < i)
    ensures FieldDone(fields, i, st,
      st.m[SlotOf(fields, i) := MergeSlot(fields[i], a, b)],
      DecodeLoop(fields, st, EncodeArray(fields[i], b.items).value))
    decreases fields, i, 0, |b.items| + 1
  {
    hide DecodeLoop, EncodableValue, ShortValue, EncodeTaggedItems, EncodePacked, EncodeTag, PutAll, MergeItems;
    hide ValidTable, ValidField, Mark, Grown, CellsFrom, MergeSlot;
    var f, ys := fields[i], b.items;
    NotRequired(fields, i, st);
    var zs := MergeItems(f, CellsFrom(a, ArrayPos(fields, i, st, a)), ys);
    MergedArray(f, a, b);
    if ys == [] {
      LoopEnd(fields, st);
    } else {
      if Packable(f.ltype) {
        PackedArray(fields, i, st, a, ys);
      } else {
        TaggedItems(fields, i, st, a, ys);
      }
      ExtendedDone(fields, i, st, a, zs);
    }
  }

  /** Adding the merged elements, one position after the other, is the reference merge of the array. */
  lemma MergedArray(f: Field, a: Slot, b: Slot)
    requires f.htype.Repeated? && a.SRep? && b.SRep? && MergeableSlot(f, a, b) && EncodableSlot(f, b)
    ensures var pos := if FixedCount(f) then 0 else |a.items|;
      MergeSlot(f, a, b) == Grown(a, PutAll(a.items, pos, MergeItems(f, CellsFrom(a, pos), b.items)))
    ensures b.items == [] ==> MergeSlot(f, a, b) == a
  {
    hide PutAll, MergeItems, EncodableValue, Grown;
    var xs, spare, ys := a.items, a.spare, b.items;
    assert xs + [] == xs && [] + xs == xs;
    assert CellsFrom(a, 0) == xs + spare && CellsFrom(a, |xs|) == spare;
    GrownSelf(a);
    if FixedCount(f) {
      var zs := MergeItems(f, xs + spare, ys);
      assert |zs| == |xs|;
      PutAllReplaces(xs, 0, zs);
      assert xs[..0] + zs == zs;
      assert ys == [] ==> zs == xs;
    } else {
      PutAllAppends(xs, MergeItems(f, spare, ys));
      assert ys == [] ==> xs + MergeItems(f, spare, ys) == xs;
    }
  }

  lemma ExtendedDone(fields: seq<Field>, i: nat, st: DState, a: Slot, zs: seq<Value>)
    requires ArrayReady(fields, i, st, a, |zs|) && zs != []
    requires FixedComplete(fields, st) && (st.fixedField.Some? ==> st.fixedField.value < i)
    requires FixedCount(fields[i]) ==> |zs| == fields[i].arraySize
    ensures var pos := ArrayPos(fields, i, st, a);
      FieldDone(fields, i, st, st.m[SlotOf(fields, i) := Grown(a, PutAll(a.items, pos, zs))],
                Done(Extended(fields, i, st, a, zs), [], false))
  {
    hide PutAll;
  }

  /** A packed record. */
  lemma PackedArray(fields: seq<Field>, i: nat, st: DState, a: Slot, ys: seq<Value>)
    requires ValidTable(fields) && ArrayReady(fields, i, st, a, |ys|)
    requires ys != [] && Packable(fields[i].ltype) && forall j :: 0 <= j < |ys| ==> EncodableValue(fields[i], ys[j])
    requires EncodeArray(fields[i], ys).Some? && ShortSlot(fields[i], SRep(ys, []))
    ensures DecodeLoop(fields, st, EncodeArray(fields[i], ys).value) ==
      Done(Extended(fields, i, st, a, MergeItems(fields[i], CellsFrom(a, ArrayPos(fields, i, st, a)), ys)), [], false)
  {
    hide DecodeLoop, DecodePacked, EncodePacked, PutAll, EncodeTag, ReadDelimited, ValidTable, MergeItems;
    hide ValidField, Mark, Grown, ScalarFits;
    var f := fields[i];
    var payload := EncodePacked(f, ys).value;
    var pos := ArrayPos(fields, i, st, a);
    assert ScalarItems(f, ys);
    MergeScalarItems(f, CellsFrom(a, pos), ys);
    PackedRoundTrip(f, a.items, pos, ys);
    DelimitedRoundTrip(payload, []);
    assert Delimited(payload) + [] == Delimited(payload);
    OneRecord(fields, i, st, WT_STRING, Delimited(payload));
    LoopEnd(fields, Extended(fields, i, st, a, ys));
  }

  /** Elements that cannot be packed, one record each. */
  lemma {:induction false} TaggedItems(fields: seq<Field>, i: nat, st: DState, a: Slot, ys: seq<Value>)
    requires ValidTable(fields) && ArrayReady(fields, i, st, a, |ys|)
    requires !Packable(fields[i].ltype) && forall j :: 0 <= j < |ys| ==> EncodableValue(fields[i], ys[j])
    requires EncodeTaggedItems(fields[i], ys).Some? && forall j :: 0 <= j < |ys| ==> ShortValue(fields[i], ys[j])
    ensures DecodeLoop(fields, st, EncodeTaggedItems(fields[i], ys).value) ==
      Done(Extended(fields, i, st, a, MergeItems(fields[i], CellsFrom(a, ArrayPos(fields, i, st, a)), ys)), [], false)
    decreases fields, i, 0, |ys|
  {
    hide DecodeLoop, EncodeTagged, ValidTable, EncodableValue, ShortValue, MergeValue, ElementBase, Mark;
    var f := fields[i];
    if ys == [] {
      LoopEnd(fields, st);
    } else {
      var pos := ArrayPos(fields, i, st, a);
      var cells := CellsFrom(a, pos);
      var z := MergeValue(f, ElementBase(f, CellAt(a, pos)), ys[0]);
      var zs := MergeItems(f, Drop(cells, 1), ys[1..]);
      var e1, e2 := EncodeTagged(f, ys[0]).value, EncodeTaggedItems(f, ys[1..]).value;
      TaggedItem(fields, i, st, a, ys[0]);
      var a' := Grown(a, Put(a.items, pos, z));
      var st' := Stored(fields, i, st, a', pos + 1);
      LoopSegment(fields, st, e1, e2);
      CellsAdvance(a, pos, z);
      ExtendedStep(fields, i, st, a, z, zs);
      TaggedItems(fields, i, st', a', ys[1..]);
      assert MergeItems(f, cells, ys) == [z] + zs;
    }
  }

  /** The cell after the one just filled is the next one of the array as it was. */
  lemma CellsAdvance(a: Slot, pos: nat, z: Value)
    requires a.SRep? && pos <= |a.items|
    ensures CellsFrom(Grown(a, Put(a.items, pos, z)), pos + 1) == Drop(CellsFrom(a, pos), 1)
    ensures CellAt(a, pos) == if CellsFrom(a, pos) == [] then VInt(0) else CellsFrom(a, pos)[0]
  {
    var all := a.items + a.spare;
    if pos < |a.items| {
      assert all[pos..][1..] == all[pos + 1..];
      assert (a.items[pos := z] + a.spare)[pos + 1..] == all[pos + 1..];
    } else {
      assert all[pos..] == a.spare;
      assert (a.items + [z] + Drop(a.spare, 1))[pos + 1..] == Drop(a.spare, 1);
    }
  }

  lemma ExtendedStep(fields: seq<Field>, i: nat, st: DState, a: Slot, z: Value, zs: seq<Value>)
    requires ArrayReady(fields, i, st, a, |zs| + 1)
    ensures var pos := ArrayPos(fields, i, st, a);
      var a' := Grown(a, Put(a.items, pos, z));
      var st' := Stored(fields, i, st, a', pos + 1);
      && ArrayReady(fields, i, st', a', |zs|) && ArrayPos(fields, i, st', a') == pos + 1
      && Extended(fields, i, st', a', zs) == Extended(fields, i, st, a, [z] + zs)
  {
    hide PutAll, Grown, Mark, FixedComplete;
    var pos := ArrayPos(fields, i, st, a);
    var items := Put(a.items, pos, z);
    PutAllFirst(a.items, pos, z, zs);
    PutAllGrows(items, pos + 1, zs);
    GrownTwice(a, items, PutAll(items, pos + 1, zs));
    StoredTwice(fields, i, st, Grown(a, items), pos + 1, Grown(a, PutAll(items, pos + 1, zs)), pos + 1 + |zs|);
  }

  lemma PutAllFirst(items: seq<Value>, pos: nat, z: Value, zs: seq<Value>)
    ensures PutAll(items, pos, [z] + zs) == PutAll(Put(items, pos, z), pos + 1, zs)
    ensures zs == [] ==> PutAll(items, pos, [z] + zs) == Put(items, pos, z)
  {
    assert ([z] + zs)[1..] == zs;
  }

  lemma StoredTwice(fields: seq<Field>, i: nat, st: DState, a: Slot, k: nat, a': Slot, k': nat)
    requires i < |fields| && SlotOf(fields, i) < |st.m|
    ensures Stored(fields, i, Stored(fields, i, st, a, k), a', k') == Stored(fields, i, st, a', k')
  {
  }

  lemma {:induction false} PutAllGrows(items: seq<Value>, pos: nat, vs: seq<Value>)
    ensures |PutAll(items, pos, vs)| >= |items|
    decreases |vs|
  {
    if vs != [] {
      PutAllGrows(Put(items, pos, vs[0]), pos + 1, vs[1..]);
    }
  }

  lemma {:induction false} TaggedItem(fields: seq<Field>, i: nat, st: DState, a: Slot, y: Value)
    requires ValidTable(fields) && ArrayReady(fields, i, st, a, 1)
    requires !Packable(fields[i].ltype) && EncodableValue(fields[i], y)
    requires EncodeTagged(fields[i], y).Some? && ShortValue(fields[i], y)
    ensures var pos := ArrayPos(fields, i, st, a);
      var z := MergeValue(fields[i], ElementBase(fields[i], CellAt(a, pos)), y);
      DecodeLoop(fields, st, EncodeTagged(fields[i], y).value) ==
        Done(Stored(fields, i, st, Grown(a, Put(a.items, pos, z)), pos + 1), [], false)
    decreases fields, i, 0, 0
  {
    hide DecodeLoop, DecodeValue, EncodeValue, EncodeTag, MergeValue, EncodableValue, MergeableValue, ShortValue,
         ValidTable, ValidField, Mark, ElementBase, Put, Grown, CellAt, Packable;
    var f := fields[i];
    ValidAt(fields, i);
    var cell := CellAt(a, ArrayPos(fields, i, st, a));
    FreshMergeable(f, cell, y);
    var e := EncodeValue(f, y).value;
    ValueMerges(f, cell, y);
    OneRecord(fields, i, st, WireTypeOf(f.ltype), e);
    var k := if st.fixedField == Some(i) then st.fixedSize else 0;
    var r := DecodeField(f, st.m[SlotOf(fields, i)], k, WireTypeOf(f.ltype), e);
    LoopEnd(fields, Stored(fields, i, st, r.value.0, r.value.1));
  }

  lemma {:induction false} Untouched(fields: seq<Field>, j: nat, i: nat, m1: seq<Slot>, m2: seq<Slot>)
    requires j <= i < |fields| && ValidTable(fields) && Encodable(fields, m2) && Mergeable(fields, m1, m2)
    requires Emits(fields[i], m2[SlotOf(fields, i)])
    ensures MergeUpTo(fields, j, m1, m2)[SlotOf(fields, i)] == m1[SlotOf(fields, i)]
    decreases j
  {
    hide MergeSlot, Encodable, Mergeable, ValidTable;
    if j > 0 {
      var k := SlotOf(fields, i);
      Untouched(fields, j - 1, i, m1, m2);
      SlotOfMonotone(fields, j - 1, i);
      SlotInRange(fields, i);
      MergeableShape(fields, m1, m2);
      if SlotOf(fields, j - 1) == k {
        OneofSlot(fields, i, m2);
        DistinctTags(fields, j - 1, i);
        MergeSlotSkips(fields[j - 1], MergeUpTo(fields, j - 1, m1, m2)[k], m2[k]);
      }
    }
  }

  lemma MergeableShape(fields: seq<Field>, m1: seq<Slot>, m2: seq<Slot>)
    requires Mergeable(fields, m1, m2)
    ensures |m1| == |m2| == NumSlots(fields)
  {
  }

  lemma DistinctTags(fields: seq<Field>, i: nat, j: nat)
    requires ValidTable(fields) && i < j < |fields|
    ensures fields[i].tag != fields[j].tag
  {
  }

  lemma OneofSlot(fields: seq<Field>, i: nat, m: seq<Slot>)
    requires i < |fields| && fields[i].htype.Oneof? && Encodable(fields, m)
    ensures SlotOf(fields, i) < |m| && m[SlotOf(fields, i)].SOneof?
  {
  }

  // ---------- Main results ----------

  /** Every struct the table describes encodes without an error. */
  lemma {:induction false} EncodableSucceeds(fields: seq<Field>, i: nat, m: seq<Slot>)
    requires i <= |fields| && ValidTable(fields) && Encodable(fields, m)
    ensures EncodeUpTo(fields, i, m).Some?
    decreases fields, i
  {
    hide EncodableSlot, EncodeField, ValidTable, Encodable;
    if i > 0 {
      EncodableSucceeds(fields, i - 1, m);
      EncodableAt(fields, i - 1, m);
      ValidAt(fields, i - 1);
      FieldSucceeds(fields[i - 1], m[SlotOf(fields, i - 1)]);
    }
  }

  lemma EncodableAt(fields: seq<Field>, i: nat, m: seq<Slot>)
    requires i < |fields| && Encodable(fields, m)
    ensures SlotOf(fields, i) < |m| && EncodableSlot(fields[i], m[SlotOf(fields, i)])
  {
  }

  lemma {:induction false} FieldSucceeds(f: Field, slot: Slot)
    requires ValidField(f) && EncodableSlot(f, slot)
    ensures EncodeField(f, slot).Some?
    decreases f, 2
  {
    hide EncodableValue, EncodeValue, EncodePacked, EncodeTaggedItems;
    match (f.htype, slot)
    case (Required, SOne(v)) => ValueSucceeds(f, v);
    case (Optional, SOne(v)) => if EncodableValue(f, v) { ValueSucceeds(f, v); }
    case (Optional, SOpt(has, v)) => if has { ValueSucceeds(f, v); }
    case (Repeated, SRep(items, _)) =>
      if Packable(f.ltype) { PackedSucceeds(f, items); } else { TaggedItemsSucceed(f, items); }
    case (Oneof, SOneof(which, v)) => if which == f.tag { ValueSucceeds(f, v); }
  }

  lemma {:induction false} PackedSucceeds(f: Field, items: seq<Value>)
    requires Packable(f.ltype) && forall j :: 0 <= j < |items| ==> EncodableValue(f, items[j])
    ensures EncodePacked(f, items).Some?
    decreases |items|
  {
    if items != [] {
      ScalarRoundTrip(f, items[0].n, []);
      PackedSucceeds(f, items[1..]);
    }
  }

  lemma {:induction false} TaggedItemsSucceed(f: Field, items: seq<Value>)
    requires ValidField(f) && forall j :: 0 <= j < |items| ==> EncodableValue(f, items[j])
    ensures EncodeTaggedItems(f, items).Some?
    decreases f, 1, |items|
  {
    hide EncodableValue, EncodeValue;
    if items != [] {
      ValueSucceeds(f, items[0]);
      TaggedItemsSucceed(f, items[1..]);
    }
  }

  lemma {:induction false} ValueSucceeds(f: Field, v: Value)
    requires ValidField(f) && EncodableValue(f, v)
    ensures EncodeValue(f, v).Some?
    decreases f, 0
  {
    match v
    case VInt(n) => ScalarRoundTrip(f, n, []);
    case VBytes(_) =>
    case VMsg(slots) => EncodableSucceeds(f.ltype.fields, |f.ltype.fields|, slots);
  }

  /** Round trip: pb_decode reads back what pb_encode wrote, to the last byte, as the message merged
      into a fresh struct. */
  lemma EncodeDecode(fields: seq<Field>, prior: seq<Slot>, m: seq<Slot>)
    requires ValidTable(fields) && Encodable(fields, m)
    ensures Encode(fields, m).Some?
    ensures Short(fields, m) ==>
      Decode(fields, prior, Encode(fields, m).value) == Ok(MergeMsg(fields, Defaults(fields, prior), m), [])
  {
    EncodableSucceeds(fields, |fields|, m);
    DefaultsMergeable(fields, prior, m);
    if Short(fields, m) {
      MessageMerges(fields, Defaults(fields, prior), m);
    }
  }
}
