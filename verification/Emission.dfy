/** What the encoder emits, as a reader sees it who knows the encoding but not the codec: which records, in
    which order, under which numbers and wire types, with which payloads. */
module Emission {
  import opened Words
  import opened Parsing
  import opened Varints
  import opened Wire
  import opened Schema
  import opened EncoderSpec
  import opened Merge
  import opened RoundTrip
  import opened WireFormat

  // ---------- Which records show a struct ----------

  /** bool, int32 and int64, uint32 and uint64, sint32 and sint64, fixed32 and fixed64. */
  predicate ShowsScalar(t: LType, n: int, p: Payload) {
    match t
    case LBool => p.Number? && p.n == n
    case LVarint => p.Number? && p.n == if n < 0 then n + 0x1_0000_0000_0000_0000 else n
    case LUVarint => p.Number? && p.n == n
    case LSVarint => p.Number? && p.n == if n < 0 then -2 * n - 1 else 2 * n
    case LFixed32 => p.Bits32? && p.n == n
    case LFixed64 => p.Bits64? && p.n == n
    case _ => false
  }

  /** The wire type of one scalar: also how it lies in a packed run. */
  function ScalarForm(t: LType): nat {
    if t.LFixed32? then 5 else if t.LFixed64? then 1 else 0
  }

  predicate ShowsPacked(t: LType, items: seq<Value>, run: seq<byte>)
    decreases |items|
  {
    if items == [] then run == []
    else
      var r := ReadPayload(ScalarForm(t), run);
      items[0].VInt? && r.Ok? && ShowsScalar(t, items[0].n, r.value) && ShowsPacked(t, items[1..], r.rest)
  }

  /** A string is the characters up to its terminator, or as many as its buffer has. */
  predicate ShowsString(chars: seq<byte>, size: nat, data: seq<byte>) {
    && data <= chars && |data| <= size && 0 !in data
    && (|data| == |chars| || |data| == size || chars[|data|] == 0)
  }

  predicate ShowsValue(f: Field, v: Value, p: Payload)
    decreases f, 0
  {
    match v
    case VInt(n) => ShowsScalar(f.ltype, n, p)
    case VBytes(data) => p.Bytes? && if f.ltype.LString? then ShowsString(data, f.dataSize, p.data) else p.data == data
    case VMsg(slots) =>
      && f.ltype.LSubmessage? && p.Bytes? && ReadItems(p.data).Some?
      && ShowsUpTo(f.ltype.fields, |f.ltype.fields|, slots, ReadItems(p.data).value)
  }

  /** The value of a field without presence that is not shown: zero, nothing, or a message that would itself
      show nothing (one with a union set or a fixed-count array never counts as that). */
  predicate Empty(f: Field, v: Value)
    decreases f, 0
  {
    match v
    case VInt(n) => n == 0
    case VBytes(data) => if f.ltype.LString? then data == [] || data[0] == 0 else data == []
    case VMsg(slots) =>
      f.ltype.LSubmessage? &&
      var sub := f.ltype.fields;
      && NumItems(sub, |sub|, slots) == 0
      && forall i :: 0 <= i < |sub| && SlotOf(sub, i) < |slots| ==>
           && !FixedCount(sub[i])
           && (sub[i].htype.Oneof? && slots[SlotOf(sub, i)].SOneof? ==> slots[SlotOf(sub, i)].which == 0)
  }

  /** How many records show a field. */
  function ItemCount(f: Field, slot: Slot): nat
    decreases f, 1
  {
    match slot
    case SOne(v) => if f.htype.Required? || !Empty(f, v) then 1 else 0
    case SOpt(has, _) => if has then 1 else 0
    case SRep(items, _) => if Packable(f.ltype) && items != [] then 1 else |items|
    case SOneof(which, _) => if which == f.tag then 1 else 0
  }

  function NumItems(fields: seq<Field>, i: nat, m: seq<Slot>): nat
    requires i <= |fields|
    decreases fields, i
  {
    if i == 0 then 0
    else
      var at := SlotOf(fields, i - 1);
      NumItems(fields, i - 1, m) + if at < |m| then ItemCount(fields[i - 1], m[at]) else 0
  }

  predicate ShowsField(f: Field, slot: Slot, items: seq<Item>)
    decreases f, 1
  {
    && |items| == ItemCount(f, slot)
    && (forall j :: 0 <= j < |items| ==> items[j].number == f.tag)
    && match slot
       case SOne(v) => items != [] ==> ShowsValue(f, v, items[0].payload)
       case SOpt(_, v) => items != [] ==> ShowsValue(f, v, items[0].payload)
       case SOneof(_, v) => items != [] ==> ShowsValue(f, v, items[0].payload)
       case SRep(vs, _) =>
         if Packable(f.ltype) then
           items != [] ==> items[0].payload.Bytes? && ShowsPacked(f.ltype, vs, items[0].payload.data)
         else forall j :: 0 <= j < |items| ==> ShowsValue(f, vs[j], items[j].payload)
  }

  /** The fields one after the other, in the order of the table. */
  predicate ShowsUpTo(fields: seq<Field>, i: nat, m: seq<Slot>, items: seq<Item>)
    requires i <= |fields|
    decreases fields, i
  {
    if i == 0 then items == []
    else
      var at := SlotOf(fields, i - 1);
      at < |m| &&
      var n := |items| - ItemCount(fields[i - 1], m[at]);
      n >= 0 && ShowsUpTo(fields, i - 1, m, items[..n]) && ShowsField(fields[i - 1], m[at], items[n..])
  }

  predicate Shows(fields: seq<Field>, m: seq<Slot>, items: seq<Item>) {
    ShowsUpTo(fields, |fields|, m, items)
  }

  // ---------- Payloads ----------

  lemma VarintRead(n: nat, rest: seq<byte>)
    ensures var s := EncodeVarint(n) + rest; VarintLen(s) > 0 && Spelled(s) == n && AfterVarint(s) == rest
  {
    hide EncodeVarint, VarintLen, Groups;
    var e := EncodeVarint(n);
    EncodeVarintGroups(n);
    SpelledAppend(e, rest);
    assert e[..|e|] == e && e[|e|..] + rest == rest;
  }

  /** The four lowest bytes, and what is left above them. */
  lemma Word32Read(n: nat, rest: seq<byte>)
    ensures var s := EncodeFixed(n, 4) + rest;
      Word32(s) + 0x1_0000_0000 * (n / 256 / 256 / 256 / 256) == n && s[4..] == rest
  {
    var e := EncodeFixed(n, 4);
    var n1, n2, n3 := n / 256, n / 256 / 256, n / 256 / 256 / 256;
    assert e[1..] == EncodeFixed(n1, 3) && e[1..][1..] == EncodeFixed(n2, 2) && e[1..][1..][1..] == EncodeFixed(n3, 1);
    assert e == [n % 256, n1 % 256, n2 % 256, n3 % 256];
  }

  lemma Word64Read(n: nat, rest: seq<byte>)
    requires n < WORD64
    ensures var s := EncodeFixed(n, 8) + rest; Word64(s) == n && s[8..] == rest
  {
    hide Word32;
    var high := n / 256 / 256 / 256 / 256;
    var low4, high4 := EncodeFixed(n, 4), EncodeFixed(high, 4);
    FixedHalves(n);
    Word32Read(n, high4 + rest);
    Word32Read(high, rest);
    var s := EncodeFixed(n, 8) + rest;
    assert s == low4 + (high4 + rest);
    assert s[4..][4..] == s[8..];
  }

  function Shifted(n: nat, j: nat): nat {
    if j == 0 then n else Shifted(n / 256, j - 1)
  }

  lemma {:induction false} FixedSplit(n: nat, j: nat, k: nat)
    ensures EncodeFixed(n, j + k) == EncodeFixed(n, j) + EncodeFixed(Shifted(n, j), k)
  {
    if j > 0 {
      FixedSplit(n / 256, j - 1, k);
    }
  }

  lemma FixedHalves(n: nat)
    ensures EncodeFixed(n, 8) == EncodeFixed(n, 4) + EncodeFixed(n / 256 / 256 / 256 / 256, 4)
  {
    hide EncodeFixed;
    FixedSplit(n, 4, 4);
    var a := n / 256;
    var b := a / 256;
    var c := b / 256;
    assert Shifted(n, 4) == Shifted(a, 3) && Shifted(a, 3) == Shifted(b, 2) && Shifted(b, 2) == Shifted(c, 1);
    assert Shifted(c, 1) == Shifted(c / 256, 0);
  }

  lemma ScalarRead(f: Field, n: int, rest: seq<byte>)
    requires ScalarFits(f, n)
    ensures EncodeScalar(f, n).Some?
    ensures var r := ReadPayload(ScalarForm(f.ltype), EncodeScalar(f, n).value + rest);
      r.Ok? && r.rest == rest && ShowsScalar(f.ltype, n, r.value)
  {
    hide EncodeVarint, EncodeFixed, Zigzag, Word32, Word64, VarintLen, Spelled, AfterVarint;
    match f.ltype
    case LBool => VarintRead(n, rest);
    case LVarint =>
      VarintRead(n % WORD64, rest);
      WrapOfSmall(n, WORD64);
    case LUVarint =>
      VarintRead(n % WORD64, rest);
      SmallMod(n, WORD64);
    case LSVarint =>
      ZigzagRoundTrip(n);
      VarintRead(Zigzag(n), rest);
    case LFixed32 =>
      SmallMod(n, WORD32);
      Word32Read(n, rest);
    case LFixed64 =>
      SmallMod(n, WORD64);
      Word64Read(n, rest);
    case _ =>
  }

  lemma {:induction false} PackedRead(f: Field, items: seq<Value>)
    requires Packable(f.ltype) && forall j :: 0 <= j < |items| ==> EncodableValue(f, items[j])
    ensures EncodePacked(f, items).Some? && ShowsPacked(f.ltype, items, EncodePacked(f, items).value)
    decreases |items|
  {
    hide EncodeScalar, ReadPayload, ShowsScalar, ScalarFits;
    if items != [] {
      PackedRead(f, items[1..]);
      ScalarRead(f, items[0].n, EncodePacked(f, items[1..]).value);
    }
  }

  lemma DelimitedRead(payload: seq<byte>)
    ensures ReadPayload(2, Delimited(payload)) == Ok(Bytes(payload), [])
  {
    hide EncodeVarint, VarintLen, Spelled, AfterVarint;
    VarintRead(|payload|, payload);
    assert payload[..|payload|] == payload && payload[|payload|..] == [];
  }

  lemma StringShown(chars: seq<byte>, size: nat)
    ensures ShowsString(chars, size, chars[..StrLen(chars, size)])
  {
    var data := chars[..StrLen(chars, size)];
    assert forall k :: 0 <= k < |data| ==> data[k] == chars[k] != 0;
  }

  /** A record under its tag word: 8 times the field number, plus the wire type. */
  lemma TaggedRead(wireType: nat, tag: nat, e: seq<byte>)
    requires wireType < 8 && ReadPayload(wireType, e).Ok?
    ensures var r := ReadPayload(wireType, e);
      ReadItem(EncodeTag(wireType, tag) + e) == Ok(Item(tag, r.value), r.rest)
  {
    hide EncodeVarint, VarintLen, Spelled, AfterVarint, ReadPayload;
    VarintRead(tag * 8 + wireType, e);
  }

  lemma OneItem(s: seq<byte>, item: Item)
    requires ReadItem(s) == Ok(item, [])
    ensures ReadItems(s) == Some([item])
  {
    hide ReadItem;
    var none: seq<Item> := [];
    assert ReadItems([]) == Some(none) && [item] + none == [item];
  }

  // ---------- Values, fields and messages ----------

  /** The wire type a field goes under on its own. */
  function Form(t: LType): nat {
    if Packable(t) then ScalarForm(t) else 2
  }

  lemma {:induction false} ValueRead(f: Field, v: Value)
    requires ValidField(f) && EncodableValue(f, v)
    ensures EncodeValue(f, v).Some?
    ensures var r := ReadPayload(Form(f.ltype), EncodeValue(f, v).value);
      r.Ok? && r.rest == [] && ShowsValue(f, v, r.value)
    decreases f, 0
  {
    hide EncodeScalar, ReadPayload, ScalarFits, ShowsString, ShowsUpTo, ShowsScalar, Encode;
    match v
    case VInt(n) =>
      ScalarRead(f, n, []);
      assert EncodeScalar(f, n).value + [] == EncodeScalar(f, n).value;
      assert Packable(f.ltype) by { FitsPackable(f, n); }
    case VBytes(data) =>
      if f.ltype.LString? {
        StringShown(data, f.dataSize);
        DelimitedRead(data[..StrLen(data, f.dataSize)]);
      } else {
        DelimitedRead(data);
      }
    case VMsg(slots) =>
      EncodingShows(f.ltype.fields, slots);
      DelimitedRead(Encode(f.ltype.fields, slots).value);
  }

  lemma FitsPackable(f: Field, n: int)
    requires ScalarFits(f, n)
    ensures Packable(f.ltype)
  {
  }

  lemma {:induction false} TaggedShown(f: Field, v: Value)
    requires ValidField(f) && EncodableValue(f, v)
    ensures EncodeTagged(f, v).Some?
    ensures var r := ReadItem(EncodeTagged(f, v).value);
      r.Ok? && r.rest == [] && r.value.number == f.tag && ShowsValue(f, v, r.value.payload)
    ensures ReadItems(EncodeTagged(f, v).value) == Some([ReadItem(EncodeTagged(f, v).value).value])
    decreases f, 1
  {
    hide EncodeValue, ReadPayload, EncodableValue, ShowsValue, EncodeTag, ReadItem;
    ValueRead(f, v);
    assert WireTypeOf(f.ltype) == Form(f.ltype);
    TaggedRead(Form(f.ltype), f.tag, EncodeValue(f, v).value);
    OneItem(EncodeTagged(f, v).value, ReadItem(EncodeTagged(f, v).value).value);
  }

  lemma {:induction false} TaggedItemsShown(f: Field, vs: seq<Value>)
    requires ValidField(f) && forall j :: 0 <= j < |vs| ==> EncodableValue(f, vs[j])
    ensures EncodeTaggedItems(f, vs).Some? && ReadItems(EncodeTaggedItems(f, vs).value).Some?
    ensures var items := ReadItems(EncodeTaggedItems(f, vs).value).value;
      && |items| == |vs|
      && forall j :: 0 <= j < |vs| ==> items[j].number == f.tag && ShowsValue(f, vs[j], items[j].payload)
    decreases f, 2, |vs|
  {
    hide EncodeTagged, EncodableValue, ShowsValue, ReadItem;
    if vs == [] {
      assert ReadItems([]) == Some([]);
    } else {
      TaggedShown(f, vs[0]);
      TaggedItemsShown(f, vs[1..]);
      var a, b := EncodeTagged(f, vs[0]).value, EncodeTaggedItems(f, vs[1..]).value;
      ReadItemsAppend(a, b);
      var items := ReadItems(b).value;
      assert EncodeTaggedItems(f, vs).value == a + b;
      forall j | 0 <= j < |vs|
        ensures var all := ReadItems(a + b).value;
          all[j].number == f.tag && ShowsValue(f, vs[j], all[j].payload)
      {
        if j > 0 { assert vs[1..][j - 1] == vs[j]; }
      }
    }
  }

  lemma {:induction false} FieldShown(f: Field, slot: Slot)
    requires ValidField(f) && EncodableSlot(f, slot)
    ensures EncodeField(f, slot).Some? && ReadItems(EncodeField(f, slot).value).Some?
    ensures ShowsField(f, slot, ReadItems(EncodeField(f, slot).value).value)
    decreases f, 3
  {
    hide EncodeTagged, EncodableValue, ShowsValue, Empty, IsDefaultValue, EncodeTaggedItems, EncodePacked, ShowsPacked,
         EncodeTag, ReadPayload, ReadItem;
    assert ReadItems([]) == Some([]);
    match slot
    case SOne(v) =>
      EmptyExactly(f, v);
      if f.htype.Required? || !IsDefaultValue(f, v) { TaggedShown(f, v); }
    case SOpt(has, v) => if has { TaggedShown(f, v); }
    case SOneof(which, v) => if which == f.tag { TaggedShown(f, v); }
    case SRep(vs, _) =>
      if Packable(f.ltype) && vs != [] {
        PackedRead(f, vs);
        var run := EncodePacked(f, vs).value;
        DelimitedRead(run);
        TaggedRead(2, f.tag, Delimited(run));
        OneItem(EncodeTag(2, f.tag) + Delimited(run), Item(f.tag, Bytes(run)));
      } else {
        TaggedItemsShown(f, vs);
      }
  }

  lemma {:induction false} UpToShown(fields: seq<Field>, i: nat, m: seq<Slot>)
    requires i <= |fields| && ValidTable(fields) && Encodable(fields, m)
    ensures EncodeUpTo(fields, i, m).Some? && ReadItems(EncodeUpTo(fields, i, m).value).Some?
    ensures ShowsUpTo(fields, i, m, ReadItems(EncodeUpTo(fields, i, m).value).value)
    decreases fields, i
  {
    hide EncodeField, ShowsField, Encodable, EncodableSlot, ValidTable, ValidField, ReadItem;
    assert ReadItems([]) == Some([]);
    if i > 0 {
      var f, at := fields[i - 1], SlotOf(fields, i - 1);
      ValidAt(fields, i - 1);
      EncodableAt(fields, i - 1, m);
      UpToShown(fields, i - 1, m);
      FieldShown(f, m[at]);
      var a, b := EncodeUpTo(fields, i - 1, m).value, EncodeField(f, m[at]).value;
      ReadItemsAppend(a, b);
      ShowsCount(f, m[at], ReadItems(b).value);
      var items := ReadItems(a + b).value;
      var n := |items| - ItemCount(f, m[at]);
      assert items[..n] == ReadItems(a).value && items[n..] == ReadItems(b).value;
    }
  }

  lemma ShowsCount(f: Field, slot: Slot, items: seq<Item>)
    requires ShowsField(f, slot, items)
    ensures |items| == ItemCount(f, slot)
  {
  }

  /** Whatever its table and depth, the encoding of a struct is read, by its wire types and lengths alone, as
      exactly the records that show the struct. */
  lemma {:induction false} EncodingShows(fields: seq<Field>, m: seq<Slot>)
    requires ValidTable(fields) && Encodable(fields, m)
    ensures Encode(fields, m).Some? && ReadItems(Encode(fields, m).value).Some?
    ensures Shows(fields, m, ReadItems(Encode(fields, m).value).value)
    decreases fields, |fields| + 1
  {
    UpToShown(fields, |fields|, m);
  }

  /** The standard's own example: field 1, an int32 of 150, is 08 96 01. */
  lemma Int32Example(f: Field, n: int)
    requires f == Field(1, Required, LVarint, 0, 0, 4, 0, None) && n == 150
    ensures EncodeTagged(f, VInt(n)) == Some([0x08, 0x96, 0x01])
  {
    var head: seq<byte>, body: seq<byte> := [0x08], [0x96, 0x01];
    assert EncodeVarint(n) == [n % 128 + 128] + EncodeVarint(n / 128) == body;
    assert EncodeScalar(f, n) == Some(body);
    assert EncodeTag(WireTypeOf(f.ltype), f.tag) == EncodeVarint(8) == head;
    assert head + body == [0x08, 0x96, 0x01];
  }

  // ---------- Empty values ----------

  /** pb_check_proto3_default_value, by what would be shown. */
  lemma {:induction false} EmptyExactly(f: Field, v: Value)
    requires ValidField(f) && (EncodableValue(f, v) || MatchesValue(f, v) || IsDefaultValue(f, v))
    ensures IsDefaultValue(f, v) <==> Empty(f, v)
    decreases f, 0
  {
    hide ScalarFits;
    match v
    case VInt(n) => if EncodableValue(f, v) { FitsPackable(f, n); }
    case VBytes(data) =>
    case VMsg(slots) => MessageEmptyExactly(f.ltype.fields, slots);
  }

  lemma {:induction false} NoItems(fields: seq<Field>, i: nat, m: seq<Slot>)
    requires i <= |fields|
    ensures NumItems(fields, i, m) == 0 <==>
      forall j :: 0 <= j < i && SlotOf(fields, j) < |m| ==> ItemCount(fields[j], m[SlotOf(fields, j)]) == 0
    decreases i
  {
    hide ItemCount, SlotOf;
    if i > 0 {
      NoItems(fields, i - 1, m);
    }
  }

  lemma {:induction false} SlotEmptyExactly(f: Field, slot: Slot)
    requires ValidField(f) && (EncodableSlot(f, slot) || MatchesSlot(f, slot) || IsDefaultSlot(f, slot))
    ensures IsDefaultSlot(f, slot) <==>
      ItemCount(f, slot) == 0 && !FixedCount(f) && (f.htype.Oneof? && slot.SOneof? ==> slot.which == 0)
    decreases f, 1
  {
    hide EncodableValue, MatchesValue, Empty, IsDefaultValue;
    if slot.SOne? && f.htype.Optional? { EmptyExactly(f, slot.v); }
  }

  lemma {:induction false} MessageEmptyExactly(fields: seq<Field>, m: seq<Slot>)
    requires ValidTable(fields)
    requires Encodable(fields, m) || Matches(fields, m) || (|m| == NumSlots(fields) && AllDefault(fields, m))
    ensures |m| == NumSlots(fields)
    ensures AllDefault(fields, m) <==>
      && NumItems(fields, |fields|, m) == 0
      && forall i :: 0 <= i < |fields| && SlotOf(fields, i) < |m| ==>
           && !FixedCount(fields[i])
           && (fields[i].htype.Oneof? && m[SlotOf(fields, i)].SOneof? ==> m[SlotOf(fields, i)].which == 0)
    decreases fields
  {
    hide EncodableSlot, MatchesSlot, IsDefaultSlot, ItemCount, ValidField, NumItems;
    NoItems(fields, |fields|, m);
    forall i | 0 <= i < |fields|
      ensures SlotOf(fields, i) < |m|
      ensures var slot := m[SlotOf(fields, i)]; IsDefaultSlot(fields[i], slot) <==>
        && ItemCount(fields[i], slot) == 0 && !FixedCount(fields[i])
        && (fields[i].htype.Oneof? && slot.SOneof? ==> slot.which == 0)
    {
      SlotInRange(fields, i);
      SlotEmptyExactly(fields[i], m[SlotOf(fields, i)]);
    }
  }

  // ---------- What cannot be encoded ----------

  /** Byte fields within the capacity that four bytes of count leave, arrays within their size. */
  predicate BoundedValue(f: Field, v: Value)
    decreases f, 0
  {
    match v
    case VInt(n) => f.ltype.LSVarint? ==> -0x8000_0000_0000_0000 <= n < 0x8000_0000_0000_0000
    case VBytes(data) => f.ltype.LBytes? ==> |data| + 4 <= f.dataSize
    case VMsg(slots) => f.ltype.LSubmessage? ==> Bounded(f.ltype.fields, slots)
  }

  predicate BoundedSlot(f: Field, slot: Slot)
    decreases f, 1
  {
    match slot
    case SOne(v) => (!f.htype.Required? && Empty(f, v)) || BoundedValue(f, v)
    case SOpt(has, v) => has ==> BoundedValue(f, v)
    case SRep(items, _) =>
      items == [] || (|items| <= f.arraySize && forall j :: 0 <= j < |items| ==> BoundedValue(f, items[j]))
    case SOneof(which, v) => which == f.tag ==> BoundedValue(f, v)
  }

  predicate Bounded(fields: seq<Field>, m: seq<Slot>)
    decreases fields
  {
    forall i :: 0 <= i < |fields| && SlotOf(fields, i) < |m| ==> BoundedSlot(fields[i], m[SlotOf(fields, i)])
  }

  lemma {:induction false} ValueBounded(f: Field, v: Value)
    requires ValidField(f) && MatchesValue(f, v)
    ensures EncodeValue(f, v).Some? <==> BoundedValue(f, v)
    decreases f, 0
  {
    hide Encode, Bounded;
    if v.VMsg? { EncodesExactly(f.ltype.fields, v.slots); }
  }

  lemma {:induction false} PackedBounded(f: Field, vs: seq<Value>)
    requires ValidField(f) && Packable(f.ltype) && forall j :: 0 <= j < |vs| ==> MatchesValue(f, vs[j])
    ensures EncodePacked(f, vs).Some? <==> forall j :: 0 <= j < |vs| ==> BoundedValue(f, vs[j])
    decreases f, 1, |vs|
  {
    hide EncodeScalar, BoundedValue;
    if vs != [] {
      ValueBounded(f, vs[0]);
      PackedBounded(f, vs[1..]);
      assert vs == [vs[0]] + vs[1..];
    }
  }

  lemma {:induction false} TaggedItemsBounded(f: Field, vs: seq<Value>)
    requires ValidField(f) && forall j :: 0 <= j < |vs| ==> MatchesValue(f, vs[j])
    ensures EncodeTaggedItems(f, vs).Some? <==> forall j :: 0 <= j < |vs| ==> BoundedValue(f, vs[j])
    decreases f, 1, |vs|
  {
    hide EncodeValue, BoundedValue, MatchesValue;
    if vs != [] {
      ValueBounded(f, vs[0]);
      TaggedItemsBounded(f, vs[1..]);
      assert vs == [vs[0]] + vs[1..];
    }
  }

  lemma {:induction false} FieldBounded(f: Field, slot: Slot)
    requires ValidField(f) && MatchesSlot(f, slot)
    ensures EncodeField(f, slot).Some? <==> BoundedSlot(f, slot)
    decreases f, 2
  {
    hide EncodeValue, BoundedValue, MatchesValue, Empty, IsDefaultValue, EncodePacked, EncodeTaggedItems;
    match slot
    case SOne(v) =>
      EmptyExactly(f, v);
      ValueBounded(f, v);
    case SOpt(has, v) => if has { ValueBounded(f, v); }
    case SOneof(which, v) => if which == f.tag { ValueBounded(f, v); }
    case SRep(vs, _) => if Packable(f.ltype) { PackedBounded(f, vs); } else { TaggedItemsBounded(f, vs); }
  }

  lemma {:induction false} UpToBounded(fields: seq<Field>, i: nat, m: seq<Slot>)
    requires i <= |fields| && ValidTable(fields) && Matches(fields, m)
    ensures EncodeUpTo(fields, i, m).Some? <==>
      forall j :: 0 <= j < i ==> BoundedSlot(fields[j], m[SlotOf(fields, j)])
    decreases fields, i
  {
    hide EncodeField, BoundedSlot, MatchesSlot, ValidTable, ValidField, SlotOf;
    if i > 0 {
      ValidAt(fields, i - 1);
      MatchesAt(fields, i - 1, m);
      UpToBounded(fields, i - 1, m);
      FieldBounded(fields[i - 1], m[SlotOf(fields, i - 1)]);
    }
  }

  /** A struct of its table's shape is refused exactly when some byte field or array in it is too long. */
  lemma {:induction false} EncodesExactly(fields: seq<Field>, m: seq<Slot>)
    requires ValidTable(fields) && Matches(fields, m)
    ensures Encode(fields, m).Some? <==> Bounded(fields, m)
    decreases fields, |fields| + 1
  {
    hide EncodeUpTo, BoundedSlot, MatchesSlot, ValidTable, SlotOf;
    UpToBounded(fields, |fields|, m);
  }
}
