/** Skipping what the table does not know, and the end of a message. */
module Skipping {
  import opened Words
  import opened Parsing
  import opened Varints
  import opened Wire
  import opened Schema
  import opened EncoderSpec
  import opened DecoderSpec
  import opened Streams
  import opened Merge
  import opened RoundTrip

  /** A payload is skipped exactly if it is all there: under wire type 0 a varint, under 1 eight bytes, under 2
      a length and as many bytes, under 5 four bytes. Other wire types fail. */
  lemma SkipExactly(s: seq<byte>, w: nat)
    ensures SkipField(s, w) ==
      if w == 0 && VarintLen(s) >= 1 then Ok((), s[VarintLen(s)..])
      else if w == 1 && |s| >= 8 then Ok((), s[8..])
      else if w == 2 && DecodeVarint32(s).Ok? && DecodeVarint32(s).value <= |s| - VarintLen(s)
        then Ok((), s[VarintLen(s) + DecodeVarint32(s).value..])
      else if w == 5 && |s| >= 4 then Ok((), s[4..])
      else Fail
  {
    hide DecodeVarint32, Accepted32, StoredGroups;
    SkipVarintExactly(s);
    DecodeVarint32Exactly(s);
    var r := DecodeVarint32(s);
    if r.Ok? && r.value <= |r.rest| { assert r.rest[r.value..] == s[VarintLen(s) + r.value..]; }
  }

  /** A zero byte at a field boundary ends the message there, whatever follows. */
  lemma ZeroTerminates(fields: seq<Field>, m: seq<Slot>, a: seq<byte>, b: seq<byte>)
    requires var o := DecodeLoop(fields, Start(m), a); o.Done? && !o.terminated
    ensures DecodeNoInit(fields, m, a + [0] + b) ==
      if DecodeNoInit(fields, m, a).Ok? then Ok(DecodeNoInit(fields, m, a).value, b) else Fail
  {
    hide DecodeLoop, RequiredSeen;
    var st, s := DecodeLoop(fields, Start(m), a).st, [0] + b;
    LoopSegment(fields, Start(m), a, s);
    assert a + [0] + b == a + s;
    assert s[1..] == b;
    LoopTurn(fields, st, s);
  }

  // ---------- An encoding is unknown to another table ----------

  /** No field number of the one table is in the other. */
  predicate Disjoint(fields: seq<Field>, table: seq<Field>) {
    forall i :: 0 <= i < |fields| ==> FindField(table, fields[i].tag) == |table|
  }

  lemma {:induction false} ScalarSkipped(f: Field, n: int)
    requires ScalarFits(f, n)
    ensures EncodeScalar(f, n).Some? && SkipField(EncodeScalar(f, n).value, WireTypeOf(f.ltype)) == Ok((), [])
  {
    hide EncodeVarint, DecodeVarint32, SkipVarint, Zigzag, VarintLen, Groups;
    var e := EncodeScalar(f, n).value;
    SkipVarintExactly(e);
    match f.ltype
    case LBool => EncodeVarintGroups(n);
    case LVarint => EncodeVarintGroups(n % WORD64);
    case LUVarint => EncodeVarintGroups(n % WORD64);
    case LSVarint => EncodeVarintGroups(Zigzag(n));
    case _ =>
  }

  lemma {:induction false} ValueSkipped(f: Field, v: Value)
    requires ValidField(f) && EncodableValue(f, v) && ShortValue(f, v) && EncodeValue(f, v).Some?
    ensures SkipField(EncodeValue(f, v).value, WireTypeOf(f.ltype)) == Ok((), [])
  {
    hide SkipField, EncodeScalar, Encode, ScalarFits;
    match v
    case VInt(n) => ScalarSkipped(f, n);
    case VBytes(data) =>
      DelimitedSkipped(if f.ltype.LString? then data[..StrLen(data, f.dataSize)] else data);
    case VMsg(slots) => DelimitedSkipped(Encode(f.ltype.fields, slots).value);
  }

  lemma {:induction false} TaggedUnknown(table: seq<Field>, f: Field, v: Value)
    requires ValidField(f) && EncodableValue(f, v) && ShortValue(f, v) && EncodeTagged(f, v).Some?
    requires FindField(table, f.tag) == |table|
    ensures UnknownField(table, EncodeTagged(f, v).value)
  {
    hide EncodeValue, EncodableValue, ShortValue, SkipField, FindField;
    ValueSkipped(f, v);
    RecordUnknown(table, WireTypeOf(f.ltype), f.tag, EncodeValue(f, v).value);
  }

  lemma UnknownThen(table: seq<Field>, st: DState, a: seq<byte>, b: seq<byte>)
    requires DecodeLoop(table, st, a) == Done(st, [], false) && DecodeLoop(table, st, b) == Done(st, [], false)
    ensures DecodeLoop(table, st, a + b) == Done(st, [], false)
  {
    hide DecodeLoop;
    LoopSegment(table, st, a, b);
  }

  lemma {:induction false} TaggedItemsUnknown(table: seq<Field>, st: DState, f: Field, vs: seq<Value>)
    requires ValidField(f) && FindField(table, f.tag) == |table| && EncodeTaggedItems(f, vs).Some?
    requires forall j :: 0 <= j < |vs| ==> EncodableValue(f, vs[j]) && ShortValue(f, vs[j])
    ensures DecodeLoop(table, st, EncodeTaggedItems(f, vs).value) == Done(st, [], false)
    decreases |vs|
  {
    hide DecodeLoop, EncodeTagged, EncodableValue, ShortValue, UnknownField, FindField;
    if vs == [] {
      LoopEnd(table, st);
    } else {
      TaggedUnknown(table, f, vs[0]);
      SkipsUnknown(table, st, EncodeTagged(f, vs[0]).value);
      TaggedItemsUnknown(table, st, f, vs[1..]);
      UnknownThen(table, st, EncodeTagged(f, vs[0]).value, EncodeTaggedItems(f, vs[1..]).value);
    }
  }

  lemma {:induction false} FieldUnknown(table: seq<Field>, st: DState, f: Field, slot: Slot)
    requires ValidField(f) && EncodableSlot(f, slot) && ShortSlot(f, slot) && EncodeField(f, slot).Some?
    requires FindField(table, f.tag) == |table|
    ensures DecodeLoop(table, st, EncodeField(f, slot).value) == Done(st, [], false)
  {
    hide DecodeLoop, EncodeTagged, EncodableValue, ShortValue, UnknownField, FindField, IsDefaultValue, EncodePacked,
         EncodeTaggedItems, SkipField;
    LoopEnd(table, st);
    var e := EncodeField(f, slot).value;
    match slot
    case SOne(v) => if f.htype.Required? || !IsDefaultValue(f, v) {
        TaggedUnknown(table, f, v);
        SkipsUnknown(table, st, e);
      }
    case SOpt(has, v) => if has {
        TaggedUnknown(table, f, v);
        SkipsUnknown(table, st, e);
      }
    case SOneof(which, v) => if which == f.tag {
        TaggedUnknown(table, f, v);
        SkipsUnknown(table, st, e);
      }
    case SRep(vs, _) => if Packable(f.ltype) && vs != [] {
        var run := EncodePacked(f, vs).value;
        DelimitedSkipped(run);
        RecordUnknown(table, WT_STRING, f.tag, Delimited(run));
        SkipsUnknown(table, st, e);
      } else if vs != [] {
        TaggedItemsUnknown(table, st, f, vs);
      }
  }

  lemma {:induction false} UpToUnknown(fields: seq<Field>, i: nat, m: seq<Slot>, table: seq<Field>, st: DState)
    requires i <= |fields| && ValidTable(fields) && Encodable(fields, m) && Short(fields, m) && Disjoint(fields, table)
    requires EncodeUpTo(fields, i, m).Some?
    ensures DecodeLoop(table, st, EncodeUpTo(fields, i, m).value) == Done(st, [], false)
    decreases i
  {
    hide DecodeLoop, EncodeField, EncodableSlot, ShortSlot, ValidTable, ValidField, FindField, Encodable, Short,
         Disjoint, SlotOf;
    if i == 0 {
      LoopEnd(table, st);
    } else {
      var f, at := fields[i - 1], SlotOf(fields, i - 1);
      ValidAt(fields, i - 1);
      EncodableAt(fields, i - 1, m);
      ShortAt(fields, i - 1, m);
      assert FindField(table, f.tag) == |table| by { DisjointAt(fields, i - 1, table); }
      UpToUnknown(fields, i - 1, m, table, st);
      FieldUnknown(table, st, f, m[at]);
      UnknownThen(table, st, EncodeUpTo(fields, i - 1, m).value, EncodeField(f, m[at]).value);
    }
  }

  lemma ShortAt(fields: seq<Field>, i: nat, m: seq<Slot>)
    requires i < |fields| && SlotOf(fields, i) < |m| && Short(fields, m)
    ensures ShortSlot(fields[i], m[SlotOf(fields, i)])
  {
  }

  lemma DisjointAt(fields: seq<Field>, i: nat, table: seq<Field>)
    requires i < |fields| && Disjoint(fields, table)
    ensures FindField(table, fields[i].tag) == |table|
  {
  }

  /** A whole encoding is skipped by a table that shares no field number with the one it was made with: the
      struct stays as it is. */
  lemma EncodingUnknown(fields: seq<Field>, m: seq<Slot>, table: seq<Field>, m': seq<Slot>)
    requires ValidTable(fields) && Encodable(fields, m) && Short(fields, m) && Disjoint(fields, table)
    ensures Encode(fields, m).Some?
    ensures DecodeNoInit(table, m', Encode(fields, m).value) ==
      if RequiredIndex(table, |table|) == 0 then Ok(m', []) else Fail
  {
    hide DecodeLoop, Encodable, Short, ValidTable, Disjoint, EncodeUpTo;
    EncodableSucceeds(fields, |fields|, m);
    UpToUnknown(fields, |fields|, m, table, Start(m'));
    NothingSeenYet(table);
  }

  lemma NothingSeenYet(table: seq<Field>)
    ensures RequiredSeen(table, {}) <==> RequiredIndex(table, |table|) == 0
  {
    var none: set<nat> := {};
    if RequiredIndex(table, |table|) > 0 { assert 0 < TrackedRequired(table) && 0 !in none; }
  }
}
