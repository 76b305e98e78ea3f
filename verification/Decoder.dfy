/** pb_decode.c over a mutable stream and a destination struct: every method stores exactly what its
    specification names, stays inside its window, and terminates on any bytes. */
module Decoder {
  import opened Words
  import opened Parsing
  import opened Varints
  import opened Wire
  import opened Schema
  import opened Layout
  import opened Defaulting
  import opened DecoderSpec
  import opened FieldIter
  import opened InputStream
  import opened RequiredFields
  import Streams

  /** The destination struct. */
  class Struct {
    var slots: seq<Slot>

    constructor (initial: seq<Slot>)
      ensures slots == initial
    {
      slots := initial;
    }
  }

  /** The window never grows, and never moves back. */
  twostate predicate Confined(stream: IStream)
    reads stream
  {
    stream.Valid() && stream.state >= old(stream.state) && stream.End() <= old(stream.End())
  }

  /** pb_dec_bool to pb_dec_fixed64. */
  method ReadScalar(stream: IStream, f: Field) returns (ok: bool, v: Value)
    requires stream.Valid() && Packable(f.ltype)
    modifies stream
    ensures Confined(stream) && stream.End() == old(stream.End())
    ensures var r := DecodeScalar(f, old(stream.Window()));
      ok == r.Ok? && (ok ==> v == r.value && stream.Window() == r.rest)
  {
    hide DecodeVarint, DecodeVarint32, NarrowSigned, NarrowUnsigned, NarrowZigzag, FixedValue;
    v := VInt(0);
    if f.ltype.LBool? {
      var n, eof;
      ok, n, eof := stream.ReadVarint32();
      if ok { v := VInt(if n != 0 then 1 else 0); }
    } else if f.ltype.LFixed32? || f.ltype.LFixed64? {
      var bytes;
      ok, bytes := stream.ReadBytes(if f.ltype.LFixed32? then 4 else 8);
      if ok { v := VInt(FixedValue(bytes)); }
    } else {
      var raw;
      ok, raw := stream.ReadVarint();
      if !ok { return; }
      var n := match f.ltype
        case LVarint => NarrowSigned(raw, f.dataSize)
        case LUVarint => NarrowUnsigned(raw, f.dataSize)
        case _ => NarrowZigzag(raw, f.dataSize);
      ok := n.Some?;
      if ok { v := VInt(n.value); }
    }
  }

  /** pb_dec_bytes, pb_dec_string and pb_dec_fixed_length_bytes. */
  method ReadBlob(stream: IStream, f: Field) returns (ok: bool, v: Value)
    requires stream.Valid() && !Packable(f.ltype) && !f.ltype.LSubmessage?
    modifies stream
    ensures Confined(stream) && stream.End() == old(stream.End())
    ensures var r := DecodeBlob(f, old(stream.Window()));
      ok == r.Ok? && (ok ==> v == r.value && stream.Window() == r.rest)
  {
    hide DecodeVarint32;
    v := VBytes([]);
    var size, eof;
    ok, size, eof := stream.ReadVarint32();
    if !ok { return; }
    if f.ltype.LBytes? {
      if size + BYTES_HEADER > f.dataSize { return false, v; }
    } else if f.ltype.LString? {
      var allocSize := (size + 1) % WORD32;
      if allocSize < size || allocSize > f.dataSize { return false, v; }
    } else if size == 0 {
      return true, VBytes(seq(f.dataSize, _ => 0));
    } else if size != f.dataSize {
      return false, v;
    }
    var data;
    ok, data := stream.ReadBytes(size);
    v := VBytes(data);
  }

  /** The field decoder of field `f` on storage that holds `prior`. */
  method ReadValue(stream: IStream, f: Field, prior: Value) returns (ok: bool, v: Value)
    requires stream.Valid() && ValidField(f)
    modifies stream
    ensures Confined(stream)
    ensures var r := DecodeValue(f, prior, old(stream.Window()));
      ok == r.Ok? && (ok ==> v == r.value && stream.Window() == r.rest && stream.End() == old(stream.End()))
    decreases stream.bytesLeft, 1
  {
    hide DecodeScalar, DecodeBlob, ReadDelimited, DecodeNoInit;
    if Packable(f.ltype) {
      ok, v := ReadScalar(stream, f);
    } else if f.ltype.LSubmessage? {
      ok, v := ReadSubmessage(stream, f, prior);
    } else {
      ok, v := ReadBlob(stream, f);
    }
  }

  /** A submessage's slots after its payload: a new array entry's cell is reset first, other fields are
      merged into as they are. */
  function SubmessageSlots(f: Field, prior: Value, payload: seq<byte>): Parse<seq<Slot>>
    requires f.ltype.LSubmessage?
  {
    if f.htype.Repeated? then Decode(f.ltype.fields, SlotsIn(prior), payload)
    else if prior.VMsg? then DecodeNoInit(f.ltype.fields, prior.slots, payload)
    else Fail
  }

  lemma SubmessageValue(f: Field, prior: Value, s: seq<byte>)
    requires f.ltype.LSubmessage?
    ensures var d := ReadDelimited(s);
      DecodeValue(f, prior, s) ==
        if d.Ok? && SubmessageSlots(f, prior, d.value).Ok?
        then Ok(VMsg(SubmessageSlots(f, prior, d.value).value), d.rest) else Fail
  {
    hide ReadDelimited, DecodeNoInit;
    DecodeVarint32Consumes(s);
  }

  /** pb_dec_submessage. */
  method ReadSubmessage(stream: IStream, f: Field, prior: Value) returns (ok: bool, v: Value)
    requires stream.Valid() && ValidField(f) && f.ltype.LSubmessage?
    modifies stream
    ensures Confined(stream)
    ensures var r := DecodeValue(f, prior, old(stream.Window()));
      ok == r.Ok? && (ok ==> v == r.value && stream.Window() == r.rest && stream.End() == old(stream.End()))
    decreases stream.bytesLeft, 0
  {
    hide ReadDelimited, DecodeNoInit, DecodeValue, SubmessageSlots;
    v := VInt(0);
    SubmessageValue(f, prior, stream.Window());
    var substream;
    ok, substream := stream.MakeSubstream();
    if !ok { return; }
    var slots;
    ok, slots := ReadPayload(substream, f, prior);
    var closed := stream.CloseSubstream(substream);
    v := VMsg(slots);
  }

  /** Only the members of the struct matter to its defaults. */
  lemma {:induction false} SamePrior(fields: seq<Field>, i: nat, m: seq<Slot>, m': seq<Slot>)
    requires i <= |fields| && forall k :: 0 <= k < NumSlots(fields) ==> PriorSlot(m, k) == PriorSlot(m', k)
    ensures DefaultsUpTo(fields, i, m) == DefaultsUpTo(fields, i, m')
    decreases i
  {
    hide DefaultSlot;
    if i > 0 {
      SamePrior(fields, i - 1, m, m');
      SlotInRange(fields, i - 1);
      if !(i >= 2 && SharesSlot(fields[i - 2], fields[i - 1])) {
        assert |DefaultsUpTo(fields, i - 1, m)| == SlotOf(fields, i - 1);
      }
    }
  }

  lemma SameDefaults(fields: seq<Field>, m: seq<Slot>, m': seq<Slot>)
    requires DefaultsUpTo(fields, |fields|, m) == DefaultsUpTo(fields, |fields|, m')
    ensures Defaults(fields, m) == Defaults(fields, m')
  {
  }

  method ReadPayload(stream: IStream, f: Field, prior: Value) returns (ok: bool, slots: seq<Slot>)
    requires stream.Valid() && ValidField(f) && f.ltype.LSubmessage?
    modifies stream
    ensures Confined(stream)
    ensures var r := SubmessageSlots(f, prior, old(stream.Window()));
      ok == r.Ok? && (ok ==> slots == r.value && stream.End() == old(stream.End()))
    decreases stream.bytesLeft, 8
  {
    hide DecodeNoInit, Defaults, NumSlots;
    if f.htype.Repeated? {
      var n, held := NumSlots(f.ltype.fields), SlotsIn(prior);
      var dest := new Struct(seq(n, i requires 0 <= i < n => PriorSlot(held, i)));
      SamePrior(f.ltype.fields, |f.ltype.fields|, dest.slots, held);
      SameDefaults(f.ltype.fields, dest.slots, held);
      ok := ReadMessage(stream, f.ltype.fields, dest);
      slots := dest.slots;
    } else if prior.VMsg? {
      var dest := new Struct(prior.slots);
      ok := ReadMessageNoInit(stream, f.ltype.fields, dest);
      slots := dest.slots;
    } else {
      ok, slots := false, [];
    }
  }

  /** What decode_static_field does to the slot at `at`, for a field whose fixed-count position is `k`. */
  method ReadField(stream: IStream, wireType: nat, f: Field, dest: Struct, at: nat, k: nat)
    returns (ok: bool, k': nat)
    requires stream.Valid() && ValidField(f) && at < |dest.slots|
    modifies stream, dest
    ensures Confined(stream)
    ensures var r := DecodeField(f, old(dest.slots[at]), k, wireType, old(stream.Window()));
      ok == r.Ok? && (ok ==>
        && dest.slots == old(dest.slots)[at := r.value.0] && k' == r.value.1
        && stream.Window() == r.rest && stream.End() == old(stream.End()))
    decreases stream.bytesLeft, 3
  {
    hide DecodeValue, ReadDelimited, DecodePacked, Defaults, Grown, Put, CellAt, UnionBase, ValidField;
    k' := k;
    var slot, v := dest.slots[at], VInt(0);
    match (f.htype, slot) {
      case (Required, SOne(x)) =>
        ok, v := ReadValue(stream, f, x);
        dest.slots := dest.slots[at := SOne(v)];
      case (Optional, SOne(x)) =>
        ok, v := ReadValue(stream, f, x);
        dest.slots := dest.slots[at := SOne(v)];
      case (Optional, SOpt(_, x)) =>
        dest.slots := dest.slots[at := SOpt(true, x)];
        ok, v := ReadValue(stream, f, x);
        dest.slots := dest.slots[at := SOpt(true, v)];
      case (Repeated, SRep(_, _)) =>
        ok, k' := ReadElements(stream, wireType, f, dest, at, k);
      case (Oneof, SOneof(which, x)) =>
        var base := x;
        if f.ltype.LSubmessage? && which != f.tag {
          base := UnionBase(f);
        }
        dest.slots := dest.slots[at := SOneof(f.tag, base)];
        ok, v := ReadValue(stream, f, base);
        dest.slots := dest.slots[at := SOneof(f.tag, v)];
      case _ =>
        ok := false;
    }
  }

  /** The repeated case of decode_static_field: a packed run, or one more element. */
  method ReadElements(stream: IStream, wireType: nat, f: Field, dest: Struct, at: nat, k: nat)
    returns (ok: bool, k': nat)
    requires stream.Valid() && ValidField(f) && at < |dest.slots| && f.htype.Repeated? && dest.slots[at].SRep?
    modifies stream, dest
    ensures Confined(stream)
    ensures var r := DecodeField(f, old(dest.slots[at]), k, wireType, old(stream.Window()));
      ok == r.Ok? && (ok ==>
        && dest.slots == old(dest.slots)[at := r.value.0] && k' == r.value.1
        && stream.Window() == r.rest && stream.End() == old(stream.End()))
    decreases stream.bytesLeft, 2
  {
    hide DecodeValue, ReadDelimited, DecodePacked, CellAt, Grown;
    var held, items := dest.slots[at], dest.slots[at].items;
    var size := if FixedCount(f) then k else |items|;
    k' := size;
    if wireType == WT_STRING && Packable(f.ltype) {
      ok, k' := ReadPacked(stream, f, dest, at, size);
    } else {
      if size >= f.arraySize { return false, size; }
      var v;
      ok, v := ReadValue(stream, f, CellAt(held, size));
      dest.slots := dest.slots[at := Grown(held, Put(items, size, v))];
      k' := size + 1;
    }
  }

  function DecodeRun(f: Field, items: seq<Value>, pos: nat, s: seq<byte>): Parse<(seq<Value>, nat)> {
    match ReadDelimited(s)
    case Fail => Fail
    case Ok(run, rest) =>
      if DecodePacked(f, items, pos, run).Some? then Ok(DecodePacked(f, items, pos, run).value, rest) else Fail
  }

  method ReadPacked(stream: IStream, f: Field, dest: Struct, at: nat, pos: nat) returns (ok: bool, size: nat)
    requires stream.Valid() && at < |dest.slots| && dest.slots[at].SRep? && Packable(f.ltype)
    modifies stream, dest
    ensures Confined(stream)
    ensures var r := DecodeRun(f, old(dest.slots[at].items), pos, old(stream.Window()));
      ok == r.Ok? && (ok ==>
        && dest.slots == old(dest.slots)[at := Grown(old(dest.slots[at]), r.value.0)] && size == r.value.1
        && stream.Window() == r.rest && stream.End() == old(stream.End()))
  {
    hide ReadDelimited, DecodePacked;
    size := pos;
    var substream;
    ok, substream := stream.MakeSubstream();
    if !ok { return; }
    ok, size := ReadPackedRun(substream, f, dest, at, pos);
    if substream.bytesLeft != 0 { return false, size; }
    var closed := stream.CloseSubstream(substream);
  }

  /** The loop over a packed run. */
  method ReadPackedRun(stream: IStream, f: Field, dest: Struct, at: nat, pos: nat) returns (ok: bool, size: nat)
    requires stream.Valid() && at < |dest.slots| && dest.slots[at].SRep? && Packable(f.ltype)
    modifies stream, dest
    ensures Confined(stream) && stream.End() == old(stream.End())
    ensures var r := DecodePacked(f, old(dest.slots[at].items), pos, old(stream.Window()));
      && (ok && stream.bytesLeft == 0 <==> r.Some?)
      && (r.Some? ==> dest.slots == old(dest.slots)[at := Grown(old(dest.slots[at]), r.value.0)] && size == r.value.1)
  {
    hide DecodeScalar, Put, Grown;
    ghost var spec, before := DecodePacked(f, dest.slots[at].items, pos, stream.Window()), dest.slots;
    GrownSelf(before[at]);
    ok, size := true, pos;
    while stream.bytesLeft > 0 && size < f.arraySize
      invariant ok && Confined(stream) && stream.End() == old(stream.End())
      invariant at < |dest.slots| && dest.slots[at].SRep? && dest.slots == before[at := dest.slots[at]]
      invariant |dest.slots[at].items| >= |before[at].items|
      invariant dest.slots[at] == Grown(before[at], dest.slots[at].items)
      invariant DecodePacked(f, dest.slots[at].items, size, stream.Window()) == spec
      decreases stream.bytesLeft
    {
      var v;
      ok, v := ReadScalar(stream, f);
      if !ok { return; }
      ghost var held := dest.slots[at].items;
      dest.slots := dest.slots[at := Grown(dest.slots[at], Put(dest.slots[at].items, size, v))];
      GrownAgain(before[at], held, Put(held, size, v));
      size := size + 1;
    }
  }

  lemma GrownAgain(a: Slot, items: seq<Value>, items': seq<Value>)
    requires a.SRep? && |a.items| <= |items| && (exists pos: nat, v :: items' == Put(items, pos, v))
    ensures |items| <= |items'| && Grown(a, items).SRep? && Grown(a, items).items == items
    ensures Grown(Grown(a, items), items') == Grown(a, items') && Grown(a, items').SRep?
    ensures Grown(a, items').items == items'
  {
  }

  /** The local variables of pb_decode_noinit that live across its loop. */
  datatype Locals = Locals(fixedField: Option<nat>, fixedSize: nat)

  function StateWith(m: seq<Slot>, seen: set<nat>, locals: Locals): DState {
    DState(m, seen, locals.fixedField, locals.fixedSize)
  }

  /** The iterator is where the fixed-count bookkeeping expects it: the count of the field it rests on is
      in the struct, or is the decoder's own counter for that very field. */
  ghost predicate Tracking(iter: Iter, fields: seq<Field>, locals: Locals)
    reads iter
  {
    && iter.Valid() && iter.start == fields
    && (locals.fixedField.Some? ==> locals.fixedField.value < |fields|)
    && (fields != [] ==>
         || iter.OwnSize()
         || (iter.pSize == FixedCountLocal && FixedCount(fields[iter.pos]) && locals.fixedField == Some(iter.pos)))
  }

  /** Bits are recorded for tracked required fields only. On an empty table the terminator sets bit 0,
      which nothing reads. */
  ghost predicate SeenRecorded(fieldsSeen: array<nat>, fields: seq<Field>, seen: set<nat>)
    reads fieldsSeen
  {
    && fieldsSeen.Length == 2
    && (fields != [] ==> Represents(fieldsSeen, seen) && forall k :: k in seen ==> k < TrackedRequired(fields))
  }

  /** A fixed-count field other than the one being filled may start only when that one is complete. */
  predicate MayStart(fields: seq<Field>, i: nat, locals: Locals)
    requires i < |fields|
  {
    !(FixedCount(fields[i]) && locals.fixedField != Some(i) && !FixedComplete(fields, StateWith([], {}, locals)))
  }

  function Restarted(fields: seq<Field>, i: nat, locals: Locals): Locals
    requires i < |fields|
  {
    if FixedCount(fields[i]) && locals.fixedField != Some(i) then Locals(Some(i), 0) else locals
  }

  /** The bookkeeping for a repeated field without a count member, recognised by comparing the iterator's
      two addresses. */
  method TrackFixedCount(iter: Iter, fields: seq<Field>, locals: Locals) returns (ok: bool, locals': Locals)
    requires Tracking(iter, fields, locals) && fields != []
    modifies iter
    ensures ok ==> Tracking(iter, fields, locals')
    ensures iter.pos == old(iter.pos) && iter.requiredFieldIndex == old(iter.requiredFieldIndex)
    ensures ok <==> MayStart(fields, iter.pos, locals)
    ensures ok ==> locals' == Restarted(fields, iter.pos, locals)
  {
    hide RequiredIndex, AbsOffset;
    ok, locals' := true, locals;
    if fields[iter.pos].htype.Repeated? && iter.pSize == InStruct(iter.pData) {
      if locals.fixedField != Some(iter.pos) {
        if locals.fixedField.Some? && locals.fixedSize != fields[locals.fixedField.value].arraySize {
          return false, locals;
        }
        locals' := Locals(Some(iter.pos), 0);
      }
      iter.pSize := FixedCountLocal;
    }
  }

  lemma {:induction false} RequiredIndexMonotone(fields: seq<Field>, i: nat, j: nat)
    requires i <= j <= |fields|
    ensures RequiredIndex(fields, i) <= RequiredIndex(fields, j)
    ensures i < j && fields[i].htype.Required? ==> RequiredIndex(fields, i) < RequiredIndex(fields, j)
    decreases j
  {
    if i < j {
      RequiredIndexMonotone(fields, i, j - 1);
    }
  }

  /** fields_seen is updated when a required field is met. */
  method TrackRequired(iter: Iter, fields: seq<Field>, fieldsSeen: array<nat>, ghost seen: set<nat>)
    requires iter.Valid() && iter.start == fields && fields != [] && SeenRecorded(fieldsSeen, fields, seen)
    modifies fieldsSeen
    ensures SeenRecorded(fieldsSeen, fields, Mark(fields, iter.pos, seen))
  {
    hide RequiredIndex, AbsOffset, Represents;
    if fields[iter.pos].htype.Required? && iter.requiredFieldIndex < PB_MAX_REQUIRED_FIELDS {
      RequiredIndexMonotone(fields, iter.pos, |fields|);
      assert fieldsSeen.Length == 2;
      MarkSeen(fieldsSeen, iter.requiredFieldIndex, seen);
      assert Represents(fieldsSeen, Mark(fields, iter.pos, seen));
    }
  }

  /** What DecodeOne says of a field the table has. */
  lemma KnownField(fields: seq<Field>, i: nat, st: DState, wireType: nat, s: seq<byte>)
    requires ValidTable(fields) && i < |fields|
    ensures var locals := Locals(st.fixedField, st.fixedSize);
      DecodeOne(fields, st, wireType, fields[i].tag, s) ==
        if SlotOf(fields, i) >= |st.m| || !MayStart(fields, i, locals) ||
           !Releasable(fields, fields[i], st.m[SlotOf(fields, i)]) then Fail
        else FieldStored(fields, i, st, wireType, s)
  {
    hide DecodeField, ValidField, RequiredIndex;
    FindUnique(fields, i);
  }

  function FieldStored(fields: seq<Field>, i: nat, st: DState, wireType: nat, s: seq<byte>): Parse<DState>
    requires i < |fields| && SlotOf(fields, i) < |st.m|
  {
    var f, at := fields[i], SlotOf(fields, i);
    var locals := Restarted(fields, i, Locals(st.fixedField, st.fixedSize));
    match DecodeField(f, st.m[at], if locals.fixedField == Some(i) then locals.fixedSize else 0, wireType, s)
    case Fail => Fail
    case Ok(r, rest) =>
      Ok(StateWith(st.m[at := r.0], Mark(fields, i, st.seen),
                   if FixedCount(f) then Locals(Some(i), r.1) else locals), rest)
  }

  /** pb_release_union_field. Statically allocated alternatives hold nothing to release, but the old one has to
      be found. */
  method ReleaseUnionField(iter: Iter, fields: seq<Field>, slot: Slot) returns (ok: bool)
    requires iter.Valid() && iter.start == fields && fields != [] && ValidTable(fields)
    modifies iter
    ensures iter.Valid() && iter.pos == old(iter.pos)
    ensures !fields[old(iter.pos)].htype.Oneof? ==> iter.pSize == old(iter.pSize)
    ensures ok == Releasable(fields, fields[old(iter.pos)], slot)
  {
    hide ValidField, RequiredIndex, AbsOffset;
    var newTag := fields[iter.pos].tag;
    if !fields[iter.pos].htype.Oneof? || !slot.SOneof? || slot.which == 0 || slot.which == newTag {
      return true;
    }
    ghost var i := iter.pos;
    FindUnique(fields, i);
    ok := iter.Find(slot.which);
    if ok {
      ok := iter.Find(newTag);
      FindUnique(fields, iter.pos);
    }
  }

  /** A turn of the loop for a field the iterator has found. */
  method ReadKnown(stream: IStream, wireType: nat, fields: seq<Field>, dest: Struct, iter: Iter,
                   fieldsSeen: array<nat>, locals: Locals, ghost seen: set<nat>)
    returns (ok: bool, locals': Locals)
    requires stream.Valid() && ValidTable(fields) && fields != []
    requires Tracking(iter, fields, locals) && SeenRecorded(fieldsSeen, fields, seen)
    modifies stream, dest, iter, fieldsSeen
    ensures Confined(stream) && iter.pos == old(iter.pos)
    ensures ok ==> Tracking(iter, fields, locals') && SeenRecorded(fieldsSeen, fields, Mark(fields, iter.pos, seen))
    ensures var st := StateWith(old(dest.slots), seen, locals);
      var r := DecodeOne(fields, st, wireType, fields[old(iter.pos)].tag, old(stream.Window()));
      ok == r.Ok? && (ok ==>
        && StateWith(dest.slots, Mark(fields, iter.pos, seen), locals') == r.value
        && stream.Window() == r.rest && stream.End() == old(stream.End()))
    decreases stream.bytesLeft, 4
  {
    hide DecodeOne, DecodeField, ValidTable, MayStart, Mark, RequiredIndex, AbsOffset, SeenRecorded;
    ghost var i := iter.pos;
    var f, at := fields[iter.pos], SlotOf(fields, iter.pos);
    ghost var st := StateWith(dest.slots, seen, locals);
    KnownField(fields, iter.pos, st, wireType, stream.Window());
    assert ValidField(f) by { ValidAt(fields, i); }
    ok, locals' := TrackFixedCount(iter, fields, locals);
    if !ok { return; }
    TrackRequired(iter, fields, fieldsSeen, seen);
    if at >= |dest.slots| { return false, locals'; }
    ok := ReleaseUnionField(iter, fields, dest.slots[at]);
    if !ok { return; }
    var k, k' := if locals'.fixedField == Some(iter.pos) then locals'.fixedSize else 0, 0;
    ok, k' := ReadField(stream, wireType, f, dest, at, k);
    if f.htype.Repeated? && f.sizeOffset == 0 {
      locals' := Locals(Some(iter.pos), k');
    }
  }

  /** What DecodeOne says of a field the table does not have. */
  lemma MissingField(fields: seq<Field>, st: DState, wireType: nat, tag: nat, s: seq<byte>)
    requires forall i :: 0 <= i < |fields| ==> fields[i].tag != tag
    ensures var skipped := SkipField(s, wireType); var bool32 := DecodeVarint32(s);
      DecodeOne(fields, st, wireType, tag, s) ==
        if fields == [] && tag == 0 then (if bool32.Ok? then Ok(st, bool32.rest) else Fail)
        else if skipped.Ok? then Ok(st, skipped.rest) else Fail
  {
    hide DecodeField, SkipField, DecodeVarint32;
  }

  ghost function NextSeen(fields: seq<Field>, tag: nat, seen: set<nat>): set<nat> {
    var i := FindField(fields, tag);
    if i < |fields| then Mark(fields, i, seen) else seen
  }

  /** The body of pb_decode_noinit's loop, after the tag. */
  method ReadOne(stream: IStream, wireType: nat, tag: nat, fields: seq<Field>, dest: Struct, iter: Iter,
                 fieldsSeen: array<nat>, locals: Locals, ghost seen: set<nat>)
    returns (ok: bool, locals': Locals)
    requires stream.Valid() && ValidTable(fields)
    requires Tracking(iter, fields, locals) && SeenRecorded(fieldsSeen, fields, seen)
    modifies stream, dest, iter, fieldsSeen
    ensures Confined(stream)
    ensures ok ==> Tracking(iter, fields, locals') && SeenRecorded(fieldsSeen, fields, NextSeen(fields, tag, seen))
    ensures var st := StateWith(old(dest.slots), seen, locals);
      var r := DecodeOne(fields, st, wireType, tag, old(stream.Window()));
      ok == r.Ok? && (ok ==>
        && StateWith(dest.slots, NextSeen(fields, tag, seen), locals') == r.value
        && stream.Window() == r.rest && stream.End() == old(stream.End()))
    decreases stream.bytesLeft, 5
  {
    hide DecodeOne, ValidTable, Mark, RequiredIndex, AbsOffset, Represents, SkipField, DecodeVarint32;
    locals' := locals;
    ghost var st, w := StateWith(dest.slots, seen, locals), stream.Window();
    var found := iter.Find(tag);
    if !found {
      MissingField(fields, st, wireType, tag, w);
      ok := stream.SkipOneField(wireType);
    } else if fields == [] {
      MissingField(fields, st, wireType, tag, w);
      var n, eof;
      ok, n, eof := stream.ReadVarint32();
      fieldsSeen[0] := BitOr(fieldsSeen[0], 1);
    } else {
      FoundAt(fields, iter.pos, tag);
      ok, locals' := ReadKnown(stream, wireType, fields, dest, iter, fieldsSeen, locals, seen);
    }
  }

  lemma FoundAt(fields: seq<Field>, i: nat, tag: nat)
    requires ValidTable(fields) && i < |fields| && fields[i].tag == tag
    ensures FindField(fields, tag) == i
  {
    hide ValidField;
    FindUnique(fields, i);
  }

  /** The number of required fields, found by running the iterator to the end of the table. */
  method CountRequired(iter: Iter, fields: seq<Field>) returns (count: nat)
    requires iter.Valid() && iter.start == fields
    modifies iter
    ensures count == TrackedRequired(fields)
  {
    hide AbsOffset;
    var lastRequired := false;
    while true
      invariant iter.Valid() && iter.start == fields
      decreases |fields| - iter.pos
    {
      count := iter.requiredFieldIndex;
      lastRequired := if fields == [] then true else fields[iter.pos].htype.Required?;
      ghost var last := iter.pos;
      var more := iter.Next();
      if !more {
        assert fields != [] ==> last + 1 == |fields| && count == RequiredIndex(fields, last);
        break;
      }
    }
    if lastRequired && fields != [] {
      count := count + 1;
    }
    if count > PB_MAX_REQUIRED_FIELDS {
      count := PB_MAX_REQUIRED_FIELDS;
    }
  }

  lemma NothingSeen(fieldsSeen: array<nat>)
    requires fieldsSeen.Length == 2 && fieldsSeen[0] == fieldsSeen[1] == 0
    ensures Represents(fieldsSeen, {})
  {
    WordOfNothing(0, 32);
    WordOfNothing(1, 32);
  }

  lemma WordOfNothing(w: nat, n: nat)
    ensures Word({}, w, n) == 0
  {
  }

  /** The two checks that end pb_decode_noinit. */
  method CheckComplete(fields: seq<Field>, iter: Iter, fieldsSeen: array<nat>, locals: Locals, ghost seen: set<nat>)
    returns (ok: bool)
    requires Tracking(iter, fields, locals) && SeenRecorded(fieldsSeen, fields, seen)
    modifies iter
    ensures ok <==> FixedComplete(fields, StateWith([], seen, locals)) && RequiredSeen(fields, seen)
  {
    hide RequiredIndex, AbsOffset, Represents, TrackedRequired;
    if locals.fixedField.Some? && locals.fixedSize != fields[locals.fixedField.value].arraySize {
      return false;
    }
    var count := CountRequired(iter, fields);
    if count > 0 {
      assert fields != [] by { if fields == [] { NoneTracked(); } }
      assert count <= PB_MAX_REQUIRED_FIELDS by { AtMostTracked(fields); }
      ok := CheckRequired(fieldsSeen, count, seen);
    } else {
      ok := true;
    }
  }

  lemma NoneTracked()
    ensures TrackedRequired([]) == 0
  {
  }

  lemma AtMostTracked(fields: seq<Field>)
    ensures TrackedRequired(fields) <= PB_MAX_REQUIRED_FIELDS
  {
  }

  /** pb_decode_noinit. */
  method ReadMessageNoInit(stream: IStream, fields: seq<Field>, dest: Struct) returns (ok: bool)
    requires stream.Valid() && ValidTable(fields)
    modifies stream, dest
    ensures Confined(stream)
    ensures var r := DecodeNoInit(fields, old(dest.slots), old(stream.Window()));
      ok == r.Ok? && (ok ==> dest.slots == r.value && stream.Window() == r.rest && stream.End() == old(stream.End()))
    decreases stream.bytesLeft, 6
  {
    hide DecodeLoop, DecodeOne, DecodeTag, ValidTable, RequiredIndex, AbsOffset, Represents, RequiredSeen, NextSeen,
        FixedComplete, TrackedRequired;
    ghost var spec := DecodeLoop(fields, Start(dest.slots), stream.Window());
    var fieldsSeen := new nat[2](_ => 0);
    ghost var seen: set<nat> := {};
    NothingSeen(fieldsSeen);
    var locals := Locals(None, 0);
    var iter := new Iter(fields, 0);
    ghost var finished := false;
    while stream.bytesLeft > 0
      invariant Confined(stream) && stream.End() == old(stream.End())
      invariant Tracking(iter, fields, locals) && SeenRecorded(fieldsSeen, fields, seen)
      invariant DecodeLoop(fields, StateWith(dest.slots, seen, locals), stream.Window()) == spec
      modifies stream, dest, iter, fieldsSeen
      decreases stream.bytesLeft
    {
      ghost var st, w := StateWith(dest.slots, seen, locals), stream.Window();
      Streams.LoopTurn(fields, st, w);
      var wireType, tag, eof;
      ok, wireType, tag, eof := stream.ReadTag();
      if !ok {
        if !eof { return false; }
        finished := true;
        break;
      }
      ok, locals := ReadOne(stream, wireType, tag, fields, dest, iter, fieldsSeen, locals, seen);
      if !ok { return; }
      seen := NextSeen(fields, tag, seen);
    }
    if !finished { Streams.LoopEnd(fields, StateWith(dest.slots, seen, locals)); assert stream.Window() == []; }
    assert spec.Done? && spec.st == StateWith(dest.slots, seen, locals) && spec.rest == stream.Window();
    ok := CheckComplete(fields, iter, fieldsSeen, locals, seen);
    SameCompletion(fields, dest.slots, seen, locals);
  }

  lemma SameCompletion(fields: seq<Field>, m: seq<Slot>, seen: set<nat>, locals: Locals)
    ensures FixedComplete(fields, StateWith(m, seen, locals)) == FixedComplete(fields, StateWith([], seen, locals))
  {
  }

  /** pb_message_set_to_defaults: each field of the table sets its own member. */
  method SetToDefaults(fields: seq<Field>, dest: Struct)
    requires |dest.slots| == NumSlots(fields)
    modifies dest
    ensures dest.slots == Defaults(fields, old(dest.slots))
    decreases fields, |fields| + 2
  {
    hide AbsOffset, RequiredIndex, DefaultSlot, DefaultsUpTo;
    assert DefaultsUpTo(fields, 0, dest.slots) == [];
    ghost var prior := dest.slots;
    var iter := new Iter(fields, 0);
    var more := iter.Begin();
    ghost var i := 0;
    while more
      invariant iter.Valid() && iter.start == fields && |dest.slots| == NumSlots(fields)
      invariant if more then i == iter.pos < |fields| else i == |fields|
      invariant var d := DefaultsUpTo(fields, i, prior);
        |d| <= |dest.slots| && dest.slots[..|d|] == d && dest.slots[|d|..] == prior[|d|..]
      modifies dest, iter
      decreases |fields| - i
    {
      SlotInRange(fields, i);
      var at := SlotOf(fields, iter.pos);
      ghost var before := dest.slots;
      var slot := FieldDefault(fields[iter.pos], dest.slots[at]);
      dest.slots := dest.slots[at := slot];
      PrefixDefaults(fields, i, before, prior);
      i := i + 1;
      more := iter.Next();
    }
    assert dest.slots[..|dest.slots|] == dest.slots;
  }

  lemma PrefixDefaults(fields: seq<Field>, i: nat, m: seq<Slot>, prior: seq<Slot>)
    requires i < |fields| && SlotOf(fields, i) < |m| == |prior|
    requires var d := DefaultsUpTo(fields, i, prior); |d| <= |m| && m[..|d|] == d && m[|d|..] == prior[|d|..]
    ensures var d, at := DefaultsUpTo(fields, i + 1, prior), SlotOf(fields, i);
      var r := m[at := DefaultSlot(fields[i], m[at])];
      |d| <= |m| && r[..|d|] == d && r[|d|..] == prior[|d|..]
  {
    hide DefaultSlot;
    var at := SlotOf(fields, i);
    if i > 0 && SharesSlot(fields[i - 1], fields[i]) {
      OneofDefault(fields[i - 1]);
      OneofDefault(fields[i]);
      LastDefault(fields, i, prior);
    } else {
      var d := DefaultsUpTo(fields, i, prior);
      assert |d| == at && m[|d|..][0] == prior[|d|..][0];
    }
  }

  lemma {:induction false} LastDefault(fields: seq<Field>, i: nat, prior: seq<Slot>)
    requires 0 < i <= |fields| && fields[i - 1].htype.Oneof?
    ensures DefaultsUpTo(fields, i, prior)[SlotOf(fields, i - 1)] == SOneof(0, VInt(0))
  {
    hide DefaultSlot;
    OneofDefault(fields[i - 1]);
    if i >= 2 && SharesSlot(fields[i - 2], fields[i - 1]) {
      LastDefault(fields, i - 1, prior);
    }
  }

  /** pb_field_set_to_default on a member that held `p`. */
  method FieldDefault(f: Field, p: Slot) returns (slot: Slot)
    ensures slot == DefaultSlot(f, p)
    decreases f, 1
  {
    hide Defaults, ZeroCells;
    if f.htype.Repeated? {
      var cells := Cells(f, p);
      return if FixedCount(f) then SRep(ZeroCells(f, cells, COUNT_BYTES), []) else SRep([], cells);
    } else if f.htype.Oneof? {
      return SOneof(0, VInt(0));
    }
    var v;
    if f.ltype.LSubmessage? {
      var n, held := NumSlots(f.ltype.fields), SlotsIn(Contents(p));
      var dest := new Struct(seq(n, i requires 0 <= i < n => PriorSlot(held, i)));
      ghost var initial := dest.slots;
      SamePrior(f.ltype.fields, |f.ltype.fields|, initial, held);
      SetToDefaults(f.ltype.fields, dest);
      SameDefaults(f.ltype.fields, initial, held);
      v := VMsg(dest.slots);
    } else {
      v := if f.ptr.Some? then f.ptr.value else ZeroScalar(f);
    }
    slot := if f.htype.Optional? && f.sizeOffset != 0 then SOpt(false, v) else SOne(v);
  }

  /** pb_decode. */
  method ReadMessage(stream: IStream, fields: seq<Field>, dest: Struct) returns (ok: bool)
    requires stream.Valid() && ValidTable(fields) && |dest.slots| == NumSlots(fields)
    modifies stream, dest
    ensures Confined(stream)
    ensures var r := Decode(fields, old(dest.slots), old(stream.Window()));
      ok == r.Ok? && (ok ==> dest.slots == r.value && stream.Window() == r.rest && stream.End() == old(stream.End()))
    decreases stream.bytesLeft, 7
  {
    hide DecodeNoInit, Defaults;
    SetToDefaults(fields, dest);
    ok := ReadMessageNoInit(stream, fields, dest);
  }
}
