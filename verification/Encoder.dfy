/** pb_encode.c over a mutable stream: every method emits exactly the bytes its specification names. */
module Encoder {
  import opened Words
  import opened Parsing
  import opened Varints
  import opened Wire
  import opened Schema
  import opened Layout
  import opened EncoderSpec
  import opened FieldIter
  import opened OutputStream

  /** The loop of pb_encode_varint for values above 0x7F. */
  method FillVarint(buffer: array<byte>, value: nat) returns (i: nat)
    requires buffer.Length == 10 && 0x7F < value < WORD64
    modifies buffer
    ensures i <= 10 && buffer[..i] == EncodeVarint(value)
  {
    hide EncodeVarint;
    i := 0;
    var v: nat := value;
    VarintAtMostTenBytes(value);
    ghost var done: seq<byte> := [];
    assert done + EncodeVarint(v) == EncodeVarint(value);
    while v != 0
      invariant i == |done| <= 10
      invariant v != 0 ==> buffer[..i] == done && done + EncodeVarint(v) == EncodeVarint(value)
      invariant v == 0 ==> i > 0 && done == EncodeVarint(value) && done[i - 1] < 128
                           && buffer[..i] == done[i - 1 := done[i - 1] + 128]
      decreases v
    {
      var b: byte := v % 128 + 128;
      OneByte(done, v, value);
      buffer[i] := b;
      assert buffer[..i + 1] == buffer[..i] + [b];
      ghost var next: byte := if v < 128 then v else b;
      assert v < 128 ==> (done + [v])[i := v + 128] == done + [b];
      done := done + [next];
      v := v / 128;
      i := i + 1;
    }
    buffer[i - 1] := buffer[i - 1] % 128;
    assert buffer[..i] == done;
  }

  lemma OneByte(done: seq<byte>, v: nat, value: nat)
    requires v != 0 && done + EncodeVarint(v) == EncodeVarint(value)
    ensures |done| + 1 <= |EncodeVarint(value)|
    ensures v < 128 ==> done + [v] == EncodeVarint(value) && v / 128 == 0
    ensures v >= 128 ==> done + [v % 128 + 128] + EncodeVarint(v / 128) == EncodeVarint(value) && v / 128 != 0
  {
    assert |done + EncodeVarint(v)| == |done| + |EncodeVarint(v)|;
    if v >= 128 {
      assert EncodeVarint(v) == [v % 128 + 128] + EncodeVarint(v / 128);
      assert done + ([v % 128 + 128] + EncodeVarint(v / 128)) == done + [v % 128 + 128] + EncodeVarint(v / 128);
    }
  }

  /** pb_encode_varint. */
  method WriteVarint(stream: OStream, value: nat) returns (ok: bool)
    requires stream.Valid() && value < WORD64
    modifies stream, stream.buf
    ensures stream.Valid()
    ensures Wrote(stream.sizing, old(stream.Observed()), stream.Observed(), ok, Some(EncodeVarint(value)))
  {
    if value <= 0x7F {
      var b: seq<byte> := [value];
      ok := stream.Write(b, 1);
      return;
    }
    var buffer := new byte[10];
    var i := FillVarint(buffer, value);
    ok := stream.Write(buffer[..i], i);
  }

  /** pb_encode_tag. */
  method WriteTag(stream: OStream, wireType: nat, tag: nat) returns (ok: bool)
    requires stream.Valid() && wireType < 8 && tag < WORD32
    modifies stream, stream.buf
    ensures stream.Valid()
    ensures Wrote(stream.sizing, old(stream.Observed()), stream.Observed(), ok, Some(EncodeTag(wireType, tag)))
  {
    ok := WriteVarint(stream, tag * 8 + wireType);
  }

  /** pb_encode_string. */
  method WriteString(stream: OStream, data: seq<byte>) returns (ok: bool)
    requires stream.Valid() && |data| < WORD64
    modifies stream, stream.buf
    ensures stream.Valid()
    ensures Wrote(stream.sizing, old(stream.Observed()), stream.Observed(), ok, Some(Delimited(data)))
  {
    hide Wrote;
    ghost var s := stream.Observed();
    ok := WriteVarint(stream, |data|);
    ghost var t := stream.Observed();
    if !ok {
      WroteFailed(stream.sizing, s, t, Some(EncodeVarint(|data|)), Some(data));
      return;
    }
    ok := stream.Write(data, |data|);
    WroteThen(stream.sizing, s, t, stream.Observed(), ok, Some(EncodeVarint(|data|)), Some(data));
  }

  /** The byte stores of pb_encode_fixed32 and pb_encode_fixed64, lowest byte first. */
  method FillFixed(bytes: array<byte>, n: nat)
    modifies bytes
    ensures bytes[..] == EncodeFixed(n, bytes.Length)
  {
    hide EncodeFixed;
    var i, v: nat := 0, n;
    ghost var done: seq<byte> := [];
    assert done + EncodeFixed(v, bytes.Length) == EncodeFixed(n, bytes.Length);
    while i < bytes.Length
      invariant i == |done| <= bytes.Length && bytes[..i] == done
      invariant done + EncodeFixed(v, bytes.Length - i) == EncodeFixed(n, bytes.Length)
    {
      OneFixedByte(done, v, bytes.Length - i);
      bytes[i] := v % 256;
      assert bytes[..i + 1] == done + [v % 256];
      done := done + [v % 256];
      v := v / 256;
      i := i + 1;
    }
    NoFixedBytes(done, v);
    assert bytes[..] == bytes[..i];
  }

  lemma OneFixedByte(done: seq<byte>, v: nat, k: nat)
    requires k > 0
    ensures done + [v % 256] + EncodeFixed(v / 256, k - 1) == done + EncodeFixed(v, k)
  {
    assert EncodeFixed(v, k) == [v % 256] + EncodeFixed(v / 256, k - 1);
  }

  lemma NoFixedBytes(done: seq<byte>, v: nat)
    ensures done + EncodeFixed(v, 0) == done
  {
  }

  method WriteFixed(stream: OStream, n: nat, k: nat) returns (ok: bool)
    requires stream.Valid() && (k == 4 || k == 8)
    modifies stream, stream.buf
    ensures stream.Valid()
    ensures Wrote(stream.sizing, old(stream.Observed()), stream.Observed(), ok, Some(EncodeFixed(n, k)))
  {
    hide Wrote, EncodeFixed;
    var bytes := new byte[k];
    FillFixed(bytes, n);
    ok := stream.Write(bytes[..], k);
  }

  /** pb_enc_bool to pb_enc_fixed64. */
  method WriteScalar(stream: OStream, f: Field, n: int) returns (ok: bool)
    requires stream.Valid() && Packable(f.ltype)
    modifies stream, stream.buf
    ensures stream.Valid()
    ensures Wrote(stream.sizing, old(stream.Observed()), stream.Observed(), ok, EncodeScalar(f, n))
  {
    hide Wrote;
    if f.ltype.LBool? {
      ok := WriteVarint(stream, if n != 0 then 1 else 0);
    } else if f.ltype.LFixed32? {
      ok := WriteFixed(stream, n % WORD32, 4);
    } else if f.ltype.LFixed64? {
      ok := WriteFixed(stream, n % WORD64, 8);
    } else if IntRange(f.dataSize) == 0 {
      WroteNone(stream.sizing, stream.Observed());
      ok := false;
    } else if !f.ltype.LSVarint? {
      ok := WriteVarint(stream, n % WORD64);
    } else if -0x8000_0000_0000_0000 <= n < 0x8000_0000_0000_0000 {
      ZigzagRoundTrip(n);
      ok := WriteVarint(stream, Zigzag(n));
    } else {
      WroteNone(stream.sizing, stream.Observed());
      ok := false;
    }
  }

  /** The strnlen loop of pb_enc_string. */
  method BoundedStrLen(chars: seq<byte>, maxSize: nat) returns (size: nat)
    ensures size == StrLen(chars, maxSize)
  {
    size := 0;
    while size < |chars| && size < maxSize && chars[size] != 0
      invariant size <= |chars| && size <= maxSize
      invariant forall k :: 0 <= k < size ==> chars[k] != 0
    {
      size := size + 1;
    }
    var n := StrLen(chars, maxSize);
    assert n <= size && size <= n;
  }

  /** The field encoder of field `f`, without the tag. */
  method WriteValue(stream: OStream, f: Field, v: Value) returns (ok: bool)
    requires stream.Valid() && ValidField(f) && MatchesValue(f, v)
    modifies stream, stream.buf
    ensures stream.Valid()
    ensures Wrote(stream.sizing, old(stream.Observed()), stream.Observed(), ok, EncodeValue(f, v))
    decreases f, 0
  {
    hide Wrote, EncodeScalar, ValidTable, Matches;
    match v {
      case VInt(n) =>
        ok := WriteScalar(stream, f, n);
      case VBytes(data) =>
        if f.ltype.LBytes? {
          if |data| + BYTES_HEADER > f.dataSize {
            WroteNone(stream.sizing, stream.Observed());
            return false;
          }
          ok := WriteString(stream, data);
        } else if f.ltype.LString? {
          var size := BoundedStrLen(data, f.dataSize);
          ok := WriteString(stream, data[..size]);
        } else {
          ok := WriteString(stream, data);
        }
      case VMsg(slots) =>
        ok := WriteSubmessage(stream, f.ltype.fields, slots);
    }
  }

  function DelimitedMessage(fields: seq<Field>, m: seq<Slot>): Option<seq<byte>> {
    match Encode(fields, m)
    case None => None
    case Some(payload) => Some(Delimited(payload))
  }

  /** pb_encode_submessage (and pb_encode_delimited): a sizing pass, the length, then the contents. */
  method WriteSubmessage(stream: OStream, fields: seq<Field>, m: seq<Slot>) returns (ok: bool)
    requires stream.Valid() && ValidTable(fields) && Matches(fields, m)
    modifies stream, stream.buf
    ensures stream.Valid()
    ensures Wrote(stream.sizing, old(stream.Observed()), stream.Observed(), ok, DelimitedMessage(fields, m))
    decreases fields, |fields| + 4
  {
    hide Wrote, Matches, ValidTable, Encode;
    ghost var s, e := stream.Observed(), Encode(fields, m);
    var sizestream := new OStream.Sizing();
    ok := EncodeMessage(sizestream, fields, m);
    SizedBy(sizestream.Observed(), ok, e);
    if !ok {
      SizingFailed(stream.sizing, s, e);
      return;
    }
    var size := sizestream.bytesWritten;
    ok := WriteVarint(stream, size);
    ghost var t := stream.Observed();
    if !ok {
      LengthFailed(stream.sizing, s, t, e.value, size);
      return;
    }
    if stream.sizing {
      ok := stream.Write([], size);
      SubmessageSized(s, t, stream.Observed(), e.value, size);
      return;
    }
    ok := WriteContents(stream, fields, m, size);
    SubmessageWritten(s, t, stream.Observed(), ok, e.value, size);
  }

  /** Writing a submessage's contents through a substream limited to `size` bytes. When `size` is the size
      of the contents, the limit never bites and the check for a changed size never fires. */
  method WriteContents(stream: OStream, fields: seq<Field>, m: seq<Slot>, size: nat) returns (ok: bool)
    requires stream.Valid() && !stream.sizing && ValidTable(fields) && Matches(fields, m)
    requires size < WORD64 && Encode(fields, m).Some?
    modifies stream, stream.buf
    ensures stream.Valid()
    ensures Framed(false, old(stream.Observed()), stream.Observed())
    ensures size == |Encode(fields, m).value| ==>
      Wrote(false, old(stream.Observed()), stream.Observed(), ok, Encode(fields, m))
    decreases fields, |fields| + 3
  {
    hide Matches, ValidTable, Encode, Wrote, Framed;
    ghost var outer := stream.Observed();
    NothingWritten(outer, size, Encode(fields, m));
    if stream.bytesWritten + size > stream.maxSize {
      return false;
    }
    ghost var limit := stream.state + (stream.maxSize - stream.bytesWritten);
    ghost var before := stream.buf[..];
    var substream := new OStream.FromBuffer(stream.buf, stream.state, size);
    ghost var inner := substream.Observed();
    var status := EncodeMessage(substream, fields, m);
    ghost var after := substream.Observed();
    assert stream.buf == substream.buf && stream.bytesWritten == outer.written && stream.maxSize == outer.maxSize;
    UnderLimit(inner, after, status, Encode(fields, m));
    BeyondOuter(before, stream.buf[..], stream.state + size, limit);
    stream.bytesWritten := stream.bytesWritten + substream.bytesWritten;
    stream.state := substream.state;
    Passed(outer, inner, after, stream.Observed(), status, Encode(fields, m));
    if substream.bytesWritten != size {
      return false;
    }
    ok := status;
  }

  lemma NothingWritten(s: OState, size: nat, e: Option<seq<byte>>)
    ensures Framed(false, s, s)
    ensures s.written + size > s.maxSize && e.Some? && |e.value| == size ==> Wrote(false, s, s, false, e)
  {
  }

  lemma UnderLimit(s: OState, t: OState, ok: bool, e: Option<seq<byte>>)
    requires Wrote(false, s, t, ok, e)
    ensures t.maxSize == s.maxSize && t.beyond == s.beyond && |t.content| - |s.content| == t.written - s.written
  {
  }

  /** What a substream has done, seen from the stream it lies in. */
  lemma Passed(s: OState, s1: OState, t1: OState, t: OState, ok: bool, e: Option<seq<byte>>)
    requires Wrote(false, s1, t1, ok, e) && s1.written == 0 && s1.content == s.content
    requires t == OState(s.written + t1.written, s.maxSize, t1.content, s.beyond)
    ensures Framed(false, s, t)
    ensures e.Some? && |e.value| == s1.maxSize < WORD64 && s.written + s1.maxSize <= s.maxSize ==>
      ok && t1.written == s1.maxSize && Wrote(false, s, t, true, e)
  {
  }

  lemma BeyondOuter(a: seq<byte>, b: seq<byte>, inner: nat, outer: nat)
    requires inner <= outer <= |a| == |b| && a[inner..] == b[inner..]
    ensures a[outer..] == b[outer..]
  {
    assert a[outer..] == a[inner..][outer - inner..];
    assert b[outer..] == b[inner..][outer - inner..];
  }

  lemma SizingFailed(sizing: bool, s: OState, e: Option<seq<byte>>)
    requires e.Some? ==> |e.value| >= WORD64
    ensures Wrote(sizing, s, s, false, if e.Some? then Some(Delimited(e.value)) else None)
  {
  }

  lemma SizedBy(t: OState, ok: bool, e: Option<seq<byte>>)
    requires Wrote(true, OState(0, 0, [], []), t, ok, e)
    ensures ok ==> e.Some?
    ensures e.Some? && |e.value| < WORD64 ==> ok && t.written == |e.value|
  {
  }

  lemma LengthFailed(sizing: bool, s: OState, t: OState, payload: seq<byte>, size: nat)
    requires Wrote(sizing, s, t, false, Some(EncodeVarint(size)))
    requires |payload| < WORD64 ==> size == |payload|
    ensures Wrote(sizing, s, t, false, Some(Delimited(payload)))
  {
  }

  lemma SubmessageSized(s: OState, t: OState, u: OState, payload: seq<byte>, size: nat)
    requires Wrote(true, s, t, true, Some(EncodeVarint(size)))
    requires |payload| < WORD64 ==> size == |payload|
    requires u.maxSize == t.maxSize && u.written == (t.written + size) % WORD64
    ensures Wrote(true, s, u, true, Some(Delimited(payload)))
  {
    if s.written + |Delimited(payload)| < WORD64 { SmallMod(t.written + size, WORD64); }
  }

  lemma SubmessageWritten(s: OState, t: OState, u: OState, ok: bool, payload: seq<byte>, size: nat)
    requires Wrote(false, s, t, true, Some(EncodeVarint(size)))
    requires |payload| < WORD64 ==> size == |payload|
    requires Framed(false, t, u) && (size == |payload| ==> Wrote(false, t, u, ok, Some(payload)))
    ensures Wrote(false, s, u, ok, Some(Delimited(payload)))
  {
    if size == |payload| {
      WroteThen(false, s, t, u, ok, Some(EncodeVarint(size)), Some(payload));
    }
  }

  /** pb_encode. */
  method EncodeMessage(stream: OStream, fields: seq<Field>, m: seq<Slot>) returns (ok: bool)
    requires stream.Valid() && ValidTable(fields) && Matches(fields, m)
    modifies stream, stream.buf
    ensures stream.Valid()
    ensures Wrote(stream.sizing, old(stream.Observed()), stream.Observed(), ok, Encode(fields, m))
    decreases fields, |fields| + 2
  {
    hide Wrote, EncodeField, EncodeUpTo, Matches, ValidTable, MatchesSlot, AbsOffset, RequiredIndex, SlotOf;
    ghost var s := stream.Observed();
    WroteNothing(stream.sizing, s);
    NoFields(fields, m);
    var iter := new Iter(fields, 0);
    var more := iter.Begin();
    if !more {
      return true;
    }
    ghost var i := 0;
    while true
      invariant stream.Valid() && iter.Valid() && iter.start == fields
      invariant i == iter.pos < |fields|
      invariant Wrote(stream.sizing, s, stream.Observed(), true, EncodeUpTo(fields, i, m))
      modifies stream, stream.buf, iter
      decreases |fields| - i
    {
      var slot := SlotOf(fields, iter.pos);
      MatchesAt(fields, i, m);
      ValidAt(fields, i);
      OneMoreField(fields, i, m);
      ghost var t := stream.Observed();
      ok := WriteField(stream, fields[iter.pos], m[slot]);
      WroteThen(stream.sizing, s, t, stream.Observed(), ok, EncodeUpTo(fields, i, m), EncodeField(fields[i], m[slot]));
      i := i + 1;
      if !ok {
        FailedPrefix(stream.sizing, s, stream.Observed(), fields, i, |fields|, m);
        return;
      }
      more := iter.Next();
      if !more {
        return;
      }
    }
  }

  lemma NoFields(fields: seq<Field>, m: seq<Slot>)
    ensures EncodeUpTo(fields, 0, m) == Some([])
  {
  }

  lemma OneMoreField(fields: seq<Field>, i: nat, m: seq<Slot>)
    requires i < |fields| && SlotOf(fields, i) < |m|
    ensures EncodeUpTo(fields, i + 1, m) == Cat(EncodeUpTo(fields, i, m), EncodeField(fields[i], m[SlotOf(fields, i)]))
  {
    hide EncodeField;
  }

  lemma {:induction false} FailedPrefix(sizing: bool, s: OState, t: OState, fields: seq<Field>, i: nat, n: nat,
      m: seq<Slot>)
    requires i <= n <= |fields| && Wrote(sizing, s, t, false, EncodeUpTo(fields, i, m))
    ensures Wrote(sizing, s, t, false, EncodeUpTo(fields, n, m))
    decreases n
  {
    hide Wrote, EncodeField;
    if i < n {
      FailedPrefix(sizing, s, t, fields, i, n - 1, m);
      if SlotOf(fields, n - 1) < |m| {
        WroteFailed(sizing, s, t, EncodeUpTo(fields, n - 1, m), EncodeField(fields[n - 1], m[SlotOf(fields, n - 1)]));
      } else {
        FailedNone(sizing, s, t, EncodeUpTo(fields, n - 1, m));
      }
    }
  }

  lemma FailedNone(sizing: bool, s: OState, t: OState, e: Option<seq<byte>>)
    requires Wrote(sizing, s, t, false, e)
    ensures Wrote(sizing, s, t, false, None)
  {
  }

  /** The tag and the value of one field. */
  method WriteTagged(stream: OStream, f: Field, v: Value) returns (ok: bool)
    requires stream.Valid() && ValidField(f) && MatchesValue(f, v)
    modifies stream, stream.buf
    ensures stream.Valid()
    ensures Wrote(stream.sizing, old(stream.Observed()), stream.Observed(), ok, EncodeTagged(f, v))
    decreases f, 1
  {
    hide Wrote, EncodeValue, MatchesValue, EncodeTag;
    ghost var s, e1 := stream.Observed(), Some(EncodeTag(WireTypeOf(f.ltype), f.tag));
    ok := WriteTag(stream, WireTypeOf(f.ltype), f.tag);
    ghost var t := stream.Observed();
    if !ok {
      WroteFailed(stream.sizing, s, t, e1, EncodeValue(f, v));
      return;
    }
    ok := WriteValue(stream, f, v);
    WroteThen(stream.sizing, s, t, stream.Observed(), ok, e1, EncodeValue(f, v));
  }

  /** pb_check_proto3_default_value on a field's data. */
  method CheckDefaultValue(f: Field, v: Value) returns (isDefault: bool)
    requires MatchesValue(f, v)
    ensures isDefault == IsDefaultValue(f, v)
    decreases f, 0
  {
    hide AllDefault;
    match v {
      case VInt(n) => return n == 0;
      case VBytes(data) =>
        if f.ltype.LBytes? { return data == []; }
        if f.ltype.LString? { return data == [] || data[0] == 0; }
        return f.dataSize == 0;
      case VMsg(slots) =>
        isDefault := CheckAllDefault(f.ltype.fields, slots);
    }
  }

  /** Its loop over a submessage's fields. */
  method CheckAllDefault(fields: seq<Field>, m: seq<Slot>) returns (isDefault: bool)
    requires |m| == NumSlots(fields) && Matches(fields, m)
    ensures isDefault == AllDefault(fields, m)
    decreases fields
  {
    hide IsDefaultSlot, MatchesSlot, AbsOffset, RequiredIndex, SharesSlot, Matches, AllDefault;
    var iter := new Iter(fields, 0);
    var more := iter.Begin();
    ghost var i := 0;
    while more
      invariant iter.Valid() && iter.start == fields && (more ==> i == iter.pos < |fields|)
      invariant i <= |fields| && (!more ==> i == |fields|)
      invariant forall j :: 0 <= j < i ==> DefaultAt(fields, j, m)
      decreases |fields| - i
    {
      MatchesAt(fields, i, m);
      var absent := CheckDefaultSlot(fields[iter.pos], m[SlotOf(fields, iter.pos)]);
      if !absent {
        NotAllDefault(fields, i, m);
        return false;
      }
      i := i + 1;
      more := iter.Next();
    }
    AllAreDefault(fields, m);
    isDefault := true;
  }

  predicate DefaultAt(fields: seq<Field>, j: nat, m: seq<Slot>)
    requires j < |fields|
  {
    SlotOf(fields, j) < |m| && IsDefaultSlot(fields[j], m[SlotOf(fields, j)])
  }

  lemma NotAllDefault(fields: seq<Field>, i: nat, m: seq<Slot>)
    requires |m| == NumSlots(fields) && i < |fields| && !DefaultAt(fields, i, m)
    ensures !AllDefault(fields, m)
  {
  }

  lemma AllAreDefault(fields: seq<Field>, m: seq<Slot>)
    requires |m| == NumSlots(fields) && forall j :: 0 <= j < |fields| ==> DefaultAt(fields, j, m)
    ensures AllDefault(fields, m)
  {
    hide IsDefaultSlot, SlotOf, SharesSlot;
    forall i | 0 <= i < |fields| ensures SlotOf(fields, i) < |m| && IsDefaultSlot(fields[i], m[SlotOf(fields, i)]) {
      assert DefaultAt(fields, i, m);
    }
  }

  /** pb_check_proto3_default_value. */
  method CheckDefaultSlot(f: Field, slot: Slot) returns (isDefault: bool)
    requires MatchesSlot(f, slot)
    ensures isDefault == IsDefaultSlot(f, slot)
    decreases f, 1
  {
    if f.htype.Required? {
      return false;
    } else if f.htype.Repeated? {
      return f.sizeOffset != 0 && slot.items == [];
    } else if f.htype.Oneof? {
      return slot.which == 0;
    } else if f.sizeOffset != 0 {
      return !slot.has;
    }
    isDefault := CheckDefaultValue(f, slot.v);
  }

  /** encode_basic_field. */
  method WriteField(stream: OStream, f: Field, slot: Slot) returns (ok: bool)
    requires stream.Valid() && ValidField(f) && MatchesSlot(f, slot)
    modifies stream, stream.buf
    ensures stream.Valid()
    ensures Wrote(stream.sizing, old(stream.Observed()), stream.Observed(), ok, EncodeField(f, slot))
    decreases f, 4
  {
    hide Wrote, EncodeTagged, EncodeArray, MatchesValue, ValidField;
    WroteNothing(stream.sizing, stream.Observed());
    match f.htype {
      case Required =>
        ok := WriteTagged(stream, f, slot.v);
      case Optional =>
        var present;
        if f.sizeOffset != 0 {
          present := slot.has;
        } else {
          var absent := CheckDefaultValue(f, slot.v);
          present := !absent;
        }
        if present { ok := WriteTagged(stream, f, slot.v); } else { ok := true; }
      case Repeated =>
        ok := WriteArray(stream, f, slot.items);
      case Oneof =>
        if slot.which == f.tag { ok := WriteTagged(stream, f, slot.v); } else { ok := true; }
    }
  }

  /** encode_array: packable elements in one packed record, the others one record each. */
  method WriteArray(stream: OStream, f: Field, items: seq<Value>) returns (ok: bool)
    requires stream.Valid() && ValidField(f)
    requires forall j :: 0 <= j < |items| ==> MatchesValue(f, items[j])
    modifies stream, stream.buf
    ensures stream.Valid()
    ensures Wrote(stream.sizing, old(stream.Observed()), stream.Observed(), ok, EncodeArray(f, items))
    decreases f, 3
  {
    hide Wrote, EncodeTaggedItems, EncodePacked, MatchesValue, ValidField;
    WroteNothing(stream.sizing, stream.Observed());
    WroteNone(stream.sizing, stream.Observed());
    if |items| == 0 {
      return true;
    }
    if |items| > f.arraySize {
      return false;
    }
    if Packable(f.ltype) {
      forall j | 0 <= j < |items| ensures items[j].VInt? { MatchesScalar(f, items[j]); }
      ok := WritePacked(stream, f, items);
    } else {
      ok := WriteTaggedItems(stream, f, items);
    }
  }

  lemma MatchesScalar(f: Field, v: Value)
    requires Packable(f.ltype) && MatchesValue(f, v)
    ensures v.VInt?
  {
  }

  lemma CatUnit(a: Option<seq<byte>>)
    ensures Cat(Some([]), a) == a == Cat(a, Some([]))
  {
    if a.Some? {
      assert [] + a.value == a.value + [] == a.value;
    }
  }

  lemma CatAssoc(a: Option<seq<byte>>, b: Option<seq<byte>>, c: Option<seq<byte>>)
    ensures Cat(a, Cat(b, c)) == Cat(Cat(a, b), c)
  {
    if a.Some? && b.Some? && c.Some? {
      assert a.value + (b.value + c.value) == a.value + b.value + c.value;
    }
  }

  method WriteTaggedItems(stream: OStream, f: Field, items: seq<Value>) returns (ok: bool)
    requires stream.Valid() && ValidField(f)
    requires forall j :: 0 <= j < |items| ==> MatchesValue(f, items[j])
    modifies stream, stream.buf
    ensures stream.Valid()
    ensures Wrote(stream.sizing, old(stream.Observed()), stream.Observed(), ok, EncodeTaggedItems(f, items))
    decreases f, 2
  {
    hide Wrote, EncodeTagged, MatchesValue, ValidField;
    ghost var s := stream.Observed();
    WroteNothing(stream.sizing, s);
    var i := 0;
    assert items[..0] == [];
    while i < |items|
      invariant 0 <= i <= |items| && stream.Valid()
      invariant Wrote(stream.sizing, s, stream.Observed(), true, EncodeTaggedItems(f, items[..i]))
    {
      ghost var t := stream.Observed();
      ok := WriteTagged(stream, f, items[i]);
      TaggedItemsSnoc(f, items, i);
      WroteThen(stream.sizing, s, t, stream.Observed(), ok, EncodeTaggedItems(f, items[..i]), EncodeTagged(f,
          items[i]));
      i := i + 1;
      if !ok {
        FailedItems(stream.sizing, s, stream.Observed(), f, items, i);
        return;
      }
    }
    assert items[..i] == items;
    ok := true;
  }

  lemma {:induction false} TaggedItemsSnoc(f: Field, items: seq<Value>, i: nat)
    requires i < |items|
    ensures EncodeTaggedItems(f, items[..i + 1]) == Cat(EncodeTaggedItems(f, items[..i]), EncodeTagged(f, items[i]))
    decreases i
  {
    hide EncodeTagged;
    var p := items[..i + 1];
    if i > 0 {
      TaggedItemsSnoc(f, items[1..], i - 1);
      assert p[1..] == items[1..][..i] && items[..i][1..] == items[1..][..i - 1];
      CatAssoc(EncodeTagged(f, items[0]), EncodeTaggedItems(f, items[1..][..i - 1]), EncodeTagged(f, items[i]));
    } else {
      assert p[1..] == [];
      CatUnit(EncodeTagged(f, items[0]));
    }
  }

  lemma {:induction false} FailedItems(sizing: bool, s: OState, t: OState, f: Field, items: seq<Value>, i: nat)
    requires i <= |items| && Wrote(sizing, s, t, false, EncodeTaggedItems(f, items[..i]))
    ensures Wrote(sizing, s, t, false, EncodeTaggedItems(f, items))
    decreases |items| - i
  {
    hide Wrote, EncodeTagged, EncodeTaggedItems;
    if i < |items| {
      TaggedItemsSnoc(f, items, i);
      WroteFailed(sizing, s, t, EncodeTaggedItems(f, items[..i]), EncodeTagged(f, items[i]));
      FailedItems(sizing, s, t, f, items, i + 1);
    } else {
      assert items[..i] == items;
    }
  }

  /** A packed record: the tag, the size of the elements, then the elements. */
  method WritePacked(stream: OStream, f: Field, items: seq<Value>) returns (ok: bool)
    requires stream.Valid() && ValidField(f) && Packable(f.ltype) && |items| <= f.arraySize
    requires forall j :: 0 <= j < |items| ==> items[j].VInt?
    modifies stream, stream.buf
    ensures stream.Valid()
    ensures Wrote(stream.sizing, old(stream.Observed()), stream.Observed(), ok, PackedRecord(f, items))
  {
    hide Wrote, EncodePacked, EncodeScalar, EncodeTag;
    ghost var s, e := stream.Observed(), EncodePacked(f, items);
    ghost var tag := Some(EncodeTag(WT_STRING, f.tag));
    ok := WriteTag(stream, WT_STRING, f.tag);
    ghost var t := stream.Observed();
    if !ok {
      TagFailed(stream.sizing, s, t, f, items);
      return;
    }
    var size;
    ok, size := PackedSize(f, items);
    if !ok {
      PackedFailed(stream.sizing, s, t, f, items);
      return;
    }
    ok := WriteVarint(stream, size);
    ghost var u := stream.Observed();
    if !ok {
      LengthFailed(stream.sizing, t, u, e.value, size);
      WroteThen(stream.sizing, s, t, u, false, tag, Some(Delimited(e.value)));
      return;
    }
    if stream.sizing {
      ok := stream.Write([], size);
      SubmessageSized(t, u, stream.Observed(), e.value, size);
    } else {
      ok := WritePackedItems(stream, f, items);
      ItemsWritten(t, u, stream.Observed(), ok, e.value, size);
    }
    WroteThen(stream.sizing, s, t, stream.Observed(), ok, tag, Some(Delimited(e.value)));
  }

  /** The size of the elements: known for fixed-width types, otherwise found by a sizing pass. */
  method PackedSize(f: Field, items: seq<Value>) returns (ok: bool, size: nat)
    requires Packable(f.ltype) && |items| < WORD32 && forall j :: 0 <= j < |items| ==> items[j].VInt?
    ensures size < WORD64 && (ok ==> EncodePacked(f, items).Some?)
    ensures EncodePacked(f, items).Some? && |EncodePacked(f, items).value| < WORD64 ==>
      ok && size == |EncodePacked(f, items).value|
  {
    hide EncodePacked;
    if f.ltype.LFixed32? {
      FixedItemsSize(f, items);
      return true, 4 * |items|;
    } else if f.ltype.LFixed64? {
      FixedItemsSize(f, items);
      return true, 8 * |items|;
    }
    var sizestream := new OStream.Sizing();
    ok := WritePackedItems(sizestream, f, items);
    SizedBy(sizestream.Observed(), ok, EncodePacked(f, items));
    size := sizestream.bytesWritten;
  }

  function PackedRecord(f: Field, items: seq<Value>): Option<seq<byte>> {
    match EncodePacked(f, items)
    case None => None
    case Some(payload) => Some(EncodeTag(WT_STRING, f.tag) + Delimited(payload))
  }

  lemma TagFailed(sizing: bool, s: OState, t: OState, f: Field, items: seq<Value>)
    requires Wrote(sizing, s, t, false, Some(EncodeTag(WT_STRING, f.tag)))
    ensures Wrote(sizing, s, t, false, PackedRecord(f, items))
  {
  }

  lemma PackedFailed(sizing: bool, s: OState, t: OState, f: Field, items: seq<Value>)
    requires Framed(sizing, s, t)
    requires EncodePacked(f, items).Some? ==> |EncodePacked(f, items).value| >= WORD64
    ensures Wrote(sizing, s, t, false, PackedRecord(f, items))
  {
  }

  lemma ItemsWritten(s: OState, t: OState, u: OState, ok: bool, payload: seq<byte>, size: nat)
    requires Wrote(false, s, t, true, Some(EncodeVarint(size)))
    requires |payload| < WORD64 ==> size == |payload|
    requires Wrote(false, t, u, ok, Some(payload))
    ensures Wrote(false, s, u, ok, Some(Delimited(payload)))
  {
    if |payload| < WORD64 {
      WroteThen(false, s, t, u, ok, Some(EncodeVarint(size)), Some(payload));
    } else {
      FramedThen(false, s, t, u);
    }
  }

  lemma {:induction false} FixedItemsSize(f: Field, items: seq<Value>)
    requires f.ltype.LFixed32? || f.ltype.LFixed64?
    requires forall j :: 0 <= j < |items| ==> items[j].VInt?
    ensures EncodePacked(f, items).Some?
    ensures |EncodePacked(f, items).value| == (if f.ltype.LFixed32? then 4 else 8) * |items|
  {
    if items != [] {
      FixedItemsSize(f, items[1..]);
    }
  }

  method WritePackedItems(stream: OStream, f: Field, items: seq<Value>) returns (ok: bool)
    requires stream.Valid() && Packable(f.ltype) && forall j :: 0 <= j < |items| ==> items[j].VInt?
    modifies stream, stream.buf
    ensures stream.Valid()
    ensures Wrote(stream.sizing, old(stream.Observed()), stream.Observed(), ok, EncodePacked(f, items))
  {
    hide Wrote, EncodeScalar;
    ghost var s := stream.Observed();
    WroteNothing(stream.sizing, s);
    var i := 0;
    assert items[..0] == [];
    while i < |items|
      invariant 0 <= i <= |items| && stream.Valid()
      invariant Wrote(stream.sizing, s, stream.Observed(), true, EncodePacked(f, items[..i]))
    {
      ghost var t := stream.Observed();
      ok := WriteScalar(stream, f, items[i].n);
      PackedSnoc(f, items, i);
      WroteThen(stream.sizing, s, t, stream.Observed(), ok, EncodePacked(f, items[..i]), EncodeScalar(f, items[i].n));
      i := i + 1;
      if !ok {
        FailedPacked(stream.sizing, s, stream.Observed(), f, items, i);
        return;
      }
    }
    assert items[..i] == items;
    ok := true;
  }

  lemma {:induction false} PackedSnoc(f: Field, items: seq<Value>, i: nat)
    requires i < |items| && items[i].VInt?
    ensures EncodePacked(f, items[..i + 1]) == Cat(EncodePacked(f, items[..i]), EncodeScalar(f, items[i].n))
    decreases i
  {
    hide EncodeScalar;
    var p := items[..i + 1];
    if i > 0 {
      PackedSnoc(f, items[1..], i - 1);
      assert p[1..] == items[1..][..i] && items[..i][1..] == items[1..][..i - 1];
      var first := if items[0].VInt? then EncodeScalar(f, items[0].n) else None;
      CatAssoc(first, EncodePacked(f, items[1..][..i - 1]), EncodeScalar(f, items[i].n));
    } else {
      assert p[1..] == [];
      CatUnit(EncodeScalar(f, items[0].n));
    }
  }

  lemma {:induction false} FailedPacked(sizing: bool, s: OState, t: OState, f: Field, items: seq<Value>, i: nat)
    requires i <= |items| && forall j :: 0 <= j < |items| ==> items[j].VInt?
    requires Wrote(sizing, s, t, false, EncodePacked(f, items[..i]))
    ensures Wrote(sizing, s, t, false, EncodePacked(f, items))
    decreases |items| - i
  {
    hide Wrote, EncodeScalar, EncodePacked;
    if i < |items| {
      PackedSnoc(f, items, i);
      WroteFailed(sizing, s, t, EncodePacked(f, items[..i]), EncodeScalar(f, items[i].n));
      FailedPacked(sizing, s, t, f, items, i + 1);
    } else {
      assert items[..i] == items;
    }
  }

  // ---------- Main results ----------

  /** pb_get_encoded_size: exactly the number of bytes pb_encode writes. */
  method GetEncodedSize(fields: seq<Field>, m: seq<Slot>) returns (ok: bool, size: nat)
    requires ValidTable(fields) && Matches(fields, m)
    ensures ok ==> Encode(fields, m).Some?
    ensures Encode(fields, m).Some? && |Encode(fields, m).value| < WORD64 ==>
      ok && size == |Encode(fields, m).value|
  {
    hide Encode, Matches, ValidTable;
    var stream := new OStream.Sizing();
    ok := EncodeMessage(stream, fields, m);
    size := stream.bytesWritten;
  }

  /** pb_encode over pb_ostream_from_buffer: it succeeds iff the buffer holds the size GetEncodedSize
      reports, writes exactly the specified bytes, and never touches the array past `limit`. */
  method EncodeToBuffer(destination: array<byte>, limit: nat, fields: seq<Field>, m: seq<Slot>)
    returns (ok: bool, written: nat)
    requires limit <= destination.Length < WORD64 && ValidTable(fields) && Matches(fields, m)
    modifies destination
    ensures Encode(fields, m) == None ==> !ok
    ensures Encode(fields, m).Some? && |Encode(fields, m).value| < WORD64 ==>
      && (ok <==> |Encode(fields, m).value| <= limit)
      && (ok ==> written <= limit && destination[..written] == Encode(fields, m).value)
    ensures destination[limit..] == old(destination[limit..])
  {
    hide Encode, Matches, ValidTable;
    var stream := new OStream.FromBuffer(destination, 0, limit);
    assert stream.Observed() == OState(0, limit, [], destination[limit..]);
    ok := EncodeMessage(stream, fields, m);
    written := stream.bytesWritten;
  }
}
