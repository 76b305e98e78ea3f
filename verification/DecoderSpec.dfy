/** What pb_decode_noinit does to a struct, as a function of the field table, the slots before the call
    and the bytes of the stream. `Fail` is a decoding error. */
module DecoderSpec {
  import opened Words
  import opened Parsing
  import opened Varints
  import opened Wire
  import opened Schema
  import opened Defaulting

  const PB_MAX_REQUIRED_FIELDS: nat := 64

  /** C's integer conversions in pb_dec_varint, pb_dec_uvarint and pb_dec_svarint: a value the field
      cannot hold is an error. */
  function NarrowSigned(raw: nat, size: nat): Option<int> {
    var range := IntRange(size);
    var svalue := if size == 8 then SignedWrap(raw, WORD64) else SignedWrap(raw, WORD32);
    if range != 0 && SignedWrap(svalue, range) == svalue then Some(svalue) else None
  }

  function NarrowUnsigned(raw: nat, size: nat): Option<int> {
    var range := IntRange(size);
    if range != 0 && raw % range == raw then Some(raw) else None
  }

  function NarrowZigzag(raw: nat, size: nat): Option<int> {
    var range := IntRange(size);
    var svalue := UnZigzag(raw);
    if range != 0 && SignedWrap(svalue, range) == svalue then Some(svalue) else None
  }

  function Deliver(n: Option<int>, rest: seq<byte>): Parse<Value> {
    if n.Some? then Ok(VInt(n.value), rest) else Fail
  }

  /** The field decoders of the packable types. */
  function DecodeScalar(f: Field, s: seq<byte>): (r: Parse<Value>)
    ensures r.Ok? ==> |r.rest| < |s| && r.value.VInt?
  {
    DecodeVarintConsumes(s);
    DecodeVarint32Consumes(s);
    match f.ltype
    case LBool => var (n, rest) :- DecodeVarint32(s); Ok(VInt(if n != 0 then 1 else 0), rest)
    case LVarint => var (n, rest) :- DecodeVarint(s); Deliver(NarrowSigned(n, f.dataSize), rest)
    case LUVarint => var (n, rest) :- DecodeVarint(s); Deliver(NarrowUnsigned(n, f.dataSize), rest)
    case LSVarint => var (n, rest) :- DecodeVarint(s); Deliver(NarrowZigzag(n, f.dataSize), rest)
    case LFixed32 => var (b, rest) :- Read(s, 4); Ok(VInt(FixedValue(b)), rest)
    case LFixed64 => var (b, rest) :- Read(s, 8); Ok(VInt(FixedValue(b)), rest)
    case _ => Fail
  }

  /** pb_dec_bytes, pb_dec_string and pb_dec_fixed_length_bytes. */
  function DecodeBlob(f: Field, s: seq<byte>): (r: Parse<Value>)
    ensures r.Ok? ==> |r.rest| < |s|
  {
    DecodeVarint32Consumes(s);
    var (size, s) :- DecodeVarint32(s);
    match f.ltype
    case LBytes =>
      if size + BYTES_HEADER > f.dataSize then Fail
      else var (b, rest) :- Read(s, size); Ok(VBytes(b), rest)
    case LString =>
      var allocSize := (size + 1) % WORD32;
      if allocSize < size || allocSize > f.dataSize then Fail
      else var (b, rest) :- Read(s, size); Ok(VBytes(b), rest)
    case LFixedBytes =>
      if size == 0 then Ok(VBytes(seq(f.dataSize, _ => 0)), s)
      else if size != f.dataSize then Fail
      else var (b, rest) :- Read(s, size); Ok(VBytes(b), rest)
    case _ => Fail
  }

  /** Store an element at the array's count. */
  function Put(items: seq<Value>, pos: nat, v: Value): seq<Value> {
    if pos < |items| then items[pos := v] else items + [v]
  }

  /** The loop over a packed run: elements go to positions `pos`, `pos + 1`, ... */
  function DecodePacked(f: Field, items: seq<Value>, pos: nat, s: seq<byte>): Option<(seq<Value>, nat)>
    decreases |s|
  {
    if s == [] then Some((items, pos))
    else if pos >= f.arraySize then None
    else match DecodeScalar(f, s)
      case Fail => None
      case Ok(v, rest) => DecodePacked(f, Put(items, pos, v), pos + 1, rest)
  }

  /** The decoder's local variables: the struct, the required fields seen, and the fixed-count field
      being filled with the number of its elements received. */
  datatype DState = DState(m: seq<Slot>, seen: set<nat>, fixedField: Option<nat>, fixedSize: nat)

  datatype Outcome = Failed | Done(st: DState, rest: seq<byte>, terminated: bool)

  /** PB_DECODERS applied to a field whose storage holds `prior`. */
  function DecodeValue(f: Field, prior: Value, s: seq<byte>): (r: Parse<Value>)
    ensures r.Ok? ==> |r.rest| < |s|
    decreases |s|, 0
  {
    if Packable(f.ltype) then DecodeScalar(f, s)
    else match f.ltype
      case LSubmessage(sub) =>
        DecodeVarint32Consumes(s);
        var (payload, rest) :- ReadDelimited(s);
        var start := if f.htype.Repeated? then ElementBase(f, prior) else prior;
        if !start.VMsg? then Fail
        else
          var (m, _) :- DecodeNoInit(sub, start.slots, payload);
          Ok(VMsg(m), rest)
      case _ => DecodeBlob(f, s)
  }

  /** decode_static_field; `k` is the element count of a fixed-count array. */
  function DecodeField(f: Field, slot: Slot, k: nat, wireType: nat, s: seq<byte>): (r: Parse<(Slot, nat)>)
    ensures r.Ok? ==> |r.rest| < |s|
    decreases |s|, 1
  {
    match (f.htype, slot)
    case (Required, SOne(x)) => var (v, rest) :- DecodeValue(f, x, s); Ok((SOne(v), k), rest)
    case (Optional, SOne(x)) => var (v, rest) :- DecodeValue(f, x, s); Ok((SOne(v), k), rest)
    case (Optional, SOpt(_, x)) => var (v, rest) :- DecodeValue(f, x, s); Ok((SOpt(true, v), k), rest)
    case (Repeated, SRep(items, _)) =>
      var pos := if FixedCount(f) then k else |items|;
      if wireType == WT_STRING && Packable(f.ltype) then
        DecodeVarint32Consumes(s);
        var (run, rest) :- ReadDelimited(s);
        match DecodePacked(f, items, pos, run)
        case None => Fail
        case Some((items', pos')) => Ok((Grown(slot, items'), pos'), rest)
      else if pos >= f.arraySize then Fail
      else
        var (v, rest) :- DecodeValue(f, CellAt(slot, pos), s);
        Ok((Grown(slot, Put(items, pos, v)), pos + 1), rest)
    case (Oneof, SOneof(which, x)) =>
      var base := if f.ltype.LSubmessage? && which != f.tag then UnionBase(f) else x;
      var (v, rest) :- DecodeValue(f, base, s);
      Ok((SOneof(f.tag, v), k), rest)
    case _ => Fail
  }

  /** The fixed-count field being filled is complete (or there is none). */
  predicate FixedComplete(fields: seq<Field>, st: DState) {
    match st.fixedField
    case None => true
    case Some(i) => i < |fields| && st.fixedSize == fields[i].arraySize
  }

  /** One turn of pb_decode_noinit's loop, after the tag. On an empty table the iterator rests on the
      terminator, whose zero tag matches field number 0 and decodes as a required bool. */
  function DecodeOne(fields: seq<Field>, st: DState, wireType: nat, tag: nat, s: seq<byte>): (r: Parse<DState>)
    ensures r.Ok? ==> |r.rest| <= |s|
    decreases |s|, 2
  {
    var i := FindField(fields, tag);
    if i == |fields| then
      DecodeVarint32Consumes(s);
      SkipFieldConsumes(s, wireType);
      if fields == [] && tag == 0 then var (_, rest) :- DecodeVarint32(s); Ok(st, rest)
      else var (_, rest) :- SkipField(s, wireType); Ok(st, rest)
    else
      var f, slot := fields[i], SlotOf(fields, i);
      if slot >= |st.m| then Fail
      else if FixedCount(f) && st.fixedField != Some(i) && !FixedComplete(fields, st) then Fail
      else if !Releasable(fields, f, st.m[slot]) then Fail
      else
        var k := if st.fixedField == Some(i) then st.fixedSize else 0;
        var (r, rest) :- DecodeField(f, st.m[slot], k, wireType, s);
        Ok(DState(st.m[slot := r.0], Mark(fields, i, st.seen),
                  if FixedCount(f) then Some(i) else st.fixedField,
                  if FixedCount(f) then r.1 else st.fixedSize), rest)
  }

  /** The bit a decoded field sets in fields_seen. */
  function Mark(fields: seq<Field>, i: nat, seen: set<nat>): set<nat>
    requires i < |fields|
  {
    if fields[i].htype.Required? && RequiredIndex(fields, i) < PB_MAX_REQUIRED_FIELDS
    then seen + {RequiredIndex(fields, i)} else seen
  }

  function DecodeLoop(fields: seq<Field>, st: DState, s: seq<byte>): Outcome
    decreases |s|, 3
  {
    if s == [] then Done(st, [], false)
    else
      DecodeVarint32Consumes(s);
      match DecodeTag(s)
      case BadTag => Failed
      case EndOfMessage(rest) => Done(st, rest, true)
      case Tag(wireType, tag, rest) => (
        match DecodeOne(fields, st, wireType, tag, rest)
        case Fail => Failed
        case Ok(st', rest') => DecodeLoop(fields, st', rest'))
  }

  function TrackedRequired(fields: seq<Field>): nat {
    var n := RequiredIndex(fields, |fields|);
    if n > PB_MAX_REQUIRED_FIELDS then PB_MAX_REQUIRED_FIELDS else n
  }

  predicate RequiredSeen(fields: seq<Field>, seen: set<nat>) {
    forall k :: 0 <= k < TrackedRequired(fields) ==> k in seen
  }

  function Start(m: seq<Slot>): DState {
    DState(m, {}, None, 0)
  }

  /** pb_decode_noinit. */
  function DecodeNoInit(fields: seq<Field>, m: seq<Slot>, s: seq<byte>): (r: Parse<seq<Slot>>)
    decreases |s|, 4
  {
    match DecodeLoop(fields, Start(m), s)
    case Failed => Fail
    case Done(st, rest, _) =>
      if FixedComplete(fields, st) && RequiredSeen(fields, st.seen) then Ok(st.m, rest) else Fail
  }

  /** pb_decode on a struct that held `prior`. */
  function Decode(fields: seq<Field>, prior: seq<Slot>, s: seq<byte>): Parse<seq<Slot>> {
    DecodeNoInit(fields, Defaults(fields, prior), s)
  }
}
