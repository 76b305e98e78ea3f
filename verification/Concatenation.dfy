/** Exactly when two streams that decode one after the other also decode as one: fixed-count arrays are the
    only obstacle, because the decoder's element counter lives as long as one call. */
module Concatenation {
  import opened Words
  import opened Parsing
  import opened Varints
  import opened Wire
  import opened Schema
  import opened DecoderSpec
  import opened Streams
  import opened Records

  predicate FixedRecord(fields: seq<Field>, r: Record) {
    r.field < |fields| && FixedCount(fields[r.field])
  }

  /** The first and the last fixed-count field among the records of a stream. */
  function FirstFixed(fields: seq<Field>, recs: seq<Record>): Option<nat> {
    if recs == [] then None
    else if FixedRecord(fields, recs[0]) then Some(recs[0].field)
    else FirstFixed(fields, recs[1..])
  }

  function LastFixed(fields: seq<Field>, recs: seq<Record>): Option<nat> {
    if recs == [] then None
    else
      var last := LastFixed(fields, recs[1..]);
      if last == None && FixedRecord(fields, recs[0]) then Some(recs[0].field) else last
  }

  /** The same decoder state, but with field `i` full. */
  function Full(fields: seq<Field>, st: DState, i: nat): DState
    requires i < |fields|
  {
    st.(fixedField := Some(i), fixedSize := fields[i].arraySize)
  }

  /** A record of a field that is not fixed-count ignores the counter and leaves it alone. */
  lemma OtherRecord(fields: seq<Field>, st: DState, i: nat, wireType: nat, tag: nat, s: seq<byte>)
    requires i < |fields| && FixedCount(fields[i])
    requires var j := FindField(fields, tag); j < |fields| ==> !FixedCount(fields[j])
    ensures var r := DecodeOne(fields, st, wireType, tag, s);
      && DecodeOne(fields, Full(fields, st, i), wireType, tag, s) ==
           (if r.Ok? then Ok(Full(fields, r.value, i), r.rest) else Fail)
      && (r.Ok? ==> r.value.fixedField == st.fixedField && r.value.fixedSize == st.fixedSize)
  {
    hide DecodeValue, SkipField, DecodeVarint32, RequiredIndex, ReadDelimited, DecodePacked;
    var j := FindField(fields, tag);
    if j < |fields| && SlotOf(fields, j) < |st.m| {
      var k := if st.fixedField == Some(j) then st.fixedSize else 0;
      CountIgnored(fields[j], st.m[SlotOf(fields, j)], k, 0, wireType, s);
    }
  }

  lemma CountIgnored(f: Field, slot: Slot, k: nat, k': nat, wireType: nat, s: seq<byte>)
    requires !FixedCount(f)
    ensures var r, r' := DecodeField(f, slot, k, wireType, s), DecodeField(f, slot, k', wireType, s);
      r.Ok? == r'.Ok? && (r.Ok? ==> r.value.0 == r'.value.0 && r.rest == r'.rest)
  {
    hide DecodeValue, ReadDelimited, DecodePacked;
  }

  /** A full array takes no further element; an empty packed run does not count as one. */
  lemma NoRoom(f: Field, slot: Slot, k: nat, wireType: nat, s: seq<byte>)
    requires FixedCount(f)
    ensures var r, r' := DecodeField(f, slot, k, wireType, s), DecodeField(f, slot, f.arraySize, wireType, s);
      r.Ok? && r'.Ok? ==> r == Ok((slot, k), r.rest) && r' == Ok((slot, f.arraySize), r.rest)
    ensures !DecodeField(f, slot, k, wireType, s).Ok? && k <= f.arraySize ==>
      !DecodeField(f, slot, f.arraySize, wireType, s).Ok?
  {
    hide DecodeValue, ReadDelimited, DecodeScalar;
  }

  lemma SameRecord(fields: seq<Field>, st: DState, i: nat, wireType: nat, tag: nat, s: seq<byte>)
    requires ValidTable(fields) && i < |fields| && FixedCount(fields[i]) && FindField(fields, tag) == i
    requires (st.fixedField == None && st.fixedSize == 0) || st.fixedField == Some(i)
    requires st.fixedSize <= fields[i].arraySize
    ensures var r, r' := DecodeOne(fields, st, wireType, tag, s), DecodeOne(fields, Full(fields, st, i), wireType,
        tag, s);
      && (r'.Ok? ==> r.Ok?)
      && (r.Ok? && r'.Ok? ==> r == Ok(st.(fixedField := Some(i)), r.rest) && r' == Ok(Full(fields, st, i), r.rest))
  {
    hide DecodeField, SkipField, DecodeVarint32, RequiredIndex, ValidTable;
    var at := SlotOf(fields, i);
    if at < |st.m| {
      NoRoom(fields[i], st.m[at], st.fixedSize, wireType, s);
      assert st.m[at := st.m[at]] == st.m;
    }
  }

  /** With the counter of field `i` already at its end, a stream that would still fill it up fails. */
  lemma {:induction false} Overflows(fields: seq<Field>, st: DState, i: nat, s: seq<byte>)
    requires ValidTable(fields) && i < |fields| && FixedCount(fields[i])
    requires st.fixedField == Some(i) && st.fixedSize < fields[i].arraySize
    ensures var o := DecodeLoop(fields, st, s);
      o.Done? && FixedComplete(fields, o.st) ==> DecodeLoop(fields, Full(fields, st, i), s).Failed?
    decreases |s|
  {
    hide DecodeLoop, DecodeOne, DecodeTag, ValidTable;
    if s == [] {
      LoopEnd(fields, st);
    } else {
      LoopTurn(fields, st, s);
      LoopTurn(fields, Full(fields, st, i), s);
      var t := DecodeTag(s);
      if t.Tag? {
        var r := DecodeOne(fields, st, t.wireType, t.tag, t.rest);
        var j := FindField(fields, t.tag);
        if j < |fields| && FixedCount(fields[j]) && j != i {
          Unfinished(fields, st, i, t.wireType, t.tag, t.rest);
        } else {
          if j == i { SameRecord(fields, st, i, t.wireType, t.tag, t.rest); }
          else { OtherRecord(fields, st, i, t.wireType, t.tag, t.rest); }
          if r.Ok? && DecodeOne(fields, Full(fields, st, i), t.wireType, t.tag, t.rest).Ok? {
            Overflows(fields, r.value, i, r.rest);
          }
        }
      }
    }
  }

  lemma Unfinished(fields: seq<Field>, st: DState, i: nat, wireType: nat, tag: nat, s: seq<byte>)
    requires i < |fields| && st.fixedField == Some(i) && st.fixedSize < fields[i].arraySize
    requires var j := FindField(fields, tag); j < |fields| && FixedCount(fields[j]) && j != i
    ensures DecodeOne(fields, st, wireType, tag, s) == Fail
  {
    hide DecodeField, SkipField, DecodeVarint32;
  }

  predicate Fresh(st: DState) {
    st.fixedField == None && st.fixedSize == 0
  }

  /** Meeting field `i` again before any other fixed-count field: the second filling finds the array full. */
  lemma {:induction false} SameFieldFirst(fields: seq<Field>, st: DState, i: nat, s: seq<byte>)
    requires ValidTable(fields) && i < |fields| && FixedCount(fields[i]) && fields[i].arraySize > 0
    requires Fresh(st) && FirstFixed(fields, Scan(fields, s)) == Some(i) && DecodeLoop(fields, st, s).Done?
    ensures var o := DecodeLoop(fields, st, s);
      FixedComplete(fields, o.st) ==> DecodeLoop(fields, Full(fields, st, i), s).Failed?
    decreases |s|
  {
    hide DecodeLoop, DecodeOne, DecodeTag, ValidTable, Scan;
    ScanEnds(fields, s);
    ScanTurn(fields, st, s);
    LoopTurn(fields, st, s);
    LoopTurn(fields, Full(fields, st, i), s);
    var t := DecodeTag(s);
    var r := DecodeOne(fields, st, t.wireType, t.tag, t.rest);
    var j := FindField(fields, t.tag);
    if j < |fields| && FixedCount(fields[j]) {
      SameRecord(fields, st, i, t.wireType, t.tag, t.rest);
      if r.Ok? && DecodeOne(fields, Full(fields, st, i), t.wireType, t.tag, t.rest).Ok? {
        Overflows(fields, r.value, i, r.rest);
      }
    } else {
      OtherRecord(fields, st, i, t.wireType, t.tag, t.rest);
      SameFieldFirst(fields, r.value, i, r.rest);
    }
  }

  /** A different outcome of the counters, or none at all, with everything else equal. */
  predicate SameBut(fields: seq<Field>, i: nat, o: Outcome, o': Outcome)
    requires i < |fields|
  {
    match o
    case Failed => o' == Failed
    case Done(st, rest, terminated) => o' == o || (Fresh(st) && o' == Done(Full(fields, st, i), rest, terminated))
  }

  lemma NewField(fields: seq<Field>, st: DState, i: nat, wireType: nat, tag: nat, s: seq<byte>)
    requires i < |fields| && Fresh(st)
    requires var j := FindField(fields, tag);
      j < |fields| && FixedCount(fields[j]) && (j != i || fields[i].arraySize == 0)
    ensures DecodeOne(fields, Full(fields, st, i), wireType, tag, s) == DecodeOne(fields, st, wireType, tag, s)
  {
    hide DecodeField, SkipField, DecodeVarint32, RequiredIndex;
  }

  /** Otherwise a full array left behind by the first stream makes no difference. */
  lemma {:induction false} OtherFieldFirst(fields: seq<Field>, st: DState, i: nat, s: seq<byte>)
    requires ValidTable(fields) && i < |fields| && FixedCount(fields[i])
    requires Fresh(st) && (FirstFixed(fields, Scan(fields, s)) != Some(i) || fields[i].arraySize == 0)
    requires DecodeLoop(fields, st, s).Done?
    ensures SameBut(fields, i, DecodeLoop(fields, st, s), DecodeLoop(fields, Full(fields, st, i), s))
    decreases |s|
  {
    hide DecodeLoop, DecodeOne, DecodeTag, ValidTable, Scan;
    if s == [] {
      LoopEnd(fields, st);
      LoopEnd(fields, Full(fields, st, i));
    } else {
      LoopTurn(fields, st, s);
      LoopTurn(fields, Full(fields, st, i), s);
      var t := DecodeTag(s);
      if t.Tag? {
        ScanTurn(fields, st, s);
        var r := DecodeOne(fields, st, t.wireType, t.tag, t.rest);
        var j := FindField(fields, t.tag);
        if j < |fields| && FixedCount(fields[j]) {
          NewField(fields, st, i, t.wireType, t.tag, t.rest);
        } else {
          OtherRecord(fields, st, i, t.wireType, t.tag, t.rest);
          OtherFieldFirst(fields, r.value, i, r.rest);
        }
      }
    }
  }

  /** The decoder's counter is left at the last fixed-count record. */
  lemma {:induction false} TracksFixedCount(fields: seq<Field>, st: DState, s: seq<byte>)
    requires DecodeLoop(fields, st, s).Done?
    ensures var last := LastFixed(fields, Scan(fields, s));
      DecodeLoop(fields, st, s).st.fixedField == if last.Some? then last else st.fixedField
    ensures var last := LastFixed(fields, Scan(fields, s));
      last.Some? ==> last.value < |fields| && FixedCount(fields[last.value])
    decreases |s|
  {
    hide DecodeOne, DecodeTag, DecodeLoop, Scan;
    ScanEnds(fields, s);
    if s == [] {
      LoopEnd(fields, st);
    } else if !DecodeTag(s).Tag? {
      LoopTurn(fields, st, s);
    } else {
      ScanTurn(fields, st, s);
      var t := DecodeTag(s);
      var r := DecodeOne(fields, st, t.wireType, t.tag, t.rest);
      TracksFixedCount(fields, r.value, r.rest);
      TracksOne(fields, st, t.wireType, t.tag, t.rest);
    }
  }

  lemma TracksOne(fields: seq<Field>, st: DState, wireType: nat, tag: nat, s: seq<byte>)
    requires DecodeOne(fields, st, wireType, tag, s).Ok?
    ensures var i := FindField(fields, tag);
      DecodeOne(fields, st, wireType, tag, s).value.fixedField ==
        if i < |fields| && FixedCount(fields[i]) then Some(i) else st.fixedField
  {
    hide DecodeField, SkipField, DecodeVarint32;
  }

  /** The last fixed-count array of `a` is not the first one of `b` (or has no elements). */
  predicate Compatible(fields: seq<Field>, a: seq<byte>, b: seq<byte>) {
    var last, first := LastFixed(fields, Scan(fields, a)), FirstFixed(fields, Scan(fields, b));
    last.Some? && last == first ==> last.value < |fields| && fields[last.value].arraySize == 0
  }

  /** Decoding `a + b` in one call is decoding `a` and then `b` exactly when the streams are compatible;
      otherwise the one call fails, although both halves decode. */
  lemma ConcatenationExactly(fields: seq<Field>, m: seq<Slot>, a: seq<byte>, b: seq<byte>)
    requires ValidTable(fields) && DecodeNoInit(fields, m, a).Ok? && !DecodeLoop(fields, Start(m), a).terminated
    requires DecodeNoInit(fields, DecodeNoInit(fields, m, a).value, b).Ok?
    ensures DecodeNoInit(fields, m, a + b) ==
      if Compatible(fields, a, b) then DecodeNoInit(fields, DecodeNoInit(fields, m, a).value, b) else Fail
  {
    hide DecodeLoop, RequiredSeen, ValidTable, FirstFixed, LastFixed, Scan;
    var st := DecodeLoop(fields, Start(m), a).st;
    TracksFixedCount(fields, Start(m), a);
    if st.fixedField == None {
      ConcatenationIsMerge(fields, m, a, b);
    } else {
      var i := st.fixedField.value;
      var full := Full(fields, Start(st.m), i);
      LoopSegment(fields, Start(m), a, b);
      assert full.(seen := full.seen + st.seen) == st;
      SeenFrame(fields, full, st.seen, b);
      var o := DecodeLoop(fields, Start(st.m), b);
      if Compatible(fields, a, b) {
        OtherFieldFirst(fields, Start(st.m), i, b);
        RequiredSeenMore(fields, o.st.seen, st.seen);
      } else {
        SameFieldFirst(fields, Start(st.m), i, b);
      }
    }
  }
}
