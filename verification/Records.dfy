/** The records of a stream, found by field numbers and lengths alone, and what they decide: which required
    fields are present and which fixed-count arrays come first and last. */
module Records {
  import opened Words
  import opened Parsing
  import opened Varints
  import opened Wire
  import opened Schema
  import opened DecoderSpec
  import opened Streams

  /** A record of field `field` (|fields| if the table has none), and the stream from after its tag. */
  datatype Record = Record(field: nat, wireType: nat, at: seq<byte>)

  /** Where a record of field `f` ends. */
  function FieldEnd(f: Field, wireType: nat, s: seq<byte>): (r: Parse<()>)
    ensures r.Ok? ==> |r.rest| < |s|
  {
    DecodeVarint32Consumes(s);
    if f.ltype.LSubmessage? || (f.htype.Repeated? && wireType == WT_STRING && Packable(f.ltype)) then
      var (_, rest) :- ReadDelimited(s); Ok((), rest)
    else if Packable(f.ltype) then var (_, rest) :- DecodeScalar(f, s); Ok((), rest)
    else var (_, rest) :- DecodeBlob(f, s); Ok((), rest)
  }

  function RecordEnd(fields: seq<Field>, wireType: nat, tag: nat, s: seq<byte>): (r: Parse<()>)
    ensures r.Ok? ==> |r.rest| <= |s|
  {
    DecodeVarint32Consumes(s);
    SkipFieldConsumes(s, wireType);
    var i := FindField(fields, tag);
    if i < |fields| then FieldEnd(fields[i], wireType, s)
    else if fields == [] && tag == 0 then var (_, rest) :- DecodeVarint32(s); Ok((), rest)
    else SkipField(s, wireType)
  }

  /** The records up to the end of the message. */
  function Scan(fields: seq<Field>, s: seq<byte>): seq<Record>
    decreases |s|
  {
    TagShape(s);
    match DecodeTag(s)
    case Tag(wireType, tag, rest) => (
      match RecordEnd(fields, wireType, tag, rest)
      case Fail => []
      case Ok(_, next) => [Record(FindField(fields, tag), wireType, rest)] + Scan(fields, next))
    case _ => []
  }

  lemma FieldEndsThere(f: Field, slot: Slot, k: nat, wireType: nat, s: seq<byte>)
    ensures var r := DecodeField(f, slot, k, wireType, s);
      r.Ok? ==> FieldEnd(f, wireType, s) == Ok((), r.rest)
  {
    hide DecodeValue, FieldEnd, ReadDelimited, DecodePacked, Grown, CellAt, Put;
    if f.htype.Repeated? && wireType == WT_STRING && Packable(f.ltype) {
      RunEndsThere(f, s);
    } else {
      forall prior
        ensures DecodeValue(f, prior, s).Ok? ==> FieldEnd(f, wireType, s) == Ok((), DecodeValue(f, prior, s).rest)
      {
        ValueEndsThere(f, prior, wireType, s);
      }
    }
  }

  lemma RunEndsThere(f: Field, s: seq<byte>)
    requires f.htype.Repeated? && Packable(f.ltype)
    ensures ReadDelimited(s).Ok? ==> FieldEnd(f, WT_STRING, s) == Ok((), ReadDelimited(s).rest)
  {
    hide ReadDelimited;
  }

  lemma ValueEndsThere(f: Field, prior: Value, wireType: nat, s: seq<byte>)
    requires !(f.htype.Repeated? && wireType == WT_STRING && Packable(f.ltype))
    ensures DecodeValue(f, prior, s).Ok? ==> FieldEnd(f, wireType, s) == Ok((), DecodeValue(f, prior, s).rest)
  {
    hide DecodeScalar, DecodeBlob, ReadDelimited, DecodeNoInit;
  }

  /** The decoder consumes exactly the record. */
  lemma RecordEndsThere(fields: seq<Field>, st: DState, wireType: nat, tag: nat, s: seq<byte>)
    ensures var r := DecodeOne(fields, st, wireType, tag, s);
      r.Ok? ==> RecordEnd(fields, wireType, tag, s).Ok? && RecordEnd(fields, wireType, tag, s).rest == r.rest
  {
    hide DecodeField, FieldEnd, SkipField, DecodeVarint32;
    var i := FindField(fields, tag);
    if i < |fields| && SlotOf(fields, i) < |st.m| {
      var k := if st.fixedField == Some(i) then st.fixedSize else 0;
      FieldEndsThere(fields[i], st.m[SlotOf(fields, i)], k, wireType, s);
    }
  }

  /** One turn of the decoding loop takes the first record of the scan. */
  lemma ScanTurn(fields: seq<Field>, st: DState, s: seq<byte>)
    requires s != [] && DecodeTag(s).Tag? && DecodeLoop(fields, st, s).Done?
    ensures var t := DecodeTag(s);
      var r := DecodeOne(fields, st, t.wireType, t.tag, t.rest);
      && r.Ok? && |r.rest| < |s| && DecodeLoop(fields, st, s) == DecodeLoop(fields, r.value, r.rest)
      && Scan(fields, s) == [Record(FindField(fields, t.tag), t.wireType, t.rest)] + Scan(fields, r.rest)
  {
    hide DecodeOne, DecodeTag, DecodeLoop, RecordEnd;
    LoopTurn(fields, st, s);
    var t := DecodeTag(s);
    RecordEndsThere(fields, st, t.wireType, t.tag, t.rest);
  }

  lemma ScanEnds(fields: seq<Field>, s: seq<byte>)
    ensures !DecodeTag(s).Tag? ==> Scan(fields, s) == []
    ensures Scan(fields, []) == []
  {
    TagOfEmpty();
  }

  // ---------- Required fields ----------

  /** A record of field `i` sets bit `k` of fields_seen. */
  predicate Marks(fields: seq<Field>, i: nat, k: nat) {
    i < |fields| && fields[i].htype.Required? && RequiredIndex(fields, i) == k < PB_MAX_REQUIRED_FIELDS
  }

  predicate Occurs(recs: seq<Record>, i: nat) {
    exists j :: 0 <= j < |recs| && recs[j].field == i
  }

  lemma OccursSplit(r: Record, rest: seq<Record>, i: nat)
    ensures Occurs([r] + rest, i) <==> r.field == i || Occurs(rest, i)
  {
    var all := [r] + rest;
    assert all[0] == r;
    assert forall j :: 0 <= j < |rest| ==> rest[j] == all[j + 1];
    if Occurs(rest, i) {
      var j :| 0 <= j < |rest| && rest[j].field == i;
      assert all[j + 1].field == i;
    }
  }

  lemma {:induction false} SeenIsScanned(fields: seq<Field>, st: DState, s: seq<byte>, k: nat)
    requires DecodeLoop(fields, st, s).Done?
    ensures k in DecodeLoop(fields, st, s).st.seen <==>
      k in st.seen || exists i :: 0 <= i < |fields| && Marks(fields, i, k) && Occurs(Scan(fields, s), i)
    decreases |s|
  {
    hide DecodeLoop, DecodeTag, DecodeOne, Scan, Occurs, RequiredIndex;
    ScanEnds(fields, s);
    if s == [] {
      LoopEnd(fields, st);
      NothingOccurs();
    } else if !DecodeTag(s).Tag? {
      LoopTurn(fields, st, s);
      NothingOccurs();
    } else {
      ScanTurn(fields, st, s);
      var t := DecodeTag(s);
      var r := DecodeOne(fields, st, t.wireType, t.tag, t.rest);
      SeenIsScanned(fields, r.value, r.rest, k);
      OneMark(fields, st, t.wireType, t.tag, t.rest, k);
      forall i
        ensures Occurs(Scan(fields, s), i) <==> FindField(fields, t.tag) == i || Occurs(Scan(fields, r.rest), i)
      {
        OccursSplit(Record(FindField(fields, t.tag), t.wireType, t.rest), Scan(fields, r.rest), i);
      }
    }
  }

  lemma NothingOccurs()
    ensures forall i :: !Occurs([], i)
  {
  }

  lemma OneMark(fields: seq<Field>, st: DState, wireType: nat, tag: nat, s: seq<byte>, k: nat)
    requires DecodeOne(fields, st, wireType, tag, s).Ok?
    ensures k in DecodeOne(fields, st, wireType, tag, s).value.seen <==>
      k in st.seen || Marks(fields, FindField(fields, tag), k)
  {
    hide DecodeField, SkipField, DecodeVarint32, RequiredIndex;
  }

  /** Every required field the bitset tracks has a record of its own. */
  predicate MarkedPresent(fields: seq<Field>, s: seq<byte>) {
    forall i :: 0 <= i < |fields| && Marks(fields, i, RequiredIndex(fields, i)) ==> Occurs(Scan(fields, s), i)
  }

  /** The required fields before field `i`. */
  function RequiredBefore(fields: seq<Field>, i: nat): set<nat>
    requires i <= |fields|
  {
    set j: nat | j < i && fields[j].htype.Required?
  }

  /** Each of the first 64 required fields has a record of its own. */
  predicate RequiredPresent(fields: seq<Field>, s: seq<byte>) {
    forall i :: 0 <= i < |fields| && fields[i].htype.Required? && |RequiredBefore(fields, i)| < 64 ==>
      Occurs(Scan(fields, s), i)
  }

  lemma {:induction false} IndexIsCount(fields: seq<Field>, i: nat)
    requires i <= |fields|
    ensures RequiredIndex(fields, i) == |RequiredBefore(fields, i)|
  {
    if i == 0 {
      assert RequiredBefore(fields, 0) == {};
    } else {
      var before := RequiredBefore(fields, i - 1);
      IndexIsCount(fields, i - 1);
      assert RequiredBefore(fields, i) == before + if fields[i - 1].htype.Required? then {i - 1} else {};
    }
  }

  lemma PresentExactly(fields: seq<Field>, s: seq<byte>)
    ensures MarkedPresent(fields, s) <==> RequiredPresent(fields, s)
  {
    hide Scan, Occurs, RequiredIndex, RequiredBefore;
    forall i | 0 <= i < |fields|
      ensures Marks(fields, i, RequiredIndex(fields, i)) <==>
        fields[i].htype.Required? && |RequiredBefore(fields, i)| < 64
    {
      IndexIsCount(fields, i);
    }
  }

  lemma {:induction false} FieldOfIndex(fields: seq<Field>, n: nat, k: nat) returns (i: nat)
    requires n <= |fields| && k < RequiredIndex(fields, n)
    ensures i < n && fields[i].htype.Required? && RequiredIndex(fields, i) == k
    decreases n
  {
    if k < RequiredIndex(fields, n - 1) { i := FieldOfIndex(fields, n - 1, k); } else { i := n - 1; }
  }

  lemma {:induction false} IndexesDistinct(fields: seq<Field>, i: nat, j: nat)
    requires i < j <= |fields| && fields[i].htype.Required?
    ensures RequiredIndex(fields, i) < RequiredIndex(fields, j)
    decreases j
  {
    if i < j - 1 { IndexesDistinct(fields, i, j - 1); }
  }

  lemma SeenMeansPresent(fields: seq<Field>, s: seq<byte>, seen: set<nat>)
    requires forall k: nat :: k in seen <==>
      exists i :: 0 <= i < |fields| && Marks(fields, i, k) && Occurs(Scan(fields, s), i)
    ensures RequiredSeen(fields, seen) <==> MarkedPresent(fields, s)
  {
    hide Scan, Occurs, RequiredIndex;
    if RequiredSeen(fields, seen) {
      forall i | 0 <= i < |fields| && Marks(fields, i, RequiredIndex(fields, i)) ensures Occurs(Scan(fields, s), i) {
        IndexesDistinct(fields, i, |fields|);
        var k := RequiredIndex(fields, i);
        assert k in seen;
        var j :| 0 <= j < |fields| && Marks(fields, j, k) && Occurs(Scan(fields, s), j);
        if j < i { IndexesDistinct(fields, j, i); } else if i < j { IndexesDistinct(fields, i, j); }
      }
    }
    if MarkedPresent(fields, s) {
      forall k | 0 <= k < TrackedRequired(fields) ensures k in seen {
        var i := FieldOfIndex(fields, |fields|, k);
        assert Marks(fields, i, k);
      }
    }
  }

  /** pb_decode_noinit succeeds exactly when every record decodes, the last fixed-count array is full, and
      each of the first 64 required fields has a record in the bytes. */
  lemma RequiredFieldsDecide(fields: seq<Field>, m: seq<Slot>, s: seq<byte>)
    ensures var o := DecodeLoop(fields, Start(m), s);
      DecodeNoInit(fields, m, s).Ok? <==> o.Done? && FixedComplete(fields, o.st) && RequiredPresent(fields, s)
  {
    hide DecodeLoop, FixedComplete, RequiredSeen, RequiredPresent, MarkedPresent, Marks, Occurs, Scan;
    PresentExactly(fields, s);
    var o := DecodeLoop(fields, Start(m), s);
    if o.Done? {
      forall k: nat ensures k in o.st.seen <==>
        exists i :: 0 <= i < |fields| && Marks(fields, i, k) && Occurs(Scan(fields, s), i)
      {
        SeenIsScanned(fields, Start(m), s, k);
      }
      SeenMeansPresent(fields, s, o.st.seen);
    }
  }
}
