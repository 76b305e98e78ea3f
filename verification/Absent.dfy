/** What a decoded struct holds where the bytes say nothing: the declared default of the field, or zero. */
module Absent {
  import opened Words
  import opened Parsing
  import opened Wire
  import opened Schema
  import opened Layout
  import opened Defaulting
  import opened DecoderSpec
  import opened RoundTrip
  import opened Records
  import opened FieldFolds
  import opened Reencoding

  // ---------- Structs at rest ----------

  /** 0, false, the empty string, no bytes, or fixed-length bytes that are all zero. */
  predicate ZeroHeld(f: Field, v: Value) {
    match f.ltype
    case LBytes => v == VBytes([])
    case LString => v == VBytes([])
    case LFixedBytes => v.VBytes? && |v.data| == f.dataSize && forall k :: 0 <= k < |v.data| ==> v.data[k] == 0
    case _ => v == VInt(0)
  }

  predicate DefaultHeld(f: Field, v: Value)
    decreases f, 0
  {
    if f.ltype.LSubmessage? then v.VMsg? && AtRest(f.ltype.fields, v.slots)
    else match f.ptr
      case Some(declared) => v == declared
      case None => ZeroHeld(f, v)
  }

  /** Absent: an optional field without its flag but with its default, an array without elements (of a
      fixed-count array nothing is said but its size), a union without an alternative. */
  predicate SlotAtRest(f: Field, slot: Slot)
    decreases f, 1
  {
    match f.htype
    case Required => slot.SOne? && DefaultHeld(f, slot.v)
    case Optional =>
      if f.sizeOffset != 0 then slot.SOpt? && !slot.has && DefaultHeld(f, slot.v)
      else slot.SOne? && DefaultHeld(f, slot.v)
    case Repeated =>
      slot.SRep? && if FixedCount(f) then |slot.items| == f.arraySize && slot.spare == [] else slot.items == []
    case Oneof => slot.SOneof? && slot.which == 0
  }

  predicate AtRest(fields: seq<Field>, m: seq<Slot>)
    decreases fields
  {
    && |m| == NumSlots(fields)
    && forall i :: 0 <= i < |fields| ==> SlotOf(fields, i) < |m| && SlotAtRest(fields[i], m[SlotOf(fields, i)])
  }

  lemma {:induction false} ResetHolds(f: Field, prior: Value)
    ensures DefaultHeld(f, DefaultValue(f, prior))
    decreases f, 0
  {
    if f.ltype.LSubmessage? { ResetAtRest(f.ltype.fields, SlotsIn(prior)); }
  }

  lemma {:induction false} ResetSlotAtRest(f: Field, p: Slot)
    ensures SlotAtRest(f, DefaultSlot(f, p))
    decreases f, 1
  {
    hide DefaultValue, DefaultHeld, ZeroCells, Cells;
    ResetHolds(f, Contents(p));
  }

  /** A reset struct is at rest at every depth, whatever it held. */
  lemma {:induction false} ResetAtRest(fields: seq<Field>, prior: seq<Slot>)
    ensures AtRest(fields, Defaults(fields, prior))
    decreases fields
  {
    hide DefaultSlot, SlotAtRest, DefaultsUpTo;
    var d := Defaults(fields, prior);
    forall i | 0 <= i < |fields|
      ensures SlotOf(fields, i) < |d| && SlotAtRest(fields[i], d[SlotOf(fields, i)])
    {
      DefaultsAt(fields, |fields|, i, prior);
      ResetSlotAtRest(fields[i], PriorSlot(prior, SlotOf(fields, i)));
    }
  }

  // ---------- What has no record stays at rest ----------

  /** A member after the records of its field: without a record at rest; with records, a submessage holds the
      same of its own fields and the payloads that went into it. */
  predicate SlotRests(f: Field, slot: Slot, recs: seq<Record>)
    decreases f, 1
  {
    if recs == [] then SlotAtRest(f, slot)
    else match f.ltype
      case LSubmessage(sub) => (
        match slot
        case SOne(v) => v.VMsg? && Rests(sub, v.slots, Payloads(recs))
        case SOpt(_, v) => v.VMsg? && Rests(sub, v.slots, Payloads(recs))
        case SRep(items, _) =>
          var first := |recs| - |items|;
          && (FixedCount(f) || first == 0)
          && forall j :: 0 <= j < |items| && 0 <= first + j ==>
               items[j].VMsg? && Rests(sub, items[j].slots, [Payload(recs[first + j])])
        case SOneof(_, _) => true)
      case _ => true
  }

  predicate Rests(fields: seq<Field>, m: seq<Slot>, ss: seq<seq<byte>>)
    decreases fields
  {
    forall i :: 0 <= i < |fields| && SlotOf(fields, i) < |m| && !fields[i].htype.Oneof? ==>
      SlotRests(fields[i], m[SlotOf(fields, i)], AllRecords(fields, ss, i))
  }

  lemma {:induction false} SlotStaysAtRest(f: Field, slot: Slot, recs: seq<Record>, slot': Slot, t: nat)
    requires ValidField(f) && !f.htype.Oneof? && SlotAtRest(f, slot)
    requires Fold(f, slot, 0, recs) == Some((slot', t)) && Position(f, t) == 0
    ensures SlotRests(f, slot', recs)
    decreases f, 2
  {
    hide Fold, SlotAtRest, Rests, ValidField;
    if recs == [] {
      FoldNone(f, slot, 0);
    } else if f.ltype.LSubmessage? {
      if !f.htype.Repeated? { SingularStays(f, slot, recs, slot', t); }
      else if FixedCount(f) { FixedStays(f, slot, recs, slot', t); }
      else { CountedStays(f, slot, recs, slot', t); }
    }
  }

  lemma {:induction false} SingularStays(f: Field, slot: Slot, recs: seq<Record>, slot': Slot, t: nat)
    requires ValidField(f) && SlotAtRest(f, slot) && f.ltype.LSubmessage? && !f.htype.Repeated? && !f.htype.Oneof?
    requires Fold(f, slot, 0, recs) == Some((slot', t)) && recs != []
    ensures SlotRests(f, slot', recs)
    decreases f, 0
  {
    hide Fold, DecodeAll, Rests, AtRest, Payloads, ValidTable;
    SingularFold(f, slot, 0, recs);
    StructStaysAtRest(f.ltype.fields, slot.v.slots, Payloads(recs));
  }

  lemma {:induction false} ElementStays(f: Field, cell: Value, r: Record, v: Value)
    requires ValidField(f) && f.ltype.LSubmessage? && BuiltFrom(f, cell, r, v)
    ensures v.VMsg? && Rests(f.ltype.fields, v.slots, [Payload(r)])
    decreases f, 0
  {
    hide DecodeAll, Rests, AtRest, Defaults, ValidTable;
    ResetAtRest(f.ltype.fields, SlotsIn(cell));
    StructStaysAtRest(f.ltype.fields, Defaults(f.ltype.fields, SlotsIn(cell)), [Payload(r)]);
  }

  lemma {:induction false} CountedStays(f: Field, slot: Slot, recs: seq<Record>, slot': Slot, t: nat)
    requires ValidField(f) && SlotAtRest(f, slot) && f.ltype.LSubmessage? && f.htype.Repeated? && !FixedCount(f)
    requires Fold(f, slot, 0, recs) == Some((slot', t)) && recs != []
    ensures SlotRests(f, slot', recs)
    decreases f, 1
  {
    hide Fold, BuiltFrom, Rests, ValidField;
    var added := CountedFold(f, slot, 0, recs);
    assert slot'.items == added;
    forall j | 0 <= j < |added|
      ensures added[j].VMsg? && Rests(f.ltype.fields, added[j].slots, [Payload(recs[j])])
    {
      ElementStays(f, CellOf(slot.spare, j), recs[j], added[j]);
    }
  }

  lemma {:induction false} FixedStays(f: Field, slot: Slot, recs: seq<Record>, slot': Slot, t: nat)
    requires ValidField(f) && SlotAtRest(f, slot) && f.ltype.LSubmessage? && FixedCount(f)
    requires Fold(f, slot, 0, recs) == Some((slot', t)) && Position(f, t) == 0 && recs != []
    ensures SlotRests(f, slot', recs)
    decreases f, 1
  {
    hide Fold, BuiltFrom, Rests, ValidField, HeldBefore, Position;
    FoldCounts(f, slot, 0, recs);
    if f.arraySize > 0 {
      LastFilling(f, slot, recs, slot', t);
      var cells, first := HeldBefore(f, slot, recs), |recs| - f.arraySize;
      forall j | 0 <= j < f.arraySize
        ensures slot'.items[j].VMsg? && Rests(f.ltype.fields, slot'.items[j].slots, [Payload(recs[first + j])])
      {
        ElementStays(f, cells[j], recs[first + j], slot'.items[j]);
      }
    }
  }

  lemma {:induction false} StructStaysAtRest(fields: seq<Field>, m: seq<Slot>, ss: seq<seq<byte>>)
    requires ValidTable(fields) && AtRest(fields, m) && DecodeAll(fields, m, ss).Some?
    ensures Rests(fields, DecodeAll(fields, m, ss).value, ss)
    decreases fields
  {
    hide DecodeAll, SlotAtRest, SlotRests, AllRecords, ValidTable, ValidField;
    var m' := DecodeAll(fields, m, ss).value;
    forall i | 0 <= i < |fields| && SlotOf(fields, i) < |m'| && !fields[i].htype.Oneof?
      ensures SlotRests(fields[i], m'[SlotOf(fields, i)], AllRecords(fields, ss, i))
    {
      ValidAt(fields, i);
      NoPosition(fields[i]);
      var t := AllFold(fields, m, ss, i, 0, false);
      SlotStaysAtRest(fields[i], m[SlotOf(fields, i)], AllRecords(fields, ss, i), m'[SlotOf(fields, i)], t);
    }
  }

  // ---------- Main results ----------

  /** After pb_decode, at every depth: what has no record among the bytes that were decoded into its message
      holds its default. */
  lemma AbsentAtEveryDepth(fields: seq<Field>, prior: seq<Slot>, s: seq<byte>)
    requires ValidTable(fields) && Decode(fields, prior, s).Ok?
    ensures Rests(fields, Decode(fields, prior, s).value, [s])
  {
    hide DecodeNoInit, Rests, AtRest, Defaults, ValidTable;
    ResetAtRest(fields, prior);
    OnePayload(fields, Defaults(fields, prior), s);
    StructStaysAtRest(fields, Defaults(fields, prior), [s]);
  }

  /** Of the message itself: a required or optional field without a record holds its declared default, or zero
      where none is declared, and an optional one is marked absent. */
  lemma AbsentHoldsDefault(fields: seq<Field>, prior: seq<Slot>, s: seq<byte>, i: nat)
    requires ValidTable(fields) && Decode(fields, prior, s).Ok? && i < |fields| && !Occurs(Scan(fields, s), i)
    requires (fields[i].htype.Required? || fields[i].htype.Optional?) && !fields[i].ltype.LSubmessage?
    ensures var f, m := fields[i], Decode(fields, prior, s).value;
      && SlotOf(fields, i) < |m|
      && var slot := m[SlotOf(fields, i)];
         && (slot.SOne? || slot.SOpt?)
         && (f.ptr.Some? ==> slot.v == f.ptr.value)
         && (f.ptr == None ==> ZeroHeld(f, slot.v))
         && (f.htype.Optional? && f.sizeOffset != 0 ==> slot.SOpt? && !slot.has)
  {
    hide DecodeNoInit, Scan, Occurs, ValidTable, ZeroHeld, Defaults, AllRecords;
    AbsentAtEveryDepth(fields, prior, s);
    NoRecords(fields, s, i);
    SlotInRange(fields, i);
    OnePayload(fields, Defaults(fields, prior), s);
    NoPosition(fields[i]);
    var _ := AllFold(fields, Defaults(fields, prior), [s], i, 0, false);
    var slot := Decode(fields, prior, s).value[SlotOf(fields, i)];
    assert SlotRests(fields[i], slot, []);
    PlainAtRest(fields[i], slot);
  }

  lemma PlainAtRest(f: Field, slot: Slot)
    requires SlotAtRest(f, slot) && (f.htype.Required? || f.htype.Optional?) && !f.ltype.LSubmessage?
    ensures slot.SOne? || slot.SOpt?
    ensures if f.ptr.Some? then slot.v == f.ptr.value else ZeroHeld(f, slot.v)
    ensures f.htype.Optional? && f.sizeOffset != 0 ==> slot.SOpt? && !slot.has
  {
  }

  lemma {:induction false} NoneOf(recs: seq<Record>, i: nat)
    requires !Occurs(recs, i)
    ensures Of(recs, i) == []
  {
    if recs != [] {
      assert recs[0].field != i;
      assert forall j :: 0 <= j < |recs[1..]| ==> recs[1..][j] == recs[j + 1];
      NoneOf(recs[1..], i);
    }
  }

  lemma NoRecords(fields: seq<Field>, s: seq<byte>, i: nat)
    requires !Occurs(Scan(fields, s), i)
    ensures AllRecords(fields, [s], i) == []
  {
    hide Scan, Occurs, Of;
    NoneOf(Scan(fields, s), i);
    assert AllRecords(fields, [s][1..], i) == [];
  }

  /** A submessage that becomes the alternative of a union starts from defaults too. */
  lemma AlternativeStartsAtRest(f: Field, slot: Slot, k: nat, wireType: nat, s: seq<byte>)
    requires ValidField(f) && f.htype.Oneof? && f.ltype.LSubmessage? && slot.SOneof? && slot.which != f.tag
    requires DecodeField(f, slot, k, wireType, s).Ok?
    ensures var r := DecodeField(f, slot, k, wireType, s).value.0;
      && r.SOneof? && r.which == f.tag && r.v.VMsg?
      && Rests(f.ltype.fields, r.v.slots, [Payload(Record(0, wireType, s))])
  {
    hide DecodeValue, Defaults, Rests, AtRest, DecodeAll, ReadDelimited, ZeroItem;
    SubmessageDecoded(f, UnionBase(f), s);
    ResetAtRest(f.ltype.fields, SlotsIn(ZeroItem(f)));
    StructStaysAtRest(f.ltype.fields, UnionBase(f).slots, [ReadDelimited(s).value]);
  }

  // ---------- The elements of fixed-count arrays ----------

  /** How many of the first `k` bytes of an array lie in its `j`-th cell. */
  function Reached(w: nat, k: nat, j: nat): nat {
    if k <= j * w then 0 else Least(k - j * w, w)
  }

  lemma {:induction false} CellCleared(f: Field, cells: seq<Value>, k: nat, j: nat)
    requires j < |cells|
    ensures ZeroCells(f, cells, k)[j] == ZeroPrefix(f, cells[j], Reached(f.dataSize, k, j))
    decreases j
  {
    hide ZeroPrefix;
    var w := f.dataSize;
    NothingCleared(f, cells[j]);
    MulMonotone(0, j, w);
    if k > 0 && j > 0 {
      var n := Least(k, w);
      CellCleared(f, cells[1..], k - n, j - 1);
      MulDistribute(j, -1, w, 1);
      MulMonotone(1, j, w);
      assert Reached(w, k - n, j - 1) == Reached(w, k, j);
    }
  }

  lemma NothingCleared(f: Field, v: Value)
    ensures ZeroPrefix(f, v, 0) == v
  {
  }

  /** A reset clears the first four bytes of a fixed-count array, and nothing else of it. Integers are the
      width of their type, least significant byte first. */
  lemma FixedArrayReset(f: Field, items: seq<Value>, j: nat)
    requires FixedCount(f) && |items| == f.arraySize && j < |items|
    ensures var slot := DefaultSlot(f, SRep(items, [])); slot.SRep? && |slot.items| == |items| && slot.spare == []
    ensures var v := DefaultSlot(f, SRep(items, [])).items[j];
      && (4 <= j * f.dataSize ==> v == items[j])
      && (items[j].VInt? && 0 < f.dataSize == Width(f) <= 4 && j * f.dataSize + f.dataSize <= 4 ==> v == VInt(0))
      && (items[j].VInt? && f.dataSize == Width(f) == 8 && j == 0 ==>
            v == VInt(items[j].n - items[j].n % 0x1_0000_0000))
      && (items[j].VBytes? && !f.ltype.LBytes? && |items[j].data| <= f.dataSize ==>
            && v.VBytes? && |v.data| == |items[j].data|
            && forall k :: 0 <= k < |v.data| ==> v.data[k] == if j * f.dataSize + k < 4 then 0 else items[j].data[k])
  {
    hide ZeroCells, Pow2, ZeroPrefix;
    assert items + [] == items;
    CellCleared(f, items, COUNT_BYTES, j);
    MulMonotone(0, j, f.dataSize);
    PrefixOf(f, items[j], Reached(f.dataSize, 4, j));
  }

  lemma PrefixOf(f: Field, v: Value, n: nat)
    ensures n == 0 ==> ZeroPrefix(f, v, n) == v
    ensures v.VInt? && n > 0 && n >= Width(f) ==> ZeroPrefix(f, v, n) == VInt(0)
    ensures v.VInt? && n == 4 < Width(f) ==> ZeroPrefix(f, v, n) == VInt(v.n - v.n % 0x1_0000_0000)
    ensures v.VBytes? && !f.ltype.LBytes? ==>
      var r := ZeroPrefix(f, v, n);
      && r.VBytes? && |r.data| == |v.data|
      && forall k :: 0 <= k < |v.data| ==> r.data[k] == if k < n then 0 else v.data[k]
  {
    assert Pow2(32) == WORD32 by { Pow2Values(); }
  }
}
