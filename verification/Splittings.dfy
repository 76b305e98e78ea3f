/** A repeated scalar field in an arbitrary stream: however its elements are split into packed runs and single
    records, and whatever other records lie between these, the array gets exactly its elements, in order. */
module Splittings {
  import opened Words
  import opened Parsing
  import opened Wire
  import opened Schema
  import opened DecoderSpec
  import opened Records
  import opened FieldFolds
  import opened Arrays

  /** The scalars that lie one after the other in `s`. */
  function RunElements(f: Field, s: seq<byte>): Option<seq<Value>>
    decreases |s|
  {
    if s == [] then Some([])
    else match DecodeScalar(f, s)
      case Fail => None
      case Ok(v, rest) =>
        match RunElements(f, rest)
        case None => None
        case Some(vs) => Some([v] + vs)
  }

  /** What a record holds: a run under the wire type of strings, one element under any other. */
  function RecordElements(f: Field, r: Record): Option<seq<Value>> {
    if r.wireType == WT_STRING then
      match ReadDelimited(r.at)
      case Fail => None
      case Ok(run, _) => RunElements(f, run)
    else
      match DecodeScalar(f, r.at)
      case Fail => None
      case Ok(v, _) => Some([v])
  }

  function AllElements(f: Field, recs: seq<Record>): Option<seq<Value>> {
    if recs == [] then Some([])
    else match (RecordElements(f, recs[0]), AllElements(f, recs[1..]))
      case (Some(vs), Some(ws)) => Some(vs + ws)
      case _ => None
  }

  predicate Counted(f: Field) {
    f.htype.Repeated? && !FixedCount(f) && Packable(f.ltype)
  }

  lemma {:induction false} RunAppends(f: Field, items: seq<Value>, s: seq<byte>)
    requires |items| <= f.arraySize
    ensures var vs := RunElements(f, s);
      DecodePacked(f, items, |items|, s) ==
        if vs.Some? && |items| + |vs.value| <= f.arraySize then Some((items + vs.value, |items| + |vs.value|))
        else None
    decreases |s|
  {
    hide DecodeScalar;
    if s == [] {
      assert items + [] == items;
    } else if DecodeScalar(f, s).Ok? && |items| < f.arraySize {
      var r := DecodeScalar(f, s);
      var vs := RunElements(f, r.rest);
      RunAppends(f, items + [r.value], r.rest);
      if vs.Some? { assert items + [r.value] + vs.value == items + ([r.value] + vs.value); }
    }
  }

  lemma RecordAppends(f: Field, slot: Slot, k: nat, r: Record)
    requires Counted(f) && slot.SRep? && |slot.items| <= f.arraySize
    ensures var vs, d := RecordElements(f, r), DecodeField(f, slot, k, r.wireType, r.at);
      && (d.Ok? <==> vs.Some? && |slot.items| + |vs.value| <= f.arraySize)
      && (d.Ok? ==> d.value.0 == Appended(slot, vs.value))
  {
    hide DecodeScalar, ReadDelimited, RunElements, DecodePacked;
    if r.wireType == WT_STRING && ReadDelimited(r.at).Ok? {
      RunAppends(f, slot.items, ReadDelimited(r.at).value);
    }
  }

  lemma {:induction false} FoldAppends(f: Field, slot: Slot, t: nat, recs: seq<Record>)
    requires Counted(f) && slot.SRep? && |slot.items| <= f.arraySize
    ensures var vs, d := AllElements(f, recs), Fold(f, slot, t, recs);
      && (d.Some? <==> vs.Some? && |slot.items| + |vs.value| <= f.arraySize)
      && (d.Some? ==> d.value.0 == Appended(slot, vs.value))
    decreases |recs|
  {
    hide DecodeField, RecordElements, Appended;
    if recs == [] {
      AppendedTwice(slot, [], []);
    } else {
      RecordAppends(f, slot, 0, recs[0]);
      var d := DecodeField(f, slot, 0, recs[0].wireType, recs[0].at);
      if d.Ok? {
        var vs := RecordElements(f, recs[0]).value;
        AppendedItems(slot, vs);
        FoldAppends(f, d.value.0, t + d.value.1, recs[1..]);
        if AllElements(f, recs[1..]).Some? { AppendedTwice(slot, vs, AllElements(f, recs[1..]).value); }
      }
    }
  }

  /** Any stream that decodes appends the elements of the field's own records, which fit, to the array. */
  lemma ArrayGetsItsElements(fields: seq<Field>, m: seq<Slot>, s: seq<byte>, i: nat)
    requires ValidTable(fields) && i < |fields| && Counted(fields[i]) && DecodeNoInit(fields, m, s).Ok?
    requires var at := SlotOf(fields, i);
      at < |m| && m[at].SRep? && |m[at].items| <= fields[i].arraySize
    ensures var at, vs := SlotOf(fields, i), AllElements(fields[i], Of(Scan(fields, s), i));
      var m' := DecodeNoInit(fields, m, s).value;
      && vs.Some? && |m[at].items| + |vs.value| <= fields[i].arraySize
      && |m'| == |m| && m'[at] == Appended(m[at], vs.value)
  {
    hide DecodeLoop, Fold, Scan, Of, AllElements, Appended, ValidTable;
    var t' := LoopFolds(fields, Start(m), s, i, 0, false);
    FoldAppends(fields[i], m[SlotOf(fields, i)], 0, Of(Scan(fields, s), i));
  }

  /** So two streams with the same elements, split and interleaved with other records as they may be, leave
      the same array. */
  lemma SplittingsAgree(fields: seq<Field>, m: seq<Slot>, x: seq<byte>, y: seq<byte>, i: nat)
    requires ValidTable(fields) && i < |fields| && Counted(fields[i])
    requires DecodeNoInit(fields, m, x).Ok? && DecodeNoInit(fields, m, y).Ok?
    requires var at := SlotOf(fields, i);
      at < |m| && m[at].SRep? && |m[at].items| <= fields[i].arraySize
    requires AllElements(fields[i], Of(Scan(fields, x), i)) == AllElements(fields[i], Of(Scan(fields, y), i))
    ensures var at, a, b := SlotOf(fields, i), DecodeNoInit(fields, m, x).value, DecodeNoInit(fields, m, y).value;
      |a| == |b| == |m| && a[at] == b[at]
  {
    hide DecodeNoInit, Scan, Of, AllElements, Appended, ValidTable;
    ArrayGetsItsElements(fields, m, x, i);
    ArrayGetsItsElements(fields, m, y, i);
  }
}
