/** What a whole decode does to one field's slot is what that field's own records do to it, in order. */
module FieldFolds {
  import opened Words
  import opened Parsing
  import opened Varints
  import opened Wire
  import opened Schema
  import opened DecoderSpec
  import opened Streams
  import opened Records
  import opened Concatenation

  /** The records of field `i`. */
  function Of(recs: seq<Record>, i: nat): seq<Record> {
    if recs == [] then []
    else (if recs[0].field == i then [recs[0]] else []) + Of(recs[1..], i)
  }

  /** The position in a fixed-count array after `t` elements in all. */
  function Position(f: Field, t: nat): nat {
    if FixedCount(f) && f.arraySize > 0 then t % f.arraySize else 0
  }

  /** Decoding one field's records into its slot; `t` counts a fixed-count array's elements. */
  function Fold(f: Field, slot: Slot, t: nat, recs: seq<Record>): Option<(Slot, nat)>
    decreases |recs|
  {
    if recs == [] then Some((slot, t))
    else match DecodeField(f, slot, Position(f, t), recs[0].wireType, recs[0].at)
      case Fail => None
      case Ok(r, _) => if r.1 < Position(f, t) then None else Fold(f, r.0, t - Position(f, t) + r.1, recs[1..])
  }

  lemma {:induction false} FoldAppend(f: Field, slot: Slot, t: nat, a: seq<Record>, b: seq<Record>)
    requires Fold(f, slot, t, a).Some?
    ensures Fold(f, slot, t, a + b) == Fold(f, Fold(f, slot, t, a).value.0, Fold(f, slot, t, a).value.1, b)
    decreases |a|
  {
    hide DecodeField;
    if a == [] {
      assert a + b == b;
    } else {
      var r := DecodeField(f, slot, Position(f, t), a[0].wireType, a[0].at).value;
      assert (a + b)[1..] == a[1..] + b;
      FoldAppend(f, r.0, t - Position(f, t) + r.1, a[1..], b);
    }
  }

  lemma {:induction false} OfAppend(a: seq<Record>, b: seq<Record>, i: nat)
    ensures Of(a + b, i) == Of(a, i) + Of(b, i)
  {
    if a == [] {
      assert a + b == b;
    } else {
      var own := if a[0].field == i then [a[0]] else [];
      assert (a + b)[0] == a[0] && (a + b)[1..] == a[1..] + b;
      OfAppend(a[1..], b, i);
      assert own + (Of(a[1..], i) + Of(b, i)) == own + Of(a[1..], i) + Of(b, i);
    }
  }

  /** How the decoder's counter for the current fixed-count array relates to the elements of field `i`. */
  predicate InStep(fields: seq<Field>, st: DState, i: nat, t: nat, met: bool)
    requires i < |fields|
  {
    var n, pos := fields[i].arraySize, Position(fields[i], t);
    FixedCount(fields[i]) ==>
      if st.fixedField == Some(i) then st.fixedSize == pos || (st.fixedSize == n && pos == 0 && t > 0)
      else pos == 0 && (met && n > 0 ==> t > 0)
  }

  lemma CountAdvances(f: Field, slot: Slot, k: nat, wireType: nat, s: seq<byte>)
    requires FixedCount(f) && DecodeField(f, slot, k, wireType, s).Ok?
    ensures k <= DecodeField(f, slot, k, wireType, s).value.1
    ensures k <= f.arraySize ==> DecodeField(f, slot, k, wireType, s).value.1 <= f.arraySize
  {
    hide DecodeValue, ReadDelimited, DecodePacked, Put, Grown, CellAt;
    if slot.SRep? && ReadDelimited(s).Ok? { PackedAdvances(f, slot.items, k, ReadDelimited(s).value); }
  }

  lemma {:induction false} PackedAdvances(f: Field, items: seq<Value>, pos: nat, s: seq<byte>)
    ensures var r := DecodePacked(f, items, pos, s);
      r.Some? ==> pos <= r.value.1 && (pos <= f.arraySize ==> r.value.1 <= f.arraySize)
    decreases |s|
  {
    hide DecodeScalar, Put;
    if s != [] && pos < f.arraySize {
      var r := DecodeScalar(f, s);
      if r.Ok? { PackedAdvances(f, Put(items, pos, r.value), pos + 1, r.rest); }
    }
  }

  lemma Wraps(n: nat, t: nat, k: nat)
    requires n > 0 && t % n <= k <= n
    ensures (t - t % n + k) % n == if k == n then 0 else k
  {
    var base := t - t % n;
    assert base == t / n * n;
    if k == n { DivModUnique(base + k, t / n + 1, 0, n); MulDistribute(t / n, 1, n, 1); }
    else { DivModUnique(base + k, t / n, k, n); }
  }

  /** A record of the field itself. */
  lemma OwnRecord(fields: seq<Field>, st: DState, i: nat, t: nat, met: bool, wireType: nat, tag: nat, s: seq<byte>)
    returns (t': nat)
    requires ValidTable(fields) && i < |fields| && FindField(fields, tag) == i && InStep(fields, st, i, t, met)
    requires SlotOf(fields, i) < |st.m| && DecodeOne(fields, st, wireType, tag, s).Ok?
    ensures var st' := DecodeOne(fields, st, wireType, tag, s).value;
      && |st'.m| == |st.m| && InStep(fields, st', i, t', true)
      && Fold(fields[i], st.m[SlotOf(fields, i)], t, [Record(i, wireType, s)]) == Some((st'.m[SlotOf(fields, i)], t'))
  {
    hide DecodeField, SkipField, DecodeVarint32, ValidTable, Mark;
    var f, at, n := fields[i], SlotOf(fields, i), fields[i].arraySize;
    var slot, pos := st.m[at], Position(f, t);
    var k := if st.fixedField == Some(i) then st.fixedSize else 0;
    var r := DecodeField(f, slot, k, wireType, s);
    assert [Record(i, wireType, s)][1..] == [];
    if !FixedCount(f) {
      CountIgnored(f, slot, k, 0, wireType, s);
      t' := t + DecodeField(f, slot, 0, wireType, s).value.1;
    } else if k == pos {
      CountAdvances(f, slot, k, wireType, s);
      t' := t - pos + r.value.1;
      if n > 0 { Wraps(n, t, r.value.1); } else { assert r.value.1 == 0 by { NothingFits(f, slot, wireType, s); } }
    } else {
      NoRoom(f, slot, pos, wireType, s);
      t' := t;
    }
  }

  lemma NothingFits(f: Field, slot: Slot, wireType: nat, s: seq<byte>)
    requires FixedCount(f) && f.arraySize == 0 && DecodeField(f, slot, 0, wireType, s).Ok?
    ensures DecodeField(f, slot, 0, wireType, s).value.1 == 0
  {
    CountAdvances(f, slot, 0, wireType, s);
  }

  /** A record of another field, or of none. */
  lemma OtherFieldRecord(
    fields: seq<Field>, st: DState, i: nat, t: nat, met: bool, wireType: nat, tag: nat, s: seq<byte>)
    requires i < |fields| && FindField(fields, tag) != i && InStep(fields, st, i, t, met) && !fields[i].htype.Oneof?
    requires SlotOf(fields, i) < |st.m| && DecodeOne(fields, st, wireType, tag, s).Ok?
    ensures var st' := DecodeOne(fields, st, wireType, tag, s).value;
      && |st'.m| == |st.m| && st'.m[SlotOf(fields, i)] == st.m[SlotOf(fields, i)]
      && InStep(fields, st', i, t, met)
  {
    hide DecodeField, SkipField, DecodeVarint32, Mark;
    var j := FindField(fields, tag);
    if j < |fields| {
      if j < i { SlotOfMonotone(fields, j, i); } else { SlotOfMonotone(fields, i, j); }
    }
  }

  /** Over a whole stream the slot of a field goes through exactly its own records. */
  lemma {:induction false} LoopFolds(fields: seq<Field>, st: DState, s: seq<byte>, i: nat, t: nat, met: bool)
    returns (t': nat)
    requires ValidTable(fields) && i < |fields| && !fields[i].htype.Oneof? && InStep(fields, st, i, t, met)
    requires SlotOf(fields, i) < |st.m| && DecodeLoop(fields, st, s).Done?
    ensures var o, own, at := DecodeLoop(fields, st, s), Of(Scan(fields, s), i), SlotOf(fields, i);
      && |o.st.m| == |st.m| && InStep(fields, o.st, i, t', met || own != [])
      && Fold(fields[i], st.m[at], t, own) == Some((o.st.m[at], t'))
    decreases |s|
  {
    hide DecodeLoop, DecodeTag, DecodeOne, Scan, ValidTable, Fold, InStep;
    ScanEnds(fields, s);
    if s == [] || !DecodeTag(s).Tag? {
      if s == [] { LoopEnd(fields, st); } else { LoopTurn(fields, st, s); }
      FoldNone(fields[i], st.m[SlotOf(fields, i)], t);
      t' := t;
    } else {
      ScanTurn(fields, st, s);
      var tag, at := DecodeTag(s), SlotOf(fields, i);
      var r := DecodeOne(fields, st, tag.wireType, tag.tag, tag.rest);
      var j, rest := FindField(fields, tag.tag), Scan(fields, r.rest);
      OfAppend([Record(j, tag.wireType, tag.rest)], rest, i);
      OfOne(Record(j, tag.wireType, tag.rest), i);
      if j == i {
        var t1 := OwnRecord(fields, st, i, t, met, tag.wireType, tag.tag, tag.rest);
        FoldAppend(fields[i], st.m[at], t, [Record(i, tag.wireType, tag.rest)], Of(rest, i));
        t' := LoopFolds(fields, r.value, r.rest, i, t1, true);
      } else {
        OtherFieldRecord(fields, st, i, t, met, tag.wireType, tag.tag, tag.rest);
        t' := LoopFolds(fields, r.value, r.rest, i, t, met);
        assert [] + Of(rest, i) == Of(rest, i);
      }
    }
  }

  lemma FoldNone(f: Field, slot: Slot, t: nat)
    ensures Fold(f, slot, t, []) == Some((slot, t))
  {
  }

  lemma OfOne(r: Record, i: nat)
    ensures Of([r], i) == if r.field == i then [r] else []
  {
    assert [r][1..] == [];
  }

  // ---------- Several streams into one struct ----------

  /** Payloads decoded one after the other into the same struct. */
  function DecodeAll(fields: seq<Field>, m: seq<Slot>, ss: seq<seq<byte>>): Option<seq<Slot>>
    decreases |ss|
  {
    if ss == [] then Some(m)
    else match DecodeNoInit(fields, m, ss[0])
      case Fail => None
      case Ok(m', _) => DecodeAll(fields, m', ss[1..])
  }

  function AllRecords(fields: seq<Field>, ss: seq<seq<byte>>, i: nat): seq<Record>
    decreases |ss|
  {
    if ss == [] then [] else Of(Scan(fields, ss[0]), i) + AllRecords(fields, ss[1..], i)
  }

  /** The slot after all of them; a fixed-count array that was met at all is full. */
  lemma {:induction false} AllFold(fields: seq<Field>, m: seq<Slot>, ss: seq<seq<byte>>, i: nat, t: nat, met: bool)
    returns (t': nat)
    requires ValidTable(fields) && i < |fields| && !fields[i].htype.Oneof? && SlotOf(fields, i) < |m|
    requires DecodeAll(fields, m, ss).Some? && Position(fields[i], t) == 0
    requires met && FixedCount(fields[i]) && fields[i].arraySize > 0 ==> t > 0
    ensures var m', own, at := DecodeAll(fields, m, ss).value, AllRecords(fields, ss, i), SlotOf(fields, i);
      && |m'| == |m| && Fold(fields[i], m[at], t, own) == Some((m'[at], t')) && Position(fields[i], t') == 0
      && ((met || own != []) && FixedCount(fields[i]) && fields[i].arraySize > 0 ==> t' > 0)
    decreases |ss|
  {
    hide DecodeLoop, Scan, ValidTable, Fold, RequiredSeen, Of;
    if ss == [] {
      FoldNone(fields[i], m[SlotOf(fields, i)], t);
      t' := t;
    } else {
      var o, own, at := DecodeLoop(fields, Start(m), ss[0]), Of(Scan(fields, ss[0]), i), SlotOf(fields, i);
      var t1 := LoopFolds(fields, Start(m), ss[0], i, t, met);
      FoldAppend(fields[i], m[at], t, own, AllRecords(fields, ss[1..], i));
      t' := AllFold(fields, o.st.m, ss[1..], i, t1, met || own != []);
    }
  }
}
