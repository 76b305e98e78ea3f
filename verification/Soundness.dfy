/** Decoding arbitrary bytes keeps a struct well formed. A struct is sound when every value in it is one its
    C type holds; the elements of a fixed-count array are exempt unless `strict`, because nothing initialises
    them. */
module Soundness {
  import opened Words
  import opened Parsing
  import opened Schema
  import opened Layout
  import opened Defaulting
  import opened DecoderSpec
  import opened Merge
  import opened RoundTrip
  import opened Fidelity

  /** Every value in the struct, present or not, is one its C type holds and its buffer has room for. */
  predicate SoundValue(strict: bool, f: Field, v: Value)
    decreases f, 0
  {
    match v
    case VInt(n) => ScalarFits(f, n)
    case VBytes(data) =>
      || (f.ltype.LBytes? && |data| + BYTES_HEADER <= f.dataSize)
      || (f.ltype.LString? && |data| < f.dataSize)
      || (f.ltype.LFixedBytes? && |data| == f.dataSize)
    case VMsg(slots) => f.ltype.LSubmessage? && Sound(strict, f.ltype.fields, slots)
  }

  /** An array cell that is sound once it has been reset for a new element. */
  predicate SoundCell(strict: bool, f: Field, cell: Value)
    decreases f, 1
  {
    match f.ltype
    case LSubmessage(sub) => Sound(strict, sub, Defaults(sub, SlotsIn(cell)))
    case _ => true
  }

  /** Array counts never exceed the array size; a union's active alternative is always fully sound. */
  predicate SoundSlot(strict: bool, f: Field, slot: Slot)
    decreases f, 3
  {
    match (f.htype, slot)
    case (Required, SOne(v)) => SoundValue(strict, f, v)
    case (Optional, SOne(v)) => f.sizeOffset == 0 && SoundValue(strict, f, v)
    case (Optional, SOpt(_, v)) => f.sizeOffset != 0 && SoundValue(strict, f, v)
    case (Repeated, SRep(items, spare)) => SoundArray(strict, f, items, spare)
    case (Oneof, SOneof(which, v)) => which == f.tag ==> SoundValue(true, f, v)
    case _ => false
  }

  predicate SoundArray(strict: bool, f: Field, items: seq<Value>, spare: seq<Value>)
    decreases f, 2
  {
    && |items| + |spare| == f.arraySize && (FixedCount(f) ==> spare == [])
    && (forall j :: 0 <= j < |items| ==> (FixedCount(f) && !strict) || SoundValue(strict, f, items[j]))
    && (forall j :: 0 <= j < |items| ==> SoundCell(strict, f, items[j]))
    && (forall j :: 0 <= j < |spare| ==> SoundCell(strict, f, spare[j]))
  }

  predicate Sound(strict: bool, fields: seq<Field>, m: seq<Slot>)
    decreases fields
  {
    && |m| == NumSlots(fields)
    && forall i :: 0 <= i < |fields| ==> SlotOf(fields, i) < |m| && SoundSlot(strict, fields[i], m[SlotOf(fields, i)])
  }

  /** Buffers have room for their terminator or header, and default values fit their fields. */
  predicate RoomyField(f: Field)
    decreases f
  {
    && (f.ltype.LString? ==> f.dataSize >= 1)
    && (f.ltype.LBytes? ==> f.dataSize >= BYTES_HEADER)
    && (f.ptr.Some? && !f.ltype.LSubmessage? ==> SoundValue(true, f, f.ptr.value))
    && (f.ltype.LSubmessage? ==> RoomyTable(f.ltype.fields))
  }

  predicate RoomyTable(fields: seq<Field>)
    decreases fields
  {
    forall i :: 0 <= i < |fields| ==> RoomyField(fields[i])
  }

  lemma RoomyAt(fields: seq<Field>, i: nat)
    requires RoomyTable(fields) && ValidTable(fields) && i < |fields|
    ensures RoomyField(fields[i]) && ValidField(fields[i])
  {
  }

  lemma SoundAt(strict: bool, fields: seq<Field>, i: nat, m: seq<Slot>)
    requires i < |fields| && Sound(strict, fields, m)
    ensures SlotOf(fields, i) < |m| && SoundSlot(strict, fields[i], m[SlotOf(fields, i)])
  {
  }

  lemma ScalarSound(strict: bool, f: Field, v: Value)
    requires !f.ltype.LSubmessage?
    ensures SoundValue(strict, f, v) <==> SoundValue(true, f, v)
    ensures SoundCell(strict, f, v)
  {
  }

  // ---------- Sound structs are encodable ----------

  lemma {:induction false} SoundIsEncodable(fields: seq<Field>, m: seq<Slot>)
    requires Sound(true, fields, m)
    ensures Encodable(fields, m)
    decreases fields
  {
    hide SoundSlot, EncodableSlot;
    forall i | 0 <= i < |fields|
      ensures var k := SlotOf(fields, i); k < |m| && EncodableSlot(fields[i], m[k])
    {
      SoundAt(true, fields, i, m);
      SoundSlotEncodable(fields[i], m[SlotOf(fields, i)]);
    }
  }

  lemma {:induction false} SoundSlotEncodable(f: Field, slot: Slot)
    requires SoundSlot(true, f, slot)
    ensures EncodableSlot(f, slot)
    decreases f, 1
  {
    hide SoundValue, EncodableValue, SoundCell;
    match slot
    case SOne(v) => SoundValueEncodable(f, v);
    case SOpt(_, v) => SoundValueEncodable(f, v);
    case SRep(items, _) =>
      forall j | 0 <= j < |items| ensures EncodableValue(f, items[j]) { SoundValueEncodable(f, items[j]); }
    case SOneof(which, v) => if which == f.tag { SoundValueEncodable(f, v); }
  }

  lemma {:induction false} SoundValueEncodable(f: Field, v: Value)
    requires SoundValue(true, f, v)
    ensures EncodableValue(f, v)
    decreases f, 0
  {
    if v.VMsg? {
      SoundIsEncodable(f.ltype.fields, v.slots);
    }
  }

  // ---------- Zeroing and resetting keep a struct sound ----------

  lemma RoundedDown(n: int, low: int, q: int, unit: nat)
    requires unit > 0 && low == q * unit && low <= n
    ensures low <= n - n % unit <= n
  {
    var d := n / unit;
    assert n - n % unit == d * unit;
    MulDistribute(d, 1, unit, 1);
    Cancel(q, d + 1, unit);
    MulMonotone(q, d, unit);
  }

  lemma Cancel(a: int, b: int, p: nat)
    requires a * p < b * p
    ensures a < b
  {
    if b <= a { MulMonotone(b, a, p); }
  }

  lemma LowBytes(k: nat)
    requires 0 < k <= COUNT_BYTES
    ensures Pow2(8 * k) == if k == 1 then 0x100 else if k == 2 then 0x1_0000 else if k == 3 then 0x100_0000 else WORD32
  {
    assert Pow2(8) == 256;
    Pow2Add(8, 8);
    Pow2Add(16, 8);
    Pow2Add(24, 8);
  }

  /** Clearing the low bytes of an integer keeps it in the range of its type. */
  lemma ClearedInt(f: Field, n: int, k: nat)
    requires ScalarFits(f, n) && 0 < k <= COUNT_BYTES && k < Width(f)
    ensures ScalarFits(f, n - n % Pow2(8 * k))
  {
    hide Pow2;
    var unit, range := Pow2(8 * k), IntRange(f.dataSize);
    LowBytes(k);
    if f.ltype.LVarint? || f.ltype.LSVarint? {
      var low: int := range / 2;
      var q: int := low / unit;
      low, q := 0 - low, 0 - q;
      RoundedDown(n, low, q, unit);
    } else {
      RoundedDown(n, 0, 0, unit);
    }
  }

  lemma {:induction false} ZeroValueSound(f: Field, v: Value, k: nat)
    requires ValidField(f) && RoomyField(f) && SoundValue(true, f, v) && k <= COUNT_BYTES
    ensures SoundValue(true, f, ZeroPrefix(f, v, k))
    decreases f, 0
  {
    match v
    case VInt(n) => if 0 < k < Width(f) { ClearedInt(f, n, k); }
    case VBytes(_) =>
    case VMsg(slots) => ZeroSlotsSound(f.ltype.fields, |f.ltype.fields|, slots, k);
  }

  lemma {:induction false} ZeroCellsSound(f: Field, cells: seq<Value>, k: nat)
    requires ValidField(f) && RoomyField(f) && k <= COUNT_BYTES
    requires forall j :: 0 <= j < |cells| ==> SoundValue(true, f, cells[j])
    ensures forall j :: 0 <= j < |cells| ==> SoundValue(true, f, ZeroCells(f, cells, k)[j])
    decreases f, 1, |cells|
  {
    hide SoundValue, ZeroPrefix, ValidField, RoomyField;
    if cells != [] && k != 0 {
      var n := Least(k, f.dataSize);
      ZeroValueSound(f, cells[0], n);
      ZeroCellsSound(f, cells[1..], k - n);
      var rest := ZeroCells(f, cells[1..], k - n);
      forall j | 0 <= j < |cells| ensures SoundValue(true, f, ZeroCells(f, cells, k)[j]) {
        if j > 0 { assert ZeroCells(f, cells, k)[j] == rest[j - 1] && cells[j] == cells[1..][j - 1]; }
      }
    }
  }

  lemma {:induction false} CellsSound(f: Field, cells: seq<Value>)
    requires ValidField(f) && RoomyField(f) && forall j :: 0 <= j < |cells| ==> SoundValue(true, f, cells[j])
    ensures forall j :: 0 <= j < |cells| ==> SoundCell(true, f, cells[j])
    decreases f, 1
  {
    hide SoundValue, ValidField, SoundCell, RoomyField;
    forall j | 0 <= j < |cells| ensures SoundCell(true, f, cells[j]) { SoundValueReset(true, f, cells[j]); }
  }

  /** A sound value is still sound in a cell that is reset. */
  lemma {:induction false} SoundValueReset(strict: bool, f: Field, v: Value)
    requires ValidField(f) && RoomyField(f) && (strict ==> SoundValue(true, f, v))
    ensures SoundCell(strict, f, v)
    decreases f, 0
  {
    if f.ltype.LSubmessage? {
      if strict && v.VMsg? {
        ResetSound(true, f.ltype.fields, v.slots);
      } else {
        ResetSound(false, f.ltype.fields, SlotsIn(v));
      }
    }
  }

  lemma {:induction false} ZeroSlotSound(f: Field, offset: nat, slot: Slot, k: nat)
    requires ValidField(f) && RoomyField(f) && SoundSlot(true, f, slot) && k <= COUNT_BYTES
    ensures SoundSlot(true, f, ZeroSlot(f, offset, slot, k))
    decreases f, 2
  {
    hide SoundValue, SoundCell, ZeroPrefix, ZeroCells, ValidField, RoomyField;
    var n := if offset < k then k - offset else 0;
    match slot
    case SOne(v) => ZeroValueSound(f, v, n);
    case SOpt(_, v) => ZeroValueSound(f, v, n);
    case SRep(items, spare) =>
      if FixedCount(f) {
        ZeroCellsSound(f, items, n);
        CellsSound(f, ZeroCells(f, items, n));
      } else {
        CellsSound(f, items);
      }
    case SOneof(which, v) =>
      TagPositive(f);
      if which == f.tag { ZeroValueSound(f, v, n); }
  }

  /** Zeroing through one alternative leaves the others of its union as they are. */
  lemma ZeroStored(fields: seq<Field>, i: nat, offset: nat, m: seq<Slot>, k: nat)
    requires ValidTable(fields) && RoomyTable(fields) && Sound(true, fields, m) && i < |fields| && k <= COUNT_BYTES
    requires SlotOf(fields, i) < |m| && SoundSlot(true, fields[i], ZeroSlot(fields[i], offset, m[SlotOf(fields, i)], k))
    ensures Sound(true, fields, m[SlotOf(fields, i) := ZeroSlot(fields[i], offset, m[SlotOf(fields, i)], k)])
  {
    hide SoundValue, SoundArray, ValidField, ZeroPrefix, ZeroCells, RoomyTable;
    var at := SlotOf(fields, i);
    var m' := m[at := ZeroSlot(fields[i], offset, m[at], k)];
    forall j | 0 <= j < |fields|
      ensures SlotOf(fields, j) < |m'| && SoundSlot(true, fields[j], m'[SlotOf(fields, j)])
    {
      SoundAt(true, fields, j, m);
      if j != i && SlotOf(fields, j) == at {
        if j < i { SlotOfMonotone(fields, j, i); DistinctTags(fields, j, i); }
        else { SlotOfMonotone(fields, i, j); DistinctTags(fields, i, j); }
        SoundAt(true, fields, i, m);
        ValidAt(fields, j);
        TagPositive(fields[j]);
      }
    }
  }

  lemma {:induction false} ZeroSlotsSound(fields: seq<Field>, i: nat, m: seq<Slot>, k: nat)
    requires i <= |fields| && ValidTable(fields) && RoomyTable(fields) && Sound(true, fields, m) && k <= COUNT_BYTES
    ensures Sound(true, fields, ZeroSlots(fields, i, m, k))
    decreases fields, i
  {
    hide SoundSlot, ZeroSlot, ValidTable, RoomyTable, Sound, AbsOffset, ValidField, RoomyField;
    if i > 0 {
      ZeroSlotsSound(fields, i - 1, m, k);
      var r, at := ZeroSlots(fields, i - 1, m, k), SlotOf(fields, i - 1);
      RoomyAt(fields, i - 1);
      SoundAt(true, fields, i - 1, r);
      ZeroSlotSound(fields[i - 1], AbsOffset(fields, i - 1), r[at], k);
      ZeroStored(fields, i - 1, AbsOffset(fields, i - 1), r, k);
    }
  }

  /** A struct that has been reset is sound; strictly so if what it held was. */
  lemma {:induction false} ResetSound(strict: bool, fields: seq<Field>, prior: seq<Slot>)
    requires ValidTable(fields) && RoomyTable(fields) && (strict ==> Sound(true, fields, prior))
    ensures Sound(strict, fields, Defaults(fields, prior))
    decreases fields
  {
    hide SoundSlot, DefaultSlot, DefaultsUpTo, ValidTable, RoomyTable, ValidField, RoomyField;
    var d := Defaults(fields, prior);
    forall i | 0 <= i < |fields|
      ensures var k := SlotOf(fields, i); k < |d| && SoundSlot(strict, fields[i], d[k])
    {
      RoomyAt(fields, i);
      DefaultsAt(fields, |fields|, i, prior);
      if strict { SoundAt(true, fields, i, prior); }
      ResetSlotSound(strict, fields[i], PriorSlot(prior, SlotOf(fields, i)));
    }
  }

  lemma {:induction false} ResetSlotSound(strict: bool, f: Field, p: Slot)
    requires ValidField(f) && RoomyField(f) && (strict ==> SoundSlot(true, f, p))
    ensures SoundSlot(strict, f, DefaultSlot(f, p))
    decreases f, 2
  {
    hide SoundValue, SoundCell, DefaultValue, ZeroCells, ValidField, RoomyField;
    match f.htype
    case Required => DefaultValueSound(strict, f, Contents(p));
    case Optional => DefaultValueSound(strict, f, Contents(p));
    case Oneof => TagPositive(f);
    case Repeated =>
      var cells := Cells(f, p);
      if strict {
        if FixedCount(f) {
          assert p.items + p.spare == p.items;
          ZeroCellsSound(f, cells, COUNT_BYTES);
          CellsSound(f, ZeroCells(f, cells, COUNT_BYTES));
        } else {
          CellsSound(f, p.items);
        }
      } else {
        AnyCells(f, cells);
        AnyCells(f, ZeroCells(f, cells, COUNT_BYTES));
      }
  }

  lemma {:induction false} AnyCells(f: Field, cells: seq<Value>)
    requires ValidField(f) && RoomyField(f)
    ensures forall j :: 0 <= j < |cells| ==> SoundCell(false, f, cells[j])
    decreases f, 1
  {
    hide SoundValue, ValidField, SoundCell, RoomyField;
    forall j | 0 <= j < |cells| ensures SoundCell(false, f, cells[j]) { SoundValueReset(false, f, cells[j]); }
  }

  lemma {:induction false} DefaultValueSound(strict: bool, f: Field, x: Value)
    requires ValidField(f) && RoomyField(f) && (strict ==> SoundValue(true, f, x))
    ensures SoundValue(strict, f, DefaultValue(f, x))
    decreases f, 1
  {
    hide Sound, Defaults, ScalarFits;
    if f.ltype.LSubmessage? {
      SoundValueReset(strict, f, x);
    } else {
      DefaultScalarSound(strict, f);
    }
  }

  lemma DefaultScalarSound(strict: bool, f: Field)
    requires ValidField(f) && RoomyField(f) && !f.ltype.LSubmessage?
    ensures SoundValue(strict, f, if f.ptr.Some? then f.ptr.value else ZeroScalar(f))
  {
  }

  // ---------- Zeroed memory ----------

  lemma {:induction false} ZeroAt(fields: seq<Field>, j: nat, i: nat)
    requires i < j <= |fields|
    ensures SlotOf(fields, i) < |ZeroUpTo(fields, j)| && ZeroUpTo(fields, j)[SlotOf(fields, i)] == ZeroMember(fields[i])
    decreases j
  {
    hide ZeroMember;
    SlotOfMonotone(fields, i, j - 1);
    if i < j - 1 {
      ZeroAt(fields, j - 1, i);
    } else if j >= 2 && SharesSlot(fields[j - 2], fields[j - 1]) {
      ZeroAt(fields, j - 1, j - 2);
      ZeroOneof(fields[j - 2]);
      ZeroOneof(fields[j - 1]);
    }
  }

  lemma ZeroOneof(f: Field)
    requires f.htype.Oneof?
    ensures ZeroMember(f) == SOneof(0, VInt(0))
  {
  }

  lemma {:induction false} ZeroItemSound(f: Field)
    requires ValidField(f) && RoomyField(f)
    ensures SoundValue(true, f, ZeroItem(f))
    decreases f, 0
  {
    if f.ltype.LSubmessage? {
      ZeroStructSound(f.ltype.fields);
    }
  }

  /** A struct cleared with memset is strictly sound. */
  lemma {:induction false} ZeroStructSound(fields: seq<Field>)
    requires ValidTable(fields) && RoomyTable(fields)
    ensures Sound(true, fields, ZeroUpTo(fields, |fields|))
    decreases fields
  {
    hide SoundSlot, ZeroMember, ZeroUpTo, ValidTable, RoomyTable, ValidField, RoomyField;
    var z := ZeroUpTo(fields, |fields|);
    forall i | 0 <= i < |fields|
      ensures var k := SlotOf(fields, i); k < |z| && SoundSlot(true, fields[i], z[k])
    {
      RoomyAt(fields, i);
      ZeroAt(fields, |fields|, i);
      ZeroMemberSound(fields[i]);
    }
  }

  lemma {:induction false} ZeroMemberSound(f: Field)
    requires ValidField(f) && RoomyField(f)
    ensures SoundSlot(true, f, ZeroMember(f))
    decreases f, 1
  {
    hide SoundValue, SoundCell, ZeroItem, ValidField, RoomyField;
    ZeroItemSound(f);
    SoundValueReset(true, f, ZeroItem(f));
    TagPositive(f);
  }

  lemma UnionBaseSound(f: Field)
    requires ValidField(f) && RoomyField(f) && f.ltype.LSubmessage?
    ensures SoundValue(true, f, UnionBase(f))
  {
    hide Sound, Defaults, ZeroItem;
    ZeroItemSound(f);
    SoundValueReset(true, f, ZeroItem(f));
  }
}
