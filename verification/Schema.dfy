/** Field tables (pb_field_t) and message structs as typed slots.
    A table lists a struct's fields in order; every member of the struct is one slot, and the
    alternatives of a oneof share one. Static allocation makes the tables of submessages a tree. */
module Schema {
  import opened Words
  import opened Parsing

  /** The `data_offset` that marks a further alternative of the union just before. */
  const PB_SIZE_MAX: nat := 0xFFFF_FFFF

  /** offsetof(pb_bytes_array_t, bytes), with the 32-bit pb_size_t the project is built with. */
  const BYTES_HEADER: nat := 4

  datatype HType = Required | Optional | Repeated | Oneof

  datatype LType =
    | LBool | LVarint | LUVarint | LSVarint | LFixed32 | LFixed64
    | LBytes | LString | LSubmessage(fields: seq<Field>) | LFixedBytes

  /** One pb_field_t. `ptr` is the default value of a field that is not a submessage. */
  datatype Field = Field(
    tag: nat, htype: HType, ltype: LType,
    dataOffset: nat, sizeOffset: int, dataSize: nat, arraySize: nat,
    ptr: Option<Value>)

  /** The contents of one struct member. Strings are the char buffer up to its last significant byte. */
  datatype Value = VInt(n: int) | VBytes(data: seq<byte>) | VMsg(slots: seq<Slot>)

  /** A struct member with its has-flag, element count or which-field. An array has its elements and the
      cells past the count, which keep whatever they held. */
  datatype Slot =
    | SOne(v: Value)
    | SOpt(has: bool, v: Value)
    | SRep(items: seq<Value>, spare: seq<Value>)
    | SOneof(which: nat, v: Value)

  predicate Packable(t: LType) {
    t.LBool? || t.LVarint? || t.LUVarint? || t.LSVarint? || t.LFixed32? || t.LFixed64?
  }

  function Drop(cells: seq<Value>, n: nat): seq<Value> {
    if n <= |cells| then cells[n..] else []
  }

  /** An array whose elements have become `items`; each new one has taken a spare cell. */
  function Grown(a: Slot, items: seq<Value>): Slot
    requires a.SRep?
  {
    SRep(items, if |items| < |a.items| then a.spare else Drop(a.spare, |items| - |a.items|))
  }

  lemma GrownSelf(a: Slot)
    requires a.SRep?
    ensures Grown(a, a.items) == a
  {
  }

  lemma GrownTwice(a: Slot, items: seq<Value>, items': seq<Value>)
    requires a.SRep? && |a.items| <= |items| <= |items'|
    ensures Grown(a, items).SRep? && Grown(a, items).items == items
    ensures Grown(Grown(a, items), items') == Grown(a, items')
  {
  }

  /** What the cell at `pos` of an array holds. */
  function CellAt(a: Slot, pos: nat): Value
    requires a.SRep?
  {
    if pos < |a.items| then a.items[pos] else if a.spare != [] then a.spare[0] else VInt(0)
  }

  function SlotsIn(v: Value): seq<Slot> {
    if v.VMsg? then v.slots else []
  }

  /** A repeated field without a count member. */
  predicate FixedCount(f: Field) {
    f.htype.Repeated? && f.sizeOffset == 0
  }

  /** Number of values of a C integer type of `size` bytes; 0 for a size the codec rejects. */
  function IntRange(size: nat): nat {
    if size == 1 then 0x100
    else if size == 2 then 0x1_0000
    else if size == 4 then WORD32
    else if size == 8 then WORD64
    else 0
  }

  // ---------- Slots of a table ----------

  predicate SharesSlot(prev: Field, cur: Field) {
    prev.htype.Oneof? && cur.htype.Oneof? && cur.dataOffset == PB_SIZE_MAX
  }

  /** Index of the struct member that holds field `i`. */
  function SlotOf(fields: seq<Field>, i: nat): nat
    requires i < |fields|
  {
    if i == 0 then 0
    else SlotOf(fields, i - 1) + (if SharesSlot(fields[i - 1], fields[i]) then 0 else 1)
  }

  function NumSlots(fields: seq<Field>): nat {
    if fields == [] then 0 else SlotOf(fields, |fields| - 1) + 1
  }

  /** Number of required fields before field `i`: the iterator's required_field_index there. */
  function RequiredIndex(fields: seq<Field>, i: nat): nat
    requires i <= |fields|
  {
    if i == 0 then 0 else RequiredIndex(fields, i - 1) + (if fields[i - 1].htype.Required? then 1 else 0)
  }

  /** Index of the first field with this tag; |fields| when there is none. */
  function FindField(fields: seq<Field>, tag: nat): (i: nat)
    ensures i <= |fields|
    ensures i < |fields| ==> fields[i].tag == tag
    ensures forall j :: 0 <= j < i ==> fields[j].tag != tag
  {
    FindFrom(fields, tag, 0)
  }

  function FindFrom(fields: seq<Field>, tag: nat, i: nat): (k: nat)
    requires i <= |fields|
    ensures i <= k <= |fields|
    ensures k < |fields| ==> fields[k].tag == tag
    ensures forall j :: i <= j < k ==> fields[j].tag != tag
    decreases |fields| - i
  {
    if i == |fields| || fields[i].tag == tag then i else FindFrom(fields, tag, i + 1)
  }

  // ---------- Tables the generator emits ----------

  predicate ValidField(f: Field)
    decreases f
  {
    && 0 < f.tag < 0x2000_0000 && f.dataSize < WORD32 && f.arraySize < WORD32
    && (f.ltype.LVarint? || f.ltype.LUVarint? || f.ltype.LSVarint? ==> IntRange(f.dataSize) != 0)
    && (f.htype.Oneof? ==> f.sizeOffset != 0)
    && (f.ltype.LSubmessage? ==> ValidTable(f.ltype.fields))
  }

  /** Distinct nonzero field numbers the wire can carry, sizes pb_size_t and C's integers have, valid
      submessage tables. */
  predicate ValidTable(fields: seq<Field>)
    decreases fields
  {
    && (forall i :: 0 <= i < |fields| ==> ValidField(fields[i]))
    && (forall i, j :: 0 <= i < j < |fields| ==> fields[i].tag != fields[j].tag)
  }

  lemma ValidAt(fields: seq<Field>, i: nat)
    requires ValidTable(fields) && i < |fields|
    ensures ValidField(fields[i])
  {
  }

  lemma {:induction false} SlotOfMonotone(fields: seq<Field>, i: nat, j: nat)
    requires i <= j < |fields|
    ensures SlotOf(fields, i) <= SlotOf(fields, j)
    ensures SlotOf(fields, i) == SlotOf(fields, j) && i < j ==> fields[i].htype.Oneof? && fields[j].htype.Oneof?
    decreases j - i
  {
    if i < j {
      SlotOfMonotone(fields, i, j - 1);
      if SlotOf(fields, i) == SlotOf(fields, j) && i < j - 1 {
        SlotOfMonotone(fields, i, j - 1);
      }
    }
  }

  lemma SlotInRange(fields: seq<Field>, i: nat)
    requires i < |fields|
    ensures SlotOf(fields, i) < NumSlots(fields)
  {
    SlotOfMonotone(fields, i, |fields| - 1);
  }

  /** pb_release_union_field, which runs before a union field is decoded: another alternative that was set must
      be one of the table's fields. */
  predicate Releasable(fields: seq<Field>, f: Field, slot: Slot) {
    f.htype.Oneof? && slot.SOneof? ==>
      slot.which == 0 || slot.which == f.tag || FindField(fields, slot.which) < |fields|
  }

  lemma FindUnique(fields: seq<Field>, i: nat)
    requires i < |fields|
    requires forall a, b :: 0 <= a < b < |fields| ==> fields[a].tag != fields[b].tag
    ensures FindField(fields, fields[i].tag) == i
  {
    var k := FindField(fields, fields[i].tag);
    assert k <= i;
  }
}
