/** pb_message_set_to_defaults: what a struct is reset to, given what its memory held. */
module Defaulting {
  import opened Parsing
  import opened Schema
  import opened Layout

  /** sizeof(pb_size_t). */
  const COUNT_BYTES: nat := 4

  function ZeroScalar(f: Field): Value {
    match f.ltype
    case LBytes => VBytes([])
    case LString => VBytes([])
    case LFixedBytes => VBytes(seq(f.dataSize, _ => 0))
    case _ => VInt(0)
  }

  // ---------- Memory set to zero ----------

  function ZeroItem(f: Field): Value
    decreases f, 0
  {
    match f.ltype
    case LSubmessage(sub) => VMsg(ZeroUpTo(sub, |sub|))
    case _ => ZeroScalar(f)
  }

  function ZeroMember(f: Field): Slot
    decreases f, 1
  {
    match f.htype
    case Required => SOne(ZeroItem(f))
    case Optional => if f.sizeOffset != 0 then SOpt(false, ZeroItem(f)) else SOne(ZeroItem(f))
    case Repeated =>
      var cells := seq(f.arraySize, _ => ZeroItem(f));
      if FixedCount(f) then SRep(cells, []) else SRep([], cells)
    case Oneof => SOneof(0, VInt(0))
  }

  function ZeroUpTo(fields: seq<Field>, i: nat): (m: seq<Slot>)
    requires i <= |fields|
    ensures |m| == if i == 0 then 0 else SlotOf(fields, i - 1) + 1
    decreases fields, i
  {
    if i == 0 then []
    else if i >= 2 && SharesSlot(fields[i - 2], fields[i - 1]) then ZeroUpTo(fields, i - 1)
    else ZeroUpTo(fields, i - 1) + [ZeroMember(fields[i - 1])]
  }

  // ---------- Defaults ----------

  function PriorSlot(prior: seq<Slot>, k: nat): Slot {
    if k < |prior| then prior[k] else SRep([], [])
  }

  function Contents(p: Slot): Value {
    if p.SRep? then VInt(0) else p.v
  }

  /** The cells of an array member; zeros if the memory does not hold such an array. */
  function Cells(f: Field, p: Slot): (r: seq<Value>)
    ensures |r| == f.arraySize
  {
    if p.SRep? && |p.items| + |p.spare| == f.arraySize then p.items + p.spare
    else seq(f.arraySize, _ => ZeroItem(f))
  }

  /** What is stored in the data of a singular field. */
  function DefaultValue(f: Field, prior: Value): Value
    decreases f, 0
  {
    match f.ltype
    case LSubmessage(sub) => VMsg(Defaults(sub, SlotsIn(prior)))
    case _ => if f.ptr.Some? then f.ptr.value else ZeroScalar(f)
  }

  /** pb_field_set_to_default. An array's elements are left alone, but where a fixed-count array has no
      count the zero count is stored over its first word. */
  function DefaultSlot(f: Field, p: Slot): Slot
    decreases f, 1
  {
    match f.htype
    case Required => SOne(DefaultValue(f, Contents(p)))
    case Optional =>
      var v := DefaultValue(f, Contents(p));
      if f.sizeOffset != 0 then SOpt(false, v) else SOne(v)
    case Repeated =>
      if FixedCount(f) then SRep(ZeroCells(f, Cells(f, p), COUNT_BYTES), []) else SRep([], Cells(f, p))
    case Oneof => SOneof(0, VInt(0))
  }

  function DefaultsUpTo(fields: seq<Field>, i: nat, prior: seq<Slot>): (m: seq<Slot>)
    requires i <= |fields|
    ensures |m| == if i == 0 then 0 else SlotOf(fields, i - 1) + 1
    decreases fields, i
  {
    if i == 0 then []
    else if i >= 2 && SharesSlot(fields[i - 2], fields[i - 1]) then DefaultsUpTo(fields, i - 1, prior)
    else
      var m := DefaultsUpTo(fields, i - 1, prior);
      m + [DefaultSlot(fields[i - 1], PriorSlot(prior, |m|))]
  }

  /** pb_message_set_to_defaults on a struct that held `prior`. */
  function Defaults(fields: seq<Field>, prior: seq<Slot>): (m: seq<Slot>)
    ensures |m| == NumSlots(fields)
    decreases fields, |fields| + 1
  {
    DefaultsUpTo(fields, |fields|, prior)
  }

  /** What an array element is merged into: its cell, reset. */
  function ElementBase(f: Field, cell: Value): Value {
    match f.ltype
    case LSubmessage(sub) => VMsg(Defaults(sub, SlotsIn(cell)))
    case _ => cell
  }

  /** What a newly chosen alternative of a union is merged into: zeroed memory, reset. */
  function UnionBase(f: Field): Value {
    ElementBase(f, ZeroItem(f))
  }

  lemma OneofDefault(f: Field)
    requires f.htype.Oneof?
    ensures forall p :: DefaultSlot(f, p) == SOneof(0, VInt(0))
  {
  }
}
