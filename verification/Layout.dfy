/** Where members lie in a struct, and what storing a zero word over the start of one does to it. */
module Layout {
  import opened Words
  import opened Schema

  /** Space a field's data takes in the struct. */
  function Extent(f: Field): nat {
    if f.htype.Repeated? then f.dataSize * f.arraySize else f.dataSize
  }

  /** Offset from the start of the struct that the table's deltas add up to. */
  function AbsOffset(fields: seq<Field>, i: nat): nat
    requires i < |fields|
  {
    if i == 0 then fields[0].dataOffset
    else if SharesSlot(fields[i - 1], fields[i]) then AbsOffset(fields, i - 1)
    else AbsOffset(fields, i - 1) + Extent(fields[i - 1]) + fields[i].dataOffset
  }

  /** Bytes of a packable element. */
  function Width(f: Field): nat {
    if f.ltype.LBool? then 1
    else if f.ltype.LFixed32? then 4
    else if f.ltype.LFixed64? then 8
    else f.dataSize
  }

  function Least(a: nat, b: nat): nat {
    if a < b then a else b
  }

  /** The value left when its first `k` bytes are cleared, on a little-endian machine. */
  function ZeroPrefix(f: Field, v: Value, k: nat): Value
    decreases f, 1
  {
    if k == 0 then v
    else match v
      case VInt(n) => if k >= Width(f) then VInt(0) else VInt(n - n % Pow2(8 * k))
      case VBytes(data) =>
        if f.ltype.LBytes? then VBytes([])
        else VBytes(seq(|data|, i requires 0 <= i < |data| => if i < k then 0 else data[i]))
      case VMsg(slots) =>
        if f.ltype.LSubmessage? then VMsg(ZeroSlots(f.ltype.fields, |f.ltype.fields|, slots, k)) else v
  }

  /** The cells of an array when its first `k` bytes are cleared. */
  function ZeroCells(f: Field, cells: seq<Value>, k: nat): (r: seq<Value>)
    ensures |r| == |cells|
    decreases f, 2, cells
  {
    if cells == [] || k == 0 then cells
    else
      var n := Least(k, f.dataSize);
      [ZeroPrefix(f, cells[0], n)] + ZeroCells(f, cells[1..], k - n)
  }

  /** A member loses those of its bytes that lie below `k`. Flags, counts and which-fields are aligned, so
      one that is reached is cleared whole, and an array's count lies before its cells. */
  function ZeroSlot(f: Field, offset: nat, slot: Slot, k: nat): Slot
    decreases f, 3
  {
    var n := if offset < k then k - offset else 0;
    var cleared := 0 <= offset + f.sizeOffset < k;
    match slot
    case SOne(v) => SOne(ZeroPrefix(f, v, n))
    case SOpt(has, v) => SOpt(has && !cleared, ZeroPrefix(f, v, n))
    case SRep(items, spare) =>
      if FixedCount(f) then SRep(ZeroCells(f, items, n), spare)
      else if cleared then SRep([], items + spare)
      else slot
    case SOneof(which, v) =>
      SOneof(if cleared then 0 else which, if which == f.tag then ZeroPrefix(f, v, n) else v)
  }

  function ZeroSlots(fields: seq<Field>, i: nat, m: seq<Slot>, k: nat): (r: seq<Slot>)
    requires i <= |fields|
    ensures |r| == |m|
    decreases fields, i
  {
    if i == 0 then m
    else
      var r, at := ZeroSlots(fields, i - 1, m, k), SlotOf(fields, i - 1);
      if at < |r| then r[at := ZeroSlot(fields[i - 1], AbsOffset(fields, i - 1), r[at], k)] else r
  }
}
