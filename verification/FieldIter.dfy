/** pb_common.c: the wrap-around iterator over a field table, which keeps the address of the current
    field's data by adding up delta-coded offsets. */
module FieldIter {
  import opened Schema
  import opened Layout

  /** The PB_DATAOFFSET macros: `off[i]` is offsetof the member that holds field `i`. */
  predicate DeltaCoded(fields: seq<Field>, off: seq<nat>) {
    && |off| == |fields|
    && (fields != [] ==> fields[0].dataOffset == off[0])
    && forall i {:trigger off[i]} :: 1 <= i < |fields| ==>
         if SharesSlot(fields[i - 1], fields[i]) then off[i] == off[i - 1]
         else fields[i].dataOffset == off[i] - off[i - 1] - Extent(fields[i - 1])
  }

  /** The iterator's addresses are the struct layout the table was generated from. */
  lemma {:induction false} OffsetsRecovered(fields: seq<Field>, off: seq<nat>, i: nat)
    requires DeltaCoded(fields, off) && i < |fields|
    ensures AbsOffset(fields, i) == off[i]
  {
    hide Extent, SharesSlot;
    if i > 0 {
      OffsetsRecovered(fields, off, i - 1);
      assert off[i] == off[i];
    }
  }

  /** Fields share an address exactly when they share a struct member. */
  lemma {:induction false} AddressesAreSlots(fields: seq<Field>, i: nat, j: nat)
    requires i <= j < |fields|
    requires forall k :: 0 <= k < |fields| ==> Extent(fields[k]) > 0
    ensures AbsOffset(fields, i) <= AbsOffset(fields, j)
    ensures AbsOffset(fields, i) == AbsOffset(fields, j) <==> SlotOf(fields, i) == SlotOf(fields, j)
    decreases j - i
  {
    hide Extent, SharesSlot;
    if i < j {
      AddressesAreSlots(fields, i, j - 1);
      SlotOfMonotone(fields, i, j - 1);
    }
  }

  /** Where the iterator says the has-flag, count or which-field is: in the struct, or in the decoder's
      own counter for a fixed-count array. */
  datatype SizeAddress = InStruct(address: int) | FixedCountLocal

  /** Position 0 of an empty table is the terminator; otherwise the iterator never rests on it. */
  class Iter {
    const start: seq<Field>
    const base: int
    var pos: nat
    var pData: int
    var pSize: SizeAddress
    var requiredFieldIndex: nat

    /** In every reachable position the address is the one the deltas imply and the required fields
        before it have been counted. */
    ghost predicate Valid()
      reads this
    {
      && (start == [] ==> pos == 0)
      && (start != [] ==> pos < |start| && pData == base + AbsOffset(start, pos))
      && pos <= |start| && requiredFieldIndex == RequiredIndex(start, pos)
    }

    /** An array's count is where its own size offset puts it. */
    ghost predicate OwnSize()
      requires Valid() && start != []
      reads this
    {
      start[pos].htype.Repeated? ==> pSize == InStruct(pData + start[pos].sizeOffset)
    }

    constructor (fields: seq<Field>, structBase: int)
      ensures start == fields && base == structBase && Valid() && pos == 0
      ensures fields != [] ==> OwnSize()
    {
      start, base := fields, structBase;
      pos, requiredFieldIndex := 0, 0;
      var offset := if fields == [] then 0 else fields[0].dataOffset;
      pData := structBase + offset;
      pSize := InStruct(structBase + offset + (if fields == [] then 0 else fields[0].sizeOffset));
    }

    /** pb_field_iter_begin. */
    method Begin() returns (nonEmpty: bool)
      modifies this
      ensures Valid() && pos == 0 && nonEmpty == (start != [])
      ensures start != [] ==> pSize == InStruct(pData + start[0].sizeOffset)
    {
      pos, requiredFieldIndex := 0, 0;
      pData := base + (if start == [] then 0 else start[0].dataOffset);
      pSize := InStruct(pData + (if start == [] then 0 else start[0].sizeOffset));
      nonEmpty := start != [];
    }

    /** pb_field_iter_next. */
    method Next() returns (more: bool)
      requires Valid()
      modifies this
      ensures Valid()
      ensures more == (old(pos) + 1 < |start|)
      ensures pos == if more then old(pos) + 1 else 0
      ensures start != [] ==>
        if more && SharesSlot(start[old(pos)], start[pos]) then pData == old(pData) && pSize == old(pSize)
        else pSize == InStruct(pData + start[pos].sizeOffset)
    {
      if start == [] {
        return false;
      }
      var prev := start[pos];
      if pos + 1 == |start| {
        var _ := Begin();
        return false;
      }
      pos := pos + 1;
      var prevSize := prev.dataSize;
      if prev.htype.Oneof? && start[pos].htype.Oneof? && start[pos].dataOffset == PB_SIZE_MAX {
        return true;
      } else if prev.htype.Repeated? {
        prevSize := prevSize * prev.arraySize;
      }
      if prev.htype.Required? {
        requiredFieldIndex := requiredFieldIndex + 1;
      }
      pData := pData + prevSize + start[pos].dataOffset;
      pSize := InStruct(pData + start[pos].sizeOffset);
      return true;
    }

    /** pb_field_iter_find: one wrap around the table from wherever the iterator is. An empty table
        "finds" its terminator when asked for field number 0. */
    method Find(tag: nat) returns (found: bool)
      requires Valid()
      modifies this
      ensures Valid()
      ensures start != [] ==> (found <==> exists i :: 0 <= i < |start| && start[i].tag == tag)
      ensures start != [] && found ==> start[pos].tag == tag
      ensures start == [] ==> (found <==> tag == 0)
      ensures !found ==> pos == old(pos)
      ensures start != [] && (pos != old(pos) || !found) ==> OwnSize()
      ensures found && pos == old(pos) ==> pSize == old(pSize)
    {
      var first := pos;
      ghost var wrapped := false;
      while true
        invariant Valid()
        invariant start != [] ==>
          if wrapped then pos <= first && (forall k :: 0 <= k < pos || first <= k < |start| ==> start[k].tag != tag)
          else first <= pos && (forall k :: first <= k < pos ==> start[k].tag != tag)
        invariant !wrapped && pos == first ==> pSize == old(pSize)
        invariant start != [] && (wrapped || pos != first) ==> OwnSize()
        invariant start != [] && wrapped ==> pos < first
        invariant start == [] ==> !wrapped
        decreases if wrapped then 0 else 1, |start| - pos
      {
        if start == [] {
          if tag == 0 { return true; }
        } else if start[pos].tag == tag {
          return true;
        }
        var more := Next();
        if !more && start != [] { wrapped := true; }
        if pos == first {
          return false;
        }
      }
    }
  }
}
