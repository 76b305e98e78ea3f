/** What the decoder accepts of each type and what it stores, written out for every byte string: an integer that
    its C type cannot hold, a string or byte field that its member cannot hold, is refused and not cut. */
module Reading {
  import opened Words
  import opened Parsing
  import opened Varints
  import opened Wire
  import opened Schema
  import opened DecoderSpec
  import opened WireFormat

  /** Half the number of values of an integer of `size` bytes. */
  function Half(size: nat): nat
    requires size in {1, 2, 4, 8}
  {
    if size == 1 then 0x80 else if size == 2 then 0x8000 else if size == 4 then 0x8000_0000
    else 0x8000_0000_0000_0000
  }

  /** What a 64-bit number on the wire means to a field: of an int smaller than 64 bits only the low 32 bits
      are looked at. */
  function Meaning(t: LType, raw: nat, size: nat): int {
    if t.LUVarint? then raw
    else if t.LSVarint? then if raw % 2 == 0 then raw / 2 else -(raw / 2) - 1
    else if size == 8 then if raw < 0x8000_0000_0000_0000 then raw else raw - 0x1_0000_0000_0000_0000
    else
      var low := raw % 0x1_0000_0000;
      if low < 0x8000_0000 then low else low - 0x1_0000_0000
  }

  predicate Holds(t: LType, n: int, size: nat)
    requires size in {1, 2, 4, 8}
  {
    if t.LUVarint? then n < 2 * Half(size) else 0 - Half(size) <= n < Half(size)
  }

  lemma WrapsToItself(n: int, m: nat)
    requires m > 0 && m % 2 == 0
    ensures SignedWrap(n, m) == n <==> -(m / 2) <= n < m / 2
  {
    if 0 <= n < m / 2 { DivModUnique(n, 0, n, m); }
    if -(m / 2) <= n < 0 { DivModUnique(n, -1, n + m, m); }
  }

  lemma SignedMeaning(raw: nat, size: nat)
    requires raw < WORD64 && size in {1, 2, 4, 8}
    ensures NarrowSigned(raw, size) ==
      var n := Meaning(LVarint, raw, size); if Holds(LVarint, n, size) then Some(n) else None
  {
    if size == 8 { DivModUnique(raw, 0, raw, WORD64); }
    WrapsToItself(Meaning(LVarint, raw, size), IntRange(size));
  }

  lemma ZigzagMeaning(raw: nat, size: nat)
    requires raw < WORD64 && size in {1, 2, 4, 8}
    ensures NarrowZigzag(raw, size) ==
      var n := Meaning(LSVarint, raw, size); if Holds(LSVarint, n, size) then Some(n) else None
  {
    var h := raw / 2;
    if raw % 2 == 0 {
      DivModUnique(h, 0, h, WORD64);
    } else {
      DivModUnique(WORD64 - 1 - h, 0, WORD64 - 1 - h, WORD64);
    }
    WrapsToItself(Meaning(LSVarint, raw, size), IntRange(size));
  }

  lemma UnsignedMeaning(raw: nat, size: nat)
    requires raw < WORD64 && size in {1, 2, 4, 8}
    ensures NarrowUnsigned(raw, size) == if Holds(LUVarint, raw, size) then Some(raw) else None
  {
    if raw < IntRange(size) { SmallMod(raw, IntRange(size)); }
  }

  /** int, uint and sint fields of 1, 2, 4 and 8 bytes. */
  lemma IntegerExactly(f: Field, s: seq<byte>)
    requires (f.ltype.LVarint? || f.ltype.LUVarint? || f.ltype.LSVarint?) && f.dataSize in {1, 2, 4, 8}
    ensures var n := Meaning(f.ltype, Spelled(s) % 0x1_0000_0000_0000_0000, f.dataSize);
      DecodeScalar(f, s) ==
        if 1 <= VarintLen(s) <= 10 && Holds(f.ltype, n, f.dataSize) then Ok(VInt(n), AfterVarint(s)) else Fail
  {
    hide DecodeVarint, Groups, VarintLen, Holds, Meaning, NarrowSigned, NarrowUnsigned, NarrowZigzag;
    var raw := Spelled(s) % WORD64;
    DecodeVarintMeaning(s);
    SignedMeaning(raw, f.dataSize);
    UnsignedMeaning(raw, f.dataSize);
    ZigzagMeaning(raw, f.dataSize);
    MeaningOfUnsigned(raw, f.dataSize);
  }

  lemma MeaningOfUnsigned(raw: nat, size: nat)
    ensures Meaning(LUVarint, raw, size) == raw
  {
  }

  /** bool fields take any number the 32-bit decoder accepts. */
  lemma BoolExactly(f: Field, s: seq<byte>)
    requires f.ltype.LBool?
    ensures var r := DecodeVarint32(s);
      DecodeScalar(f, s) == if r.Ok? then Ok(VInt(if r.value == 0 then 0 else 1), r.rest) else Fail
  {
  }

  lemma {:induction false} FixedValueWords(s: seq<byte>)
    ensures |s| == 4 ==> FixedValue(s) == Word32(s)
    ensures |s| == 8 ==> FixedValue(s) == Word64(s)
  {
    if |s| == 4 || |s| == 8 {
      assert FixedValue(s) == s[0] as int + 256 * FixedValue(s[1..]);
      assert FixedValue(s[1..]) == s[1] as int + 256 * FixedValue(s[1..][1..]);
      var t := s[1..][1..];
      assert FixedValue(t) == s[2] as int + 256 * FixedValue(t[1..]);
      assert FixedValue(t[1..]) == s[3] as int + 256 * FixedValue(t[1..][1..]);
      assert t[1..][1..] == s[4..];
      if |s| == 8 { FixedValueWords(s[4..]); }
    }
  }

  lemma FixedExactly(f: Field, s: seq<byte>)
    ensures f.ltype.LFixed32? ==>
      DecodeScalar(f, s) == if |s| >= 4 then Ok(VInt(Word32(s)), s[4..]) else Fail
    ensures f.ltype.LFixed64? ==>
      DecodeScalar(f, s) == if |s| >= 8 then Ok(VInt(Word64(s)), s[8..]) else Fail
  {
    hide FixedValue;
    if f.ltype.LFixed32? && |s| >= 4 { FixedValueWords(s[..4]); }
    if f.ltype.LFixed64? && |s| >= 8 { FixedValueWords(s[..8]); assert s[..8][4..] == s[4..8]; }
  }

  // ---------- Strings and bytes ----------

  lemma {:induction false} BitOrBelow(a: nat, b: nat, k: nat)
    requires a < Pow2(k) && b < Pow2(k)
    ensures BitOr(a, b) < Pow2(k)
    decreases k
  {
    if a != 0 && b != 0 {
      BitOrBelow(a / 2, b / 2, k - 1);
    }
  }

  lemma {:induction false} StoredBelow(w: seq<byte>)
    ensures StoredGroups(w) < WORD32
  {
    hide BitOr, Pow2, BitPos;
    if w != [] {
      var j := |w| - 1;
      StoredBelow(w[..j]);
      Pow2Values();
      BitOrBelow(StoredGroups(w[..j]), w[j] % 128 * Pow2(BitPos(j)) % WORD32, 32);
    }
  }

  lemma Varint32Below(s: seq<byte>)
    ensures DecodeVarint32(s).Ok? ==> DecodeVarint32(s).value < WORD32
  {
    hide DecodeVarint32, StoredGroups, Accepted32;
    DecodeVarint32Exactly(s);
    StoredBelow(s[..VarintLen(s)]);
  }

  /** Byte fields hold four bytes of count, strings a terminator; a fixed-length field takes its own length or
      nothing, which stands for zeros. */
  predicate BlobFits(f: Field, n: nat) {
    match f.ltype
    case LBytes => n + 4 <= f.dataSize
    case LString => n + 1 <= f.dataSize
    case LFixedBytes => n == 0 || n == f.dataSize
    case _ => false
  }

  lemma BlobExactly(f: Field, s: seq<byte>)
    requires f.dataSize < 0x1_0000_0000
    ensures var r := DecodeVarint32(s);
      DecodeBlob(f, s) ==
        if r.Ok? && BlobFits(f, r.value) && r.value <= |r.rest|
        then Ok(VBytes(if f.ltype.LFixedBytes? && r.value == 0 then seq(f.dataSize, _ => 0) else r.rest[..r.value]),
                r.rest[r.value..])
        else Fail
  {
    hide DecodeVarint32;
    Varint32Below(s);
    var r := DecodeVarint32(s);
    if r.Ok? {
      assert r.rest[0..] == r.rest;
      if r.value + 1 < WORD32 { SmallMod(r.value + 1, WORD32); }
    }
  }
}
