/** Base 128 varints of the Protocol Buffers encoding, as nanopb writes them and as its two decoders read
    them. Every reader takes the bytes left in its stream and returns the value with the bytes after it. */
module Varints {
  import opened Words
  import opened Parsing

  /** pb_encode_varint. */
  function EncodeVarint(n: nat): (r: seq<byte>)
    ensures |r| >= 1
  {
    if n < 128 then [n] else [n % 128 + 128] + EncodeVarint(n / 128)
  }

  /** pb_decode_varint: `result` holds the groups read so far, `bitpos` where the next one goes. */
  function Varint64From(s: seq<byte>, bitpos: nat, result: nat): Parse<nat> {
    if bitpos >= 64 || s == [] then Fail
    else
      var result' := BitOr(result, (s[0] % 128 * Pow2(bitpos)) % WORD64);
      if s[0] < 128 then Ok(result', s[1..]) else Varint64From(s[1..], bitpos + 7, result')
  }

  function DecodeVarint(s: seq<byte>): Parse<nat> {
    Varint64From(s, 0, 0)
  }

  /** The accumulator of the 32-bit decoder after one more group: groups from bit 32 on are only checked. */
  function Accumulate32(result: nat, g: nat, bitpos: nat): nat {
    if bitpos >= 32 then result else BitOr(result, (g * Pow2(bitpos)) % WORD32)
  }

  /** The multi-byte loop of pb_decode_varint32_eof; `bitpos` is an 8-bit counter. */
  function Varint32From(s: seq<byte>, bitpos: nat, result: nat): Parse<nat> {
    if s == [] then Fail
    else
      var b := s[0];
      var signExtension := if bitpos < 63 then 0xFF else 0x01;
      if bitpos >= 32 && b % 128 != 0 && (result / 0x8000_0000 == 0 || b != signExtension) then Fail
      else
        var result' := Accumulate32(result, b % 128, bitpos);
        var bitpos' := (bitpos + 7) % 256;
        if b >= 128 then Varint32From(s[1..], bitpos', result')
        else if bitpos' == 35 && b / 16 % 8 != 0 then Fail
        else Ok(result', s[1..])
  }

  function DecodeVarint32(s: seq<byte>): Parse<nat> {
    if s == [] then Fail
    else if s[0] < 128 then Ok(s[0], s[1..])
    else Varint32From(s[1..], 7, s[0] % 128)
  }

  /** Number of bytes up to and including the first one with a clear top bit; 0 when there is none. */
  function VarintLen(s: seq<byte>): (k: nat)
    ensures k <= |s|
  {
    if s == [] then 0
    else if s[0] < 128 then 1
    else
      var k := VarintLen(s[1..]);
      if k == 0 then 0 else k + 1
  }

  /** The number written by the 7-bit groups of `p`, least significant group first. */
  function Groups(p: seq<byte>): nat {
    if p == [] then 0 else p[0] % 128 + 128 * Groups(p[1..])
  }

  lemma {:induction false} VarintLenAppend(s: seq<byte>, t: seq<byte>)
    requires VarintLen(s) > 0
    ensures VarintLen(s + t) == VarintLen(s)
  {
    assert (s + t)[0] == s[0];
    if s[0] >= 128 {
      assert (s + t)[1..] == s[1..] + t;
      VarintLenAppend(s[1..], t);
    }
  }

  lemma {:induction false} EncodeVarintGroups(n: nat)
    ensures VarintLen(EncodeVarint(n)) == |EncodeVarint(n)|
    ensures Groups(EncodeVarint(n)) == n
  {
    if n >= 128 {
      EncodeVarintGroups(n / 128);
      assert EncodeVarint(n)[1..] == EncodeVarint(n / 128);
    } else {
      assert EncodeVarint(n)[1..] == [];
    }
  }

  lemma {:induction false} EncodeVarintLength(n: nat, k: nat)
    requires k >= 1 && n < Pow2(7 * k)
    ensures 1 <= |EncodeVarint(n)| <= k
    decreases k
  {
    if n >= 128 {
      assert k >= 2 by { Pow2Values(); }
      assert Pow2(7 * k) == 128 * Pow2(7 * (k - 1)) by { Pow2Add(7, 7 * (k - 1)); Pow2Values(); }
      EncodeVarintLength(n / 128, k - 1);
    }
  }

  /** No 64-bit value overruns the encoder's ten-byte buffer. */
  lemma VarintAtMostTenBytes(n: nat)
    requires n < WORD64
    ensures 1 <= |EncodeVarint(n)| <= 10
  {
    Pow2Values();
    Pow2Monotone(64, 70);
    EncodeVarintLength(n, 10);
  }

  /** One step of either decoder loop: the masked, shifted and truncated group lands above `result`. */
  lemma OrShifted(result: nat, g: nat, bitpos: nat, width: nat)
    requires result < Pow2(bitpos) && bitpos <= width
    ensures BitOr(result, (g * Pow2(bitpos)) % Pow2(width)) == (result + g * Pow2(bitpos)) % Pow2(width)
  {
    hide BitOr, Pow2;
    var p, q, w := Pow2(bitpos), Pow2(width - bitpos), Pow2(width);
    assert w == p * q by { Pow2Add(bitpos, width - bitpos); }
    SplitProduct(g, p, q);
    ModShift(g % q * p, g / q, w);
    ModShift(result + g % q * p, g / q, w);
    BitOrIsAdd(result, g % q, bitpos);
  }

  lemma Pow2Step(j: nat)
    ensures Pow2(7 * (j + 1)) == 128 * Pow2(7 * j)
  {
    Pow2Add(7, 7 * j);
    assert Pow2(7) == 128;
  }

  lemma GroupRoom(result: nat, g: nat, p: nat)
    requires result < p && g < 128
    ensures result + g * p < 128 * p
  {
    MulMonotone(g, 127, p);
  }

  /** The j-th group of a 64-bit varint, j < 9, is stored untruncated. */
  lemma GroupBelow63(result: nat, g: nat, j: nat)
    requires j < 9 && result < Pow2(7 * j) && g < 128
    ensures BitOr(result, (g * Pow2(7 * j)) % WORD64) == result + g * Pow2(7 * j) < Pow2(7 * (j + 1))
  {
    hide BitOr, Pow2;
    var p := Pow2(7 * j);
    Pow2Step(j);
    GroupRoom(result, g, p);
    Pow2Below64(j + 1);
    assert 0 <= g * p by { MulMonotone(0, g, p); }
    SmallMod(g * p, WORD64);
    BitOrIsAdd(result, g, 7 * j);
  }

  lemma Pow2Below64(j: nat)
    requires j <= 9
    ensures Pow2(7 * j) <= WORD64
  {
    Pow2Monotone(7 * j, 63);
    Pow2Values();
  }

  /** The tenth group keeps only its lowest bit. */
  lemma LastGroup(result: nat, g: nat, j: nat)
    requires j < 10 && result < Pow2(7 * j) && g < 128
    ensures BitOr(result, (g * Pow2(7 * j)) % WORD64) == (result + Pow2(7 * j) * g) % WORD64
  {
    OrShifted(result, g, 7 * j, 64);
    assert Pow2(64) == WORD64 by { Pow2Values(); }
  }

  lemma {:induction false} Varint64Meaning(s: seq<byte>, j: nat, result: nat)
    requires j <= 10 && (j < 10 ==> result < Pow2(7 * j))
    ensures var k := VarintLen(s);
      Varint64From(s, 7 * j, result) ==
        if k > 0 && j + k <= 10 then Ok((result + Pow2(7 * j) * Groups(s[..k])) % WORD64, s[k..]) else Fail
    decreases |s|
  {
    hide BitOr, Pow2, Groups;
    if j < 10 && s != [] {
      var k, g := VarintLen(s), s[0] % 128;
      if s[0] < 128 {
        GroupsOfOne(s);
        LastGroup(result, g, j);
      } else if j < 9 {
        GroupBelow63(result, g, j);
        Varint64Meaning(s[1..], j + 1, result + g * Pow2(7 * j));
        if k > 0 {
          GroupsSplit(s, k);
          Pow2Step(j);
          MulGroups(Pow2(7 * j), g, Groups(s[1..][..k - 1]));
          assert s[1..][k - 1..] == s[k..];
        }
      }
    }
  }

  lemma MulGroups(p: nat, g: nat, rest: nat)
    ensures p * (g + 128 * rest) == g * p + 128 * p * rest
  {
  }

  lemma GroupsOfOne(s: seq<byte>)
    requires |s| >= 1
    ensures Groups(s[..1]) == s[0] % 128
  {
    assert s[..1][1..] == [];
  }

  lemma GroupsSplit(s: seq<byte>, k: nat)
    requires 1 <= k <= |s|
    ensures Groups(s[..k]) == s[0] % 128 + 128 * Groups(s[1..][..k - 1])
  {
    assert s[..k][1..] == s[1..][..k - 1];
  }

  /** pb_decode_varint accepts exactly the varints of at most ten bytes, and returns the number
      their groups spell modulo 2^64. */
  lemma DecodeVarintMeaning(s: seq<byte>)
    ensures var k := VarintLen(s);
      DecodeVarint(s) == if 1 <= k <= 10 then Ok(Groups(s[..k]) % WORD64, s[k..]) else Fail
  {
    Varint64Meaning(s, 0, 0);
  }

  lemma LowGroupStored(full: nat, g: nat, j: nat)
    requires full < Pow2(7 * j) && j <= 4
    ensures full < WORD32
    ensures Accumulate32(full, g, 7 * j) == (full + g * Pow2(7 * j)) % WORD32
  {
    hide BitOr;
    assert Pow2(32) == WORD32 by { Pow2Values(); }
    Pow2Monotone(7 * j, 32);
    OrShifted(full, g, 7 * j, 32);
  }

  lemma HighGroupIgnored(full: nat, g: nat, j: nat)
    requires j >= 5
    ensures full % WORD32 == (full + g * Pow2(7 * j)) % WORD32
  {
    hide Pow2;
    assert Pow2(7 * j) == Pow2(7 * j - 32) * WORD32 by { Pow2Values(); Pow2Add(7 * j - 32, 32); }
    MulAssoc(g, Pow2(7 * j - 32), WORD32);
    ModAddMultiple(full, g * Pow2(7 * j - 32), WORD32);
  }

  /** The 32-bit accumulator is the number read so far, modulo 2^32, whichever branch stores the group. */
  lemma Accumulate32Step(result: nat, full: nat, g: nat, j: nat)
    requires full < Pow2(7 * j) && result == full % WORD32 && g < 128
    ensures Accumulate32(result, g, 7 * j) == (full + g * Pow2(7 * j)) % WORD32
    ensures full + g * Pow2(7 * j) < Pow2(7 * (j + 1))
  {
    hide BitOr, Pow2;
    Pow2Step(j);
    GroupRoom(full, g, Pow2(7 * j));
    if j <= 4 {
      LowGroupStored(full, g, j);
      SmallMod(full, WORD32);
    } else {
      HighGroupIgnored(full, g, j);
    }
  }

  // ---------- The 32-bit decoder, on varints of any length ----------

  /** Where the 8-bit counter stands after `j` groups. */
  function BitPos(j: nat): nat {
    7 * j % 256
  }

  /** What is stored of the groups of `w`. */
  function StoredGroups(w: seq<byte>): nat {
    if w == [] then 0
    else
      var j := |w| - 1;
      Accumulate32(StoredGroups(w[..j]), w[j] % 128, BitPos(j))
  }

  /** A group that is not stored must be empty or continue the sign of what has been stored. */
  predicate GroupAccepted(w: seq<byte>, j: nat)
    requires j < |w|
  {
    || BitPos(j) < 32 || w[j] % 128 == 0
    || (StoredGroups(w[..j]) / 0x8000_0000 != 0 && w[j] == if BitPos(j) < 63 then 0xFF else 0x01)
  }

  predicate AcceptedFrom(w: seq<byte>, j: nat) {
    && (|w| % 256 == 5 ==> w[|w| - 1] < 16)
    && forall i :: j <= i < |w| ==> GroupAccepted(w, i)
  }

  /** The varints the 32-bit decoder accepts. */
  predicate Accepted32(w: seq<byte>) {
    AcceptedFrom(w, 1)
  }

  lemma BitPosNext(j: nat)
    ensures (BitPos(j) + 7) % 256 == BitPos(j + 1)
  {
    var n := 7 * j;
    assert n == n / 256 * 256 + n % 256;
    ModAddMultiple(n % 256 + 7, n / 256, 256);
  }

  lemma FifthGroupAgain(j: nat)
    ensures BitPos(j) == 35 <==> j % 256 == 5
  {
    var q, r := j / 256, j % 256;
    assert 7 * j == 7 * r + 7 * q * 256;
    ModAddMultiple(7 * r, 7 * q, 256);
  }

  /** One iteration of the loop, by number of groups read instead of bit position. */
  lemma Varint32Unfold(s: seq<byte>, j: nat, result: nat)
    requires s != []
    ensures var b := s[0];
      var result' := Accumulate32(result, b % 128, BitPos(j));
      Varint32From(s, BitPos(j), result) ==
        if BitPos(j) >= 32 && b % 128 != 0 &&
           (result / 0x8000_0000 == 0 || b != if BitPos(j) < 63 then 0xFF else 0x01) then Fail
        else if b >= 128 then Varint32From(s[1..], BitPos(j + 1), result')
        else if (j + 1) % 256 == 5 && b >= 16 then Fail
        else Ok(result', s[1..])
  {
    hide Accumulate32, BitPos;
    BitPosNext(j);
    FifthGroupAgain(j + 1);
    assert s[0] < 128 ==> (s[0] / 16 % 8 != 0 <==> s[0] >= 16);
  }

  lemma StoredNext(s: seq<byte>, j: nat)
    requires j < |s|
    ensures StoredGroups(s[..j + 1]) == Accumulate32(StoredGroups(s[..j]), s[j] % 128, BitPos(j))
  {
    assert s[..j + 1][..j] == s[..j];
  }

  lemma AcceptedNext(w: seq<byte>, j: nat)
    requires j < |w|
    ensures AcceptedFrom(w, j) <==> GroupAccepted(w, j) && AcceptedFrom(w, j + 1)
    ensures AcceptedFrom(w, |w|) <==> (|w| % 256 == 5 ==> w[|w| - 1] < 16)
  {
    hide GroupAccepted;
  }

  /** Where the loop stands after `j` groups, and what is left to be checked. */
  lemma {:induction false} Varint32Exact(s: seq<byte>, j: nat)
    requires 1 <= j < VarintLen(s)
    ensures var w := s[..VarintLen(s)];
      Varint32From(s[j..], BitPos(j), StoredGroups(s[..j])) ==
        if AcceptedFrom(w, j) then Ok(StoredGroups(w), s[|w|..]) else Fail
    decreases VarintLen(s) - j
  {
    hide Accumulate32, Varint32From, AcceptedFrom, BitPos, StoredGroups;
    var w := s[..VarintLen(s)];
    TopBits(s, j);
    Varint32Unfold(s[j..], j, StoredGroups(s[..j]));
    StoredNext(s, j);
    AcceptedNext(w, j);
    assert w[j] == s[j] && s[j..][1..] == s[j + 1..] && w[..j] == s[..j];
    if s[j] >= 128 {
      Varint32Exact(s, j + 1);
    } else {
      assert w == s[..j + 1];
    }
  }

  lemma {:induction false} TopBits(s: seq<byte>, j: nat)
    requires j < VarintLen(s)
    ensures s[j] >= 128 <==> j + 1 < VarintLen(s)
    decreases j
  {
    if j > 0 {
      TopBits(s[1..], j - 1);
    }
  }

  lemma FirstStored(s: seq<byte>)
    requires s != []
    ensures StoredGroups(s[..1]) == s[0] % 128 && BitPos(1) == 7
  {
    hide StoredGroups, Accumulate32;
    StoredNext(s, 0);
    NothingStored(s[..0], s[0] % 128);
  }

  lemma NothingStored(w: seq<byte>, g: nat)
    requires w == [] && g < 128
    ensures StoredGroups(w) == 0 && Accumulate32(0, g, BitPos(0)) == g
  {
    assert Pow2(0) == 1;
  }

  /** pb_decode_varint32 on every byte string: it accepts exactly the varints that pass its checks, consumes
      them whole, and returns what it has stored of them. */
  lemma DecodeVarint32Exactly(s: seq<byte>)
    ensures var k := VarintLen(s);
      DecodeVarint32(s) == if k >= 1 && Accepted32(s[..k]) then Ok(StoredGroups(s[..k]), s[k..]) else Fail
  {
    hide Varint32From, StoredGroups, BitPos;
    var k := VarintLen(s);
    if k == 0 {
      if s != [] && s[0] >= 128 { Unterminated(s[1..], 7, s[0] % 128); }
    } else {
      TopBits(s, 0);
      FirstStored(s);
      if k >= 2 { Varint32Exact(s, 1); }
    }
  }

  lemma {:induction false} Unterminated(s: seq<byte>, bitpos: nat, result: nat)
    requires VarintLen(s) == 0
    ensures Varint32From(s, bitpos, result) == Fail
    decreases |s|
  {
    hide Accumulate32;
    if s != [] {
      Unterminated(s[1..], (bitpos + 7) % 256, Accumulate32(result, s[0] % 128, bitpos));
    }
  }

  lemma {:induction false} GroupsAppend(w: seq<byte>, j: nat)
    requires j <= |w|
    ensures Groups(w[..j]) < Pow2(7 * j)
    ensures j < |w| ==> Groups(w[..j + 1]) == Groups(w[..j]) + w[j] % 128 * Pow2(7 * j)
    decreases j
  {
    hide Pow2, Groups;
    if j == 0 {
      assert w[..0] == [];
      EmptyGroups();
      if |w| > 0 { GroupsOfOne(w); }
    } else {
      var p := Pow2(7 * (j - 1));
      GroupsSplit(w, j);
      GroupsAppend(w[1..], j - 1);
      Pow2Step(j - 1);
      if j < |w| {
        GroupsSplit(w, j + 1);
        assert w[1..][j - 1] == w[j];
        MulAssoc(w[j] % 128, 128, p);
      }
    }
  }

  lemma EmptyGroups()
    ensures Groups([]) == 0 && Pow2(0) == 1
  {
  }

  /** From the fifth group on the low 32 bits are decided. */
  lemma {:induction false} LowBitsDecided(w: seq<byte>, j: nat, n: nat)
    requires 5 <= j <= n <= |w|
    ensures Groups(w[..n]) % WORD32 == Groups(w[..j]) % WORD32
    decreases n
  {
    hide Groups, Pow2;
    if j < n {
      LowBitsDecided(w, j, n - 1);
      GroupsAppend(w, n - 1);
      HighGroupIgnored(Groups(w[..n - 1]), w[n - 1] % 128, n - 1);
    }
  }

  /** Up to the 37th group, where the counter has not wrapped yet, the number itself is stored. */
  lemma {:induction false} StoredIsNumber(w: seq<byte>)
    requires |w| <= 37
    ensures StoredGroups(w) == Groups(w) % WORD32
  {
    hide Accumulate32, Pow2, Groups;
    if w == [] {
      EmptyGroups();
    } else {
      var j := |w| - 1;
      StoredIsNumber(w[..j]);
      GroupsAppend(w, j);
      assert w == w[..j + 1];
      SmallMod(7 * j, 256);
      Accumulate32Step(StoredGroups(w[..j]), Groups(w[..j]), w[j] % 128, j);
    }
  }

  /** Storing a group over others only adds bits. */
  lemma {:induction false} BitOrGrows(a: nat, b: nat)
    ensures BitOr(a, b) >= a
    decreases a + b
  {
    if a != 0 && b != 0 {
      BitOrGrows(a / 2, b / 2);
    }
  }

  /** The groups that the wrapped counter stores again add no bit to `v`. */
  predicate NothingAdded(w: seq<byte>, v: nat) {
    forall j :: 37 <= j < |w| ==> Accumulate32(v, w[j] % 128, BitPos(j)) == v
  }

  lemma {:induction false} StoredFromThere(w: seq<byte>)
    requires |w| >= 37
    ensures var v := StoredGroups(w[..37]); StoredGroups(w) >= v && (StoredGroups(w) == v <==> NothingAdded(w, v))
  {
    hide BitPos, BitOr;
    if |w| == 37 {
      assert w[..37] == w;
    } else {
      var j := |w| - 1;
      StoredFromThere(w[..j]);
      assert w[..j][..37] == w[..37];
      BitOrGrows(StoredGroups(w[..j]), w[j] % 128 * Pow2(BitPos(j)) % WORD32);
    }
  }

  /** The number is what is stored exactly when no group beyond the 37th adds a bit to it. */
  lemma StoredExactly(w: seq<byte>)
    ensures var v := Groups(w) % WORD32; StoredGroups(w) == v <==> NothingAdded(w, v)
  {
    hide StoredGroups, Groups, Accumulate32, BitPos;
    if |w| <= 37 {
      StoredIsNumber(w);
    } else {
      StoredFromThere(w);
      StoredIsNumber(w[..37]);
      LowBitsDecided(w, 37, |w|);
      assert w[..|w|] == w;
    }
  }

  /** A success of the 32-bit decoder, on a varint of any length: it has consumed exactly that varint, and has
      returned the number its groups spell modulo 2^32 if and only if the groups that the wrapped counter
      stores again add no bit to that number. */
  lemma DecodeVarint32Meaning(s: seq<byte>)
    requires DecodeVarint32(s).Ok?
    ensures var k := VarintLen(s);
      var v := Groups(s[..k]) % WORD32;
      && k >= 1 && DecodeVarint32(s).rest == s[k..]
      && (DecodeVarint32(s).value == v <==>
            forall j :: 37 <= j < k ==> Accumulate32(v, s[j] % 128, BitPos(j)) == v)
  {
    hide DecodeVarint32, Accepted32, StoredGroups, Groups, Accumulate32, BitPos;
    DecodeVarint32Exactly(s);
    StoredExactly(s[..VarintLen(s)]);
  }

  // ---------- Varints on which the counter does not wrap ----------

  /** Bit 31 of the number, which tells the decoder that it may be a sign-extended negative. */
  predicate Bit31(w: seq<byte>) {
    Groups(w) % WORD32 >= 0x8000_0000
  }

  /** A group above the first five is empty or continues a negative number. */
  predicate HighGroupFits(w: seq<byte>, j: nat)
    requires j < |w|
  {
    w[j] % 128 == 0 || (Bit31(w) && w[j] == if j < 9 then 0xFF else 0x01)
  }

  /** Five groups hold 35 bits, of which the last three must be zero. */
  predicate Fits32(w: seq<byte>) {
    && (|w| == 5 ==> w[4] < 16)
    && forall j :: 5 <= j < |w| ==> HighGroupFits(w, j)
  }

  lemma GroupFits(w: seq<byte>, j: nat)
    requires 1 <= j < |w| <= 37
    ensures GroupAccepted(w, j) <==> (j >= 5 ==> HighGroupFits(w, j))
  {
    hide StoredGroups, Groups;
    SmallMod(7 * j, 256);
    if j >= 5 {
      StoredIsNumber(w[..j]);
      LowBitsDecided(w, j, |w|);
      assert w[..|w|] == w;
    }
  }

  lemma AcceptedFits(w: seq<byte>)
    requires |w| <= 37
    ensures Accepted32(w) <==> Fits32(w)
  {
    hide GroupAccepted, HighGroupFits;
    forall j | 1 <= j < |w|
      ensures GroupAccepted(w, j) <==> (j >= 5 ==> HighGroupFits(w, j))
    {
      GroupFits(w, j);
    }
  }

  /** pb_decode_varint32 accepts exactly the varints that fit, and returns the number their groups spell
      modulo 2^32. */
  lemma DecodeVarint32Short(s: seq<byte>)
    requires VarintLen(s) <= 37
    ensures var k := VarintLen(s);
      DecodeVarint32(s) == if k >= 1 && Fits32(s[..k]) then Ok(Groups(s[..k]) % WORD32, s[k..]) else Fail
  {
    hide DecodeVarint32, Accepted32, Fits32, StoredGroups, Groups;
    var w := s[..VarintLen(s)];
    DecodeVarint32Exactly(s);
    AcceptedFits(w);
    StoredIsNumber(w);
  }

  // ---------- A varint that is read wrongly ----------

  function Continued(n: nat): (s: seq<byte>)
    ensures |s| == n
  {
    seq(n, i => 0x80)
  }

  lemma {:induction false} ContinuedLoop(n: nat, j: nat, tail: seq<byte>)
    ensures Varint32From(Continued(n) + tail, BitPos(j), 0) == Varint32From(tail, BitPos(j + n), 0)
    decreases n
  {
    hide Varint32From, BitPos;
    if n > 0 {
      var s := Continued(n) + tail;
      assert s[0] == 0x80 && s[1..] == Continued(n - 1) + tail;
      Varint32Unfold(s, j, 0);
      ContinuedLoop(n - 1, j + 1, tail);
    } else {
      assert Continued(0) + tail == tail;
    }
  }

  /** The 38th byte is stored over the first group: 37 empty groups and a 1, the number 2^259, are read
      as 8, not as 0. */
  lemma BitCounterWraps()
    ensures var s := Continued(37) + [1];
      VarintLen(s) == 38 && Groups(s) % WORD32 == 0 && DecodeVarint32(s) == Ok(8, [])
  {
    hide Varint32From, Groups, VarintLen, BitPos;
    var s: seq<byte> := Continued(37) + [1];
    ContinuedLength(37);
    ContinuedGroups(s);
    assert s[1..] == Continued(36) + [1];
    ContinuedLoop(36, 1, [1]);
    LastTurn();
  }

  lemma LastTurn()
    ensures BitPos(1) == 7 && Varint32From([1], BitPos(37), 0) == Ok(8, [])
  {
    hide Varint32From;
    Varint32Unfold([1], 37, 0);
    assert BitPos(37) == 3 && Pow2(3) == 8;
  }

  lemma {:induction false} ContinuedLength(n: nat)
    ensures VarintLen(Continued(n) + [1]) == n + 1
  {
    if n > 0 {
      ContinuedLength(n - 1);
      assert (Continued(n) + [1])[1..] == Continued(n - 1) + [1];
    }
  }

  lemma ContinuedGroups(s: seq<byte>)
    requires |s| >= 5 && forall j :: 0 <= j < 5 ==> s[j] == 0x80
    ensures Groups(s) % WORD32 == 0
  {
    assert s[..5] == [0x80, 0x80, 0x80, 0x80, 0x80];
    FiveEmpty();
    LowBitsDecided(s, 5, |s|);
    assert s[..|s|] == s;
  }

  lemma FiveEmpty()
    ensures Groups([0x80, 0x80, 0x80, 0x80, 0x80]) == 0
  {
    assert Groups([0x80, 0x80]) == 0;
    var s: seq<byte> := [0x80, 0x80, 0x80, 0x80, 0x80];
    assert s[1..][1..][1..] == [0x80, 0x80];
  }

  /** Whenever both decoders accept the same bytes they consume the same number of them, and the
      32-bit result is the 64-bit one modulo 2^32. */
  lemma VarintDecodersAgree(s: seq<byte>)
    requires DecodeVarint(s).Ok? && DecodeVarint32(s).Ok?
    ensures DecodeVarint32(s) == Ok(DecodeVarint(s).value % WORD32, DecodeVarint(s).rest)
  {
    DecodeVarintMeaning(s);
    DecodeVarint32Short(s);
    var n := Groups(s[..VarintLen(s)]);
    ModOfMod(n);
  }

  lemma ModOfMod(n: nat)
    ensures n % WORD64 % WORD32 == n % WORD32
  {
    assert n == n / WORD64 * WORD64 + n % WORD64;
    ModAddMultiple(n % WORD64, n / WORD64 * WORD32, WORD32);
  }

  // ---------- Round trips ----------

  /** pb_decode_varint inverts pb_encode_varint on every 64-bit value, whatever follows. */
  lemma VarintRoundTrip(n: nat, rest: seq<byte>)
    requires n < WORD64
    ensures DecodeVarint(EncodeVarint(n) + rest) == Ok(n, rest)
  {
    hide DecodeVarint, EncodeVarint, VarintLen, Groups;
    var e := EncodeVarint(n);
    EncodeVarintGroups(n);
    VarintAtMostTenBytes(n);
    VarintLenAppend(e, rest);
    DecodeVarintMeaning(e + rest);
    assert (e + rest)[..|e|] == e && (e + rest)[|e|..] == rest;
  }

  lemma {:induction false} Varint32Append(s: seq<byte>, bitpos: nat, result: nat, t: seq<byte>)
    ensures var r := Varint32From(s, bitpos, result);
      r.Ok? ==> Varint32From(s + t, bitpos, result) == Ok(r.value, r.rest + t)
    decreases |s|
  {
    if s != [] {
      assert (s + t)[0] == s[0] && (s + t)[1..] == s[1..] + t;
      if s[0] >= 128 {
        Varint32Append(s[1..], (bitpos + 7) % 256, Accumulate32(result, s[0] % 128, bitpos), t);
      }
    }
  }

  lemma DecodeVarint32Append(s: seq<byte>, t: seq<byte>)
    ensures var r := DecodeVarint32(s); r.Ok? ==> DecodeVarint32(s + t) == Ok(r.value, r.rest + t)
  {
    if s != [] {
      assert (s + t)[0] == s[0] && (s + t)[1..] == s[1..] + t;
      Varint32Append(s[1..], 7, s[0] % 128, t);
    }
  }

  lemma {:induction false} Varint64Append(s: seq<byte>, bitpos: nat, result: nat, t: seq<byte>)
    ensures var r := Varint64From(s, bitpos, result);
      r.Ok? ==> Varint64From(s + t, bitpos, result) == Ok(r.value, r.rest + t)
    decreases |s|
  {
    if s != [] {
      assert (s + t)[0] == s[0] && (s + t)[1..] == s[1..] + t;
      Varint64Append(s[1..], bitpos + 7, BitOr(result, (s[0] % 128 * Pow2(bitpos)) % WORD64), t);
    }
  }

  /** Tags, lengths and bools: every canonical 32-bit varint is read back by the 32-bit decoder. */
  lemma Varint32RoundTrip(n: nat, rest: seq<byte>)
    requires n < WORD32
    ensures DecodeVarint32(EncodeVarint(n) + rest) == Ok(n, rest)
  {
    hide DecodeVarint32, EncodeVarint, VarintLen, Groups;
    var e := EncodeVarint(n);
    EncodeVarintGroups(n);
    FifthGroup(n);
    VarintLenAppend(e, rest);
    DecodeVarint32Short(e + rest);
    assert (e + rest)[..|e|] == e && (e + rest)[|e|..] == rest;
  }

  /** Five groups hold 35 bits: of the last one only four are used. */
  lemma FifthGroup(n: nat)
    requires n < WORD32
    ensures var e := EncodeVarint(n); |e| <= 5 && (|e| == 5 ==> e[4] < 16)
  {
    hide EncodeVarint, VarintLen, Groups, Pow2;
    Pow2Values();
    EncodeVarintLength(n, 5);
    var e := EncodeVarint(n);
    EncodeVarintGroups(n);
    if |e| == 5 {
      TopBits(e, 4);
      GroupsAppend(e, 4);
      assert e[..5] == e;
    }
  }

  // ---------- Sign-extended negative values ----------

  /** The five lowest groups of a sign-extended negative int32, and the constant tail above them. */
  lemma NegativeGroups(u: nat)
    requires WORD64 - 0x8000_0000 <= u < WORD64
    ensures var m1 := u / 128; var m2 := m1 / 128; var m3 := m2 / 128; var m4 := m3 / 128;
      m4 / 128 == 0x1FFF_FFFF && m4 >= 128 && m3 >= 128 && m2 >= 128 && m1 >= 128
  {
    var m1 := u / 128;  assert 0x200_0000_0000_0000 - 0x100_0000 <= m1 < 0x200_0000_0000_0000;
    var m2 := m1 / 128; assert 0x4_0000_0000_0000 - 0x2_0000 <= m2 < 0x4_0000_0000_0000;
    var m3 := m2 / 128; assert 0x800_0000_0000 - 0x400 <= m3 < 0x800_0000_0000;
    var m4 := m3 / 128; assert 0x10_0000_0000 - 8 <= m4 < 0x10_0000_0000;
  }

  lemma NegativeBytes(u: nat)
    requires WORD64 - 0x8000_0000 <= u < WORD64
    ensures var m1 := u / 128; var m2 := m1 / 128; var m3 := m2 / 128; var m4 := m3 / 128;
      EncodeVarint(u) == [u % 128 + 128, m1 % 128 + 128, m2 % 128 + 128, m3 % 128 + 128, m4 % 128 + 128,
                          0xFF, 0xFF, 0xFF, 0xFF, 0x01]
  {
    NegativeGroups(u);
    EncodeVarintTail();
    var m1 := u / 128; var m2 := m1 / 128; var m3 := m2 / 128; var m4 := m3 / 128;
    assert EncodeVarint(m3) == [m3 % 128 + 128, m4 % 128 + 128, 0xFF, 0xFF, 0xFF, 0xFF, 0x01];
    assert EncodeVarint(m1) == [m1 % 128 + 128, m2 % 128 + 128] + EncodeVarint(m3);
  }

  /** The ten-byte encoding of a negative int32, sign-extended to 64 bits, is accepted by the 32-bit
      decoder, which returns the two's complement of the value. */
  lemma Varint32AcceptsNegative(n: int)
    requires -0x8000_0000 <= n < 0
    ensures |EncodeVarint(n % WORD64)| == 10
    ensures DecodeVarint32(EncodeVarint(n % WORD64)) == Ok(n % WORD32, [])
  {
    hide DecodeVarint32, EncodeVarint, VarintLen, Groups;
    var u := n + WORD64;
    assert u == n % WORD64 && u % WORD32 == n % WORD32;
    var e := EncodeVarint(u);
    NegativeBytes(u);
    EncodeVarintGroups(u);
    DecodeVarint32Short(e);
    assert e[..|e|] == e && e[|e|..] == [];
  }

  lemma EncodeVarintTail()
    ensures EncodeVarint(0x1FFF_FFFF) == [0xFF, 0xFF, 0xFF, 0xFF, 0x01]
  {
    assert EncodeVarint(1) == [1];
    assert EncodeVarint(0xFF) == [0xFF, 1];
  }

  // ---------- Consumption ----------

  lemma DecodeVarint32Consumes(s: seq<byte>)
    ensures var r := DecodeVarint32(s); r.Ok? ==> |r.rest| < |s|
  {
    hide DecodeVarint32, Accepted32, StoredGroups;
    DecodeVarint32Exactly(s);
  }

  lemma DecodeVarintConsumes(s: seq<byte>)
    ensures var r := DecodeVarint(s); r.Ok? ==> |r.rest| < |s| && r.value < WORD64
  {
    DecodeVarintMeaning(s);
  }

  lemma DecodeVarintAppend(s: seq<byte>, t: seq<byte>)
    ensures var r := DecodeVarint(s); r.Ok? ==> DecodeVarint(s + t) == Ok(r.value, r.rest + t)
  {
    Varint64Append(s, 0, 0, t);
  }
}
