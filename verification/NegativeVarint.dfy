/** pb_encode_negative_varint: a negative 32-bit value written as its 64-bit sign extension, using 32-bit
    arithmetic only. */
module NegativeVarint {
  import opened Words
  import opened Parsing
  import opened Varints
  import opened OutputStream
  import Encoder

  /** The 64-bit number still to be written: `v` with `c` more one bits above bit 31. */
  function Extended(v: nat, c: nat): nat {
    v + WORD32 * (Pow2(c) - 1)
  }

  /** Values of the compensation counter: 32, 25, 18, 11, 4 and then 0. */
  predicate Counter(c: nat) {
    c == 32 || c == 25 || c == 18 || c == 11 || c == 4 || c == 0
  }

  function Bits(c: nat): nat {
    if c > 7 then 7 else c
  }

  /** 0xFF >> (8 - bits). */
  function Mask(bits: nat): nat
    requires bits <= 7
  {
    0xFF / Pow2(8 - bits)
  }

  /** The shifted word with its vacated top bits set again. */
  function Compensated(v: nat, c: nat): nat {
    BitXor(v / 128, Mask(Bits(c)) * 0x200_0000)
  }

  lemma CompensatedIsSum(v: nat, c: nat)
    requires v < WORD32 && Counter(c) && c > 0
    ensures Compensated(v, c) == v / 128 + (Pow2(Bits(c)) - 1) * 0x200_0000
  {
    hide BitXor;
    assert Mask(Bits(c)) == Pow2(Bits(c)) - 1 by {
      assert Pow2(4) == 16 && Pow2(1) == 2 && Pow2(7) == 128;
    }
    assert Pow2(25) == 0x200_0000 by { Pow2Add(4, 21); Pow2Values(); assert Pow2(4) == 16; }
    BitXorIsAdd(v / 128, Pow2(Bits(c)) - 1, 25);
  }

  /** One turn of the loop divides the 64-bit number by 128 while its word never leaves 32 bits. */
  lemma Turn(v: nat, c: nat)
    requires v < WORD32 && Counter(c) && c > 0
    ensures Extended(v, c) % 128 == v % 128 && Extended(v, c) >= WORD32
    ensures var v' := Compensated(v, c);
      0 < v' < WORD32 && Counter(c - Bits(c)) && Extended(v, c) / 128 == Extended(v', c - Bits(c))
  {
    hide Compensated, Pow2;
    CompensatedIsSum(v, c);
    assert Pow2(c) >= 16 by { Pow2Monotone(4, c); SmallPowers(); }
    SmallPowers();
    if c > 7 {
      Pow2Add(7, c - 7);
      Carry(v, Pow2(c) - 1, 128, Pow2(c - 7));
    } else {
      Carry(v, Pow2(c) - 1, 16, 1);
    }
  }

  lemma SmallPowers()
    ensures Pow2(0) == 1 && Pow2(4) == 16 && Pow2(7) == 128
  {
  }

  lemma Carry(v: nat, m: nat, p: nat, q: nat)
    requires v < WORD32 && m + 1 == p * q && 1 <= p <= 128 && q >= 1
    ensures (v + WORD32 * m) % 128 == v % 128
    ensures (v + WORD32 * m) / 128 == v / 128 + (p - 1) * 0x200_0000 + 0x200_0000 * (p * q - p)
    ensures v / 128 + (p - 1) * 0x200_0000 < WORD32
  {
    assert v + WORD32 * m == 128 * (v / 128 + 0x200_0000 * m) + v % 128;
  }

  lemma SignExtension(value: nat)
    requires 0x8000_0000 <= value < WORD32
    ensures Extended(value, 32) == (value - WORD32) % WORD64
  {
    Pow2Values();
  }

  lemma TopBitSet(done: seq<byte>, v: nat)
    requires v < 128
    ensures (done + [v])[|done| := v + 128] == done + [v + 128] && (done + [v])[|done|] == v
  {
  }

  method FillNegative(buffer: array<byte>, value: nat) returns (i: nat)
    requires buffer.Length == 10 && 0x8000_0000 <= value < WORD32
    modifies buffer
    ensures i <= 10 && buffer[..i] == EncodeVarint((value - WORD32) % WORD64)
  {
    hide EncodeVarint, Extended, Compensated, Pow2;
    i := 0;
    var v: nat, compensation: nat := value, 32;
    ghost var all := Extended(v, 32);
    SignExtension(value);
    VarintAtMostTenBytes(all);
    ghost var done: seq<byte> := [];
    assert done + EncodeVarint(all) == EncodeVarint(all);
    while v != 0
      invariant i == |done| <= 10 && v < WORD32 && Counter(compensation)
      invariant compensation > 0 ==> v != 0
      invariant v != 0 ==> buffer[..i] == done && done + EncodeVarint(Extended(v, compensation)) == EncodeVarint(all)
      invariant v == 0 ==> i > 0 && done == EncodeVarint(all) && done[i - 1] < 128
                           && buffer[..i] == done[i - 1 := done[i - 1] + 128]
      decreases compensation, v
    {
      ghost var u := Extended(v, compensation);
      Head(v, compensation);
      Encoder.OneByte(done, u, all);
      var b: byte := v % 128 + 128;
      buffer[i] := b;
      assert buffer[..i + 1] == buffer[..i] + [b];
      ghost var next: byte := if u < 128 then v else b;
      if u < 128 { TopBitSet(done, v); }
      done := done + [next];
      if compensation > 0 {
        v, compensation := Compensated(v, compensation), compensation - Bits(compensation);
      } else {
        v := v / 128;
      }
      i := i + 1;
    }
    buffer[i - 1] := buffer[i - 1] % 128;
    assert buffer[..i] == done;
  }

  lemma Head(v: nat, c: nat)
    requires v < WORD32 && Counter(c) && v > 0
    ensures Extended(v, c) > 0 && Extended(v, c) % 128 == v % 128
    ensures Extended(v, c) < 128 ==> c == 0 && v == Extended(v, c)
    ensures c == 0 ==> Extended(v, c) / 128 == Extended(v / 128, 0) == v / 128 && Extended(v, c) == v
    ensures c > 0 ==>
      var v' := Compensated(v, c);
      0 < v' < WORD32 && Counter(c - Bits(c)) && Extended(v, c) / 128 == Extended(v', c - Bits(c))
  {
    hide Compensated;
    if c > 0 { Turn(v, c); }
  }

  /** The compensation loop emits the ten bytes pb_encode_varint would emit for the sign extension. */
  method WriteNegativeVarint(stream: OStream, value: nat) returns (ok: bool)
    requires stream.Valid() && 0x8000_0000 <= value < WORD32
    modifies stream, stream.buf
    ensures stream.Valid()
    ensures |EncodeVarint((value - WORD32) % WORD64)| == 10
    ensures Wrote(stream.sizing, old(stream.Observed()), stream.Observed(), ok,
                  Some(EncodeVarint((value - WORD32) % WORD64)))
  {
    hide EncodeVarint;
    Varint32AcceptsNegative(value - WORD32);
    var buffer := new byte[10];
    var i := FillNegative(buffer, value);
    ok := stream.Write(buffer[..i], i);
  }
}
