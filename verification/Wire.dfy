/** The other wire primitives: zig-zag and fixed words, delimited records, field tags, skipping. */
module Wire {
  import opened Words
  import opened Parsing
  import opened Varints

  // ---------- Signed integers and fixed words ----------

  /** pb_encode_svarint's zig-zag of a 64-bit value. */
  function Zigzag(value: int): nat
    requires -0x8000_0000_0000_0000 <= value < 0x8000_0000_0000_0000
  {
    if value < 0 then WORD64 - 1 - (value % WORD64 * 2) % WORD64 else value * 2 % WORD64
  }

  function UnZigzag(n: nat): int
  {
    if n % 2 == 1 then SignedWrap(WORD64 - 1 - n / 2, WORD64) else SignedWrap(n / 2, WORD64)
  }

  /** The unsigned zig-zag code is a bijection that keeps small magnitudes small. */
  lemma ZigzagRoundTrip(value: int)
    requires -0x8000_0000_0000_0000 <= value < 0x8000_0000_0000_0000
    ensures Zigzag(value) < WORD64 && UnZigzag(Zigzag(value)) == value
    ensures Zigzag(value) == if value < 0 then -2 * value - 1 else 2 * value
  {
    if value < 0 {
      assert value % WORD64 == value + WORD64;
      assert ((value + WORD64) * 2) % WORD64 == 2 * value + WORD64;
    }
  }

  /** The `k` bytes of a fixed-width value, lowest first. */
  function EncodeFixed(n: nat, k: nat): (r: seq<byte>)
    ensures |r| == k
  {
    if k == 0 then [] else [n % 256] + EncodeFixed(n / 256, k - 1)
  }

  function FixedValue(b: seq<byte>): nat {
    if b == [] then 0 else b[0] + 256 * FixedValue(b[1..])
  }

  lemma OneMoreByte(k: nat)
    ensures Pow2(8 * (k + 1)) == 256 * Pow2(8 * k)
  {
    Pow2Add(8, 8 * k);
    assert Pow2(8) == 256;
  }

  lemma {:induction false} FixedRoundTrip(n: nat, k: nat)
    requires n < Pow2(8 * k)
    ensures FixedValue(EncodeFixed(n, k)) == n
  {
    if k > 0 {
      hide Pow2;
      OneMoreByte(k - 1);
      FixedRoundTrip(n / 256, k - 1);
      assert EncodeFixed(n, k)[1..] == EncodeFixed(n / 256, k - 1);
    }
  }

  // ---------- Reading, tags and skipping ----------

  const WT_VARINT := 0
  const WT_64BIT := 1
  const WT_STRING := 2
  const WT_32BIT := 5

  /** pb_read. */
  function Read(s: seq<byte>, n: nat): Parse<seq<byte>> {
    if |s| < n then Fail else Ok(s[..n], s[n..])
  }

  /** pb_make_string_substream: the payload of a length-delimited record. */
  function ReadDelimited(s: seq<byte>): Parse<seq<byte>> {
    var (n, s) :- DecodeVarint32(s);
    Read(s, n)
  }

  function Delimited(payload: seq<byte>): (r: seq<byte>)
    ensures |r| > |payload|
  {
    EncodeVarint(|payload|) + payload
  }

  datatype TagParse = BadTag | EndOfMessage(rest: seq<byte>) | Tag(wireType: nat, tag: nat, rest: seq<byte>)

  /** pb_decode_tag: a zero tag word ends the message. */
  function DecodeTag(s: seq<byte>): TagParse {
    if s == [] then EndOfMessage([])
    else match DecodeVarint32(s)
      case Fail => BadTag
      case Ok(word, rest) => if word == 0 then EndOfMessage(rest) else Tag(word % 8, word / 8, rest)
  }

  function EncodeTag(wireType: nat, tag: nat): seq<byte> {
    EncodeVarint(tag * 8 + wireType)
  }

  function SkipVarint(s: seq<byte>): Parse<()> {
    if s == [] then Fail
    else if s[0] < 128 then Ok((), s[1..])
    else SkipVarint(s[1..])
  }

  function Skip(s: seq<byte>, n: nat): Parse<()> {
    if |s| < n then Fail else Ok((), s[n..])
  }

  /** pb_skip_field. */
  function SkipField(s: seq<byte>, wireType: nat): Parse<()> {
    if wireType == WT_VARINT then SkipVarint(s)
    else if wireType == WT_64BIT then Skip(s, 8)
    else if wireType == WT_STRING then var (n, s) :- DecodeVarint32(s); Skip(s, n)
    else if wireType == WT_32BIT then Skip(s, 4)
    else Fail
  }

  // Every reader consumes from the front ...

  lemma {:induction false} SkipVarintConsumes(s: seq<byte>)
    ensures var r := SkipVarint(s); r.Ok? ==> |r.rest| < |s|
  {
    if s != [] && s[0] >= 128 {
      SkipVarintConsumes(s[1..]);
    }
  }

  lemma {:induction false} SkipVarintExactly(s: seq<byte>)
    ensures SkipVarint(s) == if VarintLen(s) >= 1 then Ok((), s[VarintLen(s)..]) else Fail
  {
    if s != [] && s[0] >= 128 {
      SkipVarintExactly(s[1..]);
      if VarintLen(s[1..]) >= 1 { assert s[1..][VarintLen(s[1..])..] == s[VarintLen(s)..]; }
    }
  }

  lemma SkipFieldConsumes(s: seq<byte>, wireType: nat)
    ensures var r := SkipField(s, wireType); r.Ok? ==> |r.rest| <= |s|
  {
    SkipVarintConsumes(s);
    DecodeVarint32Consumes(s);
  }

  // ... and succeeds in the same way whatever bytes come after those it reads.

  lemma ReadAppend(s: seq<byte>, n: nat, t: seq<byte>)
    requires n <= |s|
    ensures (s + t)[..n] == s[..n] && (s + t)[n..] == s[n..] + t
  {
  }

  lemma ReadDelimitedAppend(s: seq<byte>, t: seq<byte>)
    ensures var r := ReadDelimited(s); r.Ok? ==> ReadDelimited(s + t) == Ok(r.value, r.rest + t)
  {
    hide DecodeVarint32;
    DecodeVarint32Append(s, t);
    if DecodeVarint32(s).Ok? && DecodeVarint32(s).value <= |DecodeVarint32(s).rest| {
      ReadAppend(DecodeVarint32(s).rest, DecodeVarint32(s).value, t);
    }
  }

  lemma DecodeTagAppend(s: seq<byte>, t: seq<byte>)
    requires DecodeTag(s).Tag?
    ensures var r := DecodeTag(s); DecodeTag(s + t) == r.(rest := r.rest + t)
  {
    DecodeVarint32Append(s, t);
  }

  lemma {:induction false} SkipVarintAppend(s: seq<byte>, t: seq<byte>)
    ensures var r := SkipVarint(s); r.Ok? ==> SkipVarint(s + t) == Ok((), r.rest + t)
  {
    if s != [] {
      assert (s + t)[0] == s[0] && (s + t)[1..] == s[1..] + t;
      if s[0] >= 128 {
        SkipVarintAppend(s[1..], t);
      }
    }
  }

  lemma SkipFieldAppend(s: seq<byte>, wireType: nat, t: seq<byte>)
    ensures var r := SkipField(s, wireType); r.Ok? ==> SkipField(s + t, wireType) == Ok((), r.rest + t)
  {
    hide DecodeVarint32;
    SkipVarintAppend(s, t);
    DecodeVarint32Append(s, t);
    if DecodeVarint32(s).Ok? && DecodeVarint32(s).value <= |DecodeVarint32(s).rest| {
      ReadAppend(DecodeVarint32(s).rest, DecodeVarint32(s).value, t);
    }
  }

  /** Field numbers below 2^29 survive the tag word; a zero field number with wire type 0 would end the message. */
  lemma TagRoundTrip(wireType: nat, tag: nat, rest: seq<byte>)
    requires wireType < 8 && tag < 0x2000_0000 && (tag > 0 || wireType > 0)
    ensures DecodeTag(EncodeTag(wireType, tag) + rest) == Tag(wireType, tag, rest)
  {
    hide DecodeVarint32, EncodeVarint;
    Varint32RoundTrip(tag * 8 + wireType, rest);
  }

  lemma DelimitedRoundTrip(payload: seq<byte>, rest: seq<byte>)
    requires |payload| < WORD32
    ensures ReadDelimited(Delimited(payload) + rest) == Ok(payload, rest)
  {
    hide DecodeVarint32;
    Varint32RoundTrip(|payload|, payload + rest);
    assert Delimited(payload) + rest == EncodeVarint(|payload|) + (payload + rest);
    assert (payload + rest)[..|payload|] == payload && (payload + rest)[|payload|..] == rest;
  }
}
