/** The Protocol Buffers encoding as any reader of it sees it, without a field table: numbered records, each
    with a payload in one of four forms. The wire types and byte orders are written out, and nothing here uses
    the codec's own functions but the 7-bit groups of a varint. */
module WireFormat {
  import opened Words
  import opened Parsing
  import opened Varints

  datatype Payload = Number(n: nat) | Bits64(n: nat) | Bytes(data: seq<byte>) | Bits32(n: nat)

  datatype Item = Item(number: nat, payload: Payload)

  function Word32(s: seq<byte>): nat
    requires |s| >= 4
  {
    (s[0] as int) + 0x100 * (s[1] as int) + 0x1_0000 * (s[2] as int) + 0x100_0000 * (s[3] as int)
  }

  function Word64(s: seq<byte>): nat
    requires |s| >= 8
  {
    Word32(s) + 0x1_0000_0000 * Word32(s[4..])
  }

  /** The number that the varint at the front spells. */
  function Spelled(s: seq<byte>): nat {
    Groups(s[..VarintLen(s)])
  }

  function AfterVarint(s: seq<byte>): seq<byte> {
    s[VarintLen(s)..]
  }

  function ReadPayload(wireType: nat, s: seq<byte>): (r: Parse<Payload>)
    ensures r.Ok? ==> |r.rest| < |s|
  {
    match wireType
    case 0 => if VarintLen(s) > 0 then Ok(Number(Spelled(s)), AfterVarint(s)) else Fail
    case 1 => if |s| >= 8 then Ok(Bits64(Word64(s)), s[8..]) else Fail
    case 2 =>
      var n, t := Spelled(s), AfterVarint(s);
      if VarintLen(s) > 0 && n <= |t| then Ok(Bytes(t[..n]), t[n..]) else Fail
    case 5 => if |s| >= 4 then Ok(Bits32(Word32(s)), s[4..]) else Fail
    case _ => Fail
  }

  /** A record: its field number and wire type in one varint, and the payload. */
  function ReadItem(s: seq<byte>): (r: Parse<Item>)
    ensures r.Ok? ==> |r.rest| < |s|
  {
    if VarintLen(s) == 0 then Fail
    else
      var (p, rest) :- ReadPayload(Spelled(s) % 8, AfterVarint(s));
      Ok(Item(Spelled(s) / 8, p), rest)
  }

  function ReadItems(s: seq<byte>): Option<seq<Item>>
    decreases |s|
  {
    if s == [] then Some([])
    else match ReadItem(s)
      case Fail => None
      case Ok(item, rest) =>
        match ReadItems(rest)
        case None => None
        case Some(items) => Some([item] + items)
  }

  // ---------- Records one after the other ----------

  lemma SpelledAppend(s: seq<byte>, t: seq<byte>)
    requires VarintLen(s) > 0
    ensures VarintLen(s + t) == VarintLen(s) && Spelled(s + t) == Spelled(s) && AfterVarint(s + t) == AfterVarint(s) + t
  {
    VarintLenAppend(s, t);
    assert (s + t)[..VarintLen(s)] == s[..VarintLen(s)];
  }

  lemma ReadPayloadAppend(wireType: nat, s: seq<byte>, t: seq<byte>)
    ensures var r := ReadPayload(wireType, s); r.Ok? ==> ReadPayload(wireType, s + t) == Ok(r.value, r.rest + t)
  {
    hide VarintLen, Spelled, AfterVarint;
    if (wireType == 0 || wireType == 2) && VarintLen(s) > 0 {
      SpelledAppend(s, t);
      var n, r := Spelled(s), AfterVarint(s);
      if n <= |r| { assert (r + t)[..n] == r[..n] && (r + t)[n..] == r[n..] + t; }
    }
    if wireType == 1 && |s| >= 8 {
      assert (s + t)[4..] == s[4..] + t && (s + t)[8..] == s[8..] + t;
    }
    if wireType == 5 && |s| >= 4 {
      assert (s + t)[4..] == s[4..] + t;
    }
  }

  lemma ReadItemAppend(s: seq<byte>, t: seq<byte>)
    ensures var r := ReadItem(s); r.Ok? ==> ReadItem(s + t) == Ok(r.value, r.rest + t)
  {
    hide VarintLen, Spelled, AfterVarint, ReadPayload;
    if VarintLen(s) > 0 {
      SpelledAppend(s, t);
      ReadPayloadAppend(Spelled(s) % 8, AfterVarint(s), t);
    }
  }

  lemma {:induction false} ReadItemsAppend(a: seq<byte>, b: seq<byte>)
    requires ReadItems(a).Some? && ReadItems(b).Some?
    ensures ReadItems(a + b) == Some(ReadItems(a).value + ReadItems(b).value)
    decreases |a|
  {
    hide ReadItem;
    if a == [] {
      assert a + b == b && [] + ReadItems(b).value == ReadItems(b).value;
    } else {
      var r := ReadItem(a);
      var items, others := ReadItems(r.rest).value, ReadItems(b).value;
      ReadItemAppend(a, b);
      ReadItemsAppend(r.rest, b);
      assert a + b != [] && ReadItems(a + b) == Some([r.value] + (items + others));
      assert [r.value] + (items + others) == [r.value] + items + others;
    }
  }
}
