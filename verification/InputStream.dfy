/** pb_istream_t over a memory buffer, and the wire readers of pb_decode.c on it. Every reader stays
    inside the window it is given, consumes what its specification says on success, and never moves the
    window's end. */
module InputStream {
  import opened Words
  import opened Parsing
  import opened Varints
  import opened Wire

  class IStream {
    const buf: array<byte>
    var state: nat
    var bytesLeft: nat

    ghost predicate Valid()
      reads this
    {
      state + bytesLeft <= buf.Length
    }

    /** The bytes that may still be read. */
    ghost function Window(): seq<byte>
      requires Valid()
      reads this, buf
    {
      buf[state..state + bytesLeft]
    }

    /** One past the last byte of the window. */
    ghost function End(): nat
      reads this
    {
      state + bytesLeft
    }

    /** pb_istream_from_buffer; `position` is the start of a substream. */
    constructor (source: array<byte>, position: nat, count: nat)
      requires position + count <= source.Length
      ensures buf == source && state == position && bytesLeft == count
    {
      buf, state, bytesLeft := source, position, count;
    }

    /** pb_readbyte. */
    method ReadByte() returns (ok: bool, b: byte)
      requires Valid()
      modifies this
      ensures Valid() && state >= old(state) && End() == old(End())
      ensures ok == (old(Window()) != [])
      ensures ok ==> b == old(Window())[0] && Window() == old(Window())[1..]
      ensures !ok ==> state == old(state)
    {
      if bytesLeft == 0 {
        return false, 0;
      }
      b := buf[state];
      state := state + 1;
      bytesLeft := bytesLeft - 1;
      ok := true;
    }

    /** pb_read into a caller's buffer. */
    method ReadBytes(count: nat) returns (ok: bool, data: seq<byte>)
      requires Valid()
      modifies this
      ensures Valid() && state >= old(state) && End() == old(End())
      ensures var r := Read(old(Window()), count);
        ok == r.Ok? && (ok ==> data == r.value && Window() == r.rest)
    {
      if count == 0 {
        assert Window()[..0] == [] && Window()[0..] == Window();
        return true, [];
      }
      if bytesLeft < count {
        return false, [];
      }
      ghost var w := Window();
      data := [];
      var i := 0;
      while i < count
        invariant 0 <= i <= count && data == buf[state..state + i]
        modifies {}
      {
        data := data + [buf[state + i]];
        i := i + 1;
      }
      state := state + count;
      bytesLeft := bytesLeft - count;
      assert data == w[..count] && Window() == w[count..];
      ok := true;
    }

    /** pb_read with a NULL destination. */
    method SkipBytes(count: nat) returns (ok: bool)
      requires Valid()
      modifies this
      ensures Valid() && state >= old(state) && End() == old(End())
      ensures var r := Skip(old(Window()), count); ok == r.Ok? && (ok ==> Window() == r.rest)
    {
      if count == 0 {
        assert Window()[0..] == Window();
        return true;
      }
      if bytesLeft < count {
        return false;
      }
      ghost var w := Window();
      state := state + count;
      bytesLeft := bytesLeft - count;
      assert Window() == w[count..];
      ok := true;
    }

    /** pb_decode_varint32_eof; `eof` is set when the window was empty to begin with. */
    method ReadVarint32() returns (ok: bool, value: nat, eof: bool)
      requires Valid()
      modifies this
      ensures Valid() && state >= old(state) && End() == old(End())
      ensures var r := DecodeVarint32(old(Window()));
        ok == r.Ok? && (ok ==> value == r.value && Window() == r.rest)
      ensures eof == (old(Window()) == [])
    {
      hide Accumulate32;
      ghost var spec := DecodeVarint32(Window());
      var b;
      ok, b := ReadByte();
      if !ok {
        return false, 0, true;
      }
      eof := false;
      if b < 128 {
        value := b;
        return;
      }
      var bitpos: nat := 7;
      var result: nat := b % 128;
      while true
        invariant Valid() && state >= old(state) && End() == old(End())
        invariant Varint32From(Window(), bitpos, result) == spec
        decreases bytesLeft
      {
        ok, b := ReadByte();
        if !ok {
          return false, 0, false;
        }
        if bitpos >= 32 {
          var signExtension := if bitpos < 63 then 0xFF else 0x01;
          if b % 128 != 0 && (result / 0x8000_0000 == 0 || b != signExtension) {
            return false, 0, false;
          }
        }
        result := Accumulate32(result, b % 128, bitpos);
        bitpos := (bitpos + 7) % 256;
        if b < 128 {
          break;
        }
      }
      if bitpos == 35 && b / 16 % 8 != 0 {
        return false, 0, false;
      }
      value := result;
      ok := true;
    }

    /** pb_decode_varint. */
    method ReadVarint() returns (ok: bool, value: nat)
      requires Valid()
      modifies this
      ensures Valid() && state >= old(state) && End() == old(End())
      ensures var r := DecodeVarint(old(Window()));
        ok == r.Ok? && (ok ==> value == r.value && Window() == r.rest)
    {
      hide BitOr, Pow2;
      ghost var spec := DecodeVarint(Window());
      var bitpos: nat, result: nat := 0, 0;
      while true
        invariant Valid() && state >= old(state) && End() == old(End())
        invariant Varint64From(Window(), bitpos, result) == spec
        decreases bytesLeft
      {
        if bitpos >= 64 {
          return false, 0;
        }
        var b;
        ok, b := ReadByte();
        if !ok {
          return false, 0;
        }
        result := BitOr(result, (b % 128 * Pow2(bitpos)) % WORD64);
        bitpos := bitpos + 7;
        if b < 128 {
          return true, result;
        }
      }
    }

    /** pb_skip_varint. */
    method SkipVarintBytes() returns (ok: bool)
      requires Valid()
      modifies this
      ensures Valid() && state >= old(state) && End() == old(End())
      ensures var r := SkipVarint(old(Window())); ok == r.Ok? && (ok ==> Window() == r.rest)
    {
      ghost var spec := SkipVarint(Window());
      while true
        invariant Valid() && state >= old(state) && End() == old(End())
        invariant SkipVarint(Window()) == spec
        decreases bytesLeft
      {
        var b;
        ok, b := ReadByte();
        if !ok || b < 128 {
          return;
        }
      }
    }

    /** pb_skip_field. */
    method SkipOneField(wireType: nat) returns (ok: bool)
      requires Valid()
      modifies this
      ensures Valid() && state >= old(state) && End() == old(End())
      ensures var r := SkipField(old(Window()), wireType); ok == r.Ok? && (ok ==> Window() == r.rest)
    {
      hide DecodeVarint32, SkipVarint;
      if wireType == WT_VARINT {
        ok := SkipVarintBytes();
      } else if wireType == WT_64BIT {
        ok := SkipBytes(8);
      } else if wireType == WT_STRING {
        var length, eof;
        ok, length, eof := ReadVarint32();
        if ok {
          ok := SkipBytes(length);
        }
      } else if wireType == WT_32BIT {
        ok := SkipBytes(4);
      } else {
        ok := false;
      }
    }

    /** pb_decode_tag. */
    method ReadTag() returns (ok: bool, wireType: nat, tag: nat, eof: bool)
      requires Valid()
      modifies this
      ensures Valid() && state >= old(state) && End() == old(End())
      ensures match DecodeTag(old(Window()))
        case BadTag => !ok && !eof
        case EndOfMessage(rest) => !ok && eof && Window() == rest
        case Tag(wt, t, rest) => ok && wireType == wt && tag == t && Window() == rest
    {
      hide Varint32From;
      eof, wireType, tag := false, 0, 0;
      var word;
      ghost var w := Window();
      ok, word, eof := ReadVarint32();
      if !ok {
        assert w == [] ==> Window() == [];
        return;
      }
      if word == 0 {
        return false, 0, 0, true;
      }
      tag := word / 8;
      wireType := word % 8;
    }

    /** pb_make_string_substream: the payload's bytes are taken from this window at once. */
    method MakeSubstream() returns (ok: bool, substream: IStream)
      requires Valid()
      modifies this
      ensures Valid() && state >= old(state) && fresh(substream)
      ensures !ok ==> End() <= old(End())
      ensures ok == ReadDelimited(old(Window())).Ok?
      ensures ok ==>
        var r := ReadDelimited(old(Window()));
        && substream.Valid() && substream.buf == buf && substream.Window() == r.value
        && substream.state == state && End() + substream.bytesLeft == old(End())
        && buf[substream.End()..old(End())] == r.rest
        && substream.bytesLeft < old(bytesLeft)
    {
      hide DecodeVarint32;
      ghost var w := Window();
      DecodeVarint32Consumes(w);
      var size, eof;
      ok, size, eof := ReadVarint32();
      if !ok {
        substream := new IStream(buf, state, 0);
        return;
      }
      ghost var w1 := Window();
      if bytesLeft < size {
        substream := new IStream(buf, state, 0);
        return false, substream;
      }
      substream := new IStream(buf, state, size);
      bytesLeft := bytesLeft - size;
      assert substream.Window() == w1[..size];
      assert buf[substream.End()..old(End())] == w1[size..];
    }

    /** pb_close_string_substream: however much of it was read, the parent continues after the payload. */
    method CloseSubstream(substream: IStream) returns (ok: bool)
      requires Valid() && substream != this && substream.Valid() && substream.buf == buf
      requires state <= substream.state && substream.End() + bytesLeft <= buf.Length
      modifies this, substream
      ensures ok && Valid()
      ensures state == old(substream.End()) && bytesLeft == old(bytesLeft)
    {
      if substream.bytesLeft != 0 {
        ok := substream.SkipBytes(substream.bytesLeft);
        if !ok {
          return false;
        }
      }
      state := substream.state;
      ok := true;
    }
  }
}
