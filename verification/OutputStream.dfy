/** pb_ostream_t: a sizing stream that only counts, or a stream over a caller's buffer. */
module OutputStream {
  import opened Words
  import opened Parsing
  import opened EncoderSpec

  /** What can be observed of a stream: the count and limit, the bytes in the buffer up to the write
      position, and those past the stream's limit. */
  datatype OState = OState(written: nat, maxSize: nat, content: seq<byte>, beyond: seq<byte>)

  /** What every emission keeps: bytes already written, bytes past the limit, the limit itself. */
  ghost predicate Framed(sizing: bool, s: OState, t: OState) {
    && t.maxSize == s.maxSize
    && (!sizing ==>
         && t.beyond == s.beyond && s.content <= t.content
         && |t.content| - |s.content| == t.written - s.written)
  }

  /** The effect of emitting `e` on a stream: exact on success, which is decided by the limit alone. A
      total of 2^64 bytes or more would wrap the count, so there the outcome is left open. */
  ghost predicate Wrote(sizing: bool, s: OState, t: OState, ok: bool, e: Option<seq<byte>>) {
    && Framed(sizing, s, t)
    && (ok ==> e.Some?)
    && (e.Some? && s.written + |e.value| < WORD64 ==>
         && (ok <==> sizing || s.written + |e.value| <= s.maxSize)
         && (ok ==> t.written == s.written + |e.value| && (!sizing ==> t.content == s.content + e.value)))
  }

  lemma FramedThen(sizing: bool, s: OState, t: OState, u: OState)
    requires Framed(sizing, s, t) && Framed(sizing, t, u)
    ensures Framed(sizing, s, u)
  {
  }

  /** Emitting one thing after another is emitting their concatenation. */
  lemma WroteThen(sizing: bool, s: OState, t: OState, u: OState, ok: bool,
                  e1: Option<seq<byte>>, e2: Option<seq<byte>>)
    requires Wrote(sizing, s, t, true, e1) && Wrote(sizing, t, u, ok, e2)
    ensures Wrote(sizing, s, u, ok, Cat(e1, e2))
  {
    if e2.Some? {
      assert s.content + (e1.value + e2.value) == s.content + e1.value + e2.value;
    }
  }

  lemma WroteNothing(sizing: bool, s: OState)
    requires !sizing ==> s.written <= s.maxSize
    ensures Wrote(sizing, s, s, true, Some([]))
  {
    assert s.content + [] == s.content;
  }

  /** A failure part of the way is a failure of the whole. */
  lemma WroteFailed(sizing: bool, s: OState, t: OState, e1: Option<seq<byte>>, e2: Option<seq<byte>>)
    requires Wrote(sizing, s, t, false, e1)
    ensures Wrote(sizing, s, t, false, Cat(e1, e2))
  {
  }

  lemma WroteNone(sizing: bool, s: OState)
    ensures Wrote(sizing, s, s, false, None)
  {
  }

  lemma Refused(s: OState, data: seq<byte>)
    requires s.written + |data| > s.maxSize
    ensures Wrote(false, s, s, false, Some(data))
  {
  }

  lemma Accepted(sizing: bool, s: OState, t: OState, data: seq<byte>, count: nat)
    requires t.maxSize == s.maxSize && t.written == (s.written + count) % WORD64
    requires !sizing ==>
      && count == |data| && s.written + count == t.written <= s.maxSize
      && t.content == s.content + data && t.beyond == s.beyond
    ensures count == |data| ==> Wrote(sizing, s, t, true, Some(data))
  {
    if s.written + count < WORD64 { SmallMod(s.written + count, WORD64); }
  }

  class OStream {
    /** `callback == NULL`: nothing is stored. */
    const sizing: bool
    const buf: array<byte>
    var state: nat
    var maxSize: nat
    var bytesWritten: nat

    ghost predicate Valid()
      reads this
    {
      && bytesWritten < WORD64 && maxSize < WORD64
      && (!sizing ==> bytesWritten <= maxSize && state + (maxSize - bytesWritten) <= buf.Length)
    }

    ghost function Observed(): OState
      requires Valid()
      reads this, buf
    {
      if sizing then OState(bytesWritten, maxSize, [], [])
      else OState(bytesWritten, maxSize, buf[..state], buf[state + (maxSize - bytesWritten)..])
    }

    /** PB_OSTREAM_SIZING. */
    constructor Sizing()
      ensures sizing && Valid() && Observed() == OState(0, 0, [], [])
      ensures fresh(buf)
    {
      sizing := true;
      buf := new byte[0];
      state, maxSize, bytesWritten := 0, 0, 0;
    }

    /** pb_ostream_from_buffer; also the substream of pb_encode_submessage, which starts at `position`. */
    constructor FromBuffer(destination: array<byte>, position: nat, limit: nat)
      requires position + limit <= destination.Length && limit < WORD64
      ensures !sizing && buf == destination && state == position && maxSize == limit && bytesWritten == 0
      ensures Valid()
    {
      sizing, buf := false, destination;
      state, maxSize, bytesWritten := position, limit, 0;
    }

    /** pb_write. A sizing stream is given only the count. */
    method Write(data: seq<byte>, count: nat) returns (ok: bool)
      requires Valid() && count < WORD64 && (!sizing ==> count == |data|)
      modifies this, buf
      ensures Valid()
      ensures count == |data| ==> Wrote(sizing, old(Observed()), Observed(), ok, Some(data))
      ensures sizing ==> ok && bytesWritten == (old(bytesWritten) + count) % WORD64 && maxSize == old(maxSize)
      ensures sizing ==> state == old(state)
    {
      hide Wrote;
      ghost var before := Observed();
      if count > 0 && !sizing {
        if (bytesWritten + count) % WORD64 < bytesWritten || (bytesWritten + count) % WORD64 > maxSize {
          WrapFails(bytesWritten, count, maxSize);
          Refused(before, data);
          return false;
        }
        WrapSucceeds(bytesWritten, count, maxSize);
        BufWrite(data);
      }
      if !sizing {
        assert bytesWritten + count <= maxSize;
        SmallMod(bytesWritten + count, WORD64);
      }
      bytesWritten := (bytesWritten + count) % WORD64;
      ok := true;
      Accepted(sizing, before, Observed(), data, count);
    }

    /** buf_write. */
    method BufWrite(data: seq<byte>)
      requires state + |data| <= buf.Length
      modifies this`state, buf
      ensures state == old(state) + |data|
      ensures buf[..state] == old(buf[..state]) + data
      ensures buf[state..] == old(buf[..])[state..]
    {
      var dest := state;
      state := state + |data|;
      var i := 0;
      while i < |data|
        invariant 0 <= i <= |data| && state == dest + |data|
        invariant buf[..dest + i] == old(buf[..state]) + data[..i]
        invariant buf[dest + i..] == old(buf[..])[dest + i..]
      {
        buf[dest + i] := data[i];
        i := i + 1;
      }
      assert data[..|data|] == data;
    }
  }

  /** Both overflow tests of pb_write amount to comparing the true sum with the limit. */
  lemma WrapFails(written: nat, count: nat, maxSize: nat)
    requires written <= maxSize < WORD64 && 0 < count < WORD64
    requires (written + count) % WORD64 < written || (written + count) % WORD64 > maxSize
    ensures written + count > maxSize
  {
    if written + count < WORD64 { SmallMod(written + count, WORD64); }
  }

  lemma WrapSucceeds(written: nat, count: nat, maxSize: nat)
    requires written <= maxSize < WORD64 && 0 < count < WORD64
    requires !((written + count) % WORD64 < written || (written + count) % WORD64 > maxSize)
    ensures written + count <= maxSize
  {
    if written + count >= WORD64 { DivModUnique(written + count, 1, written + count - WORD64, WORD64); }
    else { SmallMod(written + count, WORD64); }
  }
}
