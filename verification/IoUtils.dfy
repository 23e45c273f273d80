/** Reading and writing a whole buffer through calls that may move less, and the unbuffered frame reader. */
module IoUtils {
  import opened Bytes
  import opened FrameCodec
  import opened Reassembly

  /** How one system call goes: interrupted, an error, a write that takes nothing, or at most `n` bytes. */
  datatype CallResult = Interrupted | Error | Nothing | Moves(n: nat)

  predicate NoErrors(calls: seq<CallResult>)
  {
    forall i :: 0 <= i < |calls| ==> calls[i].Interrupted? || (calls[i].Moves? && calls[i].n > 0)
  }

  /** A descriptor: the bytes still to be read before its end, the bytes written so far, and how the
      coming calls go; behind the list every call moves all it can. */
  class Descriptor {
    var incoming: bytes
    var outgoing: bytes
    var calls: seq<CallResult>

    constructor (incoming: bytes, calls: seq<CallResult>)
      ensures this.incoming == incoming && outgoing == [] && this.calls == calls
    {
      this.incoming, outgoing, this.calls := incoming, [], calls;
    }

    /** `read`: `None` for an error, an empty result at the end of the file. */
    method Read(size: nat) returns (again: bool, data: Option<bytes>)
      requires size > 0
      modifies this`incoming, this`calls
      ensures old(calls) == [] ==> calls == [] && !again && data.Some?
      ensures old(calls) != [] ==> calls == old(calls)[1..] && (again <==> old(calls)[0].Interrupted?)
      ensures again || data.None? ==> incoming == old(incoming)
      ensures data.Some? ==> |data.value| <= size && data.value + incoming == old(incoming)
      ensures NoErrors(old(calls)) && !again ==> data.Some? && (data.value == [] <==> old(incoming) == [])
    {
      again, data := false, None;
      var n := size;
      if calls != [] {
        var c := calls[0];
        calls := calls[1..];
        if c.Interrupted? {
          return true, None;
        }
        if c.Error? {
          return;
        }
        n := if c.Moves? && c.n < size then c.n else if c.Nothing? then 0 else size;
      }
      if n > |incoming| {
        n := |incoming|;
      }
      data := Some(incoming[..n]);
      incoming := incoming[n..];
    }

    /** `write`: `None` for an error, else how many bytes were taken. */
    method Write(data: bytes) returns (again: bool, taken: Option<nat>)
      requires data != []
      modifies this`outgoing, this`calls
      ensures old(calls) == [] ==> calls == [] && !again && taken == Some(|data|)
      ensures old(calls) != [] ==> calls == old(calls)[1..] && (again <==> old(calls)[0].Interrupted?)
      ensures again || taken.None? ==> outgoing == old(outgoing)
      ensures taken.Some? ==> taken.value <= |data| && outgoing == old(outgoing) + data[..taken.value]
      ensures NoErrors(old(calls)) && !again ==> taken.Some? && taken.value > 0
    {
      again, taken := false, None;
      var n := |data|;
      if calls != [] {
        var c := calls[0];
        calls := calls[1..];
        if c.Interrupted? {
          return true, None;
        }
        if c.Error? {
          return;
        }
        n := if c.Moves? && c.n < |data| then c.n else if c.Nothing? then 0 else |data|;
      }
      taken := Some(n);
      outgoing := outgoing + data[..n];
    }
  }

  /** `usb_responder_read_full`: all or failure; bytes never change or change order on the way. */
  method ReadFull(fd: Descriptor, size: nat) returns (ok: bool, data: bytes)
    modifies fd`incoming, fd`calls
    ensures data + fd.incoming == old(fd.incoming)
    ensures ok <==> |data| == size
    ensures |data| <= size
    ensures NoErrors(old(fd.calls)) ==> NoErrors(fd.calls) && (ok <==> size <= |old(fd.incoming)|)
  {
    data := [];
    while |data| < size
      invariant |data| <= size && data + fd.incoming == old(fd.incoming)
      invariant NoErrors(old(fd.calls)) ==> NoErrors(fd.calls)
      decreases size - |data|, |fd.calls|
    {
      ghost var before := fd.incoming;
      var again, got := fd.Read(size - |data|);
      if again {
        continue;
      }
      if got.None? || got.value == [] {
        return false, data;
      }
      assert (data + got.value) + fd.incoming == data + before;
      data := data + got.value;
    }
    ok := true;
  }

  /** `usb_responder_write_full`: on success exactly the data was written, on failure a proper part of it. */
  method WriteFull(fd: Descriptor, data: bytes) returns (ok: bool)
    modifies fd`outgoing, fd`calls
    ensures ok ==> fd.outgoing == old(fd.outgoing) + data
    ensures !ok ==> exists k :: 0 <= k < |data| && fd.outgoing == old(fd.outgoing) + data[..k]
    ensures NoErrors(old(fd.calls)) ==> ok
  {
    var done := 0;
    while done < |data|
      invariant done <= |data| && fd.outgoing == old(fd.outgoing) + data[..done]
      invariant NoErrors(old(fd.calls)) ==> NoErrors(fd.calls)
      decreases |data| - done, |fd.calls|
    {
      var again, taken := fd.Write(data[done..]);
      if again {
        continue;
      }
      if taken.None? || taken.value == 0 {
        return false;
      }
      assert data[..done + taken.value] == data[..done] + data[done..][..taken.value];
      done := done + taken.value;
    }
    assert data[..done] == data;
    ok := true;
  }

  /** `usb_responder_protocol_read_frame`: two whole reads and the decoder amount to the simple reader. */
  method ReadFrameUnbuffered(fd: Descriptor, maxPayload: nat) returns (frame: Option<Frame>)
    requires HEADER_SIZE + maxPayload < U32_MODULUS
    modifies fd`incoming, fd`calls
    ensures frame.Some? ==> SimpleReadUpTo(old(fd.incoming), maxPayload) == Got(frame.value, fd.incoming)
    ensures NoErrors(old(fd.calls)) ==> (frame.Some? <==> SimpleReadUpTo(old(fd.incoming), maxPayload).Got?)
  {
    hide DecodeC, ParseHeader, NoErrors;
    var ok, hdr := ReadFull(fd, HEADER_SIZE);
    if !ok {
      return None;
    }
    var len := ParseHeader(hdr).payloadLen;
    assert hdr <= old(fd.incoming);
    HeaderOfPrefix(hdr, old(fd.incoming));
    if len > maxPayload {
      return None;
    }
    ghost var mid := fd.incoming;
    var ok', payload := ReadFull(fd, len);
    if !ok' {
      return None;
    }
    var raw := hdr + payload;
    assert old(fd.incoming) == hdr + (payload + fd.incoming);
    assert raw == old(fd.incoming)[..HEADER_SIZE + len] && fd.incoming == old(fd.incoming)[HEADER_SIZE + len..];
    frame := DecodeC(raw);
  }
}
