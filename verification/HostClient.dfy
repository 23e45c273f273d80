/** The two ends of the bulk pipes: the device's frame writer and the host's frame reader and writer. */
module HostClient {
  import opened Bytes
  import opened Crc32
  import opened FrameCodec
  import opened UsbTransport

  /** The packets in flight in both directions. */
  class UsbLink {
    const mps: nat
    var inPackets: seq<bytes>
    var outPackets: seq<bytes>

    ghost predicate Valid()
    {
      PacketSize(mps)
    }

    constructor (mps: nat)
      requires PacketSize(mps)
      ensures this.mps == mps && inPackets == [] && outPackets == []
    {
      this.mps := mps;
      inPackets := [];
      outPackets := [];
    }
  }

  /** `write_limited`: pieces of 16 KiB, then one zero-length packet for the whole frame if needed. */
  method WriteLimited(link: UsbLink, data: bytes)
    requires link.Valid()
    modifies link`inPackets
    ensures link.inPackets == old(link.inPackets) + InTransfer(data, link.mps)
  {
    hide Packetize;
    var off := 0;
    NoPackets(link.inPackets, data, link.mps);
    while off < |data|
      invariant off <= |data| && (off % IO_CHUNK == 0 || off == |data|)
      invariant link.inPackets == old(link.inPackets) + Packetize(data[..off], link.mps)
    {
      var n := |data| - off;
      if n > IO_CHUNK {
        n := IO_CHUNK;
      }
      NextPiece(data, off, off + n, link.mps);
      link.inPackets := link.inPackets + Packetize(data[off..off + n], link.mps);
      off := off + n;
    }
    assert data[..off] == data;
    if NeedsZlp(|data|) {
      link.inPackets := link.inPackets + [[]];
    }
  }

  lemma NoPackets(before: seq<bytes>, data: bytes, mps: nat)
    requires PacketSize(mps)
    ensures before + Packetize(data[..0], mps) == before
  {
  }

  /** Writing the next piece extends the packets of what was written so far. */
  lemma NextPiece(data: bytes, off: nat, end: nat, mps: nat)
    requires PacketSize(mps) && off <= end <= |data| && off % IO_CHUNK == 0
    ensures Packetize(data[..off], mps) + Packetize(data[off..end], mps) == Packetize(data[..end], mps)
  {
    hide Packetize;
    assert off % mps == 0 by {
      if mps == 64 {
      } else {
      }
    }
    PacketizeAppend(data[..off], data[off..end], mps);
    assert data[..end] == data[..off] + data[off..end];
  }

  // ---- The host's reader as functions --------------------------------------------------------

  /** The client's buffer and the packets waiting on the IN endpoint. */
  datatype HostState = HostState(rxbuf: bytes, packets: seq<bytes>)

  datatype UsbStatus = Ok | TimedOut | Babble

  datatype Reply =
    | Reply(frame: Frame)
    | TooLarge
    | BadFrame
    | UsbError(status: UsbStatus)

  function Max(a: nat, b: nat): nat
  {
    if a > b then a else b
  }

  /** `_read_some`: one read that returns data; empty reads are skipped. */
  function ReadSome(st: HostState, size: nat, mps: nat): (UsbStatus, HostState)
    requires PacketSize(mps)
    decreases |st.packets|
  {
    match BulkRead(st.packets, Max(size, mps), mps, [])
    case NoPacket => (TimedOut, st)
    case Overflow => (Babble, st)
    case Completed(data, rest) =>
      BulkReadConsumes(st.packets, Max(size, mps), mps, []);
      if data == [] then ReadSome(HostState(st.rxbuf, rest), size, mps)
      else (Ok, HostState(st.rxbuf + data, rest))
  }

  lemma {:induction false} ReadSomeConsumes(st: HostState, size: nat, mps: nat)
    requires PacketSize(mps)
    ensures ReadSome(st, size, mps).0.Ok? ==> |ReadSome(st, size, mps).1.packets| < |st.packets|
    decreases |st.packets|
  {
    BulkReadConsumes(st.packets, Max(size, mps), mps, []);
    match BulkRead(st.packets, Max(size, mps), mps, [])
    case Completed(data, rest) =>
      if data == [] {
        ReadSomeConsumes(HostState(st.rxbuf, rest), size, mps);
      }
    case _ =>
  }

  function Fill(st: HostState, need: nat, mps: nat): (UsbStatus, HostState)
    requires PacketSize(mps)
    decreases |st.packets|
  {
    if |st.rxbuf| >= need then (Ok, st)
    else
      ReadSomeConsumes(st, need - |st.rxbuf|, mps);
      var (status, next) := ReadSome(st, need - |st.rxbuf|, mps);
      if status.Ok? then Fill(next, need, mps) else (status, next)
  }

  lemma {:induction false} FillEnough(st: HostState, need: nat, mps: nat)
    requires PacketSize(mps)
    ensures Fill(st, need, mps).0.Ok? ==> |Fill(st, need, mps).1.rxbuf| >= need
    decreases |st.packets|
  {
    if |st.rxbuf| < need && ReadSome(st, need - |st.rxbuf|, mps).0.Ok? {
      ReadSomeConsumes(st, need - |st.rxbuf|, mps);
      FillEnough(ReadSome(st, need - |st.rxbuf|, mps).1, need, mps);
    }
  }

  /** `_recv_frame`. */
  function RecvFrame(st: HostState, mps: nat): (Reply, HostState)
    requires PacketSize(mps)
  {
    var (s1, st1) := Fill(st, HEADER_SIZE, mps);
    FillEnough(st, HEADER_SIZE, mps);
    if !s1.Ok? then (UsbError(s1), st1)
    else
      var len := ParseHeader(st1.rxbuf).payloadLen;
      if len > MAX_PAYLOAD then (TooLarge, st1)
      else
        var size := HEADER_SIZE + len;
        var (s2, st2) := Fill(st1, size, mps);
        FillEnough(st1, size, mps);
        if !s2.Ok? then (UsbError(s2), st2)
        else
          var rest := HostState(st2.rxbuf[size..], st2.packets);
          match DecodePython(st2.rxbuf[..size])
          case None => (BadFrame, rest)
          case Some(frame) => (Reply(frame), rest)
  }

  // ---- The host's client ---------------------------------------------------------------------

  /** `_next_id`: wraps at 32 bits and skips zero. */
  function NextId(req: u32): (r: u32)
    ensures r != 0 && r != req
  {
    var next := (req + 1) % U32_MODULUS;
    if next == 0 then 1 else next
  }

  /** The id of the `k`-th request from now. */
  function IdAfter(req: u32, k: nat): u32
  {
    if k == 0 then req else NextId(IdAfter(req, k - 1))
  }

  /** The ids 1 to 2^32 - 1, over and over. */
  function Wrapped(n: nat): u32
  {
    n % 0xFFFF_FFFF + 1
  }

  /** Ids count up from 1 and start over behind 2^32 - 1. */
  lemma {:induction false} IdsCount(req: u32, k: nat)
    requires k >= 1
    ensures IdAfter(req, k) == Wrapped(if req == 0 then k - 1 else req - 1 + k)
    decreases k
  {
    var n := if req == 0 then k - 1 else req - 1 + k;
    if k == 1 {
      FirstId(req);
    } else {
      IdsCount(req, k - 1);
      OneMoreId(n - 1);
      hide Wrapped, NextId;
    }
  }

  lemma FirstId(req: u32)
    ensures IdAfter(req, 1) == Wrapped(req)
  {
    assert IdAfter(req, 1) == NextId(req);
  }

  lemma OneMoreId(n: nat)
    ensures Wrapped(n + 1) == NextId(Wrapped(n))
  {
  }

  /** No two of 2^32 - 1 requests in a row have the same id. */
  lemma IdsDiffer(req: u32, i: nat, j: nat)
    requires 1 <= i < j < i + 0xFFFF_FFFF
    ensures IdAfter(req, i) != IdAfter(req, j)
  {
    hide IdAfter, Wrapped;
    IdsCount(req, i);
    IdsCount(req, j);
    SmallStep(if req == 0 then i - 1 else req - 1 + i, j - i);
  }

  lemma SmallStep(a: nat, d: nat)
    requires 0 < d < 0xFFFF_FFFF
    ensures Wrapped(a + d) != Wrapped(a)
  {
    var q, r := a / 0xFFFF_FFFF, a % 0xFFFF_FFFF;
    assert a + d == 0xFFFF_FFFF * q + (r + d);
  }

  class Client {
    var req: u32
    var rxbuf: bytes
    const link: UsbLink

    constructor (link: UsbLink)
      ensures this.link == link && rxbuf == [] && req == 0
    {
      this.link := link;
      req := 0;
      rxbuf := [];
    }

    ghost function State(): HostState
      reads this, link
    {
      HostState(rxbuf, link.inPackets)
    }

    /** `_read_some`. */
    method DoReadSome(size: nat) returns (status: UsbStatus)
      requires link.Valid()
      modifies this`rxbuf, link`inPackets
      ensures (status, State()) == ReadSome(old(State()), size, link.mps)
    {
      ghost var first := State();
      while true
        invariant rxbuf == old(rxbuf)
        invariant ReadSome(State(), size, link.mps) == ReadSome(first, size, link.mps)
        decreases |link.inPackets|
      {
        var t := BulkRead(link.inPackets, Max(size, link.mps), link.mps, []);
        BulkReadConsumes(link.inPackets, Max(size, link.mps), link.mps, []);
        if t.NoPacket? {
          return TimedOut;
        }
        if t.Overflow? {
          return Babble;
        }
        link.inPackets := t.rest;
        if t.data == [] {
          continue;
        }
        rxbuf := rxbuf + t.data;
        return Ok;
      }
    }

    /** `_recv_frame`. */
    method DoRecvFrame() returns (reply: Reply)
      requires link.Valid()
      modifies this`rxbuf, link`inPackets
      ensures (reply, State()) == RecvFrame(old(State()), link.mps)
    {
      hide DecodePython, ReadSome;
      ghost var first := State();
      FillEnough(first, HEADER_SIZE, link.mps);
      while |rxbuf| < HEADER_SIZE
        invariant Fill(State(), HEADER_SIZE, link.mps) == Fill(first, HEADER_SIZE, link.mps)
        decreases |link.inPackets|
      {
        ReadSomeConsumes(State(), HEADER_SIZE - |rxbuf|, link.mps);
        var s := DoReadSome(HEADER_SIZE - |rxbuf|);
        if !s.Ok? {
          return UsbError(s);
        }
      }
      ghost var second := State();
      var len := ParseHeader(rxbuf).payloadLen;
      if len > MAX_PAYLOAD {
        return TooLarge;
      }
      var frameSize := HEADER_SIZE + len;
      FillEnough(second, frameSize, link.mps);
      while |rxbuf| < frameSize
        invariant Fill(State(), frameSize, link.mps) == Fill(second, frameSize, link.mps)
        decreases |link.inPackets|
      {
        ReadSomeConsumes(State(), frameSize - |rxbuf|, link.mps);
        var s := DoReadSome(frameSize - |rxbuf|);
        if !s.Ok? {
          return UsbError(s);
        }
      }
      var raw := rxbuf[..frameSize];
      rxbuf := rxbuf[frameSize..];
      match DecodePython(raw)
      case None => reply := BadFrame;
      case Some(frame) => reply := Reply(frame);
    }

    /** `_send_frame`: pieces of 16 KiB, then a zero-length packet after whole packets. */
    method SendFrame(frame: Frame)
      requires link.Valid() && |frame.payload| < U32_MODULUS
      modifies link`outPackets
      ensures link.outPackets == old(link.outPackets) + OutTransfer(Encode(frame), link.mps)
    {
      hide Encode, Packetize;
      var raw := Encode(frame);
      var sent := 0;
      NoPackets(link.outPackets, raw, link.mps);
      while sent < |raw|
        invariant sent <= |raw| && (sent % IO_CHUNK == 0 || sent == |raw|)
        invariant link.outPackets == old(link.outPackets) + Packetize(raw[..sent], link.mps)
      {
        var end := if sent + IO_CHUNK < |raw| then sent + IO_CHUNK else |raw|;
        NextPiece(raw, sent, end, link.mps);
        link.outPackets := link.outPackets + Packetize(raw[sent..end], link.mps);
        sent := end;
      }
      assert raw[..sent] == raw;
      if |raw| % link.mps == 0 {
        link.outPackets := link.outPackets + [[]];
      }
    }

    method TakeId() returns (rid: u32)
      modifies this`req
      ensures rid == req == NextId(old(req))
    {
      req := (req + 1) % U32_MODULUS;
      if req == 0 {
        req := 1;
      }
      rid := req;
    }
  }

  // ---- What the host receives ----------------------------------------------------------------

  predicate OnlyEmpty(packets: seq<bytes>)
  {
    forall i :: 0 <= i < |packets| ==> packets[i] == []
  }

  /** Leftover zero-length packets are skipped. */
  lemma {:induction false} ReadSomeSkips(rxbuf: bytes, lead: seq<bytes>, rest: seq<bytes>, size: nat, mps: nat)
    requires PacketSize(mps) && OnlyEmpty(lead)
    ensures ReadSome(HostState(rxbuf, lead + rest), size, mps) == ReadSome(HostState(rxbuf, rest), size, mps)
    decreases |lead|
  {
    if lead == [] {
      assert lead + rest == rest;
    } else {
      assert (lead + rest)[0] == [] && (lead + rest)[1..] == lead[1..] + rest;
      assert BulkRead(lead + rest, Max(size, mps), mps, []) == Completed([], lead[1..] + rest);
      ReadSomeSkips(rxbuf, lead[1..], rest, size, mps);
    }
  }

  /** The size of the first packet of `data`. */
  function First(data: bytes, mps: nat): (n: nat)
    ensures n <= |data|
  {
    if |data| < mps then |data| else mps
  }

  /** The header request is one packet long and takes the first packet of the frame. */
  lemma FirstPacketRead(data: bytes, tail: seq<bytes>, size: nat, mps: nat)
    requires PacketSize(mps) && data != [] && size <= mps
    ensures ReadSome(HostState([], Packetize(data, mps) + tail), size, mps)
         == (Ok, HostState(data[..First(data, mps)], Packetize(data[First(data, mps)..], mps) + tail))
  {
    if |data| < mps {
      SmallRemainder(|data|, mps);
      BulkReadWhole([], data, tail, mps, mps);
      assert [] + data == data == data[..|data|];
      assert Packetize(data[|data|..], mps) + tail == tail;
    } else {
      FirstPacket(data, mps, tail);
      var rest := Packetize(data[mps..], mps) + tail;
      assert BulkRead([data[..mps]] + rest, mps, mps, []) == Completed(data[..mps], rest) by {
        assert [] + data[..mps] == data[..mps];
        assert ([data[..mps]] + rest)[1..] == rest;
      }
      assert [] + data[..mps] == data[..mps];
    }
  }

  lemma SmallRemainder(n: nat, mps: nat)
    requires 0 < n < mps
    ensures n % mps == n
  {
  }

  /** A request for the rest of a frame takes exactly the rest. */
  lemma RestRead(got: bytes, data: bytes, tail: seq<bytes>, mps: nat)
    requires PacketSize(mps) && data != []
    ensures ReadSome(HostState(got, Packetize(data, mps) + tail), |data|, mps) == (Ok, HostState(got + data, tail))
  {
    if |data| < mps {
      SmallRemainder(|data|, mps);
    }
    BulkReadWhole([], data, tail, Max(|data|, mps), mps);
    assert [] + data == data;
  }

  lemma HeaderFilled(data: bytes, lead: seq<bytes>, after: seq<bytes>, mps: nat)
    requires PacketSize(mps) && OnlyEmpty(lead) && |data| >= HEADER_SIZE
    ensures Fill(HostState([], lead + (Packetize(data, mps) + after)), HEADER_SIZE, mps)
         == (Ok, HostState(data[..First(data, mps)], Packetize(data[First(data, mps)..], mps) + after))
  {
    hide ReadSome, Packetize, OnlyEmpty;
    ReadSomeSkips([], lead, Packetize(data, mps) + after, HEADER_SIZE, mps);
    FirstPacketRead(data, after, HEADER_SIZE, mps);
  }

  lemma RestFilled(data: bytes, n: nat, after: seq<bytes>, mps: nat)
    requires PacketSize(mps) && n <= |data|
    ensures Fill(HostState(data[..n], Packetize(data[n..], mps) + after), |data|, mps) == (Ok, HostState(data, after))
  {
    if n == |data| {
      assert data[..n] == data && Packetize(data[n..], mps) == [];
      assert [] + after == after;
    } else {
      RestRead(data[..n], data[n..], after, mps);
      hide ReadSome, Packetize;
      assert data[..n] + data[n..] == data;
    }
  }

  /** What one response amounts to for the host. */
  function Judged(raw: bytes): Reply
  {
    match DecodePython(raw)
    case None => BadFrame
    case Some(frame) => Reply(frame)
  }

  /** The bytes of one response, behind leftover empty packets and before anything else, are taken whole,
      whether they are a frame or not; the buffer is empty again and at most the response's own zero-length
      packet is left in front. */
  lemma RecvWhole(raw: bytes, lead: seq<bytes>, tail: seq<bytes>, mps: nat)
    requires PacketSize(mps) && OnlyEmpty(lead) && |raw| >= HEADER_SIZE
    requires ParseHeader(raw).payloadLen == |raw| - HEADER_SIZE <= MAX_PAYLOAD
    ensures RecvFrame(HostState([], lead + (InTransfer(raw, mps) + tail)), mps)
         == (Judged(raw), HostState([], ZlpAfter(|raw|) + tail))
  {
    hide Fill, Packetize, ZlpAfter, ParseHeader, DecodePython;
    var after := ZlpAfter(|raw|) + tail;
    HeaderFilled(raw, lead, after, mps);
    RestFilled(raw, First(raw, mps), after, mps);
    SameHeader(raw, First(raw, mps));
    assert InTransfer(raw, mps) + tail == Packetize(raw, mps) + after;
    assert raw[..|raw|] == raw && raw[|raw|..] == [];
  }

  lemma SameHeader(raw: bytes, n: nat)
    requires HEADER_SIZE <= n <= |raw|
    ensures ParseHeader(raw[..n]) == ParseHeader(raw)
  {
    HeaderIsPrefix(raw);
    HeaderIsPrefix(raw[..n]);
    hide ParseHeader;
    assert raw[..n][..HEADER_SIZE] == raw[..HEADER_SIZE];
  }

  /** One response frame is received whole. */
  lemma RecvExact(f: Frame, lead: seq<bytes>, tail: seq<bytes>, mps: nat)
    requires PacketSize(mps) && OnlyEmpty(lead) && |f.payload| <= MAX_PAYLOAD
    ensures RecvFrame(HostState([], lead + (InTransfer(Encode(f), mps) + tail)), mps)
         == (Reply(f), HostState([], ZlpAfter(|Encode(f)|) + tail))
  {
    hide RecvFrame, ZlpAfter, Encode, ParseHeader, DecodePython, InTransfer;
    FrameHeader(f, |Encode(f)|);
    assert Encode(f)[..|Encode(f)|] == Encode(f);
    DecodePythonExact(Encode(f), f);
    RecvWhole(Encode(f), lead, tail, mps);
  }

  /** A response whose payload was damaged within a burst of 32 bits is reported and dropped; what is behind
      it is not affected. */
  lemma DamagedResponse(f: Frame, damaged: bytes, p: nat, lead: seq<bytes>, tail: seq<bytes>, mps: nat)
    requires PacketSize(mps) && OnlyEmpty(lead) && |damaged| == |f.payload| <= MAX_PAYLOAD && damaged != f.payload
    requires DifferOnlyInBurst(f.payload, damaged, p)
    ensures var raw := HeaderBytes(HeaderOf(f)) + damaged;
            RecvFrame(HostState([], lead + (InTransfer(raw, mps) + tail)), mps)
            == (BadFrame, HostState([], ZlpAfter(|raw|) + tail))
  {
    hide RecvFrame, ZlpAfter, HeaderBytes, ParseHeader, DecodePython, InTransfer, DifferOnlyInBurst;
    ParseHeaderBytes(HeaderOf(f), damaged);
    CorruptPayloadRefused(f, damaged, p);
    RecvWhole(HeaderBytes(HeaderOf(f)) + damaged, lead, tail, mps);
  }

  lemma FrameHeader(f: Frame, n: nat)
    requires |f.payload| < U32_MODULUS && HEADER_SIZE <= n <= |Encode(f)|
    ensures ParseHeader(Encode(f)[..n]).payloadLen == |f.payload|
  {
    var h := HeaderOf(f);
    assert Encode(f)[..n] == HeaderBytes(h) + f.payload[..n - HEADER_SIZE];
    ParseHeaderBytes(h, f.payload[..n - HEADER_SIZE]);
  }

  /** What the device has put on the wire for a list of responses. */
  function InAll(frames: seq<Frame>, mps: nat): seq<bytes>
    requires PacketSize(mps) && WithinLimit(frames)
  {
    if frames == [] then [] else InTransfer(Encode(frames[0]), mps) + InAll(frames[1..], mps)
  }

  function RecvFrames(st: HostState, n: nat, mps: nat): (seq<Reply>, HostState)
    requires PacketSize(mps)
    decreases n
  {
    if n == 0 then ([], st)
    else
      var (r, next) := RecvFrame(st, mps);
      var (more, last) := RecvFrames(next, n - 1, mps);
      ([r] + more, last)
  }

  function Replies(frames: seq<Frame>): (r: seq<Reply>)
    ensures |r| == |frames|
  {
    seq(|frames|, i requires 0 <= i < |frames| => Reply(frames[i]))
  }

  predicate AtMostOneZlp(packets: seq<bytes>)
  {
    packets == [] || packets == [[]]
  }

  /** Responses that the device writes ahead of the host are still received one by one, in order. */
  lemma {:induction false} PipelinedRun(frames: seq<Frame>, lead: seq<bytes>, mps: nat)
    requires PacketSize(mps) && WithinLimit(frames) && AtMostOneZlp(lead)
    ensures var (got, last) := RecvFrames(HostState([], lead + InAll(frames, mps)), |frames|, mps);
            got == Replies(frames) && last.rxbuf == [] && AtMostOneZlp(last.packets)
    decreases |frames|
  {
    hide RecvFrame, InTransfer, Encode;
    if frames == [] {
      assert lead + [] == lead;
    } else {
      var f, tail := frames[0], InAll(frames[1..], mps);
      RecvExact(f, lead, tail, mps);
      PipelinedRun(frames[1..], ZlpAfter(|Encode(f)|), mps);
      assert Replies(frames) == [Reply(f)] + Replies(frames[1..]);
    }
  }

  /** Frames whose length fits in the header's field. */
  predicate AllEncodable(frames: seq<Frame>)
  {
    forall i :: 0 <= i < |frames| ==> |frames[i].payload| < U32_MODULUS
  }

  /** Request and response in turn: each response is written only after the previous receive is over. */
  function Lockstep(st: HostState, frames: seq<Frame>, mps: nat): (seq<Reply>, seq<HostState>)
    requires PacketSize(mps) && AllEncodable(frames)
    decreases frames
  {
    if frames == [] then ([], [])
    else
      var (r, next) := RecvFrame(HostState(st.rxbuf, st.packets + InTransfer(Encode(frames[0]), mps)), mps);
      var (more, states) := Lockstep(next, frames[1..], mps);
      ([r] + more, [next] + states)
  }

  /** The buffer starts with the header of a frame that the client refuses to receive. */
  predicate Jammed(st: HostState)
  {
    |st.rxbuf| >= HEADER_SIZE && ParseHeader(st.rxbuf).payloadLen > MAX_PAYLOAD
  }

  /** The client does not drop that header: whatever arrives, it refuses again and reads nothing. */
  lemma JammedStays(st: HostState, mps: nat)
    requires PacketSize(mps) && Jammed(st)
    ensures RecvFrame(st, mps) == (TooLarge, st)
  {
  }

  lemma RecvTooLarge(f: Frame, lead: seq<bytes>, mps: nat)
    requires PacketSize(mps) && OnlyEmpty(lead) && MAX_PAYLOAD < |f.payload| < U32_MODULUS
    ensures var (r, after) := RecvFrame(HostState([], lead + InTransfer(Encode(f), mps)), mps);
            r == TooLarge && Jammed(after)
  {
    hide Fill, Packetize, ZlpAfter, Encode, ParseHeader, DecodePython;
    var data := Encode(f);
    HeaderFilled(data, lead, ZlpAfter(|data|), mps);
    FrameHeader(f, First(data, mps));
  }

  predicate AllTooLarge(replies: seq<Reply>)
  {
    forall i :: 0 <= i < |replies| ==> replies[i] == TooLarge
  }

  lemma {:induction false} JammedRun(st: HostState, frames: seq<Frame>, mps: nat)
    requires PacketSize(mps) && AllEncodable(frames) && Jammed(st)
    ensures var (got, states) := Lockstep(st, frames, mps);
            |got| == |states| == |frames| && AllTooLarge(got)
    decreases |frames|
  {
    hide RecvFrame, InTransfer, Encode;
    if frames != [] {
      var next := HostState(st.rxbuf, st.packets + InTransfer(Encode(frames[0]), mps));
      JammedStays(next, mps);
      JammedRun(next, frames[1..], mps);
    }
  }

  /** What the `i`-th receive of a lockstep run comes to. */
  predicate ReceivedWhole(frames: seq<Frame>, got: seq<Reply>, states: seq<HostState>, i: nat)
    requires i < |frames| == |got| == |states|
  {
    if WithinLimit(frames[..i + 1])
    then got[i] == Reply(frames[i]) && states[i].rxbuf == [] && AtMostOneZlp(states[i].packets)
    else got[i] == TooLarge
  }

  /** In every lockstep run a receive returns the frame sent if and only if every response so far is within
      the host's limit; then the buffer is empty between requests and at most one zero-length packet is
      pending.  After a larger response no receive returns a frame again. */
  lemma {:induction false} LockstepRun(st: HostState, frames: seq<Frame>, mps: nat)
    requires PacketSize(mps) && AllEncodable(frames) && st.rxbuf == [] && AtMostOneZlp(st.packets)
    ensures var (got, states) := Lockstep(st, frames, mps);
            && |got| == |states| == |frames|
            && forall i :: 0 <= i < |frames| ==> ReceivedWhole(frames, got, states, i)
    decreases |frames|
  {
    hide RecvFrame, InTransfer, Encode, Jammed;
    if frames != [] {
      var f := frames[0];
      var (r, next) := RecvFrame(HostState([], st.packets + InTransfer(Encode(f), mps)), mps);
      var (got, states) := Lockstep(st, frames, mps);
      if |f.payload| > MAX_PAYLOAD {
        RecvTooLarge(f, st.packets, mps);
        JammedRun(next, frames[1..], mps);
        forall i | 0 <= i < |frames| ensures ReceivedWhole(frames, got, states, i) {
          assert frames[..i + 1][0] == f;
          assert i > 0 ==> got[i] == got[1..][i - 1];
        }
      } else {
        RecvExact(f, st.packets, [], mps);
        assert InTransfer(Encode(f), mps) + [] == InTransfer(Encode(f), mps);
        assert ZlpAfter(|Encode(f)|) + [] == ZlpAfter(|Encode(f)|);
        LockstepRun(next, frames[1..], mps);
        forall i | 0 <= i < |frames| ensures ReceivedWhole(frames, got, states, i) {
          if i == 0 {
            assert frames[..1] == [f];
          } else {
            LimitOfFront(frames, i);
            assert ReceivedWhole(frames[1..], got[1..], states[1..], i - 1);
          }
        }
      }
    }
  }

  lemma LimitOfFront(frames: seq<Frame>, i: nat)
    requires 0 < i < |frames| && |frames[0].payload| <= MAX_PAYLOAD
    ensures WithinLimit(frames[..i + 1]) <==> WithinLimit(frames[1..][..i])
  {
    assert frames[..i + 1] == [frames[0]] + frames[1..][..i];
  }
}
