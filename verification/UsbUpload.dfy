/** `file_put` over the two bulk pipes: one request and one reply at a time. */
module UsbUpload {
  import opened Bytes
  import opened FrameCodec
  import opened KvCodec
  import opened UsbTransport
  import opened Reassembly
  import opened HostClient
  import opened FileSystem
  import opened Uploads
  import opened UploadIsolation
  import opened Handlers
  import opened Responder
  import opened UploadSequence
  import opened EndToEnd

  /** The client's buffer and the device, which also holds the packets on the IN pipe. */
  datatype World = World(rxbuf: bytes, device: Io)

  /** What the device's reads return while a transfer is on the OUT pipe. */
  function EventsOf(chunks: seq<bytes>): (r: seq<ReadEvent>)
    ensures |r| == |chunks|
  {
    seq(|chunks|, i requires 0 <= i < |chunks| => if chunks[i] == [] then ReadEmpty else ReadData(chunks[i]))
  }

  function Arriving(f: Frame, mps: nat): seq<ReadEvent>
    requires PacketSize(mps) && |f.payload| < U32_MODULUS
  {
    EventsOf(DeviceReads(OutTransfer(Encode(f), mps), mps))
  }

  /** The turn in which the device finds the request. */
  function RequestTurn(f: Frame, a: Answers, mps: nat): Turn
    requires PacketSize(mps) && |f.payload| < U32_MODULUS
  {
    Polled(None, false, false, Arriving(f, mps), true, false, a)
  }

  /** `_expect_kv`: a status reply to this request with a readable payload. */
  predicate Expected(r: Reply, rid: u32)
  {
    r.Reply? && r.frame.requestId == rid && r.frame.typ == MSG_STATUS && DecodeKvHost(r.frame.payload).Some?
  }

  /** One `_send_frame` and the `_expect_kv` that follows it.  A payload of 4 GiB or more does not fit the
      header's length field, and nothing is sent. */
  function Exchange(w: World, f: Frame, a: Answers, mps: nat): (bool, World)
    requires PacketSize(mps)
  {
    if |f.payload| >= U32_MODULUS then (false, w)
    else
      var device := LoopTurn(w.device, RequestTurn(f, a, mps), mps).1;
      var (reply, host) := RecvFrame(HostState(w.rxbuf, device.wire), mps);
      (Expected(reply, f.requestId), World(host.rxbuf, device.(wire := host.packets)))
  }

  /** Exchanges up to the first that fails. */
  function Converse(w: World, frames: seq<Frame>, answers: seq<Answers>, mps: nat): (bool, World)
    requires PacketSize(mps) && |answers| >= |frames|
    decreases frames
  {
    if frames == [] then (true, w)
    else
      var (ok, next) := Exchange(w, frames[0], answers[0], mps);
      if ok then Converse(next, frames[1..], answers[1..], mps) else (false, next)
  }

  // ---- The reads of one request --------------------------------------------------------------

  lemma EventsAppend(a: seq<bytes>, b: seq<bytes>)
    ensures EventsOf(a + b) == EventsOf(a) + EventsOf(b)
  {
  }

  lemma {:induction false} EventsOfData(chunks: seq<bytes>)
    requires forall i :: 0 <= i < |chunks| ==> 1 <= |chunks[i]| <= IO_CHUNK
    ensures ValidEvents(EventsOf(chunks)) && CleanEvents(EventsOf(chunks))
    ensures Received(EventsOf(chunks)) == Concat(chunks)
    decreases |chunks|
  {
    if chunks != [] {
      EventsOfData(chunks[1..]);
      assert EventsOf(chunks)[1..] == EventsOf(chunks[1..]);
    }
  }

  /** The reads of a request: its bytes, and behind an exact multiple of 16 KiB one empty read. */
  lemma ArrivingEvents(f: Frame, mps: nat) returns (data: seq<ReadEvent>)
    requires PacketSize(mps) && |f.payload| < U32_MODULUS
    ensures ValidEvents(data) && CleanEvents(data) && Received(data) == Encode(f)
    ensures Arriving(f, mps) == data + (if |Encode(f)| % IO_CHUNK == 0 then [ReadEmpty] else [])
  {
    hide *;
    var raw := Encode(f);
    var c := DeviceChunks(raw);
    ArrivingChunks(f, mps);
    EmptyReadExactlyForMultiples(raw);
    ShapeOf(c, raw);
    if c[|c| - 1] == [] {
      var n := |c| - 1;
      assert c == c[..n] + [[]];
      EventsAppend(c[..n], [[]]);
      ConcatAppend(c[..n], [[]]);
      EmptyChunk();
      assert Concat(c[..n]) + [] == Concat(c[..n]);
      data := EventsOf(c[..n]);
      EventsOfData(c[..n]);
    } else {
      data := EventsOf(c);
      EventsOfData(c);
      assert data + [] == data;
    }
  }

  lemma ShapeOf(c: seq<bytes>, data: bytes)
    requires ChunkShape(c, data)
    ensures c != [] && Concat(c) == data && (c[|c| - 1] == [] <==> |data| % IO_CHUNK == 0)
    ensures forall i :: 0 <= i < |c| ==> |c[i]| <= IO_CHUNK && (i < |c| - 1 ==> c[i] != [])
  {
  }

  lemma ArrivingChunks(f: Frame, mps: nat)
    requires PacketSize(mps) && |f.payload| < U32_MODULUS
    ensures Arriving(f, mps) == EventsOf(DeviceChunks(Encode(f)))
  {
    hide Encode, DeviceChunks, OutTransfer;
    DeviceReadsFrame(Encode(f), mps, []);
    assert OutTransfer(Encode(f), mps) + [] == OutTransfer(Encode(f), mps);
    assert DeviceChunks(Encode(f)) + DeviceReads([], mps) == DeviceChunks(Encode(f));
  }

  lemma EmptyChunk()
    ensures Concat([[]]) == [] && EventsOf([[]]) == [ReadEmpty]
  {
  }

  // ---- One exchange --------------------------------------------------------------------------

  /** Between two exchanges: the loop runs, at most one empty packet is left on the IN pipe, and of the
      requests so far no byte is left over. */
  predicate Idle(w: World)
  {
    && w.rxbuf == [] && AtMostOneZlp(w.device.wire) && Live(w.device)
    && w.device.rx.buffered == [] && ValidEvents(w.device.rx.events)
  }

  /** Nothing at all is left over. */
  predicate Quiet(w: World)
  {
    Idle(w) && CleanEvents(w.device.rx.events) && Received(w.device.rx.events) == []
  }

  /** An empty read is left over. */
  predicate Spoiled(w: World)
  {
    Idle(w) && EndsInEmptyRead(w.device.rx.events)
  }

  /** The device has closed its endpoints and the host has given up on a reply. */
  predicate Shut(w: World)
  {
    && w.rxbuf == [] && AtMostOneZlp(w.device.wire)
    && !w.device.enabled && !w.device.inOpen && !w.device.outOpen && w.device.rx == RxState([], false, [])
  }

  /** The host receives the reply, whatever empty packet was left over. */
  lemma ReplyReceived(wire: seq<bytes>, reply: Frame, mps: nat)
    requires PacketSize(mps) && AtMostOneZlp(wire) && |reply.payload| <= MAX_PAYLOAD
    ensures var (r, host) := RecvFrame(HostState([], wire + InTransfer(Encode(reply), mps)), mps);
            r == Reply.Reply(reply) && host.rxbuf == [] && AtMostOneZlp(host.packets)
  {
    RecvExact(reply, wire, [], mps);
    hide RecvFrame, InTransfer, Encode;
    assert InTransfer(Encode(reply), mps) + [] == InTransfer(Encode(reply), mps);
    assert ZlpAfter(|Encode(reply)|) + [] == ZlpAfter(|Encode(reply)|);
  }

  /** Without a reply the host's receive runs into its timeout. */
  lemma NothingReceived(wire: seq<bytes>, mps: nat)
    requires PacketSize(mps) && AtMostOneZlp(wire)
    ensures RecvFrame(HostState([], wire), mps) == (UsbError(TimedOut), HostState([], []))
            || RecvFrame(HostState([], wire), mps) == (UsbError(TimedOut), HostState([], wire))
  {
    if wire == [[]] {
      ReadSomeSkips([], [[]], [], HEADER_SIZE, mps);
      assert [[]] + [] == wire;
    }
  }

  lemma MoreMore(st: RxState, a: seq<ReadEvent>, b: seq<ReadEvent>)
    ensures WithMore(st, a + b) == WithMore(WithMore(st, a), b)
  {
    assert st.events + (a + b) == (st.events + a) + b;
  }

  lemma NoStream(st: RxState)
    requires st.Stream() == []
    ensures st.buffered == [] && Received(st.events) == []
  {
  }

  /** Reading the request that has just been sent: it is delivered, and exactly for multiples of 16 KiB
      an empty read stays behind. */
  lemma RequestRead(rx: RxState, f: Frame, mps: nat)
    requires PacketSize(mps) && |f.payload| <= MAX_PAYLOAD
    requires ValidEvents(rx.events) && CleanEvents(rx.events) && rx.Stream() == []
    ensures var (outcome, after) := ReadFrame(WithMore(rx, Arriving(f, mps)));
            && outcome == Delivered(f) && after.buffered == [] && ValidEvents(after.events)
            && if |Encode(f)| % IO_CHUNK == 0 then EndsInEmptyRead(after.events)
               else CleanEvents(after.events) && Received(after.events) == []
  {
    hide ReadFrame, Encode, Arriving, CleanEvents, ValidEvents, Received, SimpleRead, RxState.Stream;
    var data := ArrivingEvents(f, mps);
    var extra := if |Encode(f)| % IO_CHUNK == 0 then [ReadEmpty] else [];
    var plain := WithMore(rx, data);
    MoreMore(rx, data, extra);
    ArrivedStream(rx, data);
    assert [] + Encode(f) == Encode(f) && Encode(f) + [] == Encode(f);
    SimpleReadEncoded(f, []);
    RefinesSimpleReader(plain);
    ReadFrameKeepsValid(plain);
    ReadFrameIsLocal(plain, extra);
    var after := ReadFrame(plain).1;
    NoStream(after);
    LeftOver(after.events, extra);
  }

  lemma LeftOver(events: seq<ReadEvent>, extra: seq<ReadEvent>)
    requires ValidEvents(events) && CleanEvents(events) && Received(events) == []
    ensures extra == [] ==> events + extra == events
    ensures extra == [ReadEmpty] ==> ValidEvents(events + extra) && EndsInEmptyRead(events + extra)
  {
    if extra == [ReadEmpty] {
      assert (events + extra)[..|events|] == events;
    }
  }

  predicate Positive(reply: Frame, rid: u32)
  {
    reply == OkReply(rid) || reply == BeganReply(rid)
  }

  /** A reply of the upload handlers satisfies the host exactly when it is of type STATUS. */
  lemma ReplyAccepted(st: Store, f: Frame, a: Answers)
    requires IsUpload(f)
    ensures Expected(Reply.Reply(HandleUpload(st, f, a).1), f.requestId) <==> HandleUpload(st, f, a).1.typ == 2
  {
    hide DecodeKvHost, HandleUpload;
    ReplyShape(st, f, a);
  }

  lemma PositiveIsStatus(reply: Frame, rid: u32)
    requires Positive(reply, rid)
    ensures reply.typ == 2
  {
    hide EncodeKv;
  }

  lemma QuietStream(w: World)
    requires Quiet(w)
    ensures w.device.rx.Stream() == [] && Live(w.device) && w.rxbuf == [] && AtMostOneZlp(w.device.wire)
    ensures ValidEvents(w.device.rx.events) && CleanEvents(w.device.rx.events)
  {
  }

  /** From a quiet state a request is handled, the host is satisfied exactly when the reply is of type
      STATUS, and whether the state is quiet again is decided by the length of the request alone. */
  lemma ExchangeExactly(w: World, f: Frame, a: Answers, mps: nat)
    requires PacketSize(mps) && Quiet(w) && IsUpload(f) && |f.payload| <= MAX_PAYLOAD
    ensures var (ok, after) := Exchange(w, f, a, mps);
            && (ok <==> HandleUpload(w.device.store, f, a).1.typ == 2)
            && after.device.store == HandleUpload(w.device.store, f, a).0
            && if |Encode(f)| % IO_CHUNK == 0 then Spoiled(after) else Quiet(after)
  {
    hide ReadFrame, Encode, Arriving, CleanEvents, ValidEvents, Received, RxState.Stream, EndsInEmptyRead,
         HandleUpload, HandleFrame, LoopTurn, RecvFrame, InTransfer, Expected, AtMostOneZlp, Live, IsUpload;
    QuietStream(w);
    RequestRead(w.device.rx, f, mps);
    LiveTurn(w.device, RequestTurn(f, a, mps), mps);
    UploadHandled(w.device.store, f, a);
    var reply := HandleUpload(w.device.store, f, a).1;
    ReplyAccepted(w.device.store, f, a);
    ReplyReceived(w.device.wire, reply, mps);
    LiveWire(LoopTurn(w.device, RequestTurn(f, a, mps), mps).1);
  }

  lemma ExchangeServes(w: World, f: Frame, a: Answers, mps: nat)
    requires PacketSize(mps) && Quiet(w) && IsUpload(f) && |f.payload| <= MAX_PAYLOAD
    requires Positive(HandleUpload(w.device.store, f, a).1, f.requestId)
    ensures var (ok, after) := Exchange(w, f, a, mps);
            && ok && after.device.store == HandleUpload(w.device.store, f, a).0
            && if |Encode(f)| % IO_CHUNK == 0 then Spoiled(after) else Quiet(after)
  {
    hide *;
    ExchangeExactly(w, f, a, mps);
    PositiveIsStatus(HandleUpload(w.device.store, f, a).1, f.requestId);
  }

  lemma LiveWire(s: Io)
    ensures forall wire :: Live(s.(wire := wire)) == Live(s)
  {
  }

  lemma LostRead(rx: RxState, more: seq<ReadEvent>)
    requires EndsInEmptyRead(rx.events) && rx.buffered == []
    ensures ReadFrame(WithMore(rx, more)).0.Failed?
  {
    hide Reassembly.ReadSome, EndsInEmptyRead;
    EmptyReadLoses(rx);
    ReadSomeIsLocal(rx, more);
  }

  /** When the device's read fails it closes its endpoints, and the host waits in vain. */
  lemma ExchangeShuts(w: World, f: Frame, a: Answers, mps: nat)
    requires PacketSize(mps) && Idle(w) && |f.payload| < U32_MODULUS
    requires ReadFrame(WithMore(w.device.rx, Arriving(f, mps))).0.Failed?
    ensures var (ok, after) := Exchange(w, f, a, mps);
            !ok && after.device.store == w.device.store && Shut(after)
  {
    hide ReadFrame, Encode, Arriving, HandleFrame, LoopTurn, RecvFrame, InTransfer, ValidEvents;
    LiveTurn(w.device, RequestTurn(f, a, mps), mps);
    NothingReceived(w.device.wire, mps);
  }

  /** A left-over empty read is taken for the end of the endpoint. */
  lemma ExchangeFails(w: World, f: Frame, a: Answers, mps: nat)
    requires PacketSize(mps) && Spoiled(w) && |f.payload| < U32_MODULUS
    ensures var (ok, after) := Exchange(w, f, a, mps);
            !ok && after.device.store == w.device.store && Shut(after)
  {
    hide ReadFrame, Arriving, Exchange, Shut, EndsInEmptyRead, Live;
    LostRead(w.device.rx, Arriving(f, mps));
    ExchangeShuts(w, f, a, mps);
  }

  /** The device refuses a request above 8 MiB as soon as it has the header. */
  lemma OversizeRead(rx: RxState, f: Frame, mps: nat)
    requires PacketSize(mps) && MAX_PAYLOAD < |f.payload| < U32_MODULUS
    requires CleanEvents(rx.events) && rx.Stream() == []
    ensures ReadFrame(WithMore(rx, Arriving(f, mps))).0.Failed?
  {
    hide ReadFrame, Encode, Arriving, CleanEvents, ValidEvents, Received, RxState.Stream, ParseHeader, DecodeC;
    var data := ArrivingEvents(f, mps);
    var extra := if |Encode(f)| % IO_CHUNK == 0 then [ReadEmpty] else [];
    var plain := WithMore(rx, data);
    MoreMore(rx, data, extra);
    ArrivedStream(rx, data);
    assert [] + Encode(f) == Encode(f) && Encode(f) + [] == Encode(f);
    EncodedHeader(f, []);
    var full := CleanReadFrame(plain);
    ReadFrameIsLocal(plain, extra);
  }

  lemma ExchangeRefused(w: World, f: Frame, a: Answers, mps: nat)
    requires PacketSize(mps) && Quiet(w) && MAX_PAYLOAD < |f.payload| < U32_MODULUS
    ensures var (ok, after) := Exchange(w, f, a, mps);
            !ok && after.device.store == w.device.store && Shut(after)
  {
    QuietStream(w);
    hide ReadFrame, Arriving, Exchange, Shut, CleanEvents, RxState.Stream, Live;
    OversizeRead(w.device.rx, f, mps);
    ExchangeShuts(w, f, a, mps);
  }

  // ---- The whole conversation ----------------------------------------------------------------

  /** How many requests the device takes: those in front of the first that is too large, up to the first
      that leaves an empty read behind. */
  function Reached(frames: seq<Frame>): (n: nat)
    ensures n <= |frames|
  {
    if frames == [] || |frames[0].payload| > MAX_PAYLOAD then 0
    else if |Encode(frames[0])| % IO_CHUNK == 0 then 1
    else 1 + Reached(frames[1..])
  }

  /** No request is too large, and none but possibly the last is a multiple of 16 KiB long. */
  predicate NoneStalls(frames: seq<Frame>)
  {
    forall i :: 0 <= i < |frames| ==>
      |frames[i].payload| <= MAX_PAYLOAD && (i < |frames| - 1 ==> (HEADER_SIZE + |frames[i].payload|) % IO_CHUNK != 0)
  }

  lemma {:induction false} ReachedAll(frames: seq<Frame>)
    ensures Reached(frames) == |frames| <==> NoneStalls(frames)
    decreases |frames|
  {
    hide Encode;
    if frames != [] {
      ReachedAll(frames[1..]);
      assert forall i :: 0 < i < |frames| ==> frames[i] == frames[1..][i - 1];
      assert forall i :: 0 <= i < |frames| - 1 ==> frames[1..][i] == frames[i + 1];
    }
  }

  lemma {:induction false} ReachedWithin(frames: seq<Frame>)
    ensures WithinLimit(frames[..Reached(frames)])
    ensures frames != [] && |frames[0].payload| <= MAX_PAYLOAD ==> Reached(frames) >= 1
    decreases |frames|
  {
    hide Encode;
    var n := Reached(frames);
    if n > 0 {
      ReachedWithin(frames[1..]);
      forall i | 0 <= i < n ensures |frames[..n][i].payload| <= MAX_PAYLOAD {
        if i > 0 {
          assert frames[..n][i] == frames[1..][..Reached(frames[1..])][i - 1];
        }
      }
    }
  }

  predicate AllPositive(frames: seq<Frame>, replies: seq<Frame>)
  {
    |replies| == |frames| && forall i :: 0 <= i < |frames| ==> Positive(replies[i], frames[i].requestId)
  }

  /** Whether the last of the frames leaves an empty read behind. */
  predicate EndsQuietly(frames: seq<Frame>)
  {
    frames != [] ==> (HEADER_SIZE + |frames[|frames| - 1].payload|) % IO_CHUNK != 0
  }

  /** A conversation whose requests are answered positively as far as they get is over exactly at the first
      that stalls it or is too large; after a complete one the next can follow. */
  lemma {:induction false} ConverseServes(w: World, frames: seq<Frame>, answers: seq<Answers>, mps: nat)
    requires PacketSize(mps) && Quiet(w) && AllUploads(frames) && |answers| >= |frames|
    requires var front := frames[..Reached(frames)];
             AllPositive(front, Serve(w.device.store, front, answers).1)
    ensures var (ok, after) := Converse(w, frames, answers, mps);
            var n := Reached(frames);
            && (ok <==> n == |frames|)
            && after.device.store == Serve(w.device.store, frames[..n], answers).0
            && (ok && EndsQuietly(frames) ==> Quiet(after))
            && (!ok ==> Shut(after) || |frames[n].payload| >= U32_MODULUS)
    decreases |frames|
  {
    hide HandleUpload, Exchange, Encode, Quiet, Spoiled, Shut, Positive, IsUpload;
    if frames != [] {
      var f, st, n := frames[0], w.device.store, Reached(frames);
      if |f.payload| >= U32_MODULUS {
        Unencodable(w, f, answers[0], mps);
      } else if |f.payload| > MAX_PAYLOAD {
        ExchangeRefused(w, f, answers[0], mps);
      } else {
        FrontServed(st, frames, answers, n);
        ExchangeServes(w, f, answers[0], mps);
        var after := Exchange(w, f, answers[0], mps).1;
        if |Encode(f)| % IO_CHUNK != 0 {
          ConverseServes(after, frames[1..], answers[1..], mps);
          assert |frames| > 1 ==> frames[1..][|frames| - 2] == frames[|frames| - 1];
        } else if |frames| > 1 {
          SpoiledFails(after, frames[1..], answers[1..], mps);
        }
      }
    }
  }

  lemma Unencodable(w: World, f: Frame, a: Answers, mps: nat)
    requires PacketSize(mps) && |f.payload| >= U32_MODULUS
    ensures Exchange(w, f, a, mps) == (false, w)
  {
  }

  lemma SpoiledFails(w: World, frames: seq<Frame>, answers: seq<Answers>, mps: nat)
    requires PacketSize(mps) && Spoiled(w) && |answers| >= |frames| && frames != []
    ensures var (ok, after) := Converse(w, frames, answers, mps);
            !ok && after.device.store == w.device.store && (Shut(after) || |frames[0].payload| >= U32_MODULUS)
  {
    hide Exchange, Spoiled, Shut;
    if |frames[0].payload| >= U32_MODULUS {
      Unencodable(w, frames[0], answers[0], mps);
    } else {
      ExchangeFails(w, frames[0], answers[0], mps);
    }
  }

  /** The first of `n` served requests, and the others. */
  lemma FrontServed(st: Store, frames: seq<Frame>, answers: seq<Answers>, n: nat)
    requires AllUploads(frames) && |answers| >= |frames| && 1 <= n <= |frames|
    requires AllPositive(frames[..n], Serve(st, frames[..n], answers).1)
    ensures var (next, reply) := HandleUpload(st, frames[0], answers[0]);
            && Positive(reply, frames[0].requestId) && AllUploads(frames[1..])
            && Serve(st, frames[..n], answers).0 == Serve(next, frames[1..][..n - 1], answers[1..]).0
            && AllPositive(frames[1..][..n - 1], Serve(next, frames[1..][..n - 1], answers[1..]).1)
    ensures n == 1 ==> Serve(st, frames[..n], answers).0 == HandleUpload(st, frames[0], answers[0]).0
  {
    hide HandleUpload, Positive;
    var next, reply := HandleUpload(st, frames[0], answers[0]).0, HandleUpload(st, frames[0], answers[0]).1;
    var front, rest := frames[..n], frames[1..][..n - 1];
    assert front[0] == frames[0] && front[1..] == rest;
    var replies := Serve(st, front, answers).1;
    assert replies[0] == reply && replies[1..] == Serve(next, rest, answers[1..]).1;
    assert Positive(replies[0], front[0].requestId);
    forall i | 0 <= i < |rest| ensures Positive(replies[1..][i], rest[i].requestId) {
      assert Positive(replies[i + 1], front[i + 1].requestId);
    }
  }

  // ---- When an upload goes through -----------------------------------------------------------

  /** The frame of a chunk of `n` bytes is acceptable and not a multiple of 16 KiB long. */
  predicate ChunkFlows(n: nat)
  {
    4 + n <= MAX_PAYLOAD && (HEADER_SIZE + 4 + n) % IO_CHUNK != 0
  }

  /** The chunks of `length` bytes in pieces of `n`: the full ones and the last one, or all in one. */
  predicate SizesFlow(length: nat, n: int)
  {
    if n > 0 then (length >= n ==> ChunkFlows(n)) && (length % n != 0 ==> ChunkFlows(length % n))
    else n < 0 && length > 0 ==> ChunkFlows(length)
  }

  /** What the caller can compute beforehand: the sizes of BEGIN, of a full chunk and of the last one. */
  predicate Flows(p: Put)
    requires CanSend(p)
  {
    (HEADER_SIZE + |BeginFrame(p).payload|) % IO_CHUNK != 0 && SizesFlow(|p.local|, p.chunkSize)
  }

  predicate AllFlow(pieces: seq<bytes>)
  {
    forall i :: 0 <= i < |pieces| ==> ChunkFlows(|pieces[i]|)
  }

  lemma FlowFront(piece: bytes, more: seq<bytes>)
    ensures AllFlow([piece] + more) <==> ChunkFlows(|piece|) && AllFlow(more)
  {
    hide ChunkFlows;
    var all := [piece] + more;
    assert all[0] == piece && forall i :: 0 <= i < |more| ==> all[i + 1] == more[i];
    assert forall i :: 0 < i < |all| ==> all[i] == more[i - 1];
  }

  lemma RemainderOfRest(a: nat, n: nat)
    requires 1 <= n <= a
    ensures (a - n) % n == a % n
  {
    var q := (a - n) / n;
    assert a - n == n * q + (a - n) % n;
    assert a == n * (q + 1) + (a - n) % n;
    UniqueRemainder(a, n, q + 1, (a - n) % n);
  }

  lemma UniqueRemainder(a: nat, n: nat, q: nat, r: nat)
    requires n >= 1 && a == n * q + r && r < n
    ensures a % n == r
  {
    var d := q - a / n;
    assert n * d == a % n - r;
    Grows(n, d);
  }

  lemma Grows(n: int, d: int)
    requires n >= 1
    ensures d >= 1 ==> n * d >= n
    ensures d <= -1 ==> n * d <= -n
  {
  }

  /** One more full piece. */
  lemma SizesStep(length: nat, n: nat)
    requires 1 <= n <= length
    ensures SizesFlow(length, n) <==> ChunkFlows(n) && SizesFlow(length - n, n)
  {
    hide ChunkFlows;
    RemainderOfRest(length, n);
  }

  lemma SizesEnd(length: nat, n: int)
    requires n != 0 && (n < 0 || length < n)
    ensures SizesFlow(length, n) <==> (length > 0 ==> ChunkFlows(length))
  {
    hide ChunkFlows;
    if n > 0 {
      UniqueRemainder(length, n, 0, length);
    }
  }

  lemma {:induction false} PiecesFlow(local: bytes, n: int)
    ensures AllFlow(Pieces(local, n)) <==> SizesFlow(|local|, n)
    decreases |local|
  {
    hide ChunkFlows, SizesFlow;
    var piece := ReadPiece(local, n);
    if n == 0 {
      NoSizes(|local|);
    } else if n < 0 || |local| < n {
      SizesEnd(|local|, n);
      if local != [] {
        assert Pieces(local[|piece|..], n) == [];
        FlowFront(piece, []);
      }
    } else {
      FlowFront(piece, Pieces(local[n..], n));
      PiecesFlow(local[n..], n);
      SizesStep(|local|, n);
    }
  }

  lemma NoSizes(length: nat)
    ensures SizesFlow(length, 0)
  {
  }

  /** Frames that leave nothing behind. */
  predicate AllFramesFlow(frames: seq<Frame>)
  {
    forall i :: 0 <= i < |frames| ==>
      |frames[i].payload| <= MAX_PAYLOAD && (HEADER_SIZE + |frames[i].payload|) % IO_CHUNK != 0
  }

  lemma StallsButLast(front: seq<Frame>, last: Frame)
    requires |last.payload| <= MAX_PAYLOAD
    ensures NoneStalls(front + [last]) <==> AllFramesFlow(front)
  {
    var all := front + [last];
    assert forall i :: 0 <= i < |front| ==> all[i] == front[i];
  }

  lemma ChunksFlow(rid: u32, pieces: seq<bytes>)
    ensures AllFramesFlow(ChunkFrames(rid, pieces)) <==> AllFlow(pieces)
  {
    var frames := ChunkFrames(rid, pieces);
    hide Le32;
    forall i | 0 <= i < |pieces|
      ensures ChunkFlows(|pieces[i]|)
              <==> |frames[i].payload| <= MAX_PAYLOAD && (HEADER_SIZE + |frames[i].payload|) % IO_CHUNK != 0
    {
      assert |frames[i].payload| == 4 + |pieces[i]|;
    }
  }

  lemma FirstFlows(first: Frame, more: seq<Frame>)
    requires |first.payload| <= MAX_PAYLOAD
    ensures AllFramesFlow([first] + more) <==> (HEADER_SIZE + |first.payload|) % IO_CHUNK != 0 && AllFramesFlow(more)
  {
    var all := [first] + more;
    assert all[0] == first && forall i :: 0 <= i < |more| ==> all[i + 1] == more[i];
    assert forall i :: 0 < i < |all| ==> all[i] == more[i - 1];
  }

  lemma FlowsExact(p: Put)
    requires CanSend(p)
    ensures NoneStalls(PutFrames(p)) <==> Flows(p)
  {
    hide EncodeKvHost, Le32, Pieces, SizesFlow, NoneStalls, AllFramesFlow, AllFlow, ChunkFrames;
    var chunks := ChunkFrames(p.rid, Pieces(p.local, p.chunkSize));
    BeginFits(p);
    PiecesFlow(p.local, p.chunkSize);
    ChunksFlow(p.rid, Pieces(p.local, p.chunkSize));
    FirstFlows(BeginFrame(p), chunks);
    StallsButLast([BeginFrame(p)] + chunks, EndFrame(p.rid));
  }

  lemma PositiveReplies(p: Put, k: nat)
    requires CanSend(p) && 1 <= k <= |PutFrames(p)|
    ensures AllPositive(PutFrames(p)[..k], [BeganReply(p.rid)] + seq(k - 1, _ => OkReply(p.rid)))
  {
    hide EncodeKvHost, KvReply, PutFrames;
  }

  /** BEGIN is served and END ends quietly. */
  lemma PutEnds(p: Put)
    requires CanSend(p)
    ensures Reached(PutFrames(p)) >= 1 && EndsQuietly(PutFrames(p)) && |PutFrames(p)| >= 1
  {
    hide *;
    BeginFits(p);
    ReachedWithin(PutFrames(p));
    FirstAndLast(p);
    EndIsShort(PutFrames(p), p.rid);
  }

  lemma FirstAndLast(p: Put)
    requires CanSend(p)
    ensures var frames := PutFrames(p);
            |frames| >= 2 && frames[0] == BeginFrame(p) && frames[|frames| - 1] == EndFrame(p.rid)
  {
    hide EncodeKvHost, Le32, Pieces;
  }

  lemma EndIsShort(frames: seq<Frame>, rid: u32)
    requires frames != [] && frames[|frames| - 1] == EndFrame(rid)
    ensures EndsQuietly(frames)
  {
    hide Le32;
  }

  lemma PrefixUploads(frames: seq<Frame>, n: nat)
    requires AllUploads(frames) && n <= |frames|
    ensures AllUploads(frames[..n])
  {
    hide IsUpload;
  }

  /** Only a chunk of 4 GiB does not fit the length field. */
  lemma Encodable(p: Put, i: nat)
    requires CanSend(p) && i < |PutFrames(p)| && |PutFrames(p)[i].payload| >= U32_MODULUS
    ensures |p.local| + 4 >= U32_MODULUS
  {
    BeginFits(p);
    FirstAndLast(p);
    SplitFrames(p);
    PiecesShape(p.local, p.chunkSize);
    hide EncodeKvHost, Le32, Pieces, PutFrames, CanSend, BeginFrame;
    if 1 <= i <= |Pieces(p.local, p.chunkSize)| {
      ChunkAt(p, i - 1);
    }
  }

  /** What the device holds of an upload that did not complete. */
  function Arrived(p: Put): bytes
    requires CanSend(p)
  {
    var n := Reached(PutFrames(p));
    var pieces := Pieces(p.local, p.chunkSize);
    if 1 <= n <= |pieces| + 1 then Concat(pieces[..n - 1]) else []
  }

  /** The simple store with the upload `p` under way after the first answers `answers`. */
  function UnderWay(a: Atomic, p: Put, answers: Answers, sd: bool): Atomic
    requires CanSend(p) && PutTarget(p, sd).Some? && ModeOf(p).Some?
  {
    BegunAs(Cleaned(a, p, answers), p, PutTarget(p, sd).value, Arrived(p))
  }

  /** The end-to-end theorem over USB: the upload completes, leaves exactly the bytes sent and a connection
      that is ready for the next, if and only if no request is above 8 MiB and none but the last is a
      multiple of 16 KiB long.  Otherwise the device closes its endpoints (or a chunk of 4 GiB is never
      sent), the session stays open with the chunks taken, and the final path is untouched. */
  lemma UploadOverUsb(w: World, a: Atomic, p: Put, sd: bool, answers: seq<Answers>, mps: nat)
    requires PacketSize(mps) && Quiet(w) && CanSend(p) && Ready(w.device.store, a, p, sd)
    requires |answers| >= |PutFrames(p)| && AllSucceed(answers, sd)
    ensures var (ok, after) := Converse(w, PutFrames(p), answers, mps);
            var st, final := after.device.store, PutTarget(p, sd).value;
            && (ok <==> Flows(p)) && Keeps(w.device.store.fs, st.fs)
            && (ok ==> Quiet(after) && Uploaded(st, Cleaned(a, p, answers[0]), p, final))
            && (!ok ==> && (Shut(after) || |p.local| + 4 >= U32_MODULUS)
                        && Uploading(st, UnderWay(a, p, answers[0], sd), p, final, Arrived(p))
                        && Find(st.slots, p.rid) < MAX_SESSIONS && Content(st.fs, final + PART) == Some(Arrived(p))
                        && (!IsPrivate(a.open, final) ==> Content(st.fs, final) == Content(w.device.store.fs, final)))
  {
    hide *;
    var frames := PutFrames(p);
    var n := Reached(frames);
    PutEnds(p);
    ReachedWithin(frames);
    SplitFrames(p);
    assert frames[..|frames|] == frames;
    if n == |frames| {
      UploadServed(w.device.store, a, p, sd, answers);
    } else {
      UploadCutShort(w.device.store, a, p, sd, answers, n);
      GotSoFar(a, p, answers[0], sd);
    }
    PositiveReplies(p, n);
    ConverseServes(w, frames, answers, mps);
    if n < |frames| && |frames[n].payload| >= U32_MODULUS {
      Encodable(p, n);
    }
    PrefixUploads(frames, n);
    ServeKeeps(w.device.store, frames[..n], answers);
    ReachedAll(frames);
    FlowsExact(p);
  }

  lemma GotSoFar(a: Atomic, p: Put, answers: Answers, sd: bool)
    requires CanSend(p) && 1 <= Reached(PutFrames(p)) < |PutFrames(p)|
    ensures |PutFrames(p)| == |Pieces(p.local, p.chunkSize)| + 2
    ensures Arrived(p) == Concat(Pieces(p.local, p.chunkSize)[..Reached(PutFrames(p)) - 1])
    ensures PutTarget(p, sd).Some? && ModeOf(p).Some? ==>
              UnderWay(a, p, answers, sd) == BegunAs(Cleaned(a, p, answers), p, PutTarget(p, sd).value, Arrived(p))
  {
    SplitFrames(p);
    hide Reached, PutFrames, Pieces, EncodeKvHost, BegunAs, PutTarget, ModeOf;
  }

  // ---- Which requests are answered -----------------------------------------------------------

  lemma {:induction false} ReachedOfFront(frames: seq<Frame>, k: nat)
    requires k <= |frames|
    ensures Reached(frames[..k]) == if k <= Reached(frames) then k else Reached(frames)
    decreases |frames|
  {
    hide Encode;
    if k > 0 {
      ReachedOfFront(frames[1..], k - 1);
      assert frames[..k][0] == frames[0] && frames[..k][1..] == frames[1..][..k - 1];
    }
  }

  lemma WithinFront(frames: seq<Frame>, m: nat, n: nat)
    requires m <= n <= |frames| && WithinLimit(frames[..n])
    ensures WithinLimit(frames[..m])
  {
    forall i | 0 <= i < m ensures |frames[..m][i].payload| <= MAX_PAYLOAD {
      assert frames[..m][i] == frames[..n][i];
    }
  }

  /** The requests of an upload that are within the limit are answered positively. */
  lemma FrontPositive(st: Store, a: Atomic, p: Put, sd: bool, answers: seq<Answers>, m: nat)
    requires CanSend(p) && Ready(st, a, p, sd) && 1 <= m <= |PutFrames(p)| && WithinLimit(PutFrames(p)[..m])
    requires |answers| >= |PutFrames(p)| && AllSucceed(answers, sd)
    ensures AllPositive(PutFrames(p)[..m], Serve(st, PutFrames(p)[..m], answers).1)
  {
    hide *;
    PositiveReplies(p, m);
    if m == |PutFrames(p)| {
      assert PutFrames(p)[..m] == PutFrames(p);
      UploadServed(st, a, p, sd, answers);
    } else {
      UploadCutShort(st, a, p, sd, answers, m);
    }
  }

  lemma NothingAsked(w: World, frames: seq<Frame>, answers: seq<Answers>, mps: nat)
    requires PacketSize(mps)
    ensures Converse(w, frames[..0], answers, mps) == (true, w)
  {
  }

  /** Exactly which requests of an upload are answered: the first `Reached` of them, and no more. */
  lemma AnsweredExactly(w: World, a: Atomic, p: Put, sd: bool, answers: seq<Answers>, mps: nat, k: nat)
    requires PacketSize(mps) && Quiet(w) && CanSend(p) && Ready(w.device.store, a, p, sd)
    requires |answers| >= |PutFrames(p)| && AllSucceed(answers, sd) && k <= |PutFrames(p)|
    ensures Converse(w, PutFrames(p)[..k], answers, mps).0 <==> k <= Reached(PutFrames(p))
  {
    hide *;
    var frames := PutFrames(p);
    var n := Reached(frames);
    if k == 0 {
      NothingAsked(w, frames, answers, mps);
    } else {
      PutEnds(p);
      ReachedWithin(frames);
      ReachedOfFront(frames, k);
      var m := if k <= n then k else n;
      WithinFront(frames, m, n);
      FrontPositive(w.device.store, a, p, sd, answers, m);
      PrefixUploads(frames, k);
      assert frames[..k][..m] == frames[..m];
      ConverseServes(w, frames[..k], answers, mps);
    }
  }
}
