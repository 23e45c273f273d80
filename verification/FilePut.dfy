/** `file_put` as the host runs it, against the device's event loop in memory. */
module FilePut {
  import opened Bytes
  import opened FrameCodec
  import opened KvCodec
  import opened UsbTransport
  import opened Reassembly
  import opened HostClient
  import opened Handlers
  import opened Responder
  import opened UploadSequence
  import opened UsbUpload
  import opened UploadOutcome
  import opened FileSystem
  import opened UploadIsolation

  /** The requests still to be sent when `file` is what is left of the local file. */
  function Rest(rid: u32, file: bytes, chunkSize: int): seq<Frame>
  {
    ChunkFrames(rid, Pieces(file, chunkSize)) + [EndFrame(rid)]
  }

  lemma PieceTaken(rid: u32, file: bytes, chunkSize: int)
    ensures var piece := ReadPiece(file, chunkSize);
            Rest(rid, file, chunkSize)
            == if piece == [] then [EndFrame(rid)]
               else [ChunkFrame(rid, piece)] + Rest(rid, file[|piece|..], chunkSize)
  {
    hide Le32;
    var piece := ReadPiece(file, chunkSize);
    if piece != [] {
      var more := Pieces(file[|piece|..], chunkSize);
      assert ChunkFrames(rid, [piece] + more) == [ChunkFrame(rid, piece)] + ChunkFrames(rid, more);
      assert [ChunkFrame(rid, piece)] + ChunkFrames(rid, more) + [EndFrame(rid)]
          == [ChunkFrame(rid, piece)] + (ChunkFrames(rid, more) + [EndFrame(rid)]);
    }
  }

  lemma {:induction false} PieceCount(file: bytes, chunkSize: int)
    ensures |Pieces(file, chunkSize)| <= |file|
    decreases |file|
  {
    var piece := ReadPiece(file, chunkSize);
    if piece != [] {
      PieceCount(file[|piece|..], chunkSize);
    }
  }

  lemma AllFrames(p: Put)
    requires CanSend(p)
    ensures PutFrames(p) == [BeginFrame(p)] + Rest(p.rid, p.local, p.chunkSize)
    ensures |Rest(p.rid, p.local, p.chunkSize)| <= |p.local| + 1
  {
    SplitFrames(p);
    PieceCount(p.local, p.chunkSize);
    hide EncodeKvHost, Pieces;
  }

  /** One more exchange of a conversation. */
  lemma OneMore(w: World, f: Frame, more: seq<Frame>, answers: seq<Answers>, i: nat, mps: nat)
    requires PacketSize(mps) && i + |more| < |answers|
    ensures var (ok, next) := Exchange(w, f, answers[i], mps);
            Converse(w, [f] + more, answers[i..], mps)
            == if ok then Converse(next, more, answers[i + 1..], mps) else (false, next)
  {
    hide Exchange;
    assert ([f] + more)[1..] == more && answers[i..][1..] == answers[i + 1..];
  }

  lemma RequestIsValid(f: Frame, mps: nat)
    requires PacketSize(mps) && |f.payload| < U32_MODULUS
    ensures ValidEvents(Arriving(f, mps))
  {
    var data := ArrivingEvents(f, mps);
    hide Arriving, Encode;
  }

  /** A client and a device on the two ends of one link. */
  class Session {
    const client: Client
    const device: Runtime

    ghost predicate Valid()
      reads device, device.rx, device.files, client.link
    {
      client.link == device.link && device.Valid() && client.link.outPackets == []
    }

    ghost function State(): World
      requires Valid()
      reads device, device.rx, device.rx.rxBuf, device.files, device.files.sessions, client, client.link
    {
      World(client.rxbuf, device.State())
    }

    constructor (client: Client, device: Runtime)
      requires client.link == device.link && device.Valid() && client.link.outPackets == []
      ensures this.client == client && this.device == device && Valid()
    {
      this.client := client;
      this.device := device;
    }

    /** `_send_frame`, the device's turn, and `_expect_kv`. */
    method Request(f: Frame, a: Answers) returns (ok: bool)
      requires Valid()
      modifies client`rxbuf, client.link, device, device.rx, device.rx.rxBuf, device.files, device.files.sessions
      ensures Valid() && (device.rx.rxBuf == old(device.rx.rxBuf) || fresh(device.rx.rxBuf))
      ensures (ok, State()) == Exchange(old(State()), f, a, client.link.mps)
      ensures Quiet(old(State())) && IsUpload(f) && |f.payload| <= MAX_PAYLOAD ==>
                (ok <==> HandleUpload(old(State()).device.store, f, a).1.typ == 2)
    {
      hide LoopTurn, RecvFrame, Encode, OutTransfer, DeviceReads, Expected, HandleUpload, Quiet, IsUpload;
      ghost var before := State();
      if Quiet(before) && IsUpload(f) && |f.payload| <= MAX_PAYLOAD {
        ExchangeExactly(before, f, a, client.link.mps);
      }
      if |f.payload| >= U32_MODULUS {
        return false;
      }
      client.SendFrame(f);
      assert [] + OutTransfer(Encode(f), client.link.mps) == OutTransfer(Encode(f), client.link.mps);
      var arriving := EventsOf(DeviceReads(client.link.outPackets, client.link.mps));
      client.link.outPackets := [];
      RequestIsValid(f, client.link.mps);
      var next := device.Step(Polled(None, false, false, arriving, true, false, a));
      var reply := client.DoRecvFrame();
      ok := Expected(reply, f.requestId);
    }

    /** `file_put`: BEGIN, the pieces of the local file, END, each answered before the next is sent. */
    method FilePut(path: bytes, desire: bytes, perm: bytes, local: bytes, chunkSize: int, answers: seq<Answers>)
      returns (ok: bool)
      requires Valid() && |answers| >= |local| + 2
      modifies client, client.link, device, device.rx, device.rx.rxBuf, device.files, device.files.sessions
      ensures Valid() && client.req == NextId(old(client.req))
      ensures var p := Put(client.req, path, desire, perm, local, chunkSize);
              if CanSend(p)
              then |answers| >= |PutFrames(p)|
                   && (ok, State()) == Converse(old(State()), PutFrames(p), answers, client.link.mps)
              else !ok && State() == old(State())
      ensures ok && Quiet(old(State())) ==>
                var p := Put(client.req, path, desire, perm, local, chunkSize);
                Honest(old(State()), p, answers[0].env.sdMounted, State())
    {
      hide Honest, Quiet, Encode, HandleUpload, IsUpload, ValidEvents;
      hide Exchange, Pieces, ReadPiece, Le32, EncodeKvHost, Converse, Rest, PutFrames;
      ghost var first, mps := State(), client.link.mps;
      var rid := client.TakeId();
      var items := Items(Put(rid, path, desire, perm, local, chunkSize));
      var begin := EncodeKvHost(items);
      if begin.None? {
        return false;
      }
      ghost var p := Put(rid, path, desire, perm, local, chunkSize);
      AllFrames(p);
      OneMore(first, BeginFrame(p), Rest(rid, local, chunkSize), answers, 0, mps);
      assert answers[0..] == answers;
      ok := Request(Frame(MSG_PUT_BEGIN, 0, rid, begin.value), answers[0]);
      if !ok {
        return;
      }
      var file, i := local, 1;
      while true
        invariant Valid() && (device.rx.rxBuf == old(device.rx.rxBuf) || fresh(device.rx.rxBuf))
        invariant client.req == rid && 1 <= i && i + |Rest(rid, file, chunkSize)| <= |answers|
        invariant Converse(State(), Rest(rid, file, chunkSize), answers[i..], mps)
               == Converse(first, PutFrames(p), answers, mps)
        decreases |file|
      {
        var piece := ReadPiece(file, chunkSize);
        PieceTaken(rid, file, chunkSize);
        if piece == [] {
          break;
        }
        OneMore(State(), ChunkFrame(rid, piece), Rest(rid, file[|piece|..], chunkSize), answers, i, mps);
        ok := Request(Frame(MSG_PUT_CHUNK, 0, rid, Le32(rid) + piece), answers[i]);
        if !ok {
          return;
        }
        file := file[|piece|..];
        i := i + 1;
      }
      OneMore(State(), EndFrame(rid), [], answers, i, mps);
      assert [EndFrame(rid)] + [] == [EndFrame(rid)];
      ok := Request(Frame(MSG_PUT_END, 0, rid, Le32(rid)), answers[i]);
      NoMore(State(), answers[i + 1..], mps);
      if ok && Quiet(first) {
        SuccessIsHonest(first, p, answers, mps);
      }
    }
  }

  lemma NoMore(w: World, answers: seq<Answers>, mps: nat)
    requires PacketSize(mps)
    ensures Converse(w, [], answers, mps) == (true, w)
  {
  }
}
