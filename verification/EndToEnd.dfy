/** Whole uploads: from the client's frames to the file on the device, through the event loop. */
module EndToEnd {
  import opened Bytes
  import opened FrameCodec
  import opened UsbTransport
  import opened Reassembly
  import opened HostClient
  import opened Uploads
  import opened UploadIsolation
  import opened Handlers
  import opened Responder
  import opened UploadSequence

  // ---- Over any byte stream ------------------------------------------------------------------

  /** The loop finds the OUT endpoint readable and nothing to do on the control endpoint. */
  predicate ReadyTurn(t: Turn)
  {
    t.Polled? && t.ep0.None? && t.outReady && t.arriving == []
  }

  predicate AllReady(turns: seq<Turn>)
  {
    forall i :: 0 <= i < |turns| ==> ReadyTurn(turns[i])
  }

  function AnswersOf(turns: seq<Turn>): (r: seq<Answers>)
    requires AllReady(turns)
    ensures |r| == |turns|
  {
    seq(|turns|, i requires 0 <= i < |turns| => turns[i].answers)
  }

  predicate Live(s: Io)
  {
    s.enabled && s.inOpen && s.outOpen
  }

  /** A turn of the live loop with nothing on the control endpoint and a readable OUT endpoint. */
  lemma LiveTurn(s: Io, t: Turn, mps: nat)
    requires PacketSize(mps) && Live(s) && t.Polled? && t.ep0.None? && t.outReady
    ensures var (outcome, rx) := ReadFrame(WithMore(s.rx, t.arriving));
            var (next, after) := LoopTurn(s, t, mps);
            && (outcome.Failed? ==>
                  && next.Loop? && after.store == s.store && after.wire == s.wire
                  && !after.enabled && !after.inOpen && !after.outOpen && after.rx == RxState([], false, []))
            && (outcome.Delivered? ==>
                  var (store, reply) := HandleFrame(s.store, outcome.frame, t.answers);
                  && next.Loop? && Live(after) && after.rx == rx && after.store == store
                  && after.wire == if reply.Some? then s.wire + InTransfer(Encode(reply.value), mps) else s.wire)
  {
    hide HandleFrame, ReadFrame, Encode, InTransfer, Received, Extended;
  }

  lemma UploadHandled(st: Store, f: Frame, a: Answers)
    requires IsUpload(f)
    ensures var (store, reply) := HandleUpload(st, f, a);
            |reply.payload| < 1024 && HandleFrame(st, f, a) == (store, Some(reply))
  {
    ReplyShape(st, f, a);
    hide HandleUpload;
  }

  /** One turn on a readable endpoint handles the frame in front of the stream. */
  lemma TurnServes(s: Io, f: Frame, rest: bytes, t: Turn, mps: nat)
    requires PacketSize(mps) && Live(s) && CleanEvents(s.rx.events)
    requires t.Polled? && t.ep0.None? && t.outReady && CleanEvents(t.arriving)
    requires |f.payload| <= MAX_PAYLOAD && IsUpload(f) && s.rx.Stream() + Received(t.arriving) == Encode(f) + rest
    ensures var (next, after) := LoopTurn(s, t, mps);
            var (store, reply) := HandleUpload(s.store, f, t.answers);
            && next.Loop? && Live(after) && CleanEvents(after.rx.events) && after.rx.Stream() == rest
            && after.rx == ReadFrame(WithMore(s.rx, t.arriving)).1
            && |reply.payload| < 1024
            && after.store == store && after.wire == s.wire + InTransfer(Encode(reply), mps)
  {
    hide *;
    ArrivedStream(s.rx, t.arriving);
    SimpleReadEncoded(f, rest);
    RefinesSimpleReader(WithMore(s.rx, t.arriving));
    UploadHandled(s.store, f, t.answers);
    LiveTurn(s, t, mps);
  }

  lemma ArrivedStream(st: RxState, more: seq<ReadEvent>)
    ensures WithMore(st, more).Stream() == st.Stream() + Received(more)
    ensures CleanEvents(st.events) && CleanEvents(more) ==> CleanEvents(WithMore(st, more).events)
    ensures ValidEvents(st.events) && ValidEvents(more) ==> ValidEvents(WithMore(st, more).events)
  {
    ReceivedAppend(st.events, more);
  }

  /** A stream of requests is served frame by frame, however it is cut into reads. */
  lemma {:induction false} LoopServes(s: Io, frames: seq<Frame>, tail: bytes, turns: seq<Turn>, mps: nat)
    requires PacketSize(mps) && Live(s) && CleanEvents(s.rx.events)
    requires AllUploads(frames) && WithinLimit(frames) && s.rx.Stream() == EncodeAll(frames) + tail
    requires |turns| == |frames| && AllReady(turns)
    ensures var (next, after) := LoopRun(s, turns, mps);
            var (store, replies) := Serve(s.store, frames, AnswersOf(turns));
            && next.Loop? && Live(after) && CleanEvents(after.rx.events) && after.rx.Stream() == tail
            && after.store == store && |replies| == |frames| && WithinLimit(replies)
            && after.wire == s.wire + InAll(replies, mps)
    decreases |frames|
  {
    hide HandleUpload, Encode, InTransfer, LoopTurn, RxState.Stream, CleanEvents, Live, IsUpload, ReadyTurn,
         Serve, EncodeAll, AllReady, AllUploads, WithinLimit, AnswersOf, LoopRun, InAll;
    if frames == [] {
      NoFrames(s, turns, mps);
      assert [] + tail == tail && s.wire + [] == s.wire;
    } else {
      FrontFrame(s, frames, turns, mps);
      var rest := EncodeAll(frames[1..]) + tail;
      Assoc(Encode(frames[0]), EncodeAll(frames[1..]), tail);
      NothingArrives(s.rx, turns[0]);
      TurnServes(s, frames[0], rest, turns[0], mps);
      var after := LoopTurn(s, turns[0], mps).1;
      LoopServes(after, frames[1..], tail, turns[1..], mps);
      var reply := HandleUpload(s.store, frames[0], turns[0].answers).1;
      var more := Serve(after.store, frames[1..], AnswersOf(turns[1..])).1;
      InAllFront(reply, more, mps);
      Assoc(s.wire, InTransfer(Encode(reply), mps), InAll(more, mps));
    }
  }

  lemma NoFrames(s: Io, turns: seq<Turn>, mps: nat)
    requires PacketSize(mps) && turns == []
    ensures AllReady(turns) && EncodeAll([]) == [] && WithinLimit([]) && InAll([], mps) == []
    ensures LoopRun(s, turns, mps) == (Loop, s) && Serve(s.store, [], AnswersOf(turns)) == (s.store, [])
  {
  }

  /** The definitions of a non-empty run, unfolded once. */
  lemma FrontFrame(s: Io, frames: seq<Frame>, turns: seq<Turn>, mps: nat)
    requires PacketSize(mps) && AllUploads(frames) && WithinLimit(frames) && frames != []
    requires |turns| == |frames| && AllReady(turns)
    ensures AllUploads(frames[1..]) && WithinLimit(frames[1..]) && AllReady(turns[1..])
    ensures IsUpload(frames[0]) && ReadyTurn(turns[0]) && turns[0].Polled? && |frames[0].payload| <= MAX_PAYLOAD
    ensures EncodeAll(frames) == Encode(frames[0]) + EncodeAll(frames[1..])
    ensures LoopTurn(s, turns[0], mps).0.Loop? ==>
              LoopRun(s, turns, mps) == LoopRun(LoopTurn(s, turns[0], mps).1, turns[1..], mps)
    ensures var (next, reply) := HandleUpload(s.store, frames[0], turns[0].answers);
            var (last, more) := Serve(next, frames[1..], AnswersOf(turns[1..]));
            Serve(s.store, frames, AnswersOf(turns)) == (last, [reply] + more)
  {
    hide HandleUpload, Encode, LoopTurn;
    ReadyAnswers(turns);
  }

  lemma NothingArrives(st: RxState, t: Turn)
    requires ReadyTurn(t)
    ensures t.Polled? && t.ep0.None? && t.outReady && CleanEvents(t.arriving)
    ensures st.Stream() + Received(t.arriving) == st.Stream()
  {
  }

  lemma ReadyAnswers(turns: seq<Turn>)
    requires AllReady(turns) && turns != []
    ensures turns[0].Polled? && AllReady(turns[1..])
    ensures AnswersOf(turns)[0] == turns[0].answers && AnswersOf(turns)[1..] == AnswersOf(turns[1..])
  {
  }

  lemma InAllFront(f: Frame, more: seq<Frame>, mps: nat)
    requires PacketSize(mps) && |f.payload| <= MAX_PAYLOAD && WithinLimit(more)
    ensures WithinLimit([f] + more) && InAll([f] + more, mps) == InTransfer(Encode(f), mps) + InAll(more, mps)
  {
    hide Encode, InTransfer;
    assert ([f] + more)[1..] == more;
  }

  lemma FirstAnswers(turns: seq<Turn>)
    requires AllReady(turns) && turns != []
    ensures turns[0].Polled? && AnswersOf(turns)[0] == turns[0].answers
  {
  }

  /** The end-to-end theorem over a byte stream: however the requests of an upload, all of acceptable size,
      are cut into reads, the device is left with exactly the bytes sent, which are the local file unless
      the chunk size is zero, and the host reads exactly the positive replies. */
  lemma UploadOverStream(s: Io, a: Atomic, p: Put, sd: bool, turns: seq<Turn>, mps: nat)
    requires PacketSize(mps) && Live(s) && CleanEvents(s.rx.events) && AtMostOneZlp(s.wire)
    requires CanSend(p) && WithinLimit(PutFrames(p)) && s.rx.Stream() == EncodeAll(PutFrames(p))
    requires |turns| == |PutFrames(p)| && AllReady(turns)
    requires Ready(s.store, a, p, sd) && AllSucceed(AnswersOf(turns), sd)
    ensures var (next, after) := LoopRun(s, turns, mps);
            && next.Loop? && after.rx.Stream() == []
            && Uploaded(after.store, Cleaned(a, p, turns[0].answers), p, PutTarget(p, sd).value)
            && RecvFrames(HostState([], after.wire), |turns|, mps).0
               == Replies([BeganReply(p.rid)] + seq(|turns| - 1, _ => OkReply(p.rid)))
  {
    hide *;
    SplitFrames(p);
    FirstAnswers(turns);
    UploadServed(s.store, a, p, sd, AnswersOf(turns));
    assert EncodeAll(PutFrames(p)) + [] == EncodeAll(PutFrames(p));
    LoopServes(s, PutFrames(p), [], turns, mps);
    PipelinedRun(Serve(s.store, PutFrames(p), AnswersOf(turns)).1, s.wire, mps);
  }
}
