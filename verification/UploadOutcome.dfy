/** What a success that the host reports is worth, whatever the device's system calls answer. */
module UploadOutcome {
  import opened Bytes
  import opened FrameCodec
  import opened KvCodec
  import opened UsbTransport
  import opened Reassembly
  import opened HostClient
  import opened FileSystem
  import opened Uploads
  import opened UploadTable
  import opened UploadIsolation
  import opened Handlers
  import opened Responder
  import opened UploadSequence
  import opened EndToEnd
  import opened UsbUpload
  import Paths

  // ---- Any conversation ----------------------------------------------------------------------

  /** Every reply is of type STATUS. */
  predicate AllStatus(replies: seq<Frame>)
  {
    forall i :: 0 <= i < |replies| ==> replies[i].typ == 2
  }

  lemma FirstServed(st: Store, frames: seq<Frame>, answers: seq<Answers>)
    requires AllUploads(frames) && |answers| >= |frames| && frames != []
    ensures IsUpload(frames[0]) && AllUploads(frames[1..])
    ensures var (next, reply) := HandleUpload(st, frames[0], answers[0]);
            && Serve(st, frames, answers).0 == Serve(next, frames[1..], answers[1..]).0
            && (AllStatus(Serve(st, frames, answers).1)
                <==> reply.typ == 2 && AllStatus(Serve(next, frames[1..], answers[1..]).1))
  {
    hide HandleUpload, IsUpload, AllStatus;
    var (next, reply) := HandleUpload(st, frames[0], answers[0]);
    AllStatusFront(reply, Serve(next, frames[1..], answers[1..]).1);
  }

  lemma AllStatusFront(reply: Frame, more: seq<Frame>)
    ensures AllStatus([reply] + more) <==> reply.typ == 2 && AllStatus(more)
  {
    var all := [reply] + more;
    assert all[0] == reply && forall i :: 0 <= i < |more| ==> all[i + 1] == more[i];
    assert forall i :: 0 < i < |all| ==> all[i] == more[i - 1];
  }

  lemma FirstStalls(frames: seq<Frame>)
    requires frames != []
    ensures NoneStalls(frames)
            <==> && |frames[0].payload| <= MAX_PAYLOAD
                 && (|frames| == 1 || ((HEADER_SIZE + |frames[0].payload|) % IO_CHUNK != 0 && NoneStalls(frames[1..])))
  {
    var more := frames[1..];
    assert forall i :: 0 <= i < |more| ==> more[i] == frames[i + 1];
    assert forall i :: 0 < i < |frames| ==> frames[i] == more[i - 1];
  }

  lemma QuietEnd(frames: seq<Frame>)
    requires |frames| >= 2
    ensures EndsQuietly(frames) <==> EndsQuietly(frames[1..])
  {
    assert frames[1..][|frames| - 2] == frames[|frames| - 1];
  }

  lemma NoFrames(w: World, answers: seq<Answers>, mps: nat)
    requires PacketSize(mps)
    ensures Converse(w, [], answers, mps) == (true, w) && NoneStalls([])
    ensures Serve(w.device.store, [], answers) == (w.device.store, []) && AllStatus([])
  {
  }

  /** From a quiet state a conversation succeeds if and only if no request stalls it or is too large and
      every single reply of the handlers is of type STATUS. */
  lemma {:induction false} ConverseExactly(w: World, frames: seq<Frame>, answers: seq<Answers>, mps: nat)
    requires PacketSize(mps) && Quiet(w) && AllUploads(frames) && |answers| >= |frames|
    ensures var (ok, after) := Converse(w, frames, answers, mps);
            var (store, replies) := Serve(w.device.store, frames, answers);
            && (ok <==> NoneStalls(frames) && AllStatus(replies))
            && (ok ==> after.device.store == store && (frames != [] && EndsQuietly(frames) ==> Quiet(after)))
    decreases |frames|
  {
    hide HandleUpload, Exchange, Encode, Quiet, Spoiled, Shut, IsUpload, NoneStalls, AllStatus, Serve, AllUploads;
    if frames == [] {
      NoFrames(w, answers, mps);
    } else {
      var f, st := frames[0], w.device.store;
      FirstServed(st, frames, answers);
      FirstStalls(frames);
      if |f.payload| >= U32_MODULUS {
        Unencodable(w, f, answers[0], mps);
      } else if |f.payload| > MAX_PAYLOAD {
        ExchangeRefused(w, f, answers[0], mps);
      } else {
        ExchangeExactly(w, f, answers[0], mps);
        var (ok, after) := Exchange(w, f, answers[0], mps);
        if ok {
          if |frames| == 1 {
            assert frames[1..] == [];
            NoFrames(after, answers[1..], mps);
          } else {
            QuietEnd(frames);
            if |Encode(f)| % IO_CHUNK == 0 {
              SpoiledFails(after, frames[1..], answers[1..], mps);
            } else {
              ConverseExactly(after, frames[1..], answers[1..], mps);
            }
          }
        }
      }
    }
  }

  // ---- Replies and what they say about the table ---------------------------------------------

  /** A reply of type STATUS means that the table took the operation. */
  lemma BeginStatus(st: Store, p: Put, a: Answers)
    requires CanSend(p)
    ensures var (after, reply) := HandleUpload(st, BeginFrame(p), a);
            var (began, ok) := Begin(st, p.rid, CString(p.path), Seen(p.desire), Seen(p.perm), a.env);
            after == began && (reply.typ == 2 <==> ok)
  {
    hide Begin, DecodeCounted, KvGet, EncodeKvHost, CString, EncodeKv;
    BeginPayload(p);
    ItemsFound(p);
  }

  lemma ChunkStatus(st: Store, rid: u32, piece: bytes, a: Answers)
    ensures var (after, reply) := HandleUpload(st, ChunkFrame(rid, piece), a);
            var (longer, ok) := Append(st, rid, piece, a.env);
            after == longer && (reply.typ == 2 <==> ok)
  {
    ChunkParts(rid, piece);
    hide Append, EncodeKv, Le32, TransferId, ChunkData;
  }

  lemma EndStatus(st: Store, rid: u32, a: Answers)
    ensures var (after, reply) := HandleUpload(st, EndFrame(rid), a);
            var (ended, outcome) := Finish(st, rid, a.env);
            after == ended && (reply.typ == 2 <==> outcome.Published?)
  {
    ChunkParts(rid, []);
    hide Finish, EncodeKv, Le32, TransferId;
  }

  // ---- One upload ----------------------------------------------------------------------------

  /** The upload `p` is open with `got` in its private file. */
  ghost predicate Holding(st: Store, a: Atomic, p: Put, final: bytes, got: bytes)
  {
    Refines(st, a) && p.rid in a.open && ModeOf(p).Some? && a.open[p.rid] == Upload(final, ModeOf(p).value, got)
  }

  /** The names that `p` would work on are apart from those of the other open uploads. */
  predicate OnItsOwn(a: Atomic, p: Put, sd: bool)
  {
    PutTarget(p, sd).Some? ==> Apart(a.open, p.rid, PutTarget(p, sd).value)
  }

  lemma BeginTaken(st: Store, a: Atomic, p: Put, answers: Answers)
    requires CanSend(p) && Refines(st, a) && OnItsOwn(a, p, answers.env.sdMounted)
    requires HandleUpload(st, BeginFrame(p), answers).1.typ == 2
    ensures var target := PutTarget(p, answers.env.sdMounted);
            && target.Some? && ModeOf(p).Some?
            && Holding(HandleUpload(st, BeginFrame(p), answers).0,
                       BegunAs(Cleaned(a, p, answers), p, target.value, []), p, target.value, [])
  {
    BeginStatus(st, p, answers);
    hide Target, PermOf, Begin, EncodeKvHost, Refines, Dropped, CString, HandleUpload, BeginFrame, Open, Abort;
    OpenedSlot(Abort(st, p.rid, answers.env).0, p.rid, CString(p.path), Seen(p.desire), Seen(p.perm), answers.env);
    BeginRefines(st, a, BeginOf(p), answers.env);
  }

  /** An accepted chunk was taken whole. */
  lemma AppendTaken(st: Store, a: Atomic, id: u32, piece: bytes, env: Env)
    requires Refines(st, a) && Append(st, id, piece, env).1
    ensures OutcomeOf(st, AppendOp(id, piece), env) == Appended(true, piece)
  {
    hide Refines, WriteAt;
    assert piece[..|piece|] == piece;
  }

  lemma ChunkTaken(st: Store, a: Atomic, p: Put, final: bytes, got: bytes, piece: bytes, answers: Answers)
    requires Holding(st, a, p, final, got) && HandleUpload(st, ChunkFrame(p.rid, piece), answers).1.typ == 2
    ensures Holding(HandleUpload(st, ChunkFrame(p.rid, piece), answers).0,
                    BegunAs(a, p, final, got + piece), p, final, got + piece)
  {
    ChunkStatus(st, p.rid, piece, answers);
    hide Append, Refines, PermOf, HandleUpload, OutcomeOf;
    AppendTaken(st, a, p.rid, piece, answers.env);
    AppendRefines(st, a, p.rid, piece, answers.env);
    assert AtomicStep(a, AppendOp(p.rid, piece), Appended(true, piece)).open == BegunAs(a, p, final, got + piece).open;
  }

  lemma {:induction false} ChunksTaken(
      st: Store, a: Atomic, p: Put, final: bytes, got: bytes, pieces: seq<bytes>, answers: seq<Answers>)
    requires Holding(st, a, p, final, got) && |answers| >= |pieces|
    requires AllStatus(Serve(st, ChunkFrames(p.rid, pieces), answers).1)
    ensures Holding(Serve(st, ChunkFrames(p.rid, pieces), answers).0,
                    BegunAs(a, p, final, got + Concat(pieces)), p, final, got + Concat(pieces))
    decreases |pieces|
  {
    hide HandleUpload, Holding, AllStatus, ModeOf;
    HoldingMode(st, a, p, final, got);
    if pieces == [] {
      assert got + [] == got;
      assert BegunAs(a, p, final, got).open == a.open;
    } else {
      var frames := ChunkFrames(p.rid, pieces);
      assert frames[1..] == ChunkFrames(p.rid, pieces[1..]);
      FirstServed(st, frames, answers);
      ChunkTaken(st, a, p, final, got, pieces[0], answers[0]);
      var next := HandleUpload(st, ChunkFrame(p.rid, pieces[0]), answers[0]).0;
      var begun := BegunAs(a, p, final, got + pieces[0]);
      ChunksTaken(next, begun, p, final, got + pieces[0], pieces[1..], answers[1..]);
      assert (got + pieces[0]) + Concat(pieces[1..]) == got + (pieces[0] + Concat(pieces[1..]));
      assert begun.open[p.rid := Upload(final, ModeOf(p).value, got + Concat(pieces))]
          == a.open[p.rid := Upload(final, ModeOf(p).value, got + Concat(pieces))];
    }
  }

  lemma HoldingMode(st: Store, a: Atomic, p: Put, final: bytes, got: bytes)
    requires Holding(st, a, p, final, got)
    ensures ModeOf(p).Some? && p.rid in a.open && a.open[p.rid] == Upload(final, ModeOf(p).value, got)
  {
    hide Refines, PermOf;
  }

  /** What an END that reports success has done to the names. */
  lemma FinishedNames(st: Store, a: Atomic, id: u32, env: Env)
    requires Refines(st, a) && id in a.open && Finish(st, id, env).1.Published?
    ensures var fs, u := Finish(st, id, env).0.fs, a.open[id];
            && u.final + PART !in fs.nodes
            && (u.perm.Some? ==> IsFile(fs, u.final) && fs.nodes[u.final].ino in fs.inodes
                                 && fs.inodes[fs.nodes[u.final].ino].mode == u.perm.value)
  {
    var i := UsedAgrees(st, a, id);
    RefinesTable(st, a);
    RefinesValid(st, a);
    var s := st.slots[i];
    assert |a.open[id].final + PART| > |a.open[id].final|;
    hide Refines, FilesAgree, ParentDirs, Find, FileSystem.Valid, Rename;
    RenameElsewhere(st.fs, s.tempPath, s.finalPath, env.renameOk);
    ChmodElsewhere(Rename(st.fs, s.tempPath, s.finalPath, env.renameOk).0, s.finalPath, s.fileMode, env.chmodOk);
    RenameKeepsInodes(st.fs, s.tempPath, s.finalPath, env.renameOk);
  }

  lemma RenameKeepsInodes(fs: FS, from: bytes, to: bytes, ok: bool)
    requires Valid(fs)
    ensures Rename(fs, from, to, ok).0.inodes == fs.inodes
    ensures var fs' := Rename(fs, from, to, ok).0;
            forall q :: IsFile(fs', q) ==> fs'.nodes[q].ino in fs'.inodes
  {
  }

  lemma EndTaken(st: Store, a: Atomic, p: Put, final: bytes, answers: Answers)
    requires Holding(st, a, p, final, Sent(p)) && HandleUpload(st, EndFrame(p.rid), answers).1.typ == 2
    ensures Uploaded(HandleUpload(st, EndFrame(p.rid), answers).0, a, p, final)
  {
    EndStatus(st, p.rid, answers);
    hide Finish, HandleUpload, PermOf, Refines, Content, IsFile, Find, IsPrivate;
    FinishRefines(st, a, p, final, answers.env);
    FinishedNames(st, a, p.rid, answers.env);
    var after := Finish(st, p.rid, answers.env).0;
    var done := Settled(a, p, final);
    var i := UsedAgrees(after, done, p.rid);
    FindBound(after, done, p.rid);
    PublishedContent(after, done, final);
  }

  /** Frames that are all answered by STATUS are an upload that arrived whole. */
  lemma {:induction false} StatusMeansUploaded(st: Store, a: Atomic, p: Put, answers: seq<Answers>)
    requires CanSend(p) && Refines(st, a) && |answers| >= |PutFrames(p)| && answers != []
    requires OnItsOwn(a, p, answers[0].env.sdMounted)
    requires AllStatus(Serve(st, PutFrames(p), answers).1)
    ensures var target := PutTarget(p, answers[0].env.sdMounted);
            && target.Some? && ModeOf(p).Some?
            && Uploaded(Serve(st, PutFrames(p), answers).0, Cleaned(a, p, answers[0]), p, target.value)
  {
    hide *;
    SplitFrames(p);
    var pieces := Pieces(p.local, p.chunkSize);
    var mid, last := ChunkFrames(p.rid, pieces), [EndFrame(p.rid)];
    AreUploads(p.rid, pieces);
    var frames := [BeginFrame(p)] + (mid + last);
    assert frames[0] == BeginFrame(p) && frames[1..] == mid + last;
    FirstServed(st, frames, answers);
    BeginTaken(st, a, p, answers[0]);
    var final := PutTarget(p, answers[0].env.sdMounted).value;
    var base := Cleaned(a, p, answers[0]);
    var begun, b := HandleUpload(st, BeginFrame(p), answers[0]).0, BegunAs(base, p, final, []);
    ServeAppend(begun, mid, last, answers[1..]);
    AllStatusSplit(Serve(begun, mid, answers[1..]).1, Serve(Serve(begun, mid, answers[1..]).0, last,
                                                            answers[1..][|mid|..]).1);
    ChunksTaken(begun, b, p, final, [], pieces, answers[1..]);
    assert [] + Sent(p) == Sent(p);
    var chunked := Serve(begun, mid, answers[1..]).0;
    LastServed(chunked, p.rid, answers[1..][|mid|..]);
    EndTaken(chunked, BegunAs(b, p, final, Sent(p)), p, final, answers[1..][|mid|..][0]);
    BegunTwice(base, p, final, [], Sent(p));
    UploadedBase(Serve(begun, mid + last, answers[1..]).0, base, p, final, Sent(p));
  }

  lemma LastServed(st: Store, rid: u32, answers: seq<Answers>)
    requires AllUploads([EndFrame(rid)]) && answers != [] && AllStatus(Serve(st, [EndFrame(rid)], answers).1)
    ensures IsUpload(EndFrame(rid)) && HandleUpload(st, EndFrame(rid), answers[0]).1.typ == 2
    ensures Serve(st, [EndFrame(rid)], answers).0 == HandleUpload(st, EndFrame(rid), answers[0]).0
  {
    hide HandleUpload, EndFrame;
    assert [EndFrame(rid)][0] == EndFrame(rid);
    ServeOne(st, EndFrame(rid), answers);
    assert Serve(st, [EndFrame(rid)], answers).1[0].typ == 2;
  }

  lemma BegunTwice(a: Atomic, p: Put, final: bytes, x: bytes, y: bytes)
    requires ModeOf(p).Some?
    ensures BegunAs(BegunAs(a, p, final, x), p, final, y) == BegunAs(a, p, final, y)
  {
    hide ModeOf;
  }

  lemma AreUploads(rid: u32, pieces: seq<bytes>)
    ensures AllUploads(ChunkFrames(rid, pieces)) && AllUploads([EndFrame(rid)])
    ensures IsUpload(EndFrame(rid))
  {
    hide Le32;
  }

  lemma AllStatusSplit(a: seq<Frame>, b: seq<Frame>)
    ensures AllStatus(a + b) <==> AllStatus(a) && AllStatus(b)
  {
    var all := a + b;
    assert forall i :: 0 <= i < |a| ==> all[i] == a[i];
    assert forall i :: 0 <= i < |b| ==> all[|a| + i] == b[i];
  }

  /** A success that the host reports, whatever the device's system calls answered on the way: the bytes
      that were sent are the content of the final path, with the permission that was asked for, no `.part`
      file and a free slot, every other file and upload is as before, and the connection is ready for the
      next upload.  A refused BEGIN, a short write, a failed rename or chmod make it a failure. */
  lemma {:induction false} SuccessMeansStored(w: World, a: Atomic, p: Put, answers: seq<Answers>, mps: nat)
    requires PacketSize(mps) && Quiet(w) && CanSend(p) && Refines(w.device.store, a)
    requires |answers| >= |PutFrames(p)| && answers != [] && OnItsOwn(a, p, answers[0].env.sdMounted)
    ensures var (ok, after) := Converse(w, PutFrames(p), answers, mps);
            var target := PutTarget(p, answers[0].env.sdMounted);
            ok ==> && target.Some? && Content(after.device.store.fs, target.value) == Some(Sent(p))
                   && Uploaded(after.device.store, Cleaned(a, p, answers[0]), p, target.value) && Quiet(after)
  {
    hide *;
    PutEnds(p);
    FirstAndLast(p);
    ConverseExactly(w, PutFrames(p), answers, mps);
    var (ok, after) := Converse(w, PutFrames(p), answers, mps);
    if ok {
      StatusMeansUploaded(w.device.store, a, p, answers);
      UploadedContent(after.device.store, Cleaned(a, p, answers[0]), p,
                      PutTarget(p, answers[0].env.sdMounted).value);
    }
  }

  lemma UploadedContent(after: Store, a: Atomic, p: Put, final: bytes)
    requires Uploaded(after, a, p, final)
    ensures Content(after.fs, final) == Some(Sent(p))
  {
  }

  /** The device holds what was sent, unless the upload worked on the names of another open one. */
  ghost predicate Honest(before: World, p: Put, sd: bool, after: World)
  {
    forall a :: Refines(before.device.store, a) && OnItsOwn(a, p, sd) ==>
      PutTarget(p, sd).Some? && Content(after.device.store.fs, PutTarget(p, sd).value) == Some(Sent(p))
  }

  lemma SuccessIsHonest(w: World, p: Put, answers: seq<Answers>, mps: nat)
    requires PacketSize(mps) && Quiet(w) && CanSend(p) && |answers| >= |PutFrames(p)| && answers != []
    requires Converse(w, PutFrames(p), answers, mps).0
    ensures Honest(w, p, answers[0].env.sdMounted, Converse(w, PutFrames(p), answers, mps).1)
  {
    hide Quiet, CanSend, Refines, PutFrames, Converse, PutTarget, OnItsOwn, Uploaded, Content, Sent;
    var after := Converse(w, PutFrames(p), answers, mps).1;
    forall a | Refines(w.device.store, a) && OnItsOwn(a, p, answers[0].env.sdMounted)
      ensures PutTarget(p, answers[0].env.sdMounted).Some?
      ensures Content(after.device.store.fs, PutTarget(p, answers[0].env.sdMounted).value) == Some(Sent(p))
    {
      SuccessMeansStored(w, a, p, answers, mps);
    }
  }

  /** So a path with a `..` component, which the device refuses, is always reported as a failure. */
  lemma TraversalFails(w: World, a: Atomic, p: Put, answers: seq<Answers>, mps: nat)
    requires PacketSize(mps) && Quiet(w) && CanSend(p) && Refines(w.device.store, a)
    requires |answers| >= |PutFrames(p)| && [0x2E, 0x2E] in Paths.Split(CString(p.path))
    ensures !Converse(w, PutFrames(p), answers, mps).0
  {
    FirstAndLast(p);
    NoTarget(p, answers[0].env.sdMounted);
    hide *;
    SuccessMeansStored(w, a, p, answers, mps);
  }

  lemma NoTarget(p: Put, sd: bool)
    requires [0x2E, 0x2E] in Paths.Split(CString(p.path))
    ensures PutTarget(p, sd).None? && forall a :: OnItsOwn(a, p, sd)
  {
    hide Paths.Split, CString;
  }

  // ---- Replies that are not meant for the request --------------------------------------------

  lemma {:induction false} Ep0KeepsWire(s: Io, events: seq<Ep0Event>)
    ensures Ep0Steps(s, events).wire == s.wire
    decreases events
  {
    if events != [] {
      Ep0KeepsWire(Ep0Step(s, events[0]), events[1..]);
    }
  }

  /** A turn of the loop only adds to what the device has written. */
  lemma WireGrows(s: Io, t: Turn, mps: nat) returns (more: seq<bytes>)
    requires PacketSize(mps)
    ensures LoopTurn(s, t, mps).1.wire == s.wire + more
  {
    hide HandleFrame, ReadFrame, Ep0Steps, Received, Extended, Encode, InTransfer;
    more := [];
    assert s.wire + [] == s.wire;
    if t.Polled? {
      if t.ep0.Some? && t.ep0.value.Batch? {
        Ep0KeepsWire(s, t.ep0.value.events);
      }
      var ready := ServeEp0(s, t);
      if ready.Some? {
        var live := Arrive(ready.value, t.arriving);
        var outcome := ReadFrame(live.rx).0;
        if live.enabled && s.enabled && s.outOpen && t.outReady && outcome.Delivered? {
          var reply := HandleFrame(live.store, outcome.frame, t.answers).1;
          if reply.Some? {
            more := InTransfer(Encode(reply.value), mps);
          }
        }
      }
    }
  }

  /** The client takes the first response on the pipe for its reply, whichever request it belongs to, and
      is satisfied exactly when that one carries the request's id, is of type STATUS and has a readable
      payload. */
  lemma FirstResponseDecides(w: World, f: Frame, a: Answers, mps: nat, r: Frame, lead: seq<bytes>)
    requires PacketSize(mps) && |f.payload| < U32_MODULUS && w.rxbuf == [] && |r.payload| <= MAX_PAYLOAD
    requires OnlyEmpty(lead) && lead + InTransfer(Encode(r), mps) <= w.device.wire
    ensures Exchange(w, f, a, mps).0
            <==> r.requestId == f.requestId && r.typ == 2 && DecodeKvHost(r.payload).Some?
  {
    hide LoopTurn, RecvFrame, InTransfer, Encode, Arriving, DecodeKvHost, OnlyEmpty;
    var more := WireGrows(w.device, RequestTurn(f, a, mps), mps);
    var sent := InTransfer(Encode(r), mps);
    var behind := w.device.wire[|lead + sent|..];
    assert w.device.wire == (lead + sent) + behind;
    assert w.device.wire + more == lead + (sent + (behind + more));
    RecvExact(r, lead, behind + more, mps);
  }
}
