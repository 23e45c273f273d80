/** The device's event loop: endpoints that come and go, and the frames handled in between. */
module Responder {
  import opened Bytes
  import opened FrameCodec
  import opened UsbTransport
  import opened Reassembly
  import opened HostClient
  import opened FileSystem
  import opened Uploads
  import opened UploadTable
  import opened Handlers

  datatype Ep0Event = Bind | Unbind | Enable | Disable | Other

  /** What one read of the control endpoint returns; the loop's buffer has room for four events. */
  datatype Ep0Read = TryAgain | ReadError | BadSize | Batch(events: seq<Ep0Event>)

  /** What the environment answers during one turn of the loop: how `poll` ends and what it reports, how
      the endpoints open, and which reads of the OUT endpoint become ready before the turn ends. */
  datatype Turn =
    | Interrupted
    | PollError
    | Polled(ep0: Option<Ep0Read>, inOpens: bool, outOpens: bool, arriving: seq<ReadEvent>,
             outReady: bool, outHup: bool, answers: Answers)

  /** One opening of the endpoints: all bytes that arrived on it, and the frames handled from it. */
  datatype Opening = Opening(arrived: bytes, handled: seq<Frame>)

  /** The loop's state, the IN packets written, and the history of the openings. */
  datatype Io = Io(enabled: bool, inOpen: bool, outOpen: bool, rx: RxState, store: Store,
                   wire: seq<bytes>, trace: seq<Opening>)

  /** `Stuck` is a turn that is still inside a blocking read. */
  datatype Next = Loop | Exit | Stuck

  predicate ValidTurn(t: Turn)
  {
    t.Polled? ==> ValidEvents(t.arriving)
  }

  // ---- One turn ------------------------------------------------------------------------------

  /** `close_eps`. */
  function CloseEps(s: Io): Io
  {
    s.(inOpen := false, outOpen := false, rx := RxState([], false, []))
  }

  function Ep0Step(s: Io, e: Ep0Event): Io
  {
    match e
    case Enable => s.(enabled := true)
    case Disable => CloseEps(s.(enabled := false))
    case Unbind => CloseEps(s.(enabled := false))
    case _ => s
  }

  function Ep0Steps(s: Io, events: seq<Ep0Event>): Io
    decreases events
  {
    if events == [] then s else Ep0Steps(Ep0Step(s, events[0]), events[1..])
  }

  /** Opening both endpoints after an ENABLE.  Whatever the buffer holds is kept. */
  function OpenEps(s: Io, inOpens: bool, outOpens: bool): Io
  {
    if !s.enabled || s.inOpen then s
    else if inOpens && outOpens then
      s.(inOpen := true, outOpen := true, rx := s.rx.(events := []), trace := s.trace + [Opening([], [])])
    else CloseEps(s).(enabled := false)
  }

  /** The history with the latest opening extended. */
  function Extended(trace: seq<Opening>, arrived: bytes, handled: seq<Frame>): (r: seq<Opening>)
    ensures |r| == |trace|
  {
    if trace == [] then []
    else
      var n := |trace| - 1;
      trace[n := Opening(trace[n].arrived + arrived, trace[n].handled + handled)]
  }

  /** Reads that become ready on an open endpoint. */
  function Arrive(s: Io, arriving: seq<ReadEvent>): Io
  {
    if !s.outOpen then s
    else s.(rx := s.rx.(events := s.rx.events + arriving), trace := Extended(s.trace, Received(arriving), []))
  }

  /** The effect of one handled frame: its reply goes out before the next frame is read. */
  function Handled(s: Io, f: Frame, a: Answers, mps: nat): Io
    requires PacketSize(mps)
  {
    var (store, reply) := HandleFrame(s.store, f, a);
    s.(store := store,
       wire := if reply.Some? then s.wire + InTransfer(Encode(reply.value), mps) else s.wire,
       trace := Extended(s.trace, [], [f]))
  }

  /** The OUT branch of the loop body. */
  function ServeOut(s: Io, t: Turn, polledOut: bool, mps: nat): (Next, Io)
    requires PacketSize(mps) && t.Polled?
  {
    if s.enabled && polledOut && t.outReady then
      var (outcome, rx) := ReadFrame(s.rx);
      match outcome
      case Pending => (Stuck, s.(rx := rx))
      case Failed => (Loop, CloseEps(s).(enabled := false))
      case Delivered(f) => (Loop, Handled(s.(rx := rx), f, t.answers, mps))
    else if s.enabled && polledOut && t.outHup then (Loop, CloseEps(s).(enabled := false))
    else (Loop, s)
  }

  /** The control branch of the loop body; `None` when the loop gives up. */
  function ServeEp0(s: Io, t: Turn): Option<Io>
    requires t.Polled?
  {
    match t.ep0
    case None => Some(s)
    case Some(TryAgain) => Some(OpenEps(s, t.inOpens, t.outOpens))
    case Some(Batch(events)) => Some(OpenEps(Ep0Steps(s, events), t.inOpens, t.outOpens))
    case _ => None
  }

  /** The body of `handle_io_loop`. */
  function LoopTurn(s: Io, t: Turn, mps: nat): (Next, Io)
    requires PacketSize(mps)
  {
    match t
    case Interrupted => (Loop, s)
    case PollError => (Exit, s)
    case Polled(_, _, _, arriving, _, _, _) =>
      match ServeEp0(s, t)
      case None => (Exit, s)
      case Some(ready) => ServeOut(Arrive(ready, arriving), t, s.enabled && s.outOpen, mps)
  }

  /** `handle_io_loop` for as long as the environment has turns for it. */
  function LoopRun(s: Io, turns: seq<Turn>, mps: nat): (Next, Io)
    requires PacketSize(mps)
    decreases turns
  {
    if turns == [] then (Loop, s)
    else
      var (next, after) := LoopTurn(s, turns[0], mps);
      if next.Loop? then LoopRun(after, turns[1..], mps) else (next, after)
  }

  function Start(fs: FS): Io
  {
    Io(false, false, false, RxState([], false, []), Store(seq(MAX_SESSIONS, _ => CLEARED), fs), [], [])
  }

  // ---- The loop in memory --------------------------------------------------------------------

  class Runtime {
    var enabled: bool
    var inOpen: bool
    var outOpen: bool
    const rx: Receiver
    const files: FileOps
    const link: UsbLink
    ghost var trace: seq<Opening>

    ghost predicate Valid()
      reads this, rx, files
    {
      rx.Valid() && files.Valid() && PacketSize(link.mps)
    }

    ghost function State(): Io
      requires Valid()
      reads this, rx, rx.rxBuf, files, files.sessions, link
    {
      Io(enabled, inOpen, outOpen, rx.State(), files.State(), link.inPackets, trace)
    }

    constructor (fs: FS, link: UsbLink)
      requires link.Valid() && link.inPackets == []
      ensures this.link == link && fresh(rx) && fresh(rx.rxBuf) && fresh(files) && fresh(files.sessions)
      ensures Valid() && State() == Start(fs)
    {
      enabled, inOpen, outOpen := false, false, false;
      rx := new Receiver();
      files := new FileOps(fs);
      this.link := link;
      trace := [];
    }

    /** `close_eps`. */
    method CloseEndpoints()
      requires Valid()
      modifies this, rx
      ensures Valid() && rx.rxBuf == old(rx.rxBuf) && State() == CloseEps(old(State()))
    {
      inOpen := false;
      outOpen := false;
      rx.rxSize := 0;
      rx.epShutdown := false;
      rx.events := [];
    }

    /** The loop of `process_ep0_events` over one batch. */
    method ProcessEp0Events(events: seq<Ep0Event>)
      requires Valid()
      modifies this, rx
      ensures Valid() && rx.rxBuf == old(rx.rxBuf) && State() == Ep0Steps(old(State()), events)
    {
      ghost var first := State();
      assert events[0..] == events;
      for i := 0 to |events|
        invariant Valid() && rx.rxBuf == old(rx.rxBuf)
        invariant Ep0Steps(State(), events[i..]) == Ep0Steps(first, events)
      {
        assert events[i..][1..] == events[i + 1..];
        match events[i] {
          case Enable =>
            enabled := true;
          case Disable =>
            enabled := false;
            CloseEndpoints();
          case Unbind =>
            enabled := false;
            CloseEndpoints();
          case _ =>
        }
      }
    }

    method OpenEndpoints(inOpens: bool, outOpens: bool)
      requires Valid()
      modifies this, rx
      ensures Valid() && rx.rxBuf == old(rx.rxBuf) && State() == OpenEps(old(State()), inOpens, outOpens)
    {
      if enabled && !inOpen {
        inOpen := inOpens;
        if inOpens {
          outOpen := outOpens || outOpen;
        }
        if !inOpens || !outOpens {
          CloseEndpoints();
          enabled := false;
        } else {
          rx.events := [];
          trace := trace + [Opening([], [])];
        }
      }
    }

    /** The environment's part of a turn: reads become ready. */
    method Deliver(arriving: seq<ReadEvent>)
      requires Valid() && ValidEvents(arriving)
      modifies this`trace, rx`events
      ensures Valid() && State() == Arrive(old(State()), arriving)
    {
      if outOpen {
        rx.events := rx.events + arriving;
        trace := Extended(trace, Received(arriving), []);
      }
    }

    method ServeFrame(f: Frame, a: Answers)
      requires Valid()
      modifies this`trace, files, files.sessions, link`inPackets
      ensures Valid() && State() == Handled(old(State()), f, a, link.mps)
    {
      hide HandleFrame, Encode, InTransfer;
      var reply := HandleFrameInPlace(files, f, a);
      if reply.Some? {
        WriteLimited(link, Encode(reply.value));
      }
      trace := Extended(trace, [], [f]);
    }

    /** The control branch of the loop body. */
    method PollControl(t: Turn) returns (ok: bool)
      requires Valid() && t.Polled?
      modifies this, rx
      ensures Valid() && rx.rxBuf == old(rx.rxBuf)
      ensures ok == ServeEp0(old(State()), t).Some?
      ensures State() == if ok then ServeEp0(old(State()), t).value else old(State())
    {
      hide OpenEps, Ep0Steps, CloseEps;
      ok := true;
      if t.ep0.Some? {
        match t.ep0.value {
          case ReadError => ok := false;
          case BadSize => ok := false;
          case Batch(events) =>
            ProcessEp0Events(events);
            OpenEndpoints(t.inOpens, t.outOpens);
          case TryAgain =>
            OpenEndpoints(t.inOpens, t.outOpens);
        }
      }
    }

    /** The OUT branch of the loop body. */
    method PollOut(t: Turn, polledOut: bool) returns (next: Next)
      requires Valid() && t.Polled?
      modifies this, rx, rx.rxBuf, files, files.sessions, link`inPackets
      ensures Valid() && (rx.rxBuf == old(rx.rxBuf) || fresh(rx.rxBuf))
      ensures (next, State()) == ServeOut(old(State()), t, polledOut, link.mps)
    {
      hide ReadFrame, Handled;
      next := Loop;
      if enabled && polledOut && t.outReady {
        var outcome := rx.ReadFrameBuffered();
        match outcome {
          case Pending =>
            next := Stuck;
          case Failed =>
            CloseEndpoints();
            enabled := false;
          case Delivered(f) =>
            ServeFrame(f, t.answers);
        }
      } else if enabled && polledOut && t.outHup {
        CloseEndpoints();
        enabled := false;
      }
    }

    /** The body of `handle_io_loop`. */
    method Step(t: Turn) returns (next: Next)
      requires Valid() && ValidTurn(t)
      modifies this, rx, rx.rxBuf, files, files.sessions, link`inPackets
      ensures Valid() && (rx.rxBuf == old(rx.rxBuf) || fresh(rx.rxBuf))
      ensures (next, State()) == LoopTurn(old(State()), t, link.mps)
    {
      hide ServeOut, ServeEp0, Arrive;
      var polledOut := enabled && outOpen;
      if t.Interrupted? {
        return Loop;
      }
      if t.PollError? {
        return Exit;
      }
      var ok := PollControl(t);
      if !ok {
        return Exit;
      }
      Deliver(t.arriving);
      next := PollOut(t, polledOut);
    }

    /** `handle_io_loop`. */
    method HandleIoLoop(turns: seq<Turn>) returns (next: Next)
      requires Valid() && forall i :: 0 <= i < |turns| ==> ValidTurn(turns[i])
      modifies this, rx, rx.rxBuf, files, files.sessions, link`inPackets
      ensures Valid() && (next, State()) == LoopRun(old(State()), turns, link.mps)
    {
      hide LoopTurn;
      ghost var first := State();
      next := Loop;
      var i := 0;
      assert turns[0..] == turns;
      while i < |turns|
        invariant i <= |turns| && next == Loop
        invariant Valid() && (rx.rxBuf == old(rx.rxBuf) || fresh(rx.rxBuf))
        invariant LoopRun(State(), turns[i..], link.mps) == LoopRun(first, turns, link.mps)
      {
        assert turns[i..][1..] == turns[i + 1..];
        next := Step(turns[i]);
        if !next.Loop? {
          return;
        }
        i := i + 1;
      }
    }
  }

  // ---- What holds at every head of the loop --------------------------------------------------

  /** Enabled means both endpoints open; otherwise both are closed and nothing is buffered. */
  predicate LoopHead(s: Io)
  {
    && (s.enabled <==> s.inOpen && s.outOpen)
    && (!s.enabled ==> !s.inOpen && !s.outOpen && s.rx.buffered == [])
  }

  /** The frames handled from an opening are, byte for byte, the front of what arrived on it. */
  predicate Accounted(o: Opening)
  {
    WithinLimit(o.handled) && EncodeAll(o.handled) <= o.arrived
  }

  predicate AllAccounted(trace: seq<Opening>)
  {
    forall g :: 0 <= g < |trace| ==> Accounted(trace[g])
  }

  /** On an open endpoint, handled frames, buffered bytes and bytes to come make up all that arrived. */
  predicate Balanced(s: Io)
  {
    s.outOpen ==>
      && s.trace != []
      && var o := s.trace[|s.trace| - 1];
         WithinLimit(o.handled) && o.arrived == EncodeAll(o.handled) + s.rx.Stream()
  }

  /** Between two control events the loop is allowed to be enabled but not yet open. */
  predicate MidBatch(s: Io)
  {
    && s.inOpen == s.outOpen && (s.inOpen ==> s.enabled) && (!s.inOpen ==> s.rx.buffered == [])
    && AllAccounted(s.trace) && Balanced(s)
  }

  lemma {:induction false} Ep0Keeps(s: Io, events: seq<Ep0Event>)
    requires MidBatch(s)
    ensures MidBatch(Ep0Steps(s, events))
    decreases events
  {
    if events != [] {
      Ep0Keeps(Ep0Step(s, events[0]), events[1..]);
    }
  }

  lemma OpenKeeps(s: Io, inOpens: bool, outOpens: bool)
    requires MidBatch(s)
    ensures var after := OpenEps(s, inOpens, outOpens);
            LoopHead(after) && AllAccounted(after.trace) && Balanced(after)
  {
    assert Accounted(Opening([], []));
  }

  lemma {:induction false} ReceivedAppend(a: seq<ReadEvent>, b: seq<ReadEvent>)
    ensures Received(a + b) == Received(a) + Received(b)
  {
    if a == [] {
      assert a + b == b;
    } else {
      ReceivedAppend(a[1..], b);
      assert (a + b)[1..] == a[1..] + b && (a + b)[0] == a[0];
      assert a[0].Bytes() + (Received(a[1..]) + Received(b)) == (a[0].Bytes() + Received(a[1..])) + Received(b);
    }
  }

  lemma {:induction false} EncodeAllSnoc(frames: seq<Frame>, f: Frame)
    requires WithinLimit(frames) && |f.payload| <= MAX_PAYLOAD
    ensures EncodeAll(frames + [f]) == EncodeAll(frames) + Encode(f)
  {
    hide Encode;
    if frames == [] {
      assert frames + [f] == [f] && EncodeAll([f]) == Encode(f) + EncodeAll([]);
    } else {
      assert (frames + [f])[1..] == frames[1..] + [f] && (frames + [f])[0] == frames[0];
      EncodeAllSnoc(frames[1..], f);
      assert Encode(frames[0]) + (EncodeAll(frames[1..]) + Encode(f))
          == (Encode(frames[0]) + EncodeAll(frames[1..])) + Encode(f);
    }
  }

  lemma ExtendedAccounted(trace: seq<Opening>, arrived: bytes, handled: seq<Frame>)
    requires AllAccounted(trace)
    requires trace != [] ==>
               Accounted(Opening(trace[|trace| - 1].arrived + arrived, trace[|trace| - 1].handled + handled))
    ensures AllAccounted(Extended(trace, arrived, handled))
  {
    hide Accounted;
  }

  lemma ArriveKeeps(s: Io, arriving: seq<ReadEvent>)
    requires LoopHead(s) && AllAccounted(s.trace) && Balanced(s)
    ensures var after := Arrive(s, arriving);
            LoopHead(after) && AllAccounted(after.trace) && Balanced(after)
  {
    hide EncodeAll, Received, AllAccounted, WithinLimit;
    if s.outOpen {
      var o := s.trace[|s.trace| - 1];
      ReceivedAppend(s.rx.events, arriving);
      assert o.handled + [] == o.handled;
      Regroup(EncodeAll(o.handled), s.rx.buffered, Received(s.rx.events), Received(arriving));
      FrontOfAll(EncodeAll(o.handled), Arrive(s, arriving).rx.Stream());
      ExtendedAccounted(s.trace, Received(arriving), []);
    }
  }

  lemma Regroup(done: bytes, buffered: bytes, coming: bytes, more: bytes)
    ensures (done + (buffered + coming)) + more == done + (buffered + (coming + more))
  {
  }

  lemma FrontOfAll(a: bytes, b: bytes)
    ensures a <= a + b
  {
  }

  /** Handling the frame in front moves its bytes from the stream to the history. */
  lemma HandledKeeps(s: Io, a: Answers, mps: nat)
    requires PacketSize(mps) && s.outOpen && LoopHead(s) && AllAccounted(s.trace) && Balanced(s)
    requires ReadFrame(s.rx).0.Delivered?
    ensures var after := Handled(s.(rx := ReadFrame(s.rx).1), ReadFrame(s.rx).0.frame, a, mps);
            LoopHead(after) && AllAccounted(after.trace) && Balanced(after)
  {
    hide EncodeAll, ReadFrame, Encode, HandleFrame, InTransfer, Received;
    DeliveredIsFront(s.rx);
    var (outcome, rx) := ReadFrame(s.rx);
    var o := s.trace[|s.trace| - 1];
    EncodeAllSnoc(o.handled, outcome.frame);
    assert o.arrived + [] == o.arrived;
    assert EncodeAll(o.handled) + (Encode(outcome.frame) + rx.Stream())
        == (EncodeAll(o.handled) + Encode(outcome.frame)) + rx.Stream();
    ExtendedAccounted(s.trace, [], [outcome.frame]);
  }

  lemma ServeOutKeeps(s: Io, t: Turn, polledOut: bool, mps: nat)
    requires PacketSize(mps) && t.Polled? && LoopHead(s) && AllAccounted(s.trace) && Balanced(s)
    ensures var after := ServeOut(s, t, polledOut, mps).1;
            LoopHead(after) && AllAccounted(after.trace) && Balanced(after)
  {
    hide AllAccounted, ReadFrame, Handled, EncodeAll;
    if s.enabled && polledOut && t.outReady {
      if ReadFrame(s.rx).0.Delivered? {
        HandledKeeps(s, t.answers, mps);
      } else if ReadFrame(s.rx).0.Pending? {
        PendingConserves(s.rx);
      }
    }
  }

  lemma TurnKeeps(s: Io, t: Turn, mps: nat)
    requires PacketSize(mps) && LoopHead(s) && AllAccounted(s.trace) && Balanced(s)
    ensures var after := LoopTurn(s, t, mps).1;
            LoopHead(after) && AllAccounted(after.trace) && Balanced(after)
  {
    hide AllAccounted, Balanced, ServeOut, Arrive, OpenEps, Ep0Steps;
    if t.Polled? {
      var ready := ServeEp0(s, t);
      if t.ep0.Some? {
        OpenKeeps(s, t.inOpens, t.outOpens);
        if t.ep0.value.Batch? {
          Ep0Keeps(s, t.ep0.value.events);
          OpenKeeps(Ep0Steps(s, t.ep0.value.events), t.inOpens, t.outOpens);
        }
      }
      if ready.Some? {
        ArriveKeeps(ready.value, t.arriving);
        ServeOutKeeps(Arrive(ready.value, t.arriving), t, s.enabled && s.outOpen, mps);
      }
    }
  }

  lemma {:induction false} RunKeeps(s: Io, turns: seq<Turn>, mps: nat)
    requires PacketSize(mps) && LoopHead(s) && AllAccounted(s.trace) && Balanced(s)
    ensures var after := LoopRun(s, turns, mps).1;
            LoopHead(after) && AllAccounted(after.trace) && Balanced(after)
    decreases turns
  {
    hide LoopHead, AllAccounted, Balanced, LoopTurn;
    if turns != [] {
      TurnKeeps(s, turns[0], mps);
      if LoopTurn(s, turns[0], mps).0.Loop? {
        RunKeeps(LoopTurn(s, turns[0], mps).1, turns[1..], mps);
      }
    }
  }

  /** However control events are batched and endpoints fail: the loop is enabled exactly while both
      endpoints are open, starts every opening with an empty buffer, and handles no frame that mixes
      the bytes of two openings. */
  lemma NoFrameMixesOpenings(fs: FS, turns: seq<Turn>, mps: nat)
    requires PacketSize(mps)
    ensures var after := LoopRun(Start(fs), turns, mps).1;
            && LoopHead(after)
            && (forall g :: 0 <= g < |after.trace| ==> Accounted(after.trace[g]))
            && (after.enabled ==>
                  && after.trace != []
                  && var o := after.trace[|after.trace| - 1];
                     o.arrived == EncodeAll(o.handled) + after.rx.Stream())
  {
    hide LoopRun;
    RunKeeps(Start(fs), turns, mps);
  }

  // ---- The session table across a whole run of the daemon ------------------------------------

  lemma {:induction false} Ep0KeepsStore(s: Io, events: seq<Ep0Event>)
    ensures Ep0Steps(s, events).store == s.store
    decreases events
  {
    if events != [] {
      Ep0KeepsStore(Ep0Step(s, events[0]), events[1..]);
    }
  }

  lemma TurnKeepsTable(s: Io, t: Turn, mps: nat)
    requires PacketSize(mps) && TableValid(s.store.slots) && Paced1M(s.store.slots)
    ensures TableValid(LoopTurn(s, t, mps).1.store.slots) && Paced1M(LoopTurn(s, t, mps).1.store.slots)
  {
    hide TableValid, Paced1M, HandleFrame, ReadFrame, Ep0Steps, Received, Extended, Encode, InTransfer;
    if t.Polled? {
      if t.ep0.Some? && t.ep0.value.Batch? {
        Ep0KeepsStore(s, t.ep0.value.events);
      }
      var ready := ServeEp0(s, t);
      if ready.Some? {
        var live := Arrive(ready.value, t.arriving);
        if ReadFrame(live.rx).0.Delivered? {
          FrameKeepsTable(s.store, ReadFrame(live.rx).0.frame, t.answers);
        }
      }
    }
  }

  lemma {:induction false} LoopKeepsTable(s: Io, turns: seq<Turn>, mps: nat)
    requires PacketSize(mps) && TableValid(s.store.slots) && Paced1M(s.store.slots)
    ensures var after := LoopRun(s, turns, mps).1;
            TableValid(after.store.slots) && Paced1M(after.store.slots)
    decreases turns
  {
    hide TableValid, Paced1M, LoopTurn;
    if turns != [] {
      TurnKeepsTable(s, turns[0], mps);
      if LoopTurn(s, turns[0], mps).0.Loop? {
        LoopKeepsTable(LoopTurn(s, turns[0], mps).1, turns[1..], mps);
      }
    }
  }

  /** Whatever arrived and however the loop ended, shutting the daemon down removes the temporary file
      of every upload that was still open, and no other name. */
  lemma DaemonCleansUp(fs: FS, turns: seq<Turn>, mps: nat, env: Env)
    requires PacketSize(mps) && env.unlinkOk
    ensures var last := LoopRun(Start(fs), turns, mps).1.store;
            var after := Shutdown(last, env);
            && (forall i :: 0 <= i < |last.slots| && last.slots[i].used ==> !IsFile(after.fs, last.slots[i].tempPath))
            && (forall p :: p in last.fs.nodes && p !in after.fs.nodes ==> IsTemp(last.slots, p))
  {
    hide LoopRun;
    InitialTable(fs);
    LoopKeepsTable(Start(fs), turns, mps);
    var last := LoopRun(Start(fs), turns, mps).1.store;
    ShutdownCleans(last, env);
    forall i | 0 <= i < |last.slots| && last.slots[i].used ensures IsTemp(last.slots, last.slots[i].tempPath) {
    }
  }
}
