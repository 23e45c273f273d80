/** What one turn of the event loop does, event by event: control events, hang-ups and the ways to leave. */
module LoopEvents {
  import opened Bytes
  import opened FrameCodec
  import opened UsbTransport
  import opened Reassembly
  import opened Uploads
  import opened Handlers
  import opened Responder
  import opened EndToEnd

  // ---- A batch of control events -------------------------------------------------------------

  /** The events that take the endpoints away. */
  predicate Closes(e: Ep0Event)
  {
    e.Disable? || e.Unbind?
  }

  /** The event at `i` is the last of the batch that the loop acts on. */
  predicate LastAt(events: seq<Ep0Event>, i: nat)
  {
    && i < |events| && (events[i].Enable? || Closes(events[i]))
    && forall k :: i < k < |events| ==> !events[k].Enable? && !Closes(events[k])
  }

  /** The batch holds nothing that the loop acts on. */
  predicate Idle(events: seq<Ep0Event>)
  {
    forall k :: 0 <= k < |events| ==> !events[k].Enable? && !Closes(events[k])
  }

  predicate SomeCloses(events: seq<Ep0Event>)
  {
    exists j :: 0 <= j < |events| && Closes(events[j])
  }

  /** Both endpoints closed, nothing buffered, no reads to come. */
  function Down(s: Io): Io
  {
    s.(enabled := false, inOpen := false, outOpen := false, rx := RxState([], false, []))
  }

  /** Both endpoints freshly opened, an empty buffer, and a new entry in the history. */
  function Fresh(s: Io): Io
  {
    s.(enabled := true, inOpen := true, outOpen := true, rx := RxState([], false, []),
       trace := s.trace + [Opening([], [])])
  }

  lemma {:induction false} Ep0Snoc(s: Io, events: seq<Ep0Event>, e: Ep0Event)
    ensures Ep0Steps(s, events + [e]) == Ep0Step(Ep0Steps(s, events), e)
    decreases events
  {
    hide Ep0Step;
    if events == [] {
      assert [] + [e] == [e] && [e][1..] == [];
    } else {
      assert (events + [e])[1..] == events[1..] + [e] && (events + [e])[0] == events[0];
      Ep0Snoc(Ep0Step(s, events[0]), events[1..], e);
    }
  }

  lemma SnocCloses(events: seq<Ep0Event>, e: Ep0Event)
    ensures SomeCloses(events + [e]) <==> SomeCloses(events) || Closes(e)
    ensures Idle(events + [e]) <==> Idle(events) && !e.Enable? && !Closes(e)
  {
    var all := events + [e];
    assert all[|events|] == e && forall k :: 0 <= k < |events| ==> all[k] == events[k];
  }

  /** Events that the loop does not act on, behind others. */
  lemma SnocLast(events: seq<Ep0Event>, e: Ep0Event, i: nat)
    requires LastAt(events + [e], i) && i < |events|
    ensures LastAt(events, i) && !e.Enable? && !Closes(e) && (events + [e])[i] == events[i]
  {
    var all := events + [e];
    assert all[|events|] == e;
    assert forall k :: 0 <= k < |events| ==> events[k] == all[k];
  }

  lemma {:induction false} IdleSteps(s: Io, events: seq<Ep0Event>)
    requires Idle(events)
    ensures Ep0Steps(s, events) == s
    decreases events
  {
    if events != [] {
      assert forall k :: 0 <= k < |events[1..]| ==> events[1..][k] == events[k + 1];
      IdleSteps(s, events[1..]);
    }
  }

  /** A batch is as good as its last event that counts, behind a closing of the endpoints if there is one. */
  lemma {:induction false} BatchSteps(s: Io, events: seq<Ep0Event>, i: nat)
    requires LastAt(events, i)
    ensures Ep0Steps(s, events)
         == if Closes(events[i]) then Down(s)
            else if SomeCloses(events) then Down(s).(enabled := true)
            else s.(enabled := true)
    decreases |events|
  {
    var n := |events| - 1;
    var front, e := events[..n], events[n];
    assert events == front + [e];
    Ep0Snoc(s, front, e);
    SnocCloses(front, e);
    if i < n {
      SnocLast(front, e, i);
      BatchSteps(s, front, i);
    } else {
      FrontSteps(s, front);
    }
  }

  /** Whatever the events, the store and the history stay, and the endpoints are as before or closed. */
  lemma {:induction false} FrontSteps(s: Io, events: seq<Ep0Event>)
    ensures var after := Ep0Steps(s, events);
            after == (if SomeCloses(events) then Down(s) else s).(enabled := after.enabled)
    decreases |events|
  {
    if events != [] {
      var n := |events| - 1;
      assert events == events[..n] + [events[n]];
      Ep0Snoc(s, events[..n], events[n]);
      SnocCloses(events[..n], events[n]);
      FrontSteps(s, events[..n]);
      hide SomeCloses;
    }
  }

  // ---- A turn with a batch -------------------------------------------------------------------

  /** A batch that ends in DISABLE or UNBIND closes both endpoints and drops what was buffered; nothing is
      read or handled in that turn. */
  lemma ClosingBatch(s: Io, t: Turn, mps: nat, i: nat)
    requires PacketSize(mps) && t.Polled? && t.ep0.Some? && t.ep0.value.Batch?
    requires LastAt(t.ep0.value.events, i) && Closes(t.ep0.value.events[i])
    ensures LoopTurn(s, t, mps)
         == (Loop, s.(enabled := false, inOpen := false, outOpen := false, rx := RxState([], false, [])))
  {
    BatchSteps(s, t.ep0.value.events, i);
    hide Ep0Steps, ReadFrame, HandleFrame, LastAt;
  }

  /** A batch that closes the endpoints and ends in ENABLE starts over: the old buffer is gone, the history
      is one entry longer, and only what arrives behind the ENABLE belongs to the new opening. */
  lemma ReopeningBatch(s: Io, t: Turn, mps: nat, i: nat)
    requires PacketSize(mps) && LoopHead(s) && t.Polled? && t.ep0.Some? && t.ep0.value.Batch?
    requires LastAt(t.ep0.value.events, i) && t.ep0.value.events[i].Enable? && SomeCloses(t.ep0.value.events)
    ensures t.inOpens && t.outOpens ==>
              LoopTurn(s, t, mps) == if Live(s) then LoopTurn(Fresh(s), t.(ep0 := None), mps)
                                     else (Loop, Arrived(Fresh(s), t.arriving))
    ensures !(t.inOpens && t.outOpens) ==> LoopTurn(s, t, mps) == (Loop, Down(s))
  {
    BatchSteps(s, t.ep0.value.events, i);
    ArriveMeans(Fresh(s), t.arriving);
    hide Ep0Steps, ReadFrame, HandleFrame, LastAt, SomeCloses, Received, Arrive, Arrived, Extended;
  }

  /** Without a DISABLE or UNBIND, ENABLE opens the endpoints of a loop that is down and changes nothing
      about one that is live. */
  lemma OpeningBatch(s: Io, t: Turn, mps: nat, i: nat)
    requires PacketSize(mps) && LoopHead(s) && t.Polled? && t.ep0.Some? && t.ep0.value.Batch?
    requires LastAt(t.ep0.value.events, i) && t.ep0.value.events[i].Enable? && !SomeCloses(t.ep0.value.events)
    ensures Live(s) ==> LoopTurn(s, t, mps) == LoopTurn(s, t.(ep0 := None), mps)
    ensures !Live(s) && t.inOpens && t.outOpens ==>
              LoopTurn(s, t, mps) == (Loop, Arrived(Fresh(s).(rx := s.rx.(events := [])), t.arriving))
    ensures !Live(s) && !(t.inOpens && t.outOpens) ==> LoopTurn(s, t, mps) == (Loop, Down(s))
  {
    BatchSteps(s, t.ep0.value.events, i);
    ArriveMeans(Fresh(s).(rx := s.rx.(events := [])), t.arriving);
    hide Ep0Steps, ReadFrame, HandleFrame, LastAt, SomeCloses, Received, Arrive, Arrived, Extended;
  }

  /** BIND, SETUP, SUSPEND and RESUME, or no event after all, change nothing. */
  lemma IdleBatch(s: Io, t: Turn, mps: nat)
    requires PacketSize(mps) && LoopHead(s) && t.Polled?
    requires t.ep0 == Some(TryAgain) || (t.ep0.Some? && t.ep0.value.Batch? && Idle(t.ep0.value.events))
    ensures LoopTurn(s, t, mps) == LoopTurn(s, t.(ep0 := None), mps)
  {
    if t.ep0.value.Batch? {
      IdleSteps(s, t.ep0.value.events);
    }
    hide Ep0Steps, ReadFrame, HandleFrame, Idle, Received;
  }

  // ---- A turn without control events ---------------------------------------------------------

  /** An open endpoint to which reads have come. */
  function Arrived(s: Io, arriving: seq<ReadEvent>): Io
    requires s.trace != []
  {
    var n := |s.trace| - 1;
    s.(rx := s.rx.(events := s.rx.events + arriving),
       trace := s.trace[n := Opening(s.trace[n].arrived + Received(arriving), s.trace[n].handled)])
  }

  lemma ArriveMeans(s: Io, arriving: seq<ReadEvent>)
    requires s.outOpen && s.trace != []
    ensures Arrive(s, arriving) == Arrived(s, arriving)
  {
    hide Received;
    var o := s.trace[|s.trace| - 1];
    assert o.handled + [] == o.handled;
  }

  /** A live loop whose OUT endpoint is not readable only waits, and goes down when the endpoint hangs up. */
  lemma HangUp(s: Io, t: Turn, mps: nat)
    requires PacketSize(mps) && Live(s) && s.trace != [] && t.Polled? && t.ep0.None? && !t.outReady
    ensures var (next, after) := LoopTurn(s, t, mps);
            && next.Loop?
            && if t.outHup
               then !after.enabled && !after.inOpen && !after.outOpen && after.rx == RxState([], false, [])
                    && after.store == s.store && after.wire == s.wire && |after.trace| == |s.trace|
               else after == Arrived(s, t.arriving)
  {
    hide Received, ReadFrame, HandleFrame;
    var n := |s.trace| - 1;
    assert s.trace[n].handled + [] == s.trace[n].handled;
  }

  /** A loop that is down neither reads nor handles anything. */
  lemma DownWaits(s: Io, t: Turn, mps: nat)
    requires PacketSize(mps) && LoopHead(s) && !Live(s) && t.Polled? && t.ep0.None?
    ensures LoopTurn(s, t, mps) == (Loop, s)
  {
    hide Received, ReadFrame, HandleFrame;
  }

  /** Exactly when the loop is left: a failed poll, or a failed or misshapen read of the control endpoint;
      and exactly when it blocks: on a readable endpoint that delivers no whole frame. */
  lemma LoopLeft(s: Io, t: Turn, mps: nat)
    requires PacketSize(mps) && LoopHead(s)
    ensures var (next, after) := LoopTurn(s, t, mps);
            && (next.Exit? <==> t.PollError? || (t.Polled? && t.ep0 in {Some(ReadError), Some(BadSize)}))
            && (next.Exit? || t.Interrupted? ==> after == s)
            && (Live(s) && t.Polled? && t.ep0.None? ==>
                  (next.Stuck? <==> t.outReady && ReadFrame(WithMore(s.rx, t.arriving)).0.Pending?))
            && (!Live(s) ==> !next.Stuck?)
  {
    hide Received, ReadFrame, HandleFrame, Ep0Steps, Extended, Encode, InTransfer;
  }
}
