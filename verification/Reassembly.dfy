/** The device's receive buffer: frames cut out of arbitrary reads of the OUT endpoint. */
module Reassembly {
  import opened Bytes
  import opened FrameCodec
  import opened UsbTransport

  /** What one turn of the poll/read loop can see. */
  datatype ReadEvent =
    | PollTimeout
    | PollInterrupted
    | PollFailed
    | PollHangup
    | ReadInterrupted
    | ReadFailed(shutdown: bool)
    | ReadEmpty
    | ReadData(data: bytes)
  {
    /** A read that returns data returns between one byte and the size of the request. */
    predicate Valid()
    {
      ReadData? ==> 1 <= |data| <= IO_CHUNK
    }

    /** The loop goes on, or delivers bytes; nothing is lost. */
    predicate Clean()
    {
      PollTimeout? || PollInterrupted? || ReadInterrupted? || ReadData?
    }

    function Bytes(): bytes
    {
      if ReadData? then data else []
    }
  }

  predicate ValidEvents(events: seq<ReadEvent>)
  {
    forall i :: 0 <= i < |events| ==> events[i].Valid()
  }

  predicate CleanEvents(events: seq<ReadEvent>)
  {
    forall i :: 0 <= i < |events| ==> events[i].Clean()
  }

  /** All bytes that a list of events delivers. */
  function Received(events: seq<ReadEvent>): bytes
  {
    if events == [] then [] else events[0].Bytes() + Received(events[1..])
  }

  /** The buffered bytes, the shutdown flag, and what the endpoint will still answer. */
  datatype RxState = RxState(buffered: bytes, shutdown: bool, events: seq<ReadEvent>)
  {
    /** Everything received but not yet consumed, now or later. */
    function Stream(): bytes
    {
      buffered + Received(events)
    }
  }

  /** `Waiting` is a call that is still polling when the events end. */
  datatype Status = Done | Lost | Waiting

  datatype Outcome = Delivered(frame: Frame) | Failed | Pending

  /** `rx_read_some`. */
  function ReadSome(st: RxState): (Status, RxState)
    decreases |st.events|
  {
    if st.events == [] then (Waiting, st)
    else
      var next := st.(events := st.events[1..]);
      match st.events[0]
      case PollTimeout => ReadSome(next)
      case PollInterrupted => ReadSome(next)
      case ReadInterrupted => ReadSome(next)
      case PollFailed => (Lost, next)
      case PollHangup => (Lost, next.(shutdown := true))
      case ReadEmpty => (Lost, next)
      case ReadFailed(down) => (Lost, if down then next.(shutdown := true) else next)
      case ReadData(data) => (Done, next.(buffered := st.buffered + data))
  }

  lemma {:induction false} ReadSomeShrinks(st: RxState)
    ensures ReadSome(st).0.Waiting? || |ReadSome(st).1.events| < |st.events|
    decreases |st.events|
  {
    if st.events != [] {
      ReadSomeShrinks(st.(events := st.events[1..]));
    }
  }

  /** The call goes on: nothing came, or it was interrupted. */
  predicate GoesOn(e: ReadEvent)
  {
    e == PollTimeout || e == PollInterrupted || e == ReadInterrupted
  }

  /** Exactly how a call ends: at the first event that is no timeout and no interruption.  Data is appended;
      a failed poll or read, an empty read and a hang-up end it without data, and a hang-up or an error that
      says so marks the endpoint as shut down. */
  lemma {:induction false} ReadSomeExactly(st: RxState, n: nat)
    requires n <= |st.events| && forall i :: 0 <= i < n ==> GoesOn(st.events[i])
    requires n < |st.events| ==> !GoesOn(st.events[n])
    ensures n == |st.events| ==> ReadSome(st) == (Waiting, st.(events := []))
    ensures n < |st.events| ==>
              var e, rest := st.events[n], st.events[n + 1..];
              ReadSome(st)
              == if e.ReadData? then (Done, RxState(st.buffered + e.data, st.shutdown, rest))
                 else (Lost, RxState(st.buffered, st.shutdown || e == PollHangup || e == ReadFailed(true), rest))
    decreases n
  {
    if n > 0 {
      var next := st.(events := st.events[1..]);
      ReadSomeExactly(next, n - 1);
      assert n < |st.events| ==> next.events[n..] == st.events[n + 1..] && next.events[n - 1] == st.events[n];
    }
  }

  /** Reads until `need` bytes are buffered. */
  function Fill(st: RxState, need: nat): (Status, RxState)
    decreases |st.events|
  {
    if |st.buffered| >= need then (Done, st)
    else
      ReadSomeShrinks(st);
      var (status, next) := ReadSome(st);
      if status.Done? then Fill(next, need) else (status, next)
  }

  lemma {:induction false} FillDone(st: RxState, need: nat)
    ensures Fill(st, need).0.Done? ==> |Fill(st, need).1.buffered| >= need
    decreases |st.events|
  {
    if |st.buffered| < need && ReadSome(st).0.Done? {
      ReadSomeShrinks(st);
      FillDone(ReadSome(st).1, need);
    }
  }

  function FrameSize(buffered: bytes): nat
    requires |buffered| >= HEADER_SIZE
  {
    HEADER_SIZE + ParseHeader(buffered).payloadLen
  }

  /** `read_frame_buffered`. */
  function ReadFrame(st: RxState): (Outcome, RxState)
  {
    var (s1, st1) := Fill(st, HEADER_SIZE);
    FillDone(st, HEADER_SIZE);
    if s1.Waiting? then (Pending, st1)
    else if s1.Lost? then (Failed, st1)
    else
      var h := ParseHeader(st1.buffered);
      if h.magic != MAGIC || h.version != VERSION || h.payloadLen > MAX_PAYLOAD then (Failed, st1)
      else
        var size := FrameSize(st1.buffered);
        var (s2, st2) := Fill(st1, size);
        FillDone(st1, size);
        if s2.Waiting? then (Pending, st2)
        else if s2.Lost? then (Failed, st2)
        else
          var rest := st2.(buffered := st2.buffered[size..]);
          match DecodeC(st2.buffered[..size])
          case None => (Failed, rest)
          case Some(frame) => (Delivered(frame), rest)
  }

  // ---- The buffer in memory ------------------------------------------------------------------

  class Receiver {
    var rxBuf: array<byte>
    var rxSize: nat
    var epShutdown: bool
    // The answers that the endpoint has still to give.
    var events: seq<ReadEvent>

    ghost predicate Valid()
      reads this
    {
      rxSize <= rxBuf.Length && ValidEvents(events)
    }

    ghost function State(): RxState
      reads this, rxBuf
      requires Valid()
    {
      RxState(rxBuf[..rxSize], epShutdown, events)
    }

    constructor ()
      ensures Valid() && fresh(rxBuf) && State() == RxState([], false, [])
    {
      rxBuf := new byte[0];
      rxSize := 0;
      epShutdown := false;
      events := [];
    }

    /** `rx_reserve`: grows the buffer by doubling and keeps what it holds. */
    method RxReserve(needed: nat)
      requires Valid()
      modifies this
      ensures Valid() && State() == old(State()) && rxSize == old(rxSize) && rxBuf.Length >= needed
      ensures rxBuf == old(rxBuf) || fresh(rxBuf)
    {
      if needed <= rxBuf.Length {
        return;
      }
      var newCap := if rxBuf.Length != 0 then rxBuf.Length else 4096;
      while newCap < needed
        invariant newCap > 0 && newCap >= rxBuf.Length
        decreases needed - newCap
      {
        newCap := newCap * 2;
      }
      var next := new byte[newCap];
      for i := 0 to rxSize
        invariant unchanged(this) && unchanged(rxBuf)
        invariant next[..i] == rxBuf[..i]
      {
        next[i] := rxBuf[i];
      }
      rxBuf := next;
    }

    /** `rx_read_some`: waits for one read and appends it. */
    method RxReadSome() returns (status: Status)
      requires Valid()
      modifies this, rxBuf
      ensures Valid() && (rxBuf == old(rxBuf) || fresh(rxBuf))
      ensures (status, State()) == ReadSome(old(State()))
      ensures status.Waiting? || |events| < |old(events)|
    {
      ghost var first := State();
      while true
        invariant Valid() && rxBuf == old(rxBuf) && |events| <= |old(events)|
        invariant ReadSome(State()) == ReadSome(first)
        decreases |events|
      {
        if events == [] {
          return Waiting;
        }
        var e := events[0];
        ghost var before := State();
        events := events[1..];
        assert State() == before.(events := before.events[1..]);
        if e.PollTimeout? || e.PollInterrupted? {
          continue;
        }
        if e.PollFailed? {
          return Lost;
        }
        if e.PollHangup? {
          epShutdown := true;
          return Lost;
        }
        if e.ReadInterrupted? {
          continue;
        }
        if !e.ReadData? {
          if e.ReadFailed? && e.shutdown {
            epShutdown := true;
          }
          return Lost;
        }
        AppendData(e.data);
        return Done;
      }
    }

    /** The last lines of `rx_read_some`. */
    method AppendData(data: bytes)
      requires Valid()
      modifies this, rxBuf
      ensures Valid() && (rxBuf == old(rxBuf) || fresh(rxBuf))
      ensures State() == old(State()).(buffered := old(State()).buffered + data)
    {
      ghost var before := rxBuf[..rxSize];
      RxReserve(rxSize + |data|);
      assert rxBuf[..rxSize] == before;
      for i := 0 to |data|
        invariant rxSize == old(rxSize) && rxSize + |data| <= rxBuf.Length
        invariant rxBuf == old(rxBuf) || fresh(rxBuf)
        invariant events == old(events) && epShutdown == old(epShutdown)
        invariant rxBuf[..rxSize + i] == before + data[..i]
      {
        rxBuf[rxSize + i] := data[i];
        assert rxBuf[..rxSize + i + 1] == rxBuf[..rxSize + i] + [data[i]];
        assert data[..i + 1] == data[..i] + [data[i]];
      }
      rxSize := rxSize + |data|;
      assert data[..|data|] == data;
    }

    method RxFill(need: nat) returns (status: Status)
      requires Valid()
      modifies this, rxBuf
      ensures Valid() && (rxBuf == old(rxBuf) || fresh(rxBuf))
      ensures (status, State()) == Fill(old(State()), need)
    {
      ghost var first := State();
      while rxSize < need
        invariant Valid() && (rxBuf == old(rxBuf) || fresh(rxBuf))
        invariant Fill(State(), need) == Fill(first, need)
        decreases |events|
      {
        var s := RxReadSome();
        if !s.Done? {
          return s;
        }
      }
      status := Done;
    }

    /** The `memmove` that drops a consumed frame. */
    method Consume(n: nat)
      requires Valid() && n <= rxSize
      modifies this, rxBuf
      ensures Valid() && rxBuf == old(rxBuf)
      ensures State() == old(State()).(buffered := old(State()).buffered[n..])
    {
      var left := rxSize - n;
      for i := 0 to left
        invariant unchanged(this)
        invariant forall k :: 0 <= k < i ==> rxBuf[k] == old(rxBuf[n + k])
        invariant forall k :: i <= k < rxSize ==> rxBuf[k] == old(rxBuf[k])
      {
        rxBuf[i] := rxBuf[n + i];
      }
      rxSize := left;
    }

    /** `read_frame_buffered`. */
    method ReadFrameBuffered() returns (outcome: Outcome)
      requires Valid()
      modifies this, rxBuf
      ensures Valid() && (rxBuf == old(rxBuf) || fresh(rxBuf))
      ensures (outcome, State()) == ReadFrame(old(State()))
    {
      hide DecodeC, Fill, ParseHeader, Received;
      ghost var first := State();
      FillDone(first, HEADER_SIZE);
      var s := RxFill(HEADER_SIZE);
      if s.Waiting? {
        return Pending;
      } else if s.Lost? {
        return Failed;
      }
      ghost var st1 := State();
      var h := ParseHeader(rxBuf[..rxSize]);
      if h.magic != MAGIC || h.version != VERSION {
        return Failed;
      }
      if h.payloadLen > MAX_PAYLOAD {
        return Failed;
      }
      var frameSize := HEADER_SIZE + h.payloadLen;
      FillDone(st1, frameSize);
      s := RxFill(frameSize);
      if s.Waiting? {
        return Pending;
      } else if s.Lost? {
        return Failed;
      }
      var raw := rxBuf[..frameSize];
      assert raw == State().buffered[..frameSize];
      Consume(frameSize);
      match DecodeC(raw)
      case None => outcome := Failed;
      case Some(frame) => outcome := Delivered(frame);
    }
  }

  // ---- The simple reader ---------------------------------------------------------------------

  datatype Simple = Got(frame: Frame, rest: bytes) | Refused | Short

  /** The simple reader with the limit that the receive buffer enforces. */
  function SimpleRead(stream: bytes): Simple
  {
    SimpleReadUpTo(stream, MAX_PAYLOAD)
  }

  /** `usb_responder_protocol_read_frame` on a byte stream: two exact reads, then the decoder. */
  function SimpleReadUpTo(stream: bytes, maxPayload: nat): Simple
  {
    if |stream| < HEADER_SIZE then Short
    else
      var len := ParseHeader(stream).payloadLen;
      if len > maxPayload then Refused
      else if |stream| < HEADER_SIZE + len then Short
      else
        match DecodeC(stream[..HEADER_SIZE + len])
        case None => Refused
        case Some(frame) => Got(frame, stream[HEADER_SIZE + len..])
  }

  /** Reading moves bytes from the endpoint to the buffer and loses none. */
  lemma {:induction false} ReadSomeConserves(st: RxState)
    ensures ReadSome(st).1.Stream() == st.Stream()
    ensures st.buffered <= ReadSome(st).1.buffered
    decreases |st.events|
  {
    if st.events != [] {
      var next := st.(events := st.events[1..]);
      if st.events[0].PollTimeout? || st.events[0].PollInterrupted? || st.events[0].ReadInterrupted? {
        ReadSomeConserves(next);
      }
      FrontEvent(st);
      hide Received, RxState.Stream;
      Assoc(st.buffered, st.events[0].Bytes(), Received(next.events));
      assert st.buffered + [] == st.buffered;
    }
  }

  lemma FrontEvent(st: RxState)
    requires st.events != []
    ensures Received(st.events) == st.events[0].Bytes() + Received(st.events[1..])
    ensures forall b :: RxState(b, st.shutdown, st.events[1..]).Stream() == b + Received(st.events[1..])
    ensures forall b :: RxState(b, true, st.events[1..]).Stream() == b + Received(st.events[1..])
    ensures st.Stream() == st.buffered + Received(st.events)
  {
  }

  lemma {:induction false} FillConserves(st: RxState, need: nat)
    ensures Fill(st, need).1.Stream() == st.Stream()
    ensures st.buffered <= Fill(st, need).1.buffered
    decreases |st.events|
  {
    if |st.buffered| < need {
      ReadSomeConserves(st);
      ReadSomeShrinks(st);
      if ReadSome(st).0.Done? {
        FillConserves(ReadSome(st).1, need);
      }
    }
  }

  /** On clean events a read ends only by delivering or by running out of events. */
  lemma {:induction false} CleanReadSome(st: RxState)
    requires CleanEvents(st.events)
    ensures !ReadSome(st).0.Lost? && CleanEvents(ReadSome(st).1.events)
    ensures ReadSome(st).0.Waiting? ==> ReadSome(st).1 == st.(events := []) && Received(st.events) == []
    decreases |st.events|
  {
    if st.events != [] {
      assert st.events[0].Clean();
      if !st.events[0].ReadData? {
        CleanReadSome(st.(events := st.events[1..]));
      }
    }
  }

  /** On clean events the buffer fills exactly when the stream is long enough. */
  lemma {:induction false} CleanFill(st: RxState, need: nat)
    requires CleanEvents(st.events)
    ensures Fill(st, need).0 == if |st.Stream()| >= need then Done else Waiting
    ensures CleanEvents(Fill(st, need).1.events)
    decreases |st.events|
  {
    if |st.buffered| < need {
      CleanReadSome(st);
      ReadSomeConserves(st);
      ReadSomeShrinks(st);
      if ReadSome(st).0.Done? {
        CleanFill(ReadSome(st).1, need);
      }
    }
  }

  lemma HeaderOfPrefix(a: bytes, b: bytes)
    requires HEADER_SIZE <= |a| && a <= b
    ensures ParseHeader(a) == ParseHeader(b)
  {
    HeaderIsPrefix(a);
    HeaderIsPrefix(b);
    assert a[..HEADER_SIZE] == b[..HEADER_SIZE];
  }

  /** The buffer from which a delivered frame was cut. */
  lemma DeliveredParts(st: RxState) returns (full: RxState, size: nat)
    requires ReadFrame(st).0.Delivered?
    ensures HEADER_SIZE <= size <= |full.buffered| && size <= HEADER_SIZE + MAX_PAYLOAD
    ensures full.Stream() == st.Stream()
    ensures DecodeC(full.buffered[..size]) == Some(ReadFrame(st).0.frame)
    ensures ReadFrame(st).1 == full.(buffered := full.buffered[size..])
  {
    hide Fill, Received, DecodeC, ParseHeader;
    FillConserves(st, HEADER_SIZE);
    FillDone(st, HEADER_SIZE);
    var st1 := Fill(st, HEADER_SIZE).1;
    size := FrameSize(st1.buffered);
    FillConserves(st1, size);
    FillDone(st1, size);
    full := Fill(st1, size).1;
  }

  lemma SplitStream(full: RxState, size: nat)
    requires size <= |full.buffered|
    ensures full.Stream() == full.buffered[..size] + full.(buffered := full.buffered[size..]).Stream()
  {
    hide Received;
    assert full.buffered == full.buffered[..size] + full.buffered[size..];
  }

  /** Whatever the endpoint does, a delivered frame is the front of the stream and nothing else goes. */
  lemma DeliveredIsFront(st: RxState)
    ensures ReadFrame(st).0.Delivered? ==>
              var f := ReadFrame(st).0.frame;
              |f.payload| <= MAX_PAYLOAD && st.Stream() == Encode(f) + ReadFrame(st).1.Stream()
  {
    if ReadFrame(st).0.Delivered? {
      var full, size := DeliveredParts(st);
      hide ReadFrame, DecodeC;
      DecodeCExact(full.buffered[..size], ReadFrame(st).0.frame);
      hide Encode;
      SplitStream(full, size);
    }
  }

  /** A read that is still waiting has lost nothing. */
  lemma PendingConserves(st: RxState)
    requires ReadFrame(st).0.Pending?
    ensures ReadFrame(st).1.Stream() == st.Stream()
  {
    hide Fill, Received, DecodeC, ParseHeader;
    FillConserves(st, HEADER_SIZE);
    FillDone(st, HEADER_SIZE);
    var st1 := Fill(st, HEADER_SIZE).1;
    if Fill(st, HEADER_SIZE).0.Done? {
      FillConserves(st1, FrameSize(st1.buffered));
    }
  }

  /** What `ReadFrame` does on clean events, in terms of the stream alone. */
  lemma CleanReadFrame(st: RxState) returns (full: RxState)
    requires CleanEvents(st.events)
    ensures full.Stream() == st.Stream() && CleanEvents(full.events)
    ensures CleanEvents(ReadFrame(st).1.events)
    ensures var s := st.Stream();
            if |s| < HEADER_SIZE then ReadFrame(st).0.Pending?
            else
              var h := ParseHeader(s);
              var size := HEADER_SIZE + h.payloadLen;
              if h.magic != MAGIC || h.version != VERSION || h.payloadLen > MAX_PAYLOAD then ReadFrame(st).0.Failed?
              else if |s| < size then ReadFrame(st).0.Pending?
              else
                && |full.buffered| >= size
                && ReadFrame(st).1 == full.(buffered := full.buffered[size..])
                && ReadFrame(st).0 == match DecodeC(full.buffered[..size])
                                      case None => Failed
                                      case Some(f) => Delivered(f)
  {
    CleanFill(st, HEADER_SIZE);
    FillConserves(st, HEADER_SIZE);
    FillDone(st, HEADER_SIZE);
    hide Fill, Received, DecodeC, ParseHeader;
    var st1 := Fill(st, HEADER_SIZE).1;
    full := st1;
    if |st.Stream()| >= HEADER_SIZE {
      HeaderOfPrefix(st1.buffered, st.Stream());
      var size := FrameSize(st1.buffered);
      CleanFill(st1, size);
      FillConserves(st1, size);
      FillDone(st1, size);
      full := Fill(st1, size).1;
    }
  }

  lemma DecodedHeader(raw: bytes)
    requires DecodeC(raw).Some?
    ensures |raw| >= HEADER_SIZE && ParseHeader(raw).magic == MAGIC && ParseHeader(raw).version == VERSION
  {
  }

  /** On clean events the buffered reader delivers exactly what the simple reader gets. */
  lemma RefinesSimpleReader(st: RxState)
    requires CleanEvents(st.events)
    ensures var (outcome, after) := ReadFrame(st);
            && CleanEvents(after.events)
            && (SimpleRead(st.Stream()).Got? <==> outcome.Delivered?)
            && (outcome.Delivered? ==> SimpleRead(st.Stream()) == Got(outcome.frame, after.Stream()))
            && (SimpleRead(st.Stream()).Refused? ==> outcome.Failed?)
            && (outcome.Pending? ==> SimpleRead(st.Stream()).Short?)
  {
    var full := CleanReadFrame(st);
    hide ReadFrame, DecodeC, ParseHeader;
    var s := st.Stream();
    if |s| >= HEADER_SIZE {
      var h := ParseHeader(s);
      var size := HEADER_SIZE + h.payloadLen;
      if |s| >= size && h.payloadLen <= MAX_PAYLOAD {
        HeaderOfPrefix(s[..size], s);
        if DecodeC(s[..size]).Some? {
          DecodedHeader(s[..size]);
        }
        if h.magic == MAGIC && h.version == VERSION {
          SplitStream(full, size);
          assert full.buffered[..size] == s[..size];
        }
      }
    }
  }

  lemma {:induction false} ReadSomeKeepsValid(st: RxState)
    requires ValidEvents(st.events)
    ensures ValidEvents(ReadSome(st).1.events)
    decreases |st.events|
  {
    if st.events != [] {
      ReadSomeKeepsValid(st.(events := st.events[1..]));
    }
  }

  lemma {:induction false} FillKeepsValid(st: RxState, need: nat)
    requires ValidEvents(st.events)
    ensures ValidEvents(Fill(st, need).1.events)
    decreases |st.events|
  {
    hide ReadSome, ValidEvents;
    if |st.buffered| < need {
      ReadSomeShrinks(st);
      ReadSomeKeepsValid(st);
      if ReadSome(st).0.Done? {
        FillKeepsValid(ReadSome(st).1, need);
      }
    }
  }

  lemma ReadFrameKeepsValid(st: RxState)
    requires ValidEvents(st.events)
    ensures ValidEvents(ReadFrame(st).1.events)
  {
    hide Fill, DecodeC, ParseHeader, ValidEvents;
    FillDone(st, HEADER_SIZE);
    FillKeepsValid(st, HEADER_SIZE);
    var st1 := Fill(st, HEADER_SIZE).1;
    if Fill(st, HEADER_SIZE).0.Done? {
      FillDone(st1, FrameSize(st1.buffered));
      FillKeepsValid(st1, FrameSize(st1.buffered));
    }
  }

  // ---- What later answers cannot change ------------------------------------------------------

  function WithMore(st: RxState, more: seq<ReadEvent>): RxState
  {
    st.(events := st.events + more)
  }

  lemma {:induction false} ReadSomeIsLocal(st: RxState, more: seq<ReadEvent>)
    requires !ReadSome(st).0.Waiting?
    ensures ReadSome(WithMore(st, more)) == (ReadSome(st).0, WithMore(ReadSome(st).1, more))
    decreases |st.events|
  {
    var next := st.(events := st.events[1..]);
    assert (st.events + more)[0] == st.events[0] && (st.events + more)[1..] == st.events[1..] + more;
    if st.events[0].PollTimeout? || st.events[0].PollInterrupted? || st.events[0].ReadInterrupted? {
      ReadSomeIsLocal(next, more);
    }
  }

  lemma {:induction false} FillIsLocal(st: RxState, need: nat, more: seq<ReadEvent>)
    requires !Fill(st, need).0.Waiting?
    ensures Fill(WithMore(st, more), need) == (Fill(st, need).0, WithMore(Fill(st, need).1, more))
    decreases |st.events|
  {
    hide ReadSome;
    if |st.buffered| < need {
      ReadSomeShrinks(st);
      ReadSomeIsLocal(st, more);
      if ReadSome(st).0.Done? {
        FillIsLocal(ReadSome(st).1, need, more);
      }
    }
  }

  /** A call that has returned is not affected by what the endpoint answers afterwards. */
  lemma ReadFrameIsLocal(st: RxState, more: seq<ReadEvent>)
    requires !ReadFrame(st).0.Pending?
    ensures ReadFrame(WithMore(st, more)) == (ReadFrame(st).0, WithMore(ReadFrame(st).1, more))
  {
    hide Fill, DecodeC, ParseHeader;
    FillDone(st, HEADER_SIZE);
    FillIsLocal(st, HEADER_SIZE, more);
    var st1 := Fill(st, HEADER_SIZE).1;
    if Fill(st, HEADER_SIZE).0.Done? {
      var h := ParseHeader(st1.buffered);
      if h.magic == MAGIC && h.version == VERSION && h.payloadLen <= MAX_PAYLOAD {
        FillDone(st1, FrameSize(st1.buffered));
        FillIsLocal(st1, FrameSize(st1.buffered), more);
      }
    }
  }

  /** Events that deliver nothing and then an empty read: the next call fails. */
  predicate EndsInEmptyRead(events: seq<ReadEvent>)
  {
    events != [] && ValidEvents(events) && events[|events| - 1].ReadEmpty?
    && CleanEvents(events[..|events| - 1]) && Received(events[..|events| - 1]) == []
  }

  lemma {:induction false} EmptyReadLoses(st: RxState)
    requires EndsInEmptyRead(st.events)
    ensures ReadSome(st).0.Lost?
    decreases |st.events|
  {
    if |st.events| > 1 {
      var first := st.events[..|st.events| - 1];
      assert first[0] == st.events[0] && st.events[0].Clean() && st.events[0].Valid();
      assert st.events[1..][..|st.events| - 2] == first[1..];
      assert st.events[0].Bytes() == [];
      EmptyReadLoses(st.(events := st.events[1..]));
    }
  }

  // ---- Whole runs ----------------------------------------------------------------------------

  /** Reads frames until one call does not deliver, at most `n` of them. */
  function ReadFrames(st: RxState, n: nat): (seq<Frame>, RxState)
    decreases n
  {
    if n == 0 then ([], st)
    else
      var (outcome, next) := ReadFrame(st);
      if !outcome.Delivered? then ([], next)
      else
        var (more, last) := ReadFrames(next, n - 1);
        ([outcome.frame] + more, last)
  }

  /** The concatenated encodings of a list of frames. */
  function EncodeAll(frames: seq<Frame>): bytes
    requires WithinLimit(frames)
  {
    if frames == [] then [] else Encode(frames[0]) + EncodeAll(frames[1..])
  }

  lemma SimpleReadEncoded(f: Frame, rest: bytes)
    requires |f.payload| <= MAX_PAYLOAD
    ensures SimpleRead(Encode(f) + rest) == Got(f, rest)
  {
    hide HeaderBytes, ParseHeader, DecodeC, HeaderOf;
    EncodedHeader(f, rest);
    DecodeCExact(Encode(f), f);
    hide Encode;
    assert (Encode(f) + rest)[..|Encode(f)|] == Encode(f);
    assert (Encode(f) + rest)[|Encode(f)|..] == rest;
  }

  lemma EncodedHeader(f: Frame, rest: bytes)
    requires |f.payload| < U32_MODULUS
    ensures ParseHeader(Encode(f) + rest) == HeaderOf(f)
    ensures HeaderOf(f).payloadLen == |f.payload|
  {
    hide HeaderBytes, ParseHeader;
    ParseHeaderBytes(HeaderOf(f), f.payload + rest);
    assert Encode(f) + rest == HeaderBytes(HeaderOf(f)) + (f.payload + rest);
  }

  /** However the stream of frames is cut into reads, the frames come out whole and in order. */
  lemma {:induction false} ReassemblyIgnoresChunking(st: RxState, frames: seq<Frame>, tail: bytes)
    requires CleanEvents(st.events)
    requires WithinLimit(frames)
    requires st.Stream() == EncodeAll(frames) + tail
    ensures var (got, last) := ReadFrames(st, |frames|);
            got == frames && last.Stream() == tail && CleanEvents(last.events)
    decreases |frames|
  {
    hide Encode, ReadFrame, SimpleRead;
    if frames == [] {
      assert [] + tail == tail;
    } else {
      var rest := EncodeAll(frames[1..]) + tail;
      assert Encode(frames[0]) + rest == (Encode(frames[0]) + EncodeAll(frames[1..])) + tail;
      SimpleReadEncoded(frames[0], rest);
      RefinesSimpleReader(st);
      ReassemblyIgnoresChunking(ReadFrame(st).1, frames[1..], tail);
      assert frames == [frames[0]] + frames[1..];
    }
  }

  /** In any run at all, the stream is the delivered frames followed by what is still unconsumed. */
  lemma {:induction false} RunConservesStream(st: RxState, n: nat)
    ensures var (got, last) := ReadFrames(st, n);
            && WithinLimit(got)
            && (|got| == n ==> st.Stream() == EncodeAll(got) + last.Stream())
            && EncodeAll(got) <= st.Stream()
    decreases n
  {
    hide Encode, ReadFrame;
    if n != 0 {
      DeliveredIsFront(st);
      var (outcome, next) := ReadFrame(st);
      if outcome.Delivered? {
        RunConservesStream(next, n - 1);
        var (more, last) := ReadFrames(next, n - 1);
        var got := [outcome.frame] + more;
        assert got[1..] == more;
        assert Encode(outcome.frame) + (EncodeAll(more) + last.Stream()) == EncodeAll(got) + last.Stream();
      }
    }
  }
}
