/** Running a shell command: bounded capture of both pipes, a deadline, and escalation of signals. */
module ShellExec {
  import opened Bytes

  const POLL_MS: nat := 100

  /** What a `read` of one ready pipe returns. */
  datatype PipeRead = Chunk(data: bytes) | Eof | Again | Broken

  /** What `poll` reports: an error, an interruption, or the pipes that are ready. */
  datatype Poll = PollError | PollInterrupted | Polled(out: Option<PipeRead>, err: Option<PipeRead>)

  /** What `waitpid(WNOHANG)` reports. */
  datatype Wait = StillRunning | Exited(code: nat) | Signalled(sig: nat) | Odd

  /** Everything the environment answers during one turn of the loop. */
  datatype Tick = Tick(now: nat, poll: Poll, wait: Wait)

  datatype Signal = Term | Kill

  datatype Options = Options(timeoutMs: u32, maxStdout: u32, maxStderr: u32)

  datatype State = State(
    childRunning: bool, outOpen: bool, errOpen: bool, killSent: bool, timedOut: bool, exitCode: int,
    stdout: bytes, stderr: bytes, signals: seq<Signal>, waits: seq<nat>)

  const START := State(true, true, true, false, false, -1, [], [], [], [])

  predicate Active(s: State)
  {
    s.childRunning || s.outOpen || s.errOpen
  }

  function Take(max: nat, s: bytes): (r: bytes)
    ensures |r| <= max && r <= s
  {
    if |s| <= max then s else s[..max]
  }

  function ReadOf(open: bool, r: Option<PipeRead>): Option<PipeRead>
  {
    if open then r else None
  }

  function OutRead(s: State, t: Tick): Option<PipeRead>
  {
    if t.poll.Polled? then ReadOf(s.outOpen, t.poll.out) else None
  }

  function ErrRead(s: State, t: Tick): Option<PipeRead>
  {
    if t.poll.Polled? then ReadOf(s.errOpen, t.poll.err) else None
  }

  /** The loop leaves through its clean-up path. */
  predicate Fails(s: State, t: Tick)
  {
    || ((s.outOpen || s.errOpen) && t.poll.PollError?)
    || OutRead(s, t) == Some(Broken) || ErrRead(s, t) == Some(Broken)
  }

  // ---- `append_limited` ----------------------------------------------------------------------

  method AppendLimited(dst: bytes, src: bytes, max: nat) returns (r: bytes)
    requires |dst| <= max
    ensures r == Take(max, dst + src)
  {
    var canWrite := |src|;
    if |dst| >= max {
      assert (dst + src)[..max] == dst;
      return dst;
    }
    if |dst| + canWrite > max {
      canWrite := max - |dst|;
    }
    if canWrite == 0 {
      assert dst + src == dst;
      return dst;
    }
    r := dst + src[..canWrite];
    assert canWrite == |src| ==> src[..canWrite] == src;
    assert canWrite < |src| ==> (dst + src)[..max] == r;
  }

  // ---- What a series of turns amounts to -----------------------------------------------------

  /** The pipe has delivered its end of file. */
  predicate OutClosed(ticks: seq<Tick>)
  {
    exists i :: 0 <= i < |ticks| && ticks[i].poll.Polled? && ticks[i].poll.out == Some(Eof)
  }

  predicate ErrClosed(ticks: seq<Tick>)
  {
    exists i :: 0 <= i < |ticks| && ticks[i].poll.Polled? && ticks[i].poll.err == Some(Eof)
  }

  function DataOf(r: Option<PipeRead>): bytes
  {
    if r.Some? && r.value.Chunk? then r.value.data else []
  }

  /** The whole stream of the child's standard output up to its end of file. */
  function OutStream(ticks: seq<Tick>): bytes
  {
    if ticks == [] then []
    else
      var n := |ticks| - 1;
      var t := ticks[n];
      OutStream(ticks[..n]) + (if OutClosed(ticks[..n]) || !t.poll.Polled? then [] else DataOf(t.poll.out))
  }

  function ErrStream(ticks: seq<Tick>): bytes
  {
    if ticks == [] then []
    else
      var n := |ticks| - 1;
      var t := ticks[n];
      ErrStream(ticks[..n]) + (if ErrClosed(ticks[..n]) || !t.poll.Polled? then [] else DataOf(t.poll.err))
  }

  /** The turn that collects the child, or the number of turns. */
  function Reaped(ticks: seq<Tick>): (i: nat)
    ensures i <= |ticks|
    ensures i < |ticks| ==> !ticks[i].wait.StillRunning?
    ensures forall k :: 0 <= k < i ==> ticks[k].wait.StillRunning?
  {
    if ticks == [] || !ticks[0].wait.StillRunning? then 0 else 1 + Reaped(ticks[1..])
  }

  /** How many turns see the deadline passed with the child still running. */
  function Overdue(ticks: seq<Tick>, deadline: nat): nat
  {
    if ticks == [] then 0
    else
      var n := |ticks| - 1;
      Overdue(ticks[..n], deadline) + (if Reaped(ticks[..n]) == n && ticks[n].now >= deadline then 1 else 0)
  }

  function ExitCodeOf(w: Wait): int
  {
    match w
    case Exited(code) => code
    case Signalled(sig) => 128 + sig
    case _ => -1
  }

  /** First SIGTERM, from then on SIGKILL. */
  function Escalation(k: nat): seq<Signal>
  {
    if k == 0 then [] else [Term] + seq(k - 1, _ => Kill)
  }

  /** The child: collected in the first turn that says so, with that turn's exit code. */
  ghost predicate ChildDescribed(ticks: seq<Tick>, s: State)
  {
    && (s.childRunning <==> Reaped(ticks) == |ticks|)
    && s.exitCode == (if Reaped(ticks) == |ticks| then -1 else ExitCodeOf(ticks[Reaped(ticks)].wait))
  }

  /** The pipes: each buffer is the first bytes of its whole stream. */
  ghost predicate PipesDescribed(ticks: seq<Tick>, opts: Options, s: State)
  {
    && (s.outOpen <==> !OutClosed(ticks)) && (s.errOpen <==> !ErrClosed(ticks))
    && s.stdout == Take(opts.maxStdout, OutStream(ticks))
    && s.stderr == Take(opts.maxStderr, ErrStream(ticks))
  }

  /** The signals: one per overdue turn, SIGTERM first; the flag says whether there was any. */
  ghost predicate SignalsDescribed(ticks: seq<Tick>, deadline: nat, s: State)
  {
    && s.signals == Escalation(Overdue(ticks, deadline))
    && (s.timedOut <==> Overdue(ticks, deadline) > 0) && (s.killSent <==> s.timedOut)
  }

  /** How long turn `i` lets `poll` wait: 100 ms, or until the deadline while the child runs. */
  function WaitOf(ticks: seq<Tick>, deadline: nat, i: nat): nat
    requires i < |ticks|
  {
    if i <= Reaped(ticks) && ticks[i].now < deadline < ticks[i].now + 100 then deadline - ticks[i].now else 100
  }

  ghost predicate WaitsDescribed(ticks: seq<Tick>, deadline: nat, s: State)
  {
    |s.waits| == |ticks| && forall i :: 0 <= i < |ticks| ==> s.waits[i] == WaitOf(ticks, deadline, i)
  }

  /** The state that a series of turns leaves, read off the series alone. */
  ghost predicate Describes(ticks: seq<Tick>, deadline: nat, opts: Options, s: State)
  {
    ChildDescribed(ticks, s) && PipesDescribed(ticks, opts, s)
    && SignalsDescribed(ticks, deadline, s) && WaitsDescribed(ticks, deadline, s)
  }

  /** Turn `i` finds the child running or a pipe open. */
  predicate ActiveAt(ticks: seq<Tick>, i: nat)
    requires i <= |ticks|
  {
    Reaped(ticks[..i]) == i || !OutClosed(ticks[..i]) || !ErrClosed(ticks[..i])
  }

  /** Turn `i` sees `poll` fail, or the read of a pipe that is still open. */
  predicate FailsAt(ticks: seq<Tick>, i: nat)
    requires i < |ticks|
  {
    var t, out, err := ticks[i], !OutClosed(ticks[..i]), !ErrClosed(ticks[..i]);
    || ((out || err) && t.poll.PollError?)
    || (t.poll.Polled? && ((out && t.poll.out == Some(Broken)) || (err && t.poll.err == Some(Broken))))
  }

  /** None of the first `n` turns ends the loop. */
  predicate RunsThrough(ticks: seq<Tick>, n: nat)
    requires n <= |ticks|
  {
    forall i :: 0 <= i < n ==> ActiveAt(ticks, i) && !FailsAt(ticks, i)
  }

  datatype Ending =
    | Success(result: State, turns: nat)
    | Failure(turns: nat)
    | Unfinished(result: State)

  // ---- The loop ------------------------------------------------------------------------------

  /** The deadline check: one signal per turn once it has passed, else a wait that ends by then. */
  method Escalate(t: Tick, deadline: nat, a: State) returns (s: State)
    ensures Escalated(t, deadline, a, s)
  {
    s := a;
    var timeoutMs: nat := POLL_MS;
    if t.now >= deadline && s.childRunning {
      s := s.(timedOut := true);
      if !s.killSent {
        s := s.(signals := s.signals + [Term], killSent := true);
      } else {
        s := s.(signals := s.signals + [Kill]);
      }
    } else if s.childRunning {
      var remain: nat := deadline - t.now;
      if remain < timeoutMs {
        timeoutMs := remain;
      }
    }
    s := s.(waits := s.waits + [timeoutMs]);
  }

  /** The effect of the deadline check. */
  ghost predicate Escalated(t: Tick, deadline: nat, a: State, b: State)
  {
    var late := t.now >= deadline && a.childRunning;
    && |b.waits| == |a.waits| + 1
    && b == a.(timedOut := a.timedOut || late, killSent := a.killSent || late,
               signals := if late then a.signals + [if a.killSent then Kill else Term] else a.signals,
               waits := a.waits + [b.waits[|a.waits|]])
    && b.waits[|a.waits|] == if a.childRunning && t.now < deadline < t.now + 100 then deadline - t.now else 100
  }

  /** The poll and the reads of the ready pipes, standard output first. */
  method ReadPipes(t: Tick, opts: Options, a: State) returns (s: State, failed: bool)
    requires (a.outOpen || a.errOpen) && |a.stdout| <= opts.maxStdout && |a.stderr| <= opts.maxStderr
    ensures failed <==> Fails(a, t)
    ensures !failed ==> Drained(t, opts, a, s)
  {
    s, failed := a, false;
    if t.poll.PollError? {
      return s, true;
    }
    if t.poll.Polled? {
      var errReady := s.errOpen && t.poll.err.Some?;
      if s.outOpen && t.poll.out.Some? {
        match t.poll.out.value {
          case Chunk(data) =>
            var grown := AppendLimited(s.stdout, data, opts.maxStdout);
            s := s.(stdout := grown);
          case Eof => s := s.(outOpen := false);
          case Again =>
          case Broken => return s, true;
        }
      }
      if errReady {
        match t.poll.err.value {
          case Chunk(data) =>
            var grown := AppendLimited(s.stderr, data, opts.maxStderr);
            s := s.(stderr := grown);
          case Eof => s := s.(errOpen := false);
          case Again =>
          case Broken => return s, true;
        }
      }
    }
    assert a.stdout + [] == a.stdout && a.stderr + [] == a.stderr;
  }

  /** The effect of the reads. */
  ghost predicate Drained(t: Tick, opts: Options, a: State, b: State)
  {
    var out, err := OutRead(a, t), ErrRead(a, t);
    b == a.(outOpen := a.outOpen && out != Some(Eof), errOpen := a.errOpen && err != Some(Eof),
            stdout := Take(opts.maxStdout, a.stdout + DataOf(out)),
            stderr := Take(opts.maxStderr, a.stderr + DataOf(err)))
  }

  /** The `waitpid` at the end of a turn. */
  method Collect(t: Tick, a: State) returns (s: State)
    ensures Collected(t, a, s)
  {
    s := a;
    if s.childRunning && !t.wait.StillRunning? {
      s := s.(childRunning := false);
      if t.wait.Exited? {
        s := s.(exitCode := t.wait.code);
      } else if t.wait.Signalled? {
        s := s.(exitCode := 128 + t.wait.sig);
      }
    }
  }

  ghost predicate Collected(t: Tick, a: State, b: State)
  {
    b == if !a.childRunning || t.wait.StillRunning? then a
         else a.(childRunning := false, exitCode := if t.wait.Odd? then a.exitCode else ExitCodeOf(t.wait))
  }

  /** The body of the loop. */
  method ExecTurn(ticks: seq<Tick>, i: nat, deadline: nat, opts: Options, a: State) returns (s: State, failed: bool)
    requires i < |ticks| && Describes(ticks[..i], deadline, opts, a)
    ensures failed <==> FailsAt(ticks, i)
    ensures !failed ==> Describes(ticks[..i + 1], deadline, opts, s)
  {
    hide Describes, FailsAt;
    failed := false;
    s := Escalate(ticks[i], deadline, a);
    ghost var escalated := s;
    FailureFound(ticks, i, deadline, opts, a, escalated);
    BuffersBounded(ticks[..i], deadline, opts, a);
    if s.outOpen || s.errOpen {
      s, failed := ReadPipes(ticks[i], opts, s);
      if failed {
        return;
      }
    }
    ghost var drained := s;
    s := Collect(ticks[i], s);
    TurnDescribed(ticks, i, deadline, opts, a, escalated, drained, s);
  }

  /** The loop of `usb_responder_exec_shell`, until the environment's answers run out. */
  method ExecShell(ticks: seq<Tick>, start: nat, opts: Options) returns (ending: Ending)
    ensures ending.Success? ==>
              && ending.turns <= |ticks| && !Active(ending.result) && RunsThrough(ticks, ending.turns)
              && Describes(ticks[..ending.turns], start + opts.timeoutMs, opts, ending.result)
    ensures ending.Failure? ==>
              && ending.turns < |ticks| && RunsThrough(ticks, ending.turns)
              && ActiveAt(ticks, ending.turns) && FailsAt(ticks, ending.turns)
    ensures ending.Unfinished? ==>
              && Active(ending.result) && RunsThrough(ticks, |ticks|)
              && Describes(ticks, start + opts.timeoutMs, opts, ending.result)
  {
    var deadline := start + opts.timeoutMs;
    hide *;
    var s := START;
    var i := 0;
    StartDescribed(ticks, deadline, opts);
    while Active(s)
      invariant i <= |ticks| && Describes(ticks[..i], deadline, opts, s) && RunsThrough(ticks, i)
      decreases |ticks| - i
    {
      if i == |ticks| {
        assert ticks[..i] == ticks;
        return Unfinished(s);
      }
      ActiveMeans(ticks, i, deadline, opts, s);
      var failed: bool;
      s, failed := ExecTurn(ticks, i, deadline, opts, s);
      if failed {
        return Failure(i);
      }
      RunsOn(ticks, i);
      i := i + 1;
    }
    ending := Success(s, i);
  }

  lemma ActiveMeans(ticks: seq<Tick>, i: nat, deadline: nat, opts: Options, s: State)
    requires i <= |ticks| && Describes(ticks[..i], deadline, opts, s)
    ensures Active(s) <==> ActiveAt(ticks, i)
  {
    hide OutClosed, ErrClosed, Reaped, SignalsDescribed, WaitsDescribed, Take, OutStream, ErrStream;
  }

  /** What a turn finds and what it sees, read off the series, amount to the state's view. */
  lemma FailureFound(ticks: seq<Tick>, i: nat, deadline: nat, opts: Options, a: State, escalated: State)
    requires i < |ticks| && Describes(ticks[..i], deadline, opts, a) && Escalated(ticks[i], deadline, a, escalated)
    ensures Fails(escalated, ticks[i]) <==> FailsAt(ticks, i)
  {
    hide OutClosed, ErrClosed, Reaped, SignalsDescribed, WaitsDescribed, Take, OutStream, ErrStream;
  }

  lemma RunsOn(ticks: seq<Tick>, i: nat)
    requires i < |ticks| && RunsThrough(ticks, i) && ActiveAt(ticks, i) && !FailsAt(ticks, i)
    ensures RunsThrough(ticks, i + 1)
  {
    hide ActiveAt, FailsAt;
  }

  lemma StartDescribed(ticks: seq<Tick>, deadline: nat, opts: Options)
    ensures Describes(ticks[..0], deadline, opts, START) && RunsThrough(ticks, 0)
  {
  }

  lemma TakeTake(max: nat, u: bytes, v: bytes)
    ensures Take(max, Take(max, u) + v) == Take(max, u + v)
  {
    if |u| > max {
      assert (u[..max] + v)[..max] == u[..max] == (u + v)[..max];
    }
  }

  lemma ReapedStep(ticks: seq<Tick>, i: nat)
    requires i < |ticks|
    ensures Reaped(ticks[..i + 1]) == if Reaped(ticks[..i]) < i then Reaped(ticks[..i])
                                      else if ticks[i].wait.StillRunning? then i + 1 else i
  {
    var a, b := Reaped(ticks[..i]), Reaped(ticks[..i + 1]);
    assert forall k :: 0 <= k < i ==> ticks[..i + 1][k] == ticks[..i][k];
    assert forall k :: 0 <= k < a ==> ticks[k].wait.StillRunning?;
    assert b >= a;
  }

  lemma ClosedStep(ticks: seq<Tick>, i: nat)
    requires i < |ticks|
    ensures OutClosed(ticks[..i + 1])
            <==> (OutClosed(ticks[..i]) || (ticks[i].poll.Polled? && ticks[i].poll.out == Some(Eof)))
    ensures ErrClosed(ticks[..i + 1])
            <==> (ErrClosed(ticks[..i]) || (ticks[i].poll.Polled? && ticks[i].poll.err == Some(Eof)))
  {
    assert ticks[..i + 1] == ticks[..i] + [ticks[i]];
  }

  lemma StreamStep(ticks: seq<Tick>, i: nat)
    requires i < |ticks|
    ensures OutStream(ticks[..i + 1])
         == OutStream(ticks[..i])
            + (if OutClosed(ticks[..i]) || !ticks[i].poll.Polled? then [] else DataOf(ticks[i].poll.out))
    ensures ErrStream(ticks[..i + 1])
         == ErrStream(ticks[..i])
            + (if ErrClosed(ticks[..i]) || !ticks[i].poll.Polled? then [] else DataOf(ticks[i].poll.err))
  {
    assert ticks[..i + 1][..i] == ticks[..i];
  }

  lemma OverdueStep(ticks: seq<Tick>, i: nat, deadline: nat)
    requires i < |ticks|
    ensures Overdue(ticks[..i + 1], deadline)
         == Overdue(ticks[..i], deadline) + (if Reaped(ticks[..i]) == i && ticks[i].now >= deadline then 1 else 0)
  {
    assert ticks[..i + 1][..i] == ticks[..i];
  }

  lemma EscalationStep(k: nat)
    ensures Escalation(k + 1) == Escalation(k) + [if k == 0 then Term else Kill]
  {
  }

  lemma PipesStep(ticks: seq<Tick>, i: nat, opts: Options, a: State, b: State)
    requires i < |ticks| && PipesDescribed(ticks[..i], opts, a) && Drained(ticks[i], opts, a, b)
    ensures PipesDescribed(ticks[..i + 1], opts, b)
  {
    hide OutClosed, ErrClosed, OutStream, ErrStream, Take;
    var t := ticks[i];
    ClosedStep(ticks, i);
    StreamStep(ticks, i);
    TakeTake(opts.maxStdout, OutStream(ticks[..i]), DataOf(OutRead(a, t)));
    TakeTake(opts.maxStderr, ErrStream(ticks[..i]), DataOf(ErrRead(a, t)));
  }

  lemma PipesUnread(ticks: seq<Tick>, i: nat, opts: Options, a: State)
    requires i < |ticks| && PipesDescribed(ticks[..i], opts, a) && !a.outOpen && !a.errOpen
    ensures PipesDescribed(ticks[..i + 1], opts, a)
  {
    hide OutClosed, ErrClosed, OutStream, ErrStream, Take;
    ClosedStep(ticks, i);
    StreamStep(ticks, i);
    assert OutStream(ticks[..i]) + [] == OutStream(ticks[..i]) && ErrStream(ticks[..i]) + [] == ErrStream(ticks[..i]);
  }

  lemma SignalsStep(ticks: seq<Tick>, i: nat, deadline: nat, a: State, b: State)
    requires i < |ticks| && SignalsDescribed(ticks[..i], deadline, a) && ChildDescribed(ticks[..i], a)
    requires Escalated(ticks[i], deadline, a, b)
    ensures SignalsDescribed(ticks[..i + 1], deadline, b)
  {
    hide Overdue, Escalation;
    OverdueStep(ticks, i, deadline);
    EscalationStep(Overdue(ticks[..i], deadline));
  }

  lemma WaitsStep(ticks: seq<Tick>, i: nat, deadline: nat, a: State, b: State)
    requires i < |ticks| && WaitsDescribed(ticks[..i], deadline, a) && ChildDescribed(ticks[..i], a)
    requires Escalated(ticks[i], deadline, a, b)
    ensures WaitsDescribed(ticks[..i + 1], deadline, b)
  {
    ReapedStep(ticks, i);
    hide Reaped;
    forall k | 0 <= k < i + 1 ensures b.waits[k] == WaitOf(ticks[..i + 1], deadline, k) {
      if k < i {
        assert b.waits[k] == a.waits[k] && ticks[..i][k] == ticks[..i + 1][k];
      }
    }
  }

  lemma ChildStep(ticks: seq<Tick>, i: nat, a: State, b: State)
    requires i < |ticks| && ChildDescribed(ticks[..i], a) && Collected(ticks[i], a, b)
    ensures ChildDescribed(ticks[..i + 1], b)
  {
    ReapedStep(ticks, i);
    hide Reaped;
    if Reaped(ticks[..i]) < i {
      assert ticks[..i + 1][Reaped(ticks[..i])] == ticks[..i][Reaped(ticks[..i])];
    }
  }

  /** One turn of the loop keeps the description. */
  lemma TurnDescribed(
      ticks: seq<Tick>, i: nat, deadline: nat, opts: Options, a: State, escalated: State, drained: State, b: State)
    requires i < |ticks| && Describes(ticks[..i], deadline, opts, a)
    requires Escalated(ticks[i], deadline, a, escalated)
    requires if escalated.outOpen || escalated.errOpen then Drained(ticks[i], opts, escalated, drained)
             else drained == escalated
    requires Collected(ticks[i], drained, b)
    ensures Describes(ticks[..i + 1], deadline, opts, b)
  {
    hide Reaped, Overdue, OutStream, ErrStream, OutClosed, ErrClosed, Escalation;
    hide ChildDescribed, PipesDescribed, SignalsDescribed, WaitsDescribed;
    var t := ticks[i];
    SignalsStep(ticks, i, deadline, a, escalated);
    WaitsStep(ticks, i, deadline, a, escalated);
    UntouchedByEscalation(ticks[..i], t, deadline, opts, a, escalated);
    if escalated.outOpen || escalated.errOpen {
      PipesStep(ticks, i, opts, escalated, drained);
    } else {
      PipesUnread(ticks, i, opts, escalated);
    }
    UntouchedByReads(ticks, i, deadline, opts, escalated, drained);
    ChildStep(ticks, i, drained, b);
    UntouchedByWait(ticks[..i + 1], t, deadline, opts, drained, b);
  }

  lemma UntouchedByEscalation(ticks: seq<Tick>, t: Tick, deadline: nat, opts: Options, a: State, b: State)
    requires Escalated(t, deadline, a, b)
    ensures ChildDescribed(ticks, a) ==> ChildDescribed(ticks, b)
    ensures PipesDescribed(ticks, opts, a) ==> PipesDescribed(ticks, opts, b)
  {
    hide Reaped, OutStream, ErrStream, OutClosed, ErrClosed;
  }

  lemma UntouchedByReads(ticks: seq<Tick>, i: nat, deadline: nat, opts: Options, a: State, b: State)
    requires i < |ticks| && (Drained(ticks[i], opts, a, b) || a == b)
    ensures ChildDescribed(ticks[..i], a) ==> ChildDescribed(ticks[..i], b)
    ensures SignalsDescribed(ticks[..i + 1], deadline, a) ==> SignalsDescribed(ticks[..i + 1], deadline, b)
    ensures WaitsDescribed(ticks[..i + 1], deadline, a) ==> WaitsDescribed(ticks[..i + 1], deadline, b)
  {
    hide Reaped, Overdue, Escalation;
  }

  lemma UntouchedByWait(ticks: seq<Tick>, t: Tick, deadline: nat, opts: Options, a: State, b: State)
    requires Collected(t, a, b)
    ensures PipesDescribed(ticks, opts, a) ==> PipesDescribed(ticks, opts, b)
    ensures SignalsDescribed(ticks, deadline, a) ==> SignalsDescribed(ticks, deadline, b)
    ensures WaitsDescribed(ticks, deadline, a) ==> WaitsDescribed(ticks, deadline, b)
  {
    hide Reaped, Overdue, Escalation, OutStream, ErrStream, OutClosed, ErrClosed;
  }

  lemma BuffersBounded(ticks: seq<Tick>, deadline: nat, opts: Options, s: State)
    requires Describes(ticks, deadline, opts, s)
    ensures |s.stdout| <= opts.maxStdout && |s.stderr| <= opts.maxStderr
  {
  }

  // ---- What a finished run guarantees --------------------------------------------------------

  lemma {:induction false} OverdueMeans(ticks: seq<Tick>, deadline: nat)
    ensures Overdue(ticks, deadline) > 0
            <==> exists i :: 0 <= i < |ticks| && i <= Reaped(ticks) && ticks[i].now >= deadline
    decreases |ticks|
  {
    if ticks != [] {
      var n := |ticks| - 1;
      var prev := ticks[..n];
      OverdueMeans(prev, deadline);
      ReapedStep(ticks, n);
      assert ticks[..n + 1] == ticks;
      if i :| 0 <= i < |ticks| && i <= Reaped(ticks) && ticks[i].now >= deadline {
        if i < n {
          assert prev[i].now >= deadline && i <= Reaped(prev);
        }
      }
      if i :| 0 <= i < |prev| && i <= Reaped(prev) && prev[i].now >= deadline {
        assert ticks[i].now >= deadline;
      }
    }
  }

  /** Once the child is collected, no later turn sends a signal. */
  lemma {:induction false} NoSignalAfterReaping(ticks: seq<Tick>, deadline: nat, i: nat)
    requires Reaped(ticks) < i <= |ticks|
    ensures Overdue(ticks, deadline) == Overdue(ticks[..i], deadline)
    decreases |ticks|
  {
    if i == |ticks| {
      assert ticks[..i] == ticks;
    } else {
      var n := |ticks| - 1;
      ReapedStep(ticks, n);
      assert ticks[..n + 1] == ticks && ticks[..n][..i] == ticks[..i];
      NoSignalAfterReaping(ticks[..n], deadline, i);
    }
  }

  /** The turns that see the deadline passed with the child still running. */
  function LateTurns(ticks: seq<Tick>, deadline: nat): set<nat>
  {
    set i: nat | i < |ticks| && i <= Reaped(ticks) && ticks[i].now >= deadline
  }

  lemma {:induction false} OverdueCounts(ticks: seq<Tick>, deadline: nat)
    ensures Overdue(ticks, deadline) == |LateTurns(ticks, deadline)|
    decreases |ticks|
  {
    if ticks == [] {
      assert LateTurns(ticks, deadline) == {};
    } else {
      var n := |ticks| - 1;
      var prev := ticks[..n];
      OverdueCounts(prev, deadline);
      ReapedStep(ticks, n);
      assert ticks[..n + 1] == ticks;
      var late := Reaped(prev) == n && ticks[n].now >= deadline;
      LateStep(ticks, deadline, n);
      assert n !in LateTurns(prev, deadline);
    }
  }

  lemma LateStep(ticks: seq<Tick>, deadline: nat, n: nat)
    requires |ticks| == n + 1
    ensures LateTurns(ticks, deadline)
         == LateTurns(ticks[..n], deadline) + (if Reaped(ticks[..n]) == n && ticks[n].now >= deadline then {n} else {})
  {
    ReapedStep(ticks, n);
    assert ticks[..n + 1] == ticks;
    assert forall i: nat :: i < n ==> ticks[..n][i] == ticks[i];
    hide Reaped;
  }

  /** The stream of standard output is what its reads delivered before the end of file, and nothing else. */
  lemma OutStreamGrows(ticks: seq<Tick>, t: Tick)
    ensures OutStream([]) == [] && !OutClosed([])
    ensures t.poll.Polled? && t.poll.out.Some? && t.poll.out.value.Chunk? && !OutClosed(ticks) ==>
              OutStream(ticks + [t]) == OutStream(ticks) + t.poll.out.value.data
    ensures !(t.poll.Polled? && t.poll.out.Some? && t.poll.out.value.Chunk?) || OutClosed(ticks) ==>
              OutStream(ticks + [t]) == OutStream(ticks)
    ensures OutClosed(ticks + [t]) <==> OutClosed(ticks) || (t.poll.Polled? && t.poll.out == Some(Eof))
  {
    var all, n := ticks + [t], |ticks|;
    assert all[..n] == ticks && all[..n + 1] == all;
    StreamStep(all, n);
    ClosedStep(all, n);
    assert OutStream(ticks) + [] == OutStream(ticks);
  }

  lemma ErrStreamGrows(ticks: seq<Tick>, t: Tick)
    ensures ErrStream([]) == [] && !ErrClosed([])
    ensures t.poll.Polled? && t.poll.err.Some? && t.poll.err.value.Chunk? && !ErrClosed(ticks) ==>
              ErrStream(ticks + [t]) == ErrStream(ticks) + t.poll.err.value.data
    ensures !(t.poll.Polled? && t.poll.err.Some? && t.poll.err.value.Chunk?) || ErrClosed(ticks) ==>
              ErrStream(ticks + [t]) == ErrStream(ticks)
    ensures ErrClosed(ticks + [t]) <==> ErrClosed(ticks) || (t.poll.Polled? && t.poll.err == Some(Eof))
  {
    var all, n := ticks + [t], |ticks|;
    assert all[..n] == ticks && all[..n + 1] == all;
    StreamStep(all, n);
    ClosedStep(all, n);
    assert ErrStream(ticks) + [] == ErrStream(ticks);
  }

  /** On success both streams were read to their end, and each buffer is the first bytes of its stream; every
      late turn sent one signal, SIGTERM first and SIGKILL from then on; `timed_out` says whether there was
      any; and the exit code is that of the child, 128 and the number of the signal that ended it, or -1. */
  lemma SuccessMeans(ticks: seq<Tick>, deadline: nat, opts: Options, s: State)
    requires Describes(ticks, deadline, opts, s) && !Active(s)
    ensures OutClosed(ticks) && ErrClosed(ticks) && Reaped(ticks) < |ticks|
    ensures s.stdout == Take(opts.maxStdout, OutStream(ticks)) && s.stderr == Take(opts.maxStderr, ErrStream(ticks))
    ensures |s.signals| == |LateTurns(ticks, deadline)|
    ensures forall j :: 0 <= j < |s.signals| ==> s.signals[j] == if j == 0 then Term else Kill
    ensures |s.waits| == |ticks| && forall i :: 0 <= i < |ticks| ==>
              var now := ticks[i].now;
              s.waits[i] == if i <= Reaped(ticks) && now < deadline < now + 100 then deadline - now else 100
    ensures s.timedOut <==> exists i :: 0 <= i <= Reaped(ticks) && ticks[i].now >= deadline
    ensures var wait := ticks[Reaped(ticks)].wait;
            s.exitCode == if wait.Exited? then wait.code else if wait.Signalled? then 128 + wait.sig else -1
  {
    OverdueMeans(ticks, deadline);
    OverdueCounts(ticks, deadline);
    hide Overdue, Reaped, OutStream, ErrStream, LateTurns;
    assert s.timedOut <==> Overdue(ticks, deadline) > 0;
    assert |Escalation(Overdue(ticks, deadline))| == Overdue(ticks, deadline);
  }

  /** The deadline does not bound the loop: once the child is collected only the pipes keep it going,
      however late it is, and a signal was sent and a timeout reported exactly when some turn up to the
      collecting one saw the deadline passed. */
  lemma AfterReaping(ticks: seq<Tick>, deadline: nat, opts: Options, s: State)
    requires Describes(ticks, deadline, opts, s) && Reaped(ticks) < |ticks|
    ensures Active(s) <==> !OutClosed(ticks) || !ErrClosed(ticks)
    ensures s.timedOut <==> exists i :: 0 <= i <= Reaped(ticks) && ticks[i].now >= deadline
    ensures s.signals == [] <==> !s.timedOut
  {
    OverdueMeans(ticks, deadline);
    hide Overdue, Reaped, OutStream, ErrStream, OutClosed, ErrClosed;
    assert s.timedOut <==> Overdue(ticks, deadline) > 0;
  }

  /** A child that exits in the first turn, and `n` more turns, 100 ms apart, in which its pipes stay silent
      and open. */
  function Orphaned(n: nat): seq<Tick>
  {
    [Tick(0, Polled(None, None), Exited(0))]
    + seq(n, (i: nat) => Tick(POLL_MS * (i + 1), Polled(None, None), StillRunning))
  }

  /** With a deadline of one second, none of those turns ends the loop, however many there are. */
  lemma OrphanKeepsLoop(n: nat, opts: Options, s: State)
    ensures RunsThrough(Orphaned(n), n + 1) && ActiveAt(Orphaned(n), n + 1)
    ensures Describes(Orphaned(n), 1000, opts, s) ==> Active(s) && !s.timedOut && s.signals == []
  {
    var ticks := Orphaned(n);
    assert !ticks[0].wait.StillRunning?;
    SilentTurns(ticks, n + 1);
    assert ticks[..n + 1] == ticks;
    hide Orphaned, Describes, OutClosed;
    if Describes(ticks, 1000, opts, s) {
      AfterReaping(ticks, 1000, opts, s);
    }
  }

  /** Turns in which nothing comes from the pipes do not end the loop. */
  lemma SilentTurns(ticks: seq<Tick>, n: nat)
    requires n <= |ticks| && forall i :: 0 <= i < |ticks| ==> ticks[i].poll == Polled(None, None)
    ensures RunsThrough(ticks, n) && ActiveAt(ticks, n) && !OutClosed(ticks[..n])
  {
    assert forall i :: 0 <= i <= |ticks| ==> !OutClosed(ticks[..i]);
  }
}
