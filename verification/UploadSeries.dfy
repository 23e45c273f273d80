/** Uploads from the moment a device is enabled: the first, a series over one connection, a retry. */
module UploadSeries {
  import opened Bytes
  import opened FrameCodec
  import opened KvCodec
  import opened UsbTransport
  import opened Reassembly
  import opened FileSystem
  import opened Uploads
  import opened UploadIsolation
  import opened Handlers
  import opened Responder
  import opened UploadSequence
  import opened UsbUpload
  import Paths

  // ---- From start-up -------------------------------------------------------------------------

  /** The host enables the function and both endpoints open. */
  function EnableTurn(a: Answers): Turn
  {
    Polled(Some(Batch([Enable])), true, true, [], false, false, a)
  }

  function Enabled(w: World, a: Answers, mps: nat): World
    requires PacketSize(mps)
  {
    World(w.rxbuf, LoopTurn(w.device, EnableTurn(a), mps).1)
  }

  /** A daemon that has just started, and a client that has received nothing. */
  function Started(fs: FS): World
  {
    World([], Start(fs))
  }

  lemma StartedIsShut(fs: FS)
    ensures Shut(Started(fs)) && Started(fs).device.store.fs == fs
  {
  }

  /** Enabling opens a connection that is ready for a first request and leaves the store alone. */
  lemma EnabledIsQuiet(w: World, a: Answers, mps: nat)
    requires PacketSize(mps) && Shut(w)
    ensures Quiet(Enabled(w, a, mps)) && Enabled(w, a, mps).device.store == w.device.store
  {
    hide HandleFrame, ReadFrame;
    var s := w.device;
    assert [Enable][1..] == [];
    assert Ep0Steps(s, [Enable]) == s.(enabled := true);
  }

  /** The simple store of a device without open uploads. */
  function Resting(fs: FS): Atomic
  {
    Atomic(map[], PublishedIn(fs))
  }

  lemma StartRefines(fs: FS)
    requires Valid(fs)
    ensures Refines(Started(fs).device.store, Resting(fs))
  {
    InitialRefines(fs);
    hide Refines;
  }

  /** Nothing in the tree is in the way of the upload. */
  ghost predicate Startable(fs: FS, p: Put, sd: bool)
  {
    && CanSend(p) && PutTarget(p, sd).Some? && ModeOf(p).Some?
    && var final := PutTarget(p, sd).value;
       && ParentDirs(fs, final) && !IsDir(fs, final)
       && (final + PART in fs.nodes ==> IsFile(fs, final + PART))
  }

  /** Without open uploads every upload that nothing in the tree is in the way of is acceptable. */
  lemma RestingIsReady(st: Store, a: Atomic, p: Put, sd: bool)
    requires Refines(st, a) && a.open == map[] && Startable(st.fs, p, sd)
    ensures Ready(st, a, p, sd)
  {
    RefinesTable(st, a);
    IdsOpen(st, a);
    assert !st.slots[0].used;
    assert FirstFree(st.slots) < MAX_SESSIONS;
    hide Refines, Target, PermOf, CString, ParentDirs, IsDir, CanSend;
  }

  lemma KeepsStartable(fs: FS, fs': FS, p: Put, sd: bool)
    requires Startable(fs, p, sd) && Keeps(fs, fs')
    ensures Startable(fs', p, sd)
  {
    hide Target, PermOf, CString, ParentDirs, IsDir, CanSend, SameDirs;
    DirsKept(fs, fs', PutTarget(p, sd).value);
    DirsKept(fs, fs', PutTarget(p, sd).value + PART);
    KeepsFile(fs, fs', PutTarget(p, sd).value + PART);
  }

  lemma KeepsFile(fs: FS, fs': FS, path: bytes)
    requires Keeps(fs, fs') && (path in fs.nodes ==> IsFile(fs, path))
    ensures path in fs'.nodes ==> IsFile(fs', path)
  {
  }

  // ---- A series of uploads -------------------------------------------------------------------

  /** One call of `file_put` and what the environment answers during it. */
  datatype Job = Job(put: Put, answers: seq<Answers>)

  predicate Equipped(j: Job, sd: bool)
  {
    CanSend(j.put) && |j.answers| >= |PutFrames(j.put)| && AllSucceed(j.answers, sd)
  }

  predicate AllEquipped(jobs: seq<Job>, sd: bool)
  {
    forall i :: 0 <= i < |jobs| ==> Equipped(jobs[i], sd)
  }

  /** One upload after the other, up to the first that fails. */
  function PutAll(w: World, jobs: seq<Job>, sd: bool, mps: nat): (bool, World)
    requires PacketSize(mps) && AllEquipped(jobs, sd)
    decreases jobs
  {
    if jobs == [] then (true, w)
    else
      var j := jobs[0];
      assert Equipped(j, sd);
      var (ok, next) := Converse(w, PutFrames(j.put), j.answers, mps);
      if ok then PutAll(next, jobs[1..], sd, mps) else (false, next)
  }

  /** The simple store after complete uploads: each one's temporary name gone, its bytes at its path. */
  function AllSettled(a: Atomic, jobs: seq<Job>, sd: bool): Atomic
    decreases jobs
  {
    if jobs == [] then a
    else
      var target := PutTarget(jobs[0].put, sd);
      AllSettled(if target.Some? then Settled(a, jobs[0].put, target.value) else a, jobs[1..], sd)
  }

  predicate Flowing(j: Job, sd: bool)
  {
    Equipped(j, sd) && Flows(j.put)
  }

  predicate AllFlowing(jobs: seq<Job>, sd: bool)
  {
    forall i :: 0 <= i < |jobs| ==> Flowing(jobs[i], sd)
  }

  /** How many jobs come before the first that does not flow. */
  function FirstStall(jobs: seq<Job>, sd: bool): (k: nat)
    ensures k <= |jobs| && forall i :: 0 <= i < k ==> Flowing(jobs[i], sd)
    ensures k < |jobs| ==> !Flowing(jobs[k], sd)
    decreases jobs
  {
    hide Flowing;
    if jobs == [] || !Flowing(jobs[0], sd) then 0 else 1 + FirstStall(jobs[1..], sd)
  }

  /** The simple store when the job `j` has stalled: its upload is open with what has arrived of it. */
  function StalledAt(a: Atomic, j: Job, sd: bool): Atomic
  {
    if CanSend(j.put) && PutTarget(j.put, sd).Some? && ModeOf(j.put).Some? && j.answers != []
    then UnderWay(a, j.put, j.answers[0], sd) else a
  }

  ghost predicate AllStartable(fs: FS, jobs: seq<Job>, sd: bool)
  {
    forall i :: 0 <= i < |jobs| ==> Startable(fs, jobs[i].put, sd)
  }

  /** An upload to a device without open uploads. */
  lemma OneUpload(w: World, a: Atomic, j: Job, sd: bool, mps: nat)
    requires PacketSize(mps) && Quiet(w) && Refines(w.device.store, a) && a.open == map[]
    requires Equipped(j, sd) && Startable(w.device.store.fs, j.put, sd)
    ensures var (ok, after) := Converse(w, PutFrames(j.put), j.answers, mps);
            && (ok <==> Flows(j.put)) && Keeps(w.device.store.fs, after.device.store.fs)
            && (ok ==> Quiet(after) && Refines(after.device.store, Settled(a, j.put, PutTarget(j.put, sd).value)))
            && (!ok ==> Interrupted(after, a, j, sd))
  {
    hide Quiet, Refines, Flows, Keeps, Startable, Converse, PutFrames, AllSucceed, EncodeKvHost, UnderWay, Arrived,
         Content, PutTarget, ModeOf;
    RestingIsReady(w.device.store, a, j.put, sd);
    NothingToClean(a, j.put, j.answers);
    ReadyParts(w.device.store, a, j.put, sd);
    UploadOverUsb(w, a, j.put, sd, j.answers, mps);
  }

  /** The endpoints are closed (or a chunk of 4 GiB cannot be sent), and the upload of `j` is open. */
  ghost predicate Interrupted(w: World, a: Atomic, j: Job, sd: bool)
  {
    (Shut(w) || |j.put.local| + 4 >= U32_MODULUS) && Refines(w.device.store, StalledAt(a, j, sd))
  }

  lemma NothingToClean(a: Atomic, p: Put, answers: seq<Answers>)
    requires a.open == map[] && CanSend(p) && |answers| >= |PutFrames(p)|
    ensures |answers| >= 1 && Cleaned(a, p, answers[0]) == a
    ensures forall path :: !IsPrivate(a.open, path)
    ensures forall final :: Settled(a, p, final).open == map[]
  {
    SplitFrames(p);
    hide EncodeKvHost, PutFrames;
  }

  lemma SettledFront(a: Atomic, jobs: seq<Job>, sd: bool, k: nat)
    requires 1 <= k <= |jobs| && PutTarget(jobs[0].put, sd).Some?
    ensures AllSettled(a, jobs[..k], sd)
         == AllSettled(Settled(a, jobs[0].put, PutTarget(jobs[0].put, sd).value), jobs[1..][..k - 1], sd)
  {
    hide Settled, PutTarget;
    assert jobs[..k][0] == jobs[0] && jobs[..k][1..] == jobs[1..][..k - 1];
  }

  lemma FlowingFront(jobs: seq<Job>, sd: bool)
    requires jobs != []
    ensures Flowing(jobs[0], sd) ==> FirstStall(jobs, sd) == 1 + FirstStall(jobs[1..], sd)
    ensures !Flowing(jobs[0], sd) ==> FirstStall(jobs, sd) == 0
    ensures AllFlowing(jobs, sd) <==> FirstStall(jobs, sd) == |jobs|
    ensures AllFlowing(jobs, sd) <==> Flowing(jobs[0], sd) && AllFlowing(jobs[1..], sd)
  {
    hide Flowing;
    assert forall i :: 0 < i < |jobs| ==> jobs[i] == jobs[1..][i - 1];
  }

  /** Any number of uploads over one connection: all of them complete if and only if each of them flows,
      and then the files are those of the uploads in their order, and all other names are as before.
      Otherwise the first that does not flow ends the series: the uploads before it are complete, its own
      is open with what has arrived of it, and nothing else has changed. */
  lemma {:induction false} UploadsInSeries(w: World, a: Atomic, jobs: seq<Job>, sd: bool, mps: nat)
    requires PacketSize(mps) && Quiet(w) && Refines(w.device.store, a) && a.open == map[]
    requires AllEquipped(jobs, sd) && AllStartable(w.device.store.fs, jobs, sd)
    ensures var (ok, after) := PutAll(w, jobs, sd, mps);
            var k := FirstStall(jobs, sd);
            && (ok <==> AllFlowing(jobs, sd)) && (ok <==> k == |jobs|)
            && (ok ==> Quiet(after) && Refines(after.device.store, AllSettled(a, jobs, sd)))
            && (!ok ==> Interrupted(after, AllSettled(a, jobs[..k], sd), jobs[k], sd))
    decreases |jobs|
  {
    hide Quiet, Refines, Flows, Keeps, Startable, Converse, PutFrames, Equipped, Settled, PutTarget, Interrupted,
         FirstStall, AllFlowing;
    if jobs != [] {
      var j := jobs[0];
      assert Equipped(j, sd) && Startable(w.device.store.fs, j.put, sd);
      StartableParts(w.device.store.fs, j, sd);
      OneUpload(w, a, j, sd, mps);
      FlowingFront(jobs, sd);
      var (ok, after) := Converse(w, PutFrames(j.put), j.answers, mps);
      if ok {
        var next := Settled(a, j.put, PutTarget(j.put, sd).value);
        forall i | 0 <= i < |jobs[1..]| ensures Startable(after.device.store.fs, jobs[1..][i].put, sd) {
          KeepsStartable(w.device.store.fs, after.device.store.fs, jobs[i + 1].put, sd);
        }
        UploadsInSeries(after, next, jobs[1..], sd, mps);
        SettledFront(a, jobs, sd, FirstStall(jobs, sd));
      } else {
        assert jobs[..0] == [];
      }
    } else {
      NoJobs(sd);
    }
  }

  lemma NoJobs(sd: bool)
    ensures FirstStall([], sd) == 0 && AllFlowing([], sd)
  {
  }

  lemma StartableParts(fs: FS, j: Job, sd: bool)
    requires Startable(fs, j.put, sd) && Equipped(j, sd)
    ensures CanSend(j.put) && |j.answers| >= |PutFrames(j.put)| && PutTarget(j.put, sd).Some?
    ensures forall a: Atomic, final :: a.open == map[] ==> Settled(a, j.put, final).open == map[]
  {
    hide EncodeKvHost, PutFrames, Target;
  }

  // ---- The first upload ----------------------------------------------------------------------

  /** In the store that an upload on an otherwise idle device leaves, only its own names have changed. */
  lemma SettledContent(fs: FS, after: FS, p: Put, final: bytes)
    requires FilesAgree(after, Settled(Resting(fs), p, final))
    ensures forall q :: q != final && q != final + PART ==> Content(after, q) == Content(fs, q)
  {
    var a := Settled(Resting(fs), p, final);
    forall q | q != final && q != final + PART ensures Content(after, q) == Content(fs, q) {
      assert !IsPrivate(a.open, q);
    }
  }

  lemma UploadedMeans(after: Store, a: Atomic, p: Put, final: bytes)
    requires Uploaded(after, a, p, final)
    ensures Content(after.fs, final) == Some(Sent(p)) && final + PART !in after.fs.nodes
    ensures FilesAgree(after.fs, Settled(a, p, final)) && Find(after.slots, p.rid) == MAX_SESSIONS
  {
    hide Content, FilesAgree, PermOf;
  }

  /** The first upload to a device that has just been enabled, in terms of the file systems alone. */
  lemma FirstUpload(fs: FS, first: Answers, j: Job, sd: bool, mps: nat)
    requires PacketSize(mps) && Valid(fs) && Equipped(j, sd) && Startable(fs, j.put, sd)
    ensures var (ok, after) := Converse(Enabled(Started(fs), first, mps), PutFrames(j.put), j.answers, mps);
            var final, fs' := PutTarget(j.put, sd).value, after.device.store.fs;
            && (ok <==> Flows(j.put))
            && Content(fs', final) == (if ok then Some(Sent(j.put)) else Content(fs, final))
            && (ok ==> final + PART !in fs'.nodes
                       && forall q :: q != final && q != final + PART ==> Content(fs', q) == Content(fs, q))
  {
    hide *;
    StartedIsShut(fs);
    EnabledIsQuiet(Started(fs), first, mps);
    StartRefines(fs);
    EquippedMeans(j, sd);
    RestingMeans(fs);
    var w, a, p := Enabled(Started(fs), first, mps), Resting(fs), j.put;
    RestingIsReady(w.device.store, a, p, sd);
    NothingToClean(a, p, j.answers);
    UploadOverUsb(w, a, p, sd, j.answers, mps);
    StartableParts(fs, j, sd);
    var (ok, after) := Converse(w, PutFrames(p), j.answers, mps);
    if ok {
      UploadedMeans(after.device.store, a, p, PutTarget(p, sd).value);
      SettledContent(fs, after.device.store.fs, p, PutTarget(p, sd).value);
    }
  }

  /** How far the first upload gets, and what it leaves in the temporary file when it does not complete. */
  lemma FirstPart(fs: FS, first: Answers, j: Job, sd: bool, mps: nat, k: nat)
    requires PacketSize(mps) && Valid(fs) && Equipped(j, sd) && Startable(fs, j.put, sd) && k <= |PutFrames(j.put)|
    ensures var w := Enabled(Started(fs), first, mps);
            var (ok, after) := Converse(w, PutFrames(j.put), j.answers, mps);
            && PutTarget(j.put, sd).Some?
            && (Converse(w, PutFrames(j.put)[..k], j.answers, mps).0 <==> k <= Reached(PutFrames(j.put)))
            && (!ok ==> Content(after.device.store.fs, PutTarget(j.put, sd).value + PART) == Some(Arrived(j.put)))
  {
    hide *;
    StartedIsShut(fs);
    EnabledIsQuiet(Started(fs), first, mps);
    StartRefines(fs);
    EquippedMeans(j, sd);
    RestingMeans(fs);
    var w, a, p := Enabled(Started(fs), first, mps), Resting(fs), j.put;
    RestingIsReady(w.device.store, a, p, sd);
    StartableParts(fs, j, sd);
    UploadOverUsb(w, a, p, sd, j.answers, mps);
    AnsweredExactly(w, a, p, sd, j.answers, mps, k);
  }

  lemma RestingMeans(fs: FS)
    ensures Resting(fs).open == map[]
  {
  }

  lemma EquippedMeans(j: Job, sd: bool)
    requires Equipped(j, sd)
    ensures CanSend(j.put) && |j.answers| >= |PutFrames(j.put)| && AllSucceed(j.answers, sd)
  {
  }

  /** Exactly when the first upload copies the local file: it must flow, and the chunk size must not be zero
      unless there is nothing to copy. */
  lemma FirstUploadCopies(fs: FS, first: Answers, j: Job, sd: bool, mps: nat)
    requires PacketSize(mps) && Valid(fs) && Equipped(j, sd) && Startable(fs, j.put, sd)
    ensures var (ok, after) := Converse(Enabled(Started(fs), first, mps), PutFrames(j.put), j.answers, mps);
            ok && Content(after.device.store.fs, PutTarget(j.put, sd).value) == Some(j.put.local)
            <==> Flows(j.put) && (j.put.chunkSize != 0 || j.put.local == [])
  {
    FirstUpload(fs, first, j, sd, mps);
    hide Flows, Startable, Equipped, Converse, Content, PutFrames, PutTarget, FileSystem.Valid;
  }

  /** One byte for the path `x` in chunks of zero bytes. */
  function EmptyHandedPut(): Put
  {
    Put(1, [0x78], [], [], [7], 0)
  }

  lemma EmptyHandedFlows()
    ensures CanSend(EmptyHandedPut()) && Flows(EmptyHandedPut())
  {
    var items := Items(EmptyHandedPut());
    assert items == [items[0]] + [];
    FrontItem(items[0], []);
    hide EncodeItem;
    assert |BeginFrame(EmptyHandedPut()).payload| == 11;
  }

  /** With a chunk size of zero the upload is reported as done and leaves an empty file. */
  lemma ZeroChunkCopiesNothing(first: Answers, answers: seq<Answers>, mps: nat)
    requires PacketSize(mps) && Equipped(Job(EmptyHandedPut(), answers), false)
    ensures var fs, p := FS(map[], map[], 0), EmptyHandedPut();
            var (ok, after) := Converse(Enabled(Started(fs), first, mps), PutFrames(p), answers, mps);
            ok && p.local == [7] && Content(after.device.store.fs, [Paths.SLASH, 0x78]) == Some([])
  {
    var fs := FS(map[], map[], 0);
    var p := EmptyHandedPut();
    assert Valid(fs) && p.local == [7] && Sent(p) == [] && p.path == [0x78] && p.desire == [] && p.perm == [];
    hide *;
    EmptyHandedFlows();
    OnePathStartable(EmptyHandedPut());
    FirstUpload(fs, first, Job(EmptyHandedPut(), answers), false, mps);
  }

  // ---- A retry -------------------------------------------------------------------------------

  /** The store of a stalled upload is ready for a new attempt under the same id. */
  lemma ReadyAgain(st: Store, a: Atomic, p: Put, answers: Answers, after: Store, p': Put, sd: bool)
    requires CanSend(p) && PutTarget(p, sd).Some? && ModeOf(p).Some?
    requires Uploading(after, UnderWay(a, p, answers, sd), p, PutTarget(p, sd).value, Arrived(p))
    requires Find(after.slots, p.rid) < MAX_SESSIONS && Keeps(st.fs, after.fs)
    requires Ready(st, a, p', sd) && p'.rid == p.rid
    ensures Ready(after, UnderWay(a, p, answers, sd), p', sd)
  {
    hide Refines, Target, PermOf, CString, ParentDirs, IsDir, CanSend, SameDirs, Arrived;
    var final := PutTarget(p', sd).value;
    DirsKept(st.fs, after.fs, final);
    KeepsFile(st.fs, after.fs, final + PART);
    OthersUnderWay(a, p, answers, sd);
  }

  lemma OthersUnderWay(a: Atomic, p: Put, answers: Answers, sd: bool)
    requires CanSend(p) && PutTarget(p, sd).Some? && ModeOf(p).Some?
    ensures var open := UnderWay(a, p, answers, sd).open;
            forall b :: b in open && b != p.rid ==> b in a.open && open[b] == a.open[b]
  {
    hide Arrived, Target, PermOf, CString, CanSend;
  }

  /** An upload that stalled does not stand in the way of the next attempt: once the device is enabled
      again, an upload under the same id, to whatever acceptable path and in whatever pieces, completes if
      and only if it flows, and the abandoned session is gone. */
  lemma RetryAfterStall(w: World, a: Atomic, j: Job, j': Job, first: Answers, sd: bool, mps: nat)
    requires PacketSize(mps) && Quiet(w) && Equipped(j, sd) && Equipped(j', sd) && j'.put.rid == j.put.rid
    requires Ready(w.device.store, a, j.put, sd) && Ready(w.device.store, a, j'.put, sd)
    requires !Flows(j.put) && |j.put.local| + 4 < U32_MODULUS
    ensures var (failed, stalled) := Converse(w, PutFrames(j.put), j.answers, mps);
            var (ok, after) := Converse(Enabled(stalled, first, mps), PutFrames(j'.put), j'.answers, mps);
            var final := PutTarget(j'.put, sd).value;
            && !failed && Shut(stalled) && (ok <==> Flows(j'.put))
            && (ok ==> && Quiet(after) && Content(after.device.store.fs, final) == Some(Sent(j'.put))
                       && final + PART !in after.device.store.fs.nodes
                       && Find(after.device.store.slots, j'.put.rid) == MAX_SESSIONS)
  {
    hide *;
    EquippedMeans(j, sd);
    EquippedMeans(j', sd);
    ReadyParts(w.device.store, a, j.put, sd);
    ReadyParts(w.device.store, a, j'.put, sd);
    SplitFrames(j.put);
    SplitFrames(j'.put);
    UploadOverUsb(w, a, j.put, sd, j.answers, mps);
    var stalled := Converse(w, PutFrames(j.put), j.answers, mps).1;
    EnabledIsQuiet(stalled, first, mps);
    ReadyAgain(w.device.store, a, j.put, j.answers[0], stalled.device.store, j'.put, sd);
    var b := UnderWay(a, j.put, j.answers[0], sd);
    UploadOverUsb(Enabled(stalled, first, mps), b, j'.put, sd, j'.answers, mps);
    var (ok, after) := Converse(Enabled(stalled, first, mps), PutFrames(j'.put), j'.answers, mps);
    if ok {
      UploadedMeans(after.device.store, Cleaned(b, j'.put, j'.answers[0]), j'.put, PutTarget(j'.put, sd).value);
    }
  }

  lemma ReadyParts(st: Store, a: Atomic, p: Put, sd: bool)
    requires Ready(st, a, p, sd)
    ensures PutTarget(p, sd).Some? && ModeOf(p).Some?
  {
  }

  // ---- A stall at one input ------------------------------------------------------------------

  /** Even the default chunk size stalls, on files whose last chunk has 16356 bytes. */
  lemma DefaultChunkCanStall(p: Put)
    requires CanSend(p) && p.chunkSize == IO_CHUNK - 4 && |p.local| == 16356
    ensures !Flows(p)
  {
    hide EncodeKvHost;
    UniqueRemainder(16356, p.chunkSize, 0, 16356);
    assert HEADER_SIZE + 4 + 16356 == IO_CHUNK;
  }

  /** 16356 zero bytes for the path `x`, with the default chunk size. */
  function StallingPut(): Put
  {
    Put(1, [0x78], [], [], seq(16356, _ => 0), IO_CHUNK - 4)
  }

  lemma OnePathStartable(p: Put)
    requires p.path == [0x78] && p.desire == [] && p.perm == []
    ensures CanSend(p) && Startable(FS(map[], map[], 0), p, false)
    ensures PutTarget(p, false) == Some([Paths.SLASH, 0x78])
  {
    OneName([0x78]);
    assert [Paths.SLASH] + [0x78] == [Paths.SLASH, 0x78];
    CStringOfNulFree([0x78]);
    assert ParentDirs(FS(map[], map[], 0), [Paths.SLASH, 0x78]);
    hide Target, CString, ParentDirs, EncodeItems;
  }

  /** The requests of that upload: BEGIN, one chunk of exactly 16 KiB with its header, END. */
  lemma StallingFrames()
    requires CanSend(StallingPut())
    ensures |PutFrames(StallingPut())| == 3 && Reached(PutFrames(StallingPut())) == 2
    ensures Arrived(StallingPut()) == StallingPut().local
  {
    var p := StallingPut();
    StallingSize();
    StallingPieces();
    SplitFrames(p);
    BeginFits(p);
    StallingBegin();
    hide EncodeKvHost, Encode, Pieces, StallingPut;
    var frames := PutFrames(p);
    assert frames[1] == ChunkFrame(p.rid, p.local);
    StallsThere(frames);
    assert Pieces(p.local, p.chunkSize)[..1] == [p.local];
  }

  lemma StallingBegin()
    requires CanSend(StallingPut())
    ensures |BeginFrame(StallingPut()).payload| == 11
  {
    var items := Items(StallingPut());
    assert items == [items[0]] + [];
    FrontItem(items[0], []);
    hide EncodeItem;
  }

  lemma StallsThere(frames: seq<Frame>)
    requires |frames| == 3 && |frames[0].payload| == 11 && |frames[1].payload| == IO_CHUNK - HEADER_SIZE
    ensures Reached(frames) == 2
  {
    hide Encode;
    assert frames[1..][0] == frames[1];
  }

  lemma StallingPieces()
    ensures Pieces(StallingPut().local, StallingPut().chunkSize) == [StallingPut().local]
    ensures Concat([StallingPut().local]) == StallingPut().local
  {
    StallingSize();
    var local := StallingPut().local;
    assert local[|local|..] == [];
    var none: seq<bytes> := [];
    assert [local][1..] == none;
  }

  /** The failed upload itself: on an empty file system, with everything else going well, BEGIN and the chunk
      are answered and END is not; all the bytes are in `x.part`, and `x` is never written. */
  lemma DefaultChunkStalls(first: Answers, answers: seq<Answers>, mps: nat)
    requires PacketSize(mps) && Equipped(Job(StallingPut(), answers), false)
    ensures var p, w := StallingPut(), Enabled(Started(FS(map[], map[], 0)), first, mps);
            var (ok, after) := Converse(w, PutFrames(p), answers, mps);
            && |PutFrames(p)| == 3 && Converse(w, PutFrames(p)[..2], answers, mps).0 && !ok
            && Content(after.device.store.fs, [Paths.SLASH, 0x78] + PART) == Some(p.local)
            && Content(after.device.store.fs, [Paths.SLASH, 0x78]) == None
  {
    var fs := FS(map[], map[], 0);
    assert Valid(fs) && Content(fs, [Paths.SLASH, 0x78]) == None;
    StallingSize();
    hide *;
    var p := StallingPut();
    OnePathStartable(p);
    StallingFrames();
    DefaultChunkCanStall(p);
    FirstUpload(fs, first, Job(p, answers), false, mps);
    FirstPart(fs, first, Job(p, answers), false, mps, 2);
  }

  lemma StallingSize()
    ensures StallingPut().chunkSize == IO_CHUNK - 4 && |StallingPut().local| == 16356
    ensures StallingPut().path == [0x78] && StallingPut().desire == [] && StallingPut().perm == []
  {
  }
}
