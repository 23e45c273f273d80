/** Where isolation ends: uploads that work on one another's names, and chunks without a transfer id. */
module Clashes {
  import opened Bytes
  import opened FrameCodec
  import opened FileSystem
  import opened Uploads
  import opened UploadTable
  import opened UploadIsolation
  import opened Handlers
  import Paths

  // ---- What it means for an upload to be disturbed -------------------------------------------

  /** Chunks, ENDs and aborts. */
  predicate AllPlain(ops: seq<Op>)
  {
    forall i :: 0 <= i < |ops| ==> !ops[i].BeginOp? && !ops[i].ShutdownOp?
  }

  /** Outside END the operation changes what a reader finds at the final path of an open upload, other
      than the one that a BEGIN replaces. */
  ghost predicate Disturbs(st: Store, op: Op, env: Env)
    requires !op.ShutdownOp?
  {
    && !op.EndOp?
    && exists i :: 0 <= i < |st.slots| && st.slots[i].used && (op.BeginOp? ==> st.slots[i].transferId != op.id)
                   && Content(Apply(st, op, env).fs, st.slots[i].finalPath) != Content(st.fs, st.slots[i].finalPath)
  }

  ghost predicate SomeDisturbs(st: Store, ops: seq<Op>, envs: seq<Env>)
    requires |ops| == |envs| && forall i :: 0 <= i < |ops| ==> !ops[i].ShutdownOp?
    decreases ops
  {
    ops != [] && (Disturbs(st, ops[0], envs[0]) || SomeDisturbs(Apply(st, ops[0], envs[0]), ops[1..], envs[1..]))
  }

  /** The file of upload `id` is not the bytes that were taken for it since its latest BEGIN. */
  ghost predicate Wrong(st: Store, a: Atomic, ops: seq<Op>, envs: seq<Env>, id: u32)
    requires |ops| == |envs| && forall i :: 0 <= i < |ops| ==> !ops[i].ShutdownOp?
  {
    var after := Run(st, ops, envs);
    var i := Find(after.slots, id);
    i < |after.slots|
    && Content(after.fs, after.slots[i].tempPath) != Ledger(ops, Outcomes(st, ops, envs), id, DataOf(a, id))
  }

  /** A BEGIN and the chunks, ENDs and aborts that follow it wrong some open upload. */
  ghost predicate Upset(st: Store, a: Atomic, op: Op, env: Env, more: seq<Op>, envs: seq<Env>)
    requires op.BeginOp? && |more| == |envs| && AllPlain(more)
  {
    var ops, all := [op] + more, [env] + envs;
    SomeDisturbs(st, ops, all) || exists id :: Wrong(st, a, ops, all, id)
  }

  // ---- Separate names are enough -------------------------------------------------------------

  lemma SeparateStepIsCalm(st: Store, a: Atomic, op: Op, env: Env)
    requires Refines(st, a) && !op.ShutdownOp? && Separate(a, op, env)
    ensures !Disturbs(st, op, env)
  {
    IdsOpen(st, a);
    FinalsAreNotTemps(st, a);
    hide Refines, Content, Apply, Target;
    forall i | && 0 <= i < |st.slots| && st.slots[i].used && !op.EndOp?
               && (op.BeginOp? ==> st.slots[i].transferId != op.id)
      ensures Content(Apply(st, op, env).fs, st.slots[i].finalPath) == Content(st.fs, st.slots[i].finalPath)
    {
      var b, p := st.slots[i].transferId, st.slots[i].finalPath;
      FinalOf(st, a, i);
      if Content(Apply(st, op, env).fs, p) != Content(st.fs, p) {
        PublishedOnlyAtEnd(st, a, op, env, p);
      }
    }
  }

  lemma FinalOf(st: Store, a: Atomic, i: nat)
    requires Refines(st, a) && i < |st.slots| && st.slots[i].used
    ensures st.slots[i].transferId in a.open && st.slots[i].finalPath == a.open[st.slots[i].transferId].final
  {
    hide FilesAgree, Find, Paced1M, TableValid;
  }

  lemma {:induction false} SeparateRunIsCalm(st: Store, a: Atomic, ops: seq<Op>, envs: seq<Env>)
    requires |ops| == |envs| && forall i :: 0 <= i < |ops| ==> !ops[i].ShutdownOp?
    requires Refines(st, a) && AllSeparate(st, a, ops, envs)
    ensures !SomeDisturbs(st, ops, envs)
    decreases ops
  {
    hide Refines, AtomicStep, OutcomeOf, Apply, Disturbs, Separate;
    if ops != [] {
      SeparateStepIsCalm(st, a, ops[0], envs[0]);
      StepRefines(st, a, ops[0], envs[0]);
      var next := AtomicStep(a, ops[0], OutcomeOf(st, ops[0], envs[0]));
      SeparateRunIsCalm(Apply(st, ops[0], envs[0]), next, ops[1..], envs[1..]);
    }
  }

  lemma {:induction false} PlainIsSeparate(st: Store, a: Atomic, ops: seq<Op>, envs: seq<Env>)
    requires |ops| == |envs| && AllPlain(ops)
    ensures AllSeparate(st, a, ops, envs)
    decreases ops
  {
    hide AtomicStep, OutcomeOf, Apply;
    if ops != [] {
      var next := AtomicStep(a, ops[0], OutcomeOf(st, ops[0], envs[0]));
      PlainIsSeparate(Apply(st, ops[0], envs[0]), next, ops[1..], envs[1..]);
    }
  }

  lemma SeparateSuffices(st: Store, a: Atomic, op: Op, env: Env, more: seq<Op>, envs: seq<Env>)
    requires Refines(st, a) && op.BeginOp? && Separate(a, op, env) && |more| == |envs| && AllPlain(more)
    ensures !Upset(st, a, op, env, more, envs)
  {
    hide Refines, AtomicStep, OutcomeOf, Apply, Separate, SomeDisturbs, Run, Ledger, Outcomes;
    var ops, all := [op] + more, [env] + envs;
    var next := AtomicStep(a, op, OutcomeOf(st, op, env));
    assert ops[1..] == more && all[1..] == envs;
    PlainIsSeparate(Apply(st, op, env), next, more, envs);
    SeparateRunIsCalm(st, a, ops, all);
    forall id ensures !Wrong(st, a, ops, all, id) {
      SessionHoldsItsChunks(st, a, ops, all, id);
    }
  }

  // ---- The steps of the counterexamples ------------------------------------------------------

  /** Session `id` is in the table and works on `final` and its temporary name. */
  ghost predicate Named(st: Store, id: u32, final: bytes)
  {
    && TableValid(st.slots) && Paced1M(st.slots) && Valid(st.fs)
    && var i := Find(st.slots, id);
       i < MAX_SESSIONS && st.slots[i].finalPath == final && st.slots[i].tempPath == final + PART
  }

  /** Its file holds `data`, and its handle stands behind them. */
  ghost predicate Writing(st: Store, id: u32, final: bytes, data: bytes)
  {
    && Named(st, id, final) && IsFile(st.fs, final + PART) && Content(st.fs, final + PART) == Some(data)
    && st.slots[Find(st.slots, id)].fp == Some(Handle(st.fs.nodes[final + PART].ino, |data|))
  }

  /** Everything goes well. */
  function Smooth(sdMounted: bool): Env
  {
    Env(sdMounted, true, MAX_PAYLOAD, true, true, true)
  }

  lemma ParentOfTemp(fs: FS, final: bytes)
    requires ParentDirs(fs, final + PART)
    ensures ParentDirs(fs, final)
  {
    forall i | 0 < i < |final| && final[i] == Paths.SLASH ensures IsDir(fs, final[..i]) {
      assert (final + PART)[i] == final[i] && (final + PART)[..i] == final[..i];
    }
  }

  /** A BEGIN next to the open upload `b`: the new session writes an empty file, `b` keeps its names. */
  lemma AfterBegin(st: Store, a: Atomic, b: u32, op: Op, env: Env)
    requires Refines(st, a) && b in a.open && op.BeginOp? && b != op.id
    requires Begin(st, op.id, op.relative, op.desire, op.perm, env).1
    ensures var target, after := Target(op.relative, op.desire, env.sdMounted), Apply(st, op, env);
            && target.Some? && Writing(after, op.id, target.value, []) && Named(after, b, a.open[b].final)
            && ParentDirs(after.fs, target.value) && !IsDir(after.fs, a.open[b].final + PART)
  {
    hide Refines, Abort, Target, PermOf, OpenWrite, ParentDirs, Content, FileSystem.Valid, TableValid, Paced1M, Open,
         Writing, Named, IsPrivate;
    var mid, dropped := Abort(st, op.id, env).0, Dropped(a, op.id, env.unlinkOk);
    AbortRefines(st, a, op.id, env);
    NamedUpload(mid, dropped, b);
    RefinesTables(mid, dropped);
    var free := UsedAgrees(mid, dropped, op.id);
    OpenedNextTo(mid, b, dropped.open[b].final, op, env);
  }

  lemma NamedUpload(st: Store, a: Atomic, b: u32)
    requires Refines(st, a) && b in a.open
    ensures Named(st, b, a.open[b].final) && IsFile(st.fs, a.open[b].final + PART)
  {
    RefinesTables(st, a);
    hide Refines, Content, FileSystem.Valid, TableValid, Paced1M;
    var i := UsedAgrees(st, a, b);
  }

  lemma OpenedNextTo(mid: Store, b: u32, f: bytes, op: Op, env: Env)
    requires Named(mid, b, f) && IsFile(mid.fs, f + PART) && op.BeginOp? && b != op.id
    requires Find(mid.slots, op.id) >= MAX_SESSIONS && Open(mid, op.id, op.relative, op.desire, op.perm, env).1
    ensures var target := Target(op.relative, op.desire, env.sdMounted);
            var after := Open(mid, op.id, op.relative, op.desire, op.perm, env).0;
            && target.Some? && Writing(after, op.id, target.value, []) && Named(after, b, f)
            && ParentDirs(after.fs, target.value) && !IsDir(after.fs, f + PART)
  {
    SlotCount(mid.slots);
    hide Target, PermOf, OpenWrite, ParentDirs, Content, FileSystem.Valid, TableValid, Paced1M, Open;
    OpenedSlot(mid, op.id, op.relative, op.desire, op.perm, env);
    var t := Target(op.relative, op.desire, env.sdMounted).value;
    OpenElsewhere(mid.fs, t + PART, env.openOk);
    OpenParents(mid.fs, t, env.openOk);
    OpenFree(mid, op, env);
    var after := Open(mid, op.id, op.relative, op.desire, op.perm, env).0;
    var i, k := FirstFree(mid.slots), Find(mid.slots, b);
    SlotCount(after.slots);
    assert Matches(after.slots[i], op.id) && Matches(after.slots[k], b);
    FindAt(after.slots, op.id, i);
    FindAt(after.slots, b, k);
  }

  lemma SlotCount(slots: seq<Session>)
    requires TableValid(slots)
    ensures |slots| == MAX_SESSIONS
  {
  }

  lemma RefinesTables(st: Store, a: Atomic)
    requires Refines(st, a)
    ensures TableValid(st.slots) && Paced1M(st.slots) && Valid(st.fs)
  {
  }

  lemma OpenFree(mid: Store, op: Op, env: Env)
    requires op.BeginOp? && TableValid(mid.slots) && Paced1M(mid.slots) && Find(mid.slots, op.id) >= MAX_SESSIONS
    ensures var after := Open(mid, op.id, op.relative, op.desire, op.perm, env).0;
            TableValid(after.slots) && Paced1M(after.slots)
  {
    OpenKeepsTable(mid, op.id, op.relative, op.desire, op.perm, env);
  }

  lemma OpenParents(fs: FS, final: bytes, ok: bool)
    requires OpenWrite(fs, final + PART, ok).Some?
    ensures ParentDirs(OpenWrite(fs, final + PART, ok).value.fs, final)
  {
    var temp := final + PART;
    ParentOfTemp(fs, final);
    var after := OpenWrite(fs, temp, ok).value.fs;
    forall i | 0 < i < |final| && final[i] == Paths.SLASH ensures IsDir(after, final[..i]) {
      assert IsDir(fs, final[..i]);
    }
  }

  /** One byte for the new session. */
  lemma AfterByte(st: Store, id: u32, t: bytes, b: u32, f: bytes, env: Env)
    requires Writing(st, id, t, []) && Named(st, b, f) && b != id && env.written >= 1
    ensures var after := Apply(st, AppendOp(id, [0]), env);
            && Writing(after, id, t, [0]) && Named(after, b, f) && after.fs.nodes == st.fs.nodes
  {
    var i, k := Find(st.slots, id), Find(st.slots, b);
    var op := AppendOp(id, [0]);
    OtherOpsKeepTable(st, op, env);
    WriteElsewhere(st.fs, t + PART, 0, [0]);
    SpliceAtEnd([], [0]);
    assert [] + [0] == [0] && [0][..1] == [0];
    var after := Apply(st, op, env);
    hide Splice, WriteAt, Content, FileSystem.Valid, TableValid, Paced1M;
    assert Matches(after.slots[i], id) && Matches(after.slots[k], b);
    FindAt(after.slots, id, i);
    FindAt(after.slots, b, k);
  }

  /** END publishes whatever the temporary file holds. */
  lemma EndPublishes(st: Store, id: u32, t: bytes, data: bytes, env: Env)
    requires Named(st, id, t) && Content(st.fs, t + PART) == Some(data)
    requires ParentDirs(st.fs, t) && !IsDir(st.fs, t) && env.renameOk && env.chmodOk
    ensures var after := Apply(st, EndOp(id), env);
            && Finish(st, id, env).1.Published? && Valid(after.fs) && Content(after.fs, t) == Some(data)
  {
    var s := st.slots[Find(st.slots, id)];
    assert |t + PART| > |t|;
    assert Rename(st.fs, t + PART, t, env.renameOk).1;
    RenameElsewhere(st.fs, t + PART, t, env.renameOk);
    ChmodElsewhere(Rename(st.fs, t + PART, t, env.renameOk).0, t, s.fileMode, env.chmodOk);
    hide ParentDirs, TableValid, Paced1M;
  }

  /** The other sessions keep their names. */
  lemma AfterEnd(st: Store, id: u32, t: bytes, data: bytes, b: u32, f: bytes, env: Env)
    requires Named(st, id, t) && Content(st.fs, t + PART) == Some(data) && Named(st, b, f) && b != id
    requires ParentDirs(st.fs, t) && !IsDir(st.fs, t) && env.renameOk && env.chmodOk
    ensures var after := Apply(st, EndOp(id), env);
            && Finish(st, id, env).1.Published? && Content(after.fs, t) == Some(data) && Named(after, b, f)
  {
    EndPublishes(st, id, t, data, env);
    OtherOpsKeepTable(st, EndOp(id), env);
    SlotsOfNamed(st, b, f);
    hide ParentDirs, Content, FileSystem.Valid, TableValid, Paced1M, Rename, Unlink, Chmod;
    var after, k := Apply(st, EndOp(id), env), Find(st.slots, b);
    assert Matches(after.slots[k], b);
    FindAt(after.slots, b, k);
  }

  lemma EndKeepsDirs(st: Store, id: u32, path: bytes, env: Env)
    requires ParentDirs(st.fs, path) && !IsDir(st.fs, path)
    ensures var after := Apply(st, EndOp(id), env);
            ParentDirs(after.fs, path) && !IsDir(after.fs, path)
  {
    var after := Apply(st, EndOp(id), env);
    assert forall q :: IsDir(after.fs, q) <==> IsDir(st.fs, q);
    hide IsDir;
  }

  // ---- The three clashes ---------------------------------------------------------------------

  lemma {:induction false} LedgerOfOthers(ops: seq<Op>, outcomes: seq<Outcome>, b: u32, before: Option<bytes>)
    requires |ops| == |outcomes| && forall i :: 0 <= i < |ops| ==> !ops[i].ShutdownOp? && ops[i].id != b
    ensures Ledger(ops, outcomes, b, before) == before
    decreases ops
  {
    if ops != [] {
      LedgerOfOthers(ops[1..], outcomes[1..], b, before);
    }
  }

  lemma RunFront(st: Store, op: Op, env: Env, more: seq<Op>, envs: seq<Env>)
    requires |more| == |envs|
    ensures Run(st, [op] + more, [env] + envs) == Run(Apply(st, op, env), more, envs)
    ensures !op.ShutdownOp? && AllPlain(more) ==>
              (SomeDisturbs(st, [op] + more, [env] + envs)
               <==> Disturbs(st, op, env) || SomeDisturbs(Apply(st, op, env), more, envs))
  {
    hide Apply, Disturbs;
    assert ([op] + more)[1..] == more && ([env] + envs)[1..] == envs;
  }

  lemma RunOne(st: Store, op: Op, env: Env)
    ensures Run(st, [], []) == st
    ensures Run(st, [op], [env]) == Apply(st, op, env)
  {
    hide Apply;
    RunFront(st, op, env, [], []);
    assert [op] + [] == [op] && [env] + [] == [env];
  }

  lemma RunTwo(st: Store, op: Op, env: Env, op': Op, env': Env)
    ensures Run(st, [op, op'], [env, env']) == Apply(Apply(st, op, env), op', env')
  {
    hide Apply;
    RunOne(Apply(st, op, env), op', env');
    RunFront(st, op, env, [op'], [env']);
    assert [op] + [op'] == [op, op'] && [env] + [env'] == [env, env'];
  }

  /** A run that leaves another upload's file other than its data. */
  lemma WrongAfter(st: Store, a: Atomic, op: Op, env: Env, more: seq<Op>, envs: seq<Env>, b: u32, f: bytes)
    requires op.BeginOp? && |more| == |envs| && AllPlain(more) && b in a.open
    requires op.id != b && forall i :: 0 <= i < |more| ==> more[i].id != b
    requires var after := Run(Apply(st, op, env), more, envs);
             Named(after, b, f) && Content(after.fs, f + PART) != Some(a.open[b].data)
    ensures Upset(st, a, op, env, more, envs)
  {
    RunFront(st, op, env, more, envs);
    var ops, all := [op] + more, [env] + envs;
    LedgerOfOthers(ops, Outcomes(st, ops, all), b, DataOf(a, b));
    SlotsOfNamed(Run(st, ops, all), b, f);
    hide Named, Run, Apply, Outcomes, Ledger, Content, Find, SomeDisturbs;
    assert Wrong(st, a, ops, all, b);
  }

  lemma SlotsOfNamed(st: Store, b: u32, f: bytes)
    requires Named(st, b, f)
    ensures var i := Find(st.slots, b);
            && i < MAX_SESSIONS == |st.slots| && st.slots[i].used && st.slots[i].transferId == b
            && st.slots[i].finalPath == f && st.slots[i].tempPath == f + PART
  {
  }

  lemma DisturbsNamed(st: Store, op: Op, env: Env, b: u32, f: bytes)
    requires Named(st, b, f) && !op.EndOp? && !op.ShutdownOp? && op.id != b
    requires Content(Apply(st, op, env).fs, f) != Content(st.fs, f)
    ensures Disturbs(st, op, env)
  {
    hide Apply, Named, Content, Find;
    SlotsOfNamed(st, b, f);
  }

  /** The target of the new upload, as the table sees it. */
  function TargetOf(op: Op, env: Env): Option<bytes>
    requires op.BeginOp?
  {
    Target(op.relative, op.desire, env.sdMounted)
  }

  /** A BEGIN that succeeds next to the open upload `b`. */
  ghost predicate BeginsNextTo(st: Store, a: Atomic, b: u32, op: Op, env: Env)
  {
    Refines(st, a) && b in a.open && op.BeginOp? && b != op.id
    && Begin(st, op.id, op.relative, op.desire, op.perm, env).1
  }

  /** Two uploads to one final path share the private file: the first one's data is gone at once, or is
      joined by the second one's next byte. */
  lemma SameFinalClashes(st: Store, a: Atomic, b: u32, op: Op, env: Env) returns (more: seq<Op>, envs: seq<Env>)
    requires BeginsNextTo(st, a, b, op, env) && TargetOf(op, env) == Some(a.open[b].final)
    ensures |more| == |envs| <= 1 && AllPlain(more) && Upset(st, a, op, env, more, envs)
  {
    hide Refines, Apply, Writing, Content, Upset, Run, Target, Begin;
    var f := a.open[b].final;
    AfterBegin(st, a, b, op, env);
    var began := Apply(st, op, env);
    WritingMeans(began, op.id, f, []);
    more, envs := [], [];
    RunOne(began, AppendOp(op.id, [0]), Smooth(true));
    if a.open[b].data == [] {
      more, envs := [AppendOp(op.id, [0])], [Smooth(true)];
      AfterByte(began, op.id, f, b, f, envs[0]);
      WritingMeans(Apply(began, more[0], envs[0]), op.id, f, [0]);
    }
    WrongAfter(st, a, op, env, more, envs, b, f);
  }

  lemma WritingMeans(st: Store, id: u32, t: bytes, data: bytes)
    requires Writing(st, id, t, data)
    ensures Named(st, id, t) && Content(st.fs, t + PART) == Some(data)
  {
  }

  /** An upload whose private file is the final path of another: that path changes outside END. */
  lemma TempIsFinalClashes(st: Store, a: Atomic, b: u32, op: Op, env: Env) returns (more: seq<Op>, envs: seq<Env>)
    requires BeginsNextTo(st, a, b, op, env)
    requires TargetOf(op, env).Some? && a.open[b].final == TargetOf(op, env).value + PART
    ensures |more| == |envs| <= 1 && AllPlain(more) && Upset(st, a, op, env, more, envs)
  {
    hide Refines, Apply, Writing, Named, Content, Run, Target, Begin, Disturbs, SomeDisturbs, Wrong;
    var f, t := a.open[b].final, TargetOf(op, env).value;
    AfterBegin(st, a, b, op, env);
    NamedUpload(st, a, b);
    var began := Apply(st, op, env);
    WritingMeans(began, op.id, t, []);
    more, envs := [], [];
    if Content(st.fs, f) != Some([]) {
      DisturbsNamed(st, op, env, b, f);
      RunFront(st, op, env, [], []);
    } else {
      var byte := AppendOp(op.id, [0]);
      more, envs := [byte], [Smooth(true)];
      AfterByte(began, op.id, t, b, f, envs[0]);
      WritingMeans(Apply(began, byte, envs[0]), op.id, t, [0]);
      DisturbsNamed(began, byte, envs[0], b, f);
      RunFront(began, byte, envs[0], [], []);
      assert more == [byte] + [] && envs == [envs[0]] + [];
      RunFront(st, op, env, more, envs);
    }
  }

  /** An upload whose final path is the private file of another: its END replaces that file. */
  lemma FinalIsTempClashes(st: Store, a: Atomic, b: u32, op: Op, env: Env) returns (more: seq<Op>, envs: seq<Env>)
    requires BeginsNextTo(st, a, b, op, env) && TargetOf(op, env) == Some(a.open[b].final + PART)
    ensures |more| == |envs| <= 2 && AllPlain(more) && Upset(st, a, op, env, more, envs)
  {
    hide Refines, Apply, Writing, Named, Content, Upset, Run, Target, Begin, ParentDirs, IsDir, Find;
    var f := a.open[b].final;
    var t := f + PART;
    AfterBegin(st, a, b, op, env);
    var began := Apply(st, op, env);
    WritingMeans(began, op.id, t, []);
    var end, smooth := EndOp(op.id), Smooth(true);
    if a.open[b].data != [] {
      more, envs := [end], [smooth];
      AfterEnd(began, op.id, t, [], b, f, smooth);
      RunOne(began, end, smooth);
    } else {
      var byte := AppendOp(op.id, [0]);
      more, envs := [byte, end], [smooth, smooth];
      AfterByte(began, op.id, t, b, f, smooth);
      var wrote := Apply(began, byte, smooth);
      WritingMeans(wrote, op.id, t, [0]);
      SameParents(began.fs, wrote.fs, t);
      AfterEnd(wrote, op.id, t, [0], b, f, smooth);
      RunTwo(began, byte, smooth, end, smooth);
    }
    WrongAfter(st, a, op, env, more, envs, b, f);
  }

  lemma SameParents(fs: FS, fs': FS, path: bytes)
    requires fs'.nodes == fs.nodes
    ensures ParentDirs(fs, path) <==> ParentDirs(fs', path)
    ensures IsDir(fs, path) <==> IsDir(fs', path)
  {
  }

  /** Exactly when a BEGIN is harmless: its names are apart from those of every other open upload if and
      only if no chunks, ENDs and aborts behind it wrong an open upload; two of them are enough to tell. */
  lemma SeparateExactly(st: Store, a: Atomic, op: Op, env: Env)
    requires Refines(st, a) && op.BeginOp? && Begin(st, op.id, op.relative, op.desire, op.perm, env).1
    ensures !Separate(a, op, env)
            <==> exists more: seq<Op>, envs: seq<Env> ::
                   |more| == |envs| <= 2 && AllPlain(more) && Upset(st, a, op, env, more, envs)
  {
    hide Refines, Upset, Target, Begin;
    if Separate(a, op, env) {
      forall more: seq<Op>, envs: seq<Env> | |more| == |envs| <= 2 && AllPlain(more)
        ensures !Upset(st, a, op, env, more, envs)
      {
        SeparateSuffices(st, a, op, env, more, envs);
      }
    } else {
      var t := TargetOf(op, env).value;
      var b :| b in a.open && b != op.id
               && (a.open[b].final == t || a.open[b].final == t + PART || a.open[b].final + PART == t);
      var more, envs;
      if a.open[b].final == t {
        more, envs := SameFinalClashes(st, a, b, op, env);
      } else if a.open[b].final == t + PART {
        more, envs := TempIsFinalClashes(st, a, b, op, env);
      } else {
        more, envs := FinalIsTempClashes(st, a, b, op, env);
      }
    }
  }

  /** The worst of them: with `b` open on `x`, an upload to `x.part` begins and ends, and then the END of `b`
      reports success although what it published is the other upload. */
  lemma UploadStolen(st: Store, a: Atomic, b: u32, op: Op, env: Env, sd: bool)
    requires BeginsNextTo(st, a, b, op, env) && TargetOf(op, env) == Some(a.open[b].final + PART)
    requires ParentDirs(Apply(st, op, env).fs, a.open[b].final) && !IsDir(Apply(st, op, env).fs, a.open[b].final)
    ensures var began := Apply(st, op, env);
            var ended := Apply(began, EndOp(op.id), Smooth(sd));
            var after := Apply(ended, EndOp(b), Smooth(sd));
            && Finish(began, op.id, Smooth(sd)).1.Published?
            && Finish(ended, b, Smooth(sd)).1.Published? && Content(after.fs, a.open[b].final) == Some([])
  {
    hide Refines, Apply, Writing, Content, Target, Begin, ParentDirs, Finish;
    var f := a.open[b].final;
    var t := f + PART;
    AfterBegin(st, a, b, op, env);
    var began := Apply(st, op, env);
    WritingMeans(began, op.id, t, []);
    AfterEnd(began, op.id, t, [], b, f, Smooth(sd));
    var ended := Apply(began, EndOp(op.id), Smooth(sd));
    EndKeepsDirs(began, op.id, f, Smooth(sd));
    EndPublishes(ended, b, f, [], Smooth(sd));
  }

  // ---- Chunks without a transfer id ----------------------------------------------------------

  /** A chunk frame whose payload is nothing but data. */
  function BareChunk(rid: u32, piece: bytes): (f: Frame)
    ensures IsUpload(f)
  {
    Frame(MSG_PUT_CHUNK, 0, rid, piece)
  }

  /** An append that the environment takes whole. */
  lemma WholeAppend(st: Store, a: Atomic, id: u32, data: bytes, env: Env)
    requires Refines(st, a) && env.written >= |data|
    ensures var (after, ok) := Append(st, id, data, env);
            if id in a.open && data != [] then ok && Refines(after, Longer(a, id, data)) else !ok && after == st
  {
    AppendRefines(st, a, id, data, env);
    RefinesTable(st, a);
    var i := UsedAgrees(st, a, id);
    assert data[..|data|] == data;
    hide Refines, Content;
  }

  lemma BareReply(st: Store, rid: u32, piece: bytes, answers: Answers)
    ensures var f := BareChunk(rid, piece);
            var (after, ok) := Append(st, TransferId(f), ChunkData(f), answers.env);
            HandleUpload(st, f, answers) == (after, if ok then OkReply(rid) else ErrorReply(rid, answers.text))
  {
    hide Append, KvReply, TransferId, ChunkData;
  }

  /** A bare chunk of at least four bytes goes, four bytes short, to the upload that its first four bytes
      happen to name, whoever sent it; if they name none, or nothing is left, it is refused. */
  lemma BareChunkGoesTo(st: Store, a: Atomic, rid: u32, piece: bytes, answers: Answers)
    requires Refines(st, a) && |piece| >= 4 && answers.env.written >= |piece|
    ensures var (after, reply) := HandleUpload(st, BareChunk(rid, piece), answers);
            var id := ReadLe32(piece[..4]);
            if id in a.open && |piece| > 4
            then Refines(after, Longer(a, id, piece[4..])) && reply == OkReply(rid)
            else after == st && reply == ErrorReply(rid, answers.text)
  {
    hide Refines, HandleUpload, KvReply, Append, Longer;
    BareReply(st, rid, piece, answers);
    WholeAppend(st, a, ReadLe32(piece[..4]), piece[4..], answers.env);
  }

  lemma ShortChunkServed(st: Store, a: Atomic, rid: u32, piece: bytes, answers: Answers)
    requires Refines(st, a) && 1 <= |piece| < 4 && rid in a.open && answers.env.written >= |piece|
    ensures HandleUpload(st, BareChunk(rid, piece), answers).1 == OkReply(rid)
    ensures Refines(HandleUpload(st, BareChunk(rid, piece), answers).0, Longer(a, rid, piece))
  {
    hide Refines, HandleUpload, KvReply, Append, Longer;
    BareReply(st, rid, piece, answers);
    WholeAppend(st, a, rid, piece, answers.env);
  }

  /** Two simple stores that one table refines hold the same data. */
  lemma SameData(st: Store, a: Atomic, b: Atomic, id: u32)
    requires Refines(st, a) && Refines(st, b) && id in a.open && id in b.open
    ensures a.open[id].data == b.open[id].data
  {
    hide FilesAgree, Paced1M, TableValid, Disjoint, Content;
    var i := UsedAgrees(st, a, id);
    var j := UsedAgrees(st, b, id);
  }

  /** A chunk may leave its transfer id out, as the documentation says, exactly when it has fewer than four
      bytes: only then is it what is added to the sender's upload. */
  lemma BareChunkExactly(st: Store, a: Atomic, rid: u32, piece: bytes, answers: Answers)
    requires Refines(st, a) && rid in a.open && piece != [] && answers.env.written >= |piece|
    ensures Refines(HandleUpload(st, BareChunk(rid, piece), answers).0, Longer(a, rid, piece)) <==> |piece| < 4
  {
    hide Refines, HandleUpload, KvReply;
    var after := HandleUpload(st, BareChunk(rid, piece), answers).0;
    if |piece| < 4 {
      ShortChunkServed(st, a, rid, piece, answers);
    } else {
      BareChunkGoesTo(st, a, rid, piece, answers);
      var id := ReadLe32(piece[..4]);
      var b := if id in a.open && |piece| > 4 then Longer(a, id, piece[4..]) else a;
      assert |Longer(a, rid, piece).open[rid].data| == |a.open[rid].data| + |piece|;
      assert |b.open[rid].data| <= |a.open[rid].data| + |piece| - 4;
      if Refines(after, Longer(a, rid, piece)) {
        SameData(after, b, Longer(a, rid, piece), rid);
        assert false;
      }
    }
  }

  /** Frame by frame isolation is lost: a bare chunk of one upload that starts with the id of another is
      added to the other, and acknowledged to its sender, however separate their BEGINs were. */
  lemma MisdirectedChunk(st: Store, a: Atomic, rid: u32, other: u32, data: bytes, answers: Answers)
    requires Refines(st, a) && rid in a.open && other in a.open && rid != other && data != []
    requires answers.env.written >= 4 + |data|
    ensures var (after, reply) := HandleUpload(st, BareChunk(rid, Le32(other) + data), answers);
            && reply == OkReply(rid)
            && Content(after.fs, a.open[other].final + PART) == Some(a.open[other].data + data)
            && Content(after.fs, a.open[rid].final + PART) == Some(a.open[rid].data)
  {
    hide *;
    var piece := Le32(other) + data;
    LeadingId(other, data);
    BareChunkGoesTo(st, a, rid, piece, answers);
    var after := HandleUpload(st, BareChunk(rid, piece), answers).0;
    LongerOpen(a, other, data);
    PrivateContent(after, Longer(a, other, data), other);
    PrivateContent(after, Longer(a, other, data), rid);
  }

  lemma LeadingId(id: u32, data: bytes)
    ensures (Le32(id) + data)[..4] == Le32(id) && (Le32(id) + data)[4..] == data && ReadLe32(Le32(id)) == id
  {
    ReadWrite32(id);
  }

  lemma LongerOpen(a: Atomic, id: u32, data: bytes)
    requires id in a.open
    ensures var open := Longer(a, id, data).open;
            && open.Keys == a.open.Keys && open[id].final == a.open[id].final
            && open[id].data == a.open[id].data + data
            && forall b :: b in open && b != id ==> open[b] == a.open[b]
  {
  }

  lemma PrivateContent(st: Store, a: Atomic, id: u32)
    requires Refines(st, a) && id in a.open
    ensures Content(st.fs, a.open[id].final + PART) == Some(a.open[id].data)
  {
    hide Refines, Content;
    var i := UsedAgrees(st, a, id);
  }

  // ---- At one input --------------------------------------------------------------------------

  /** The paths `x`, `y` and `x.part`, and where they are stored. */
  const X: bytes := [0x78]
  const Y: bytes := [0x79]
  const FINAL_X: bytes := [Paths.SLASH, 0x78]
  const FINAL_Y: bytes := [Paths.SLASH, 0x79]
  const TEMP_X: bytes := [Paths.SLASH, 0x78, 0x2E, 0x70, 0x61, 0x72, 0x74]
  const X_PART: bytes := [0x78, 0x2E, 0x70, 0x61, 0x72, 0x74]

  function Cleared(fs: FS): Store
  {
    Store(seq(MAX_SESSIONS, _ => CLEARED), fs)
  }

  const NOTHING := FS(map[], map[], 0)

  lemma Names()
    ensures [Paths.SLASH] + X == FINAL_X && [Paths.SLASH] + Y == FINAL_Y && [Paths.SLASH] + X_PART == TEMP_X
    ensures FINAL_X + PART == TEMP_X
    ensures FINAL_X + PART != FINAL_Y + PART && FINAL_X !in {TEMP_X, TEMP_X + PART} && TEMP_X + PART != TEMP_X
    ensures PlainStart(X) && PlainStart(Y) && PlainStart(X_PART)
  {
    assert (FINAL_X + PART)[1] != (FINAL_Y + PART)[1];
    assert |TEMP_X + PART| > |TEMP_X| > |FINAL_X|;
  }

  /** A name that is no special component. */
  predicate PlainStart(s: bytes)
  {
    s != [] && s[0] != 0x2E && s[0] != 0x73 && |s| <= 255 && Paths.SLASH !in s
  }

  lemma NoParents(fs: FS, s: bytes)
    requires Paths.SLASH !in s
    ensures ParentDirs(fs, [Paths.SLASH] + s) && ParentDirs(fs, [Paths.SLASH] + s + PART)
  {
    forall i | 0 < i < 1 + |s| + |PART| ensures ([Paths.SLASH] + s + PART)[i] != Paths.SLASH {
      if i <= |s| {
        assert s[i - 1] in s;
      }
    }
    ParentOfTemp(fs, [Paths.SLASH] + s);
  }

  /** BEGIN of a new id on a plain name succeeds when there is a free slot and nothing but a file is at the
      temporary name. */
  lemma PlainBegins(st: Store, a: Atomic, id: u32, s: bytes)
    requires Refines(st, a) && id !in a.open && PlainStart(s) && FirstFree(st.slots) < MAX_SESSIONS
    requires var temp := [Paths.SLASH] + s + PART; temp in st.fs.nodes ==> IsFile(st.fs, temp)
    ensures Target(s, None, false) == Some([Paths.SLASH] + s)
    ensures Begin(st, id, s, None, None, Smooth(false)).1
    ensures Begin(st, id, s, None, None, Smooth(false)).0.fs.nodes.Keys
         == st.fs.nodes.Keys + {[Paths.SLASH] + s + PART}
  {
    var temp, env := [Paths.SLASH] + s + PART, Smooth(false);
    OneName(s);
    var i := UsedAgrees(st, a, id);
    RefinesTables(st, a);
    RefinesTable(st, a);
    assert Abort(st, id, env).0 == st;
    NoParents(st.fs, s);
    assert OpenWrite(st.fs, temp, true).Some?;
    hide Target, Refines, ParentDirs, FileSystem.Valid, TableValid, OpenWrite;
    BeginOnTarget(st, id, s, None, None, env);
    OpenedSlot(st, id, s, None, None, env);
    OpenElsewhere(st.fs, temp, true);
  }

  /** On names of its own it is a new private upload. */
  lemma PlainSession(st: Store, a: Atomic, id: u32, s: bytes)
    requires Refines(st, a) && id !in a.open && PlainStart(s) && FirstFree(st.slots) < MAX_SESSIONS
    requires [Paths.SLASH] + s + PART !in st.fs.nodes && Apart(a.open, id, [Paths.SLASH] + s)
    ensures var after := Begin(st, id, s, None, None, Smooth(false)).0;
            && Refines(after, a.(open := a.open[id := Upload([Paths.SLASH] + s, None, [])]))
            && after.fs.nodes.Keys == st.fs.nodes.Keys + {[Paths.SLASH] + s + PART}
  {
    PlainBegins(st, a, id, s);
    hide Target, Refines, Begin, FirstFree, Apart;
    BeginRefines(st, a, BeginOp(id, s, None, None), Smooth(false));
  }

  lemma EmptyTable(fs: FS)
    requires Valid(fs)
    ensures Refines(Cleared(fs), Atomic(map[], PublishedIn(fs))) && FirstFree(Cleared(fs).slots) < MAX_SESSIONS
  {
    InitialRefines(fs);
    hide Refines;
    assert !Cleared(fs).slots[0].used;
  }

  /** With one open upload there is a free slot. */
  lemma FreeSlot(st: Store, a: Atomic)
    requires Refines(st, a) && a.open.Keys == {1}
    ensures FirstFree(st.slots) < MAX_SESSIONS
  {
    IdsOpen(st, a);
    assert TableValid(st.slots);
    hide Refines;
    assert st.slots[0].used ==> st.slots[0].transferId in {1};
    assert st.slots[1].used ==> st.slots[1].transferId in {1};
    assert !(st.slots[0].used && st.slots[1].used);
  }

  /** The table after BEGIN of upload 1 to `x` on an empty file system, and the simple store. */
  function OneBegun(): Store
  {
    Begin(Cleared(NOTHING), 1, X, None, None, Smooth(false)).0
  }

  function OneUpload(data: bytes): Atomic
  {
    Atomic(map[1 := Upload(FINAL_X, None, data)], map[])
  }

  lemma OneRefined()
    ensures Refines(OneBegun(), OneUpload([])) && OneBegun().fs.nodes.Keys == {TEMP_X}
  {
    Names();
    EmptyTable(NOTHING);
    assert PublishedIn(NOTHING) == map[];
    hide Refines, Begin, FirstFree, Cleared;
    PlainSession(Cleared(NOTHING), Atomic(map[], map[]), 1, X);
    assert Cleared(NOTHING).fs == NOTHING by {
      ClearedFiles(NOTHING);
    }
  }

  lemma ClearedFiles(fs: FS)
    ensures Cleared(fs).fs == fs
  {
  }

  // A chunk of another upload.

  /** The simple store with the uploads 1 to `x` and 2 to `y`. */
  function TwoUploads(): Atomic
  {
    Atomic(map[1 := Upload(FINAL_X, None, []), 2 := Upload(FINAL_Y, None, [])], map[])
  }

  /** The table after their two BEGINs on an empty file system. */
  function TwoBegun(): Store
  {
    Begin(OneBegun(), 2, Y, None, None, Smooth(false)).0
  }

  lemma TwoRefined()
    ensures Refines(TwoBegun(), TwoUploads())
  {
    OneRefined();
    Names();
    hide Refines, Begin, FirstFree, OneBegun;
    FreeSlot(OneBegun(), OneUpload([]));
    PlainSession(OneBegun(), OneUpload([]), 2, Y);
    assert OneUpload([]).open[2 := Upload(FINAL_Y, None, [])] == TwoUploads().open;
  }

  lemma TwoOpen()
    ensures var open := TwoUploads().open;
            && 1 in open && open[1] == Upload(FINAL_X, None, []) && 2 in open && open[2] == Upload(FINAL_Y, None, [])
    ensures Le32(2) + [7] == [2, 0, 0, 0, 7] && [] + [7] == [7]
  {
  }

  /** An upload to `/x` and one to `/y` are open and separate; the chunk 02 00 00 00 07, sent for the first
      without a transfer id, ends up as the byte 07 in the second. */
  lemma BareChunkWitness(answers: Answers)
    requires answers.env.written >= 5
    ensures Refines(TwoBegun(), TwoUploads())
    ensures var (after, reply) := HandleUpload(TwoBegun(), BareChunk(1, [2, 0, 0, 0, 7]), answers);
            && reply == OkReply(1)
            && Content(after.fs, FINAL_X + PART) == Some([]) && Content(after.fs, FINAL_Y + PART) == Some([7])
  {
    hide *;
    TwoRefined();
    TwoOpen();
    MisdirectedChunk(TwoBegun(), TwoUploads(), 1, 2, [7], answers);
  }

  // A finished file.

  /** A file system with the byte 07 in the finished file `x.part`. */
  function PartFile(): FS
  {
    FS(map[TEMP_X := File(0)], map[0 := Inode([7], CREATE_MODE)], 1)
  }

  lemma PartFileMeans()
    ensures Valid(PartFile()) && IsFile(PartFile(), TEMP_X) && Content(PartFile(), TEMP_X) == Some([7])
  {
  }

  /** BEGIN of `x`, the first request that the device gets, empties it. */
  lemma FinishedFileEmptied()
    ensures Content(PartFile(), TEMP_X) == Some([7])
    ensures var (after, ok) := Begin(Cleared(PartFile()), 1, X, None, None, Smooth(false));
            ok && Content(after.fs, TEMP_X) == Some([])
  {
    hide *;
    Names();
    PartFileMeans();
    EmptyTable(PartFile());
    ClearedFiles(PartFile());
    var st, a, op := Cleared(PartFile()), Atomic(map[], PublishedIn(PartFile())), BeginOp(1, X, None, None);
    PlainBegins(st, a, 1, X);
    BeginContent(st, a, op, Smooth(false), TEMP_X);
    EmptiesThere(st, op, FINAL_X);
  }

  lemma EmptiesThere(st: Store, op: Op, final: bytes)
    requires op.BeginOp? && Begin(st, op.id, op.relative, op.desire, op.perm, Smooth(false)).1
    requires Target(op.relative, op.desire, false) == Some(final)
    ensures EmptiesAt(st, op, Smooth(false), final + PART)
    ensures Apply(st, op, Smooth(false)) == Begin(st, op.id, op.relative, op.desire, op.perm, Smooth(false)).0
  {
    hide Begin, Target;
  }

  // A stolen upload.

  /** Upload 1 to `x` has taken the byte 07. */
  function OneWritten(): Store
  {
    Append(OneBegun(), 1, [7], Smooth(false)).0
  }

  lemma WrittenRefined()
    ensures Refines(OneWritten(), OneUpload([7])) && OneWritten().fs.nodes.Keys == {TEMP_X}
  {
    hide *;
    OneRefined();
    OneLonger();
    AppendNodes(OneBegun(), 1, [7], Smooth(false));
    WholeAppend(OneBegun(), OneUpload([]), 1, [7], Smooth(false));
  }

  lemma OneLonger()
    ensures 1 in OneUpload([]).open && Longer(OneUpload([]), 1, [7]) == OneUpload([7])
    ensures Smooth(false).written >= 1 && OneWritten() == Append(OneBegun(), 1, [7], Smooth(false)).0
  {
    hide Append, OneBegun;
    assert [] + [7] == [7];
    assert Longer(OneUpload([]), 1, [7]).open == OneUpload([7]).open;
  }

  lemma AppendNodes(st: Store, id: u32, data: bytes, env: Env)
    ensures Append(st, id, data, env).0.fs.nodes == st.fs.nodes
  {
  }

  lemma NothingAt(fs: FS, s: bytes)
    requires Paths.SLASH !in s && [Paths.SLASH] + s !in fs.nodes
    ensures ParentDirs(fs, [Paths.SLASH] + s) && !IsDir(fs, [Paths.SLASH] + s)
  {
    NoParents(fs, s);
  }

  /** Upload 2 to `x.part` begins and ends, and the END of upload 1 reports success for an empty file. */
  lemma StolenWitness()
    ensures Refines(OneWritten(), OneUpload([7]))
    ensures var env := Smooth(false);
            var (began, ok) := Begin(OneWritten(), 2, X_PART, None, None, env);
            var (ended, second) := Finish(began, 2, env);
            var (after, first) := Finish(ended, 1, env);
            ok && second.Published? && first.Published? && Content(after.fs, FINAL_X) == Some([])
  {
    hide *;
    Names();
    WrittenRefined();
    var st, a, op := OneWritten(), OneUpload([7]), BeginOp(2, X_PART, None, None);
    OneOpen([7]);
    FreeSlot(st, a);
    PlainBegins(st, a, 2, X_PART);
    NextTo(st, a, op);
    NothingAt(Apply(st, op, Smooth(false)).fs, X);
    UploadStolen(st, a, 1, op, Smooth(false), false);
    AppliedEnds(st, op, Smooth(false));
  }

  lemma OneOpen(data: bytes)
    ensures OneUpload(data).open.Keys == {1} && OneUpload(data).open[1] == Upload(FINAL_X, None, data)
  {
  }

  lemma NextTo(st: Store, a: Atomic, op: Op)
    requires Refines(st, a) && 1 in a.open && op.BeginOp? && op.id == 2
    requires Begin(st, 2, op.relative, op.desire, op.perm, Smooth(false)).1
    ensures BeginsNextTo(st, a, 1, op, Smooth(false))
    ensures Target(op.relative, op.desire, false) == TargetOf(op, Smooth(false))
    ensures Apply(st, op, Smooth(false)) == Begin(st, 2, op.relative, op.desire, op.perm, Smooth(false)).0
  {
    hide Refines, Begin, Target;
  }

  lemma AppliedEnds(st: Store, op: Op, env: Env)
    requires op.BeginOp?
    ensures Apply(st, op, env) == Begin(st, op.id, op.relative, op.desire, op.perm, env).0
    ensures forall s: Store, id :: Apply(s, EndOp(id), env) == Finish(s, id, env).0
  {
    hide Begin, Finish;
  }

  /** A second BEGIN of `x` empties the private file in which upload 1 had the byte 07. */
  lemma SameFinalWitness()
    ensures var op := BeginOp(2, X, None, None);
            && BeginsNextTo(OneWritten(), OneUpload([7]), 1, op, Smooth(false))
            && TargetOf(op, Smooth(false)) == Some(FINAL_X)
            && Content(OneWritten().fs, TEMP_X) == Some([7])
            && Content(Apply(OneWritten(), op, Smooth(false)).fs, TEMP_X) == Some([])
  {
    hide *;
    Names();
    WrittenRefined();
    var st, a, op := OneWritten(), OneUpload([7]), BeginOp(2, X, None, None);
    OneOpen([7]);
    FreeSlot(st, a);
    NamedUpload(st, a, 1);
    PrivateContent(st, a, 1);
    PlainBegins(st, a, 2, X);
    NextTo(st, a, op);
    EmptiesThere(st, op, FINAL_X);
    BeginContent(st, a, op, Smooth(false), TEMP_X);
  }

  /** Upload 1 to the finished file `x.part` is under way. */
  function PartBegun(): Store
  {
    Begin(Cleared(PartFile()), 1, X_PART, None, None, Smooth(false)).0
  }

  function PartUpload(): Atomic
  {
    Atomic(map[1 := Upload(TEMP_X, None, [])], PublishedIn(PartFile()))
  }

  lemma PartRefined()
    ensures Refines(PartBegun(), PartUpload()) && Content(PartBegun().fs, TEMP_X) == Some([7])
  {
    Names();
    PartFileMeans();
    EmptyTable(PartFile());
    ClearedFiles(PartFile());
    assert TEMP_X + PART !in PartFile().nodes;
    hide Refines, Begin, FirstFree, Cleared, PartFile, Content, PublishedIn, Target, Abort;
    var st, a := Cleared(PartFile()), Atomic(map[], PublishedIn(PartFile()));
    var op := BeginOp(1, X_PART, None, None);
    PlainSession(st, a, 1, X_PART);
    PlainBegins(st, a, 1, X_PART);
    PublishedOnlyAtEnd(st, a, op, Smooth(false), TEMP_X);
  }

  lemma FileThere(fs: FS, p: bytes)
    requires Content(fs, p).Some?
    ensures IsFile(fs, p)
  {
  }

  lemma PartOpen()
    ensures PartUpload().open.Keys == {1} && PartUpload().open[1].final == TEMP_X
  {
  }

  /** BEGIN of `x` empties the finished file that upload 1 is about to replace. */
  lemma TempIsFinalWitness()
    ensures var op := BeginOp(2, X, None, None);
            && BeginsNextTo(PartBegun(), PartUpload(), 1, op, Smooth(false))
            && TargetOf(op, Smooth(false)) == Some(FINAL_X) && PartUpload().open[1].final == FINAL_X + PART
            && Content(PartBegun().fs, TEMP_X) == Some([7])
            && Content(Apply(PartBegun(), op, Smooth(false)).fs, TEMP_X) == Some([])
  {
    hide *;
    Names();
    PartRefined();
    var st, a, op := PartBegun(), PartUpload(), BeginOp(2, X, None, None);
    PartOpen();
    FreeSlot(st, a);
    FileThere(st.fs, TEMP_X);
    PlainBegins(st, a, 2, X);
    NextTo(st, a, op);
    EmptiesThere(st, op, FINAL_X);
    BeginContent(st, a, op, Smooth(false), TEMP_X);
  }
}
