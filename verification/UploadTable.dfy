/** What every operation keeps about the session table, and the writeback pacing. */
module UploadTable {
  import opened Bytes
  import opened FileSystem
  import opened Uploads

  /** Used slots have distinct ids, and a slot is used exactly when its file is open. */
  predicate TableValid(slots: seq<Session>)
  {
    && |slots| == MAX_SESSIONS
    && (forall i :: 0 <= i < |slots| ==> (slots[i].used <==> slots[i].fp.Some?))
    && (forall i, j :: 0 <= i < j < |slots| && slots[i].used && slots[j].used
          ==> slots[i].transferId != slots[j].transferId)
  }

  /** At most 1 MiB - 1 byte of every open upload is not yet synchronised. */
  predicate Paced1M(slots: seq<Session>)
  {
    forall i :: 0 <= i < |slots| && slots[i].used ==>
      slots[i].syncedBytes <= slots[i].bytesWritten < slots[i].syncedBytes + SYNC_INTERVAL
  }

  datatype Op =
    | BeginOp(id: u32, relative: bytes, desire: Option<bytes>, perm: Option<bytes>)
    | AppendOp(id: u32, data: bytes)
    | EndOp(id: u32)
    | AbortOp(id: u32)
    | ShutdownOp

  /** One public operation of the table. */
  function Apply(st: Store, op: Op, env: Env): Store
  {
    match op
    case BeginOp(id, relative, desire, perm) => Begin(st, id, relative, desire, perm, env).0
    case AppendOp(id, data) => Append(st, id, data, env).0
    case EndOp(id) => Finish(st, id, env).0
    case AbortOp(id) => Abort(st, id, env).0
    case ShutdownOp => Shutdown(st, env)
  }

  function Run(st: Store, ops: seq<Op>, envs: seq<Env>): Store
    requires |ops| == |envs|
    decreases ops
  {
    if ops == [] then st else Run(Apply(st, ops[0], envs[0]), ops[1..], envs[1..])
  }

  predicate SlotValid(s: Session)
  {
    && (s.used <==> s.fp.Some?)
    && (s.used ==> s.syncedBytes <= s.bytesWritten < s.syncedBytes + SYNC_INTERVAL)
  }

  /** Changing one slot, without giving it the id of another used slot, keeps the table. */
  lemma SlotUpdate(slots: seq<Session>, i: nat, s: Session)
    requires TableValid(slots) && Paced1M(slots) && i < MAX_SESSIONS && SlotValid(s)
    requires s.used ==> forall k :: 0 <= k < MAX_SESSIONS && k != i ==> !Matches(slots[k], s.transferId)
    ensures TableValid(slots[i := s]) && Paced1M(slots[i := s])
  {
  }

  lemma AbortKeepsTable(st: Store, id: u32, env: Env)
    requires TableValid(st.slots) && Paced1M(st.slots)
    ensures TableValid(Abort(st, id, env).0.slots) && Paced1M(Abort(st, id, env).0.slots)
    ensures Find(Abort(st, id, env).0.slots, id) == MAX_SESSIONS
  {
    var i := Find(st.slots, id);
    if i < MAX_SESSIONS {
      SlotUpdate(st.slots, i, CLEARED);
    }
    assert forall k :: 0 <= k < MAX_SESSIONS ==> !Matches(Abort(st, id, env).0.slots[k], id);
  }

  lemma OpenKeepsTable(st: Store, id: u32, relative: bytes, desire: Option<bytes>, perm: Option<bytes>, env: Env)
    requires TableValid(st.slots) && Paced1M(st.slots) && Find(st.slots, id) == MAX_SESSIONS
    ensures var (after, ok) := Open(st, id, relative, desire, perm, env);
            && TableValid(after.slots) && Paced1M(after.slots)
            && (ok <==> Find(after.slots, id) < MAX_SESSIONS)
  {
    var (after, ok) := Open(st, id, relative, desire, perm, env);
    var i := FirstFree(st.slots);
    assert forall k :: 0 <= k < MAX_SESSIONS ==> !Matches(st.slots[k], id);
    if i < MAX_SESSIONS {
      OpenTouchesOneSlot(st, id, relative, desire, perm, env);
      hide Open;
      var s := after.slots[i];
      SlotUpdate(st.slots, i, s);
      assert ok ==> Matches(after.slots[i], id);
      assert !ok ==> forall k :: 0 <= k < MAX_SESSIONS ==> !Matches(after.slots[k], id);
    }
  }

  lemma OpenTouchesOneSlot(st: Store, id: u32, relative: bytes, desire: Option<bytes>, perm: Option<bytes>, env: Env)
    requires TableValid(st.slots) && FirstFree(st.slots) < MAX_SESSIONS
    ensures var (after, ok) := Open(st, id, relative, desire, perm, env);
            var i := FirstFree(st.slots);
            && |after.slots| == MAX_SESSIONS && after.slots == st.slots[i := after.slots[i]]
            && SlotValid(after.slots[i]) && after.slots[i].used == ok
            && (ok ==> after.slots[i].transferId == id)
            && (ok ==> after.slots[i].bytesWritten == after.slots[i].syncedBytes == 0)
  {
    hide Target, ParsePerm, OpenWrite, FirstFree;
  }

  lemma BeginKeepsTable(st: Store, id: u32, relative: bytes, desire: Option<bytes>, perm: Option<bytes>, env: Env)
    requires TableValid(st.slots) && Paced1M(st.slots)
    ensures var (after, ok) := Begin(st, id, relative, desire, perm, env);
            && TableValid(after.slots) && Paced1M(after.slots)
            && (ok <==> Find(after.slots, id) < MAX_SESSIONS)
  {
    AbortKeepsTable(st, id, env);
    OpenKeepsTable(Abort(st, id, env).0, id, relative, desire, perm, env);
  }

  lemma OtherOpsKeepTable(st: Store, op: Op, env: Env)
    requires TableValid(st.slots) && Paced1M(st.slots) && !op.BeginOp? && !op.AbortOp?
    ensures TableValid(Apply(st, op, env).slots) && Paced1M(Apply(st, op, env).slots)
  {
    if !op.ShutdownOp? {
      var i := Find(st.slots, op.id);
      if i < MAX_SESSIONS {
        SlotUpdate(st.slots, i, CLEARED);
        if op.AppendOp? && op.data != [] {
          SlotUpdate(st.slots, i, Append(st, op.id, op.data, env).0.slots[i]);
        }
      }
    }
  }

  /** Every operation, whatever the environment answers, keeps the table valid and paced. */
  lemma EveryOpKeepsTable(st: Store, op: Op, env: Env)
    requires TableValid(st.slots) && Paced1M(st.slots)
    ensures TableValid(Apply(st, op, env).slots) && Paced1M(Apply(st, op, env).slots)
  {
    match op
    case BeginOp(id, relative, desire, perm) => BeginKeepsTable(st, id, relative, desire, perm, env);
    case AbortOp(id) => AbortKeepsTable(st, id, env);
    case _ => OtherOpsKeepTable(st, op, env);
  }

  /** The table is valid and paced throughout every run that starts with an initialised table. */
  lemma {:induction false} RunKeepsTable(st: Store, ops: seq<Op>, envs: seq<Env>)
    requires |ops| == |envs| && TableValid(st.slots) && Paced1M(st.slots)
    ensures TableValid(Run(st, ops, envs).slots) && Paced1M(Run(st, ops, envs).slots)
    decreases ops
  {
    if ops != [] {
      EveryOpKeepsTable(st, ops[0], envs[0]);
      hide Apply;
      RunKeepsTable(Apply(st, ops[0], envs[0]), ops[1..], envs[1..]);
    }
  }

  lemma InitialTable(fs: FS)
    ensures TableValid(Store(seq(MAX_SESSIONS, _ => CLEARED), fs).slots)
    ensures Paced1M(Store(seq(MAX_SESSIONS, _ => CLEARED), fs).slots)
  {
  }

  /** When BEGIN succeeds, in terms of the target it resolves.  A retry of an active id needs no free slot. */
  lemma BeginOnTarget(st: Store, id: u32, relative: bytes, desire: Option<bytes>, perm: Option<bytes>, env: Env)
    requires TableValid(st.slots)
    ensures Begin(st, id, relative, desire, perm, env).1
            <==> && (Find(st.slots, id) < MAX_SESSIONS || FirstFree(st.slots) < MAX_SESSIONS)
                 && PermOf(perm).Some? && Target(relative, desire, env.sdMounted).Some?
                 && OpenWrite(Abort(st, id, env).0.fs, Target(relative, desire, env.sdMounted).value + PART,
                              env.openOk).Some?
  {
    hide Target, ParsePerm, OpenWrite;
    var i := Find(st.slots, id);
    var after := Abort(st, id, env).0;
    if i < MAX_SESSIONS {
      assert !after.slots[i].used;
      assert FirstFree(after.slots) <= i;
    }
  }

  // ---- Pacing --------------------------------------------------------------------------------

  lemma {:induction false} FindAt(slots: seq<Session>, id: u32, i: nat)
    requires TableValid(slots) && i < MAX_SESSIONS && Matches(slots[i], id)
    ensures Find(slots, id) == i
  {
  }

  lemma FindNone(slots: seq<Session>, id: u32)
    requires forall k :: 0 <= k < |slots| ==> !Matches(slots[k], id)
    ensures Find(slots, id) == |slots|
  {
  }

  /** How many bytes of the session `id` have been synchronised, and how many are still to be. */
  function SyncedOf(slots: seq<Session>, id: u32): nat
  {
    var i := Find(slots, id);
    if i < |slots| then slots[i].syncedBytes else 0
  }

  function Unsynced(slots: seq<Session>, id: u32): int
  {
    var i := Find(slots, id);
    if i < |slots| then slots[i].bytesWritten - slots[i].syncedBytes else 0
  }

  /** The operation is a chunk for `id` that ends in a synchronisation. */
  predicate SyncPoint(st: Store, op: Op, env: Env, id: u32)
  {
    op.AppendOp? && op.id == id && SyncedOf(Apply(st, op, env).slots, id) != SyncedOf(st.slots, id)
  }

  /** The bytes of a chunk for `id` that was taken whole. */
  function Credit(st: Store, op: Op, env: Env, id: u32): nat
  {
    if op.AppendOp? && op.id == id && Append(st, id, op.data, env).1 then |op.data| else 0
  }

  function SyncCount(st: Store, ops: seq<Op>, envs: seq<Env>, id: u32): nat
    requires |ops| == |envs|
    decreases ops
  {
    if ops == [] then 0
    else (if SyncPoint(st, ops[0], envs[0], id) then 1 else 0)
         + SyncCount(Apply(st, ops[0], envs[0]), ops[1..], envs[1..], id)
  }

  function TotalCredit(st: Store, ops: seq<Op>, envs: seq<Env>, id: u32): nat
    requires |ops| == |envs|
    decreases ops
  {
    if ops == [] then 0
    else Credit(st, ops[0], envs[0], id) + TotalCredit(Apply(st, ops[0], envs[0]), ops[1..], envs[1..], id)
  }

  /** A slot of other sessions does not matter. */
  lemma UnsyncedElsewhere(slots: seq<Session>, i: nat, s: Session, id: u32)
    requires TableValid(slots) && i < MAX_SESSIONS && TableValid(slots[i := s])
    requires !Matches(slots[i], id) && !Matches(s, id)
    ensures Unsynced(slots[i := s], id) == Unsynced(slots, id)
  {
    var k := Find(slots, id);
    if k < MAX_SESSIONS {
      FindAt(slots[i := s], id, k);
    } else {
      FindNone(slots[i := s], id);
    }
  }

  lemma UnsyncedGone(slots: seq<Session>, i: nat, id: u32)
    requires TableValid(slots) && Find(slots, id) == i < MAX_SESSIONS
    ensures Unsynced(slots[i := CLEARED], id) == 0
  {
    FindNone(slots[i := CLEARED], id);
  }

  lemma UnsyncedSmall(slots: seq<Session>, id: u32)
    requires TableValid(slots) && Paced1M(slots)
    ensures 0 <= Unsynced(slots, id) < SYNC_INTERVAL
  {
  }

  lemma ClearPays(slots: seq<Session>, other: u32, id: u32)
    requires TableValid(slots) && Paced1M(slots) && Find(slots, other) < MAX_SESSIONS
    ensures Unsynced(slots[Find(slots, other) := CLEARED], id) <= Unsynced(slots, id)
    ensures other == id ==> Unsynced(slots[Find(slots, other) := CLEARED], id) == 0
  {
    var i := Find(slots, other);
    UnsyncedSmall(slots, id);
    SlotUpdate(slots, i, CLEARED);
    if other == id {
      UnsyncedGone(slots, i, id);
    } else {
      UnsyncedElsewhere(slots, i, CLEARED, id);
    }
  }

  lemma BeginPays(st: Store, op: Op, env: Env, id: u32)
    requires TableValid(st.slots) && Paced1M(st.slots) && op.BeginOp?
    ensures Unsynced(Apply(st, op, env).slots, id) <= Unsynced(st.slots, id)
  {
    UnsyncedSmall(st.slots, id);
    if Find(st.slots, op.id) < MAX_SESSIONS {
      ClearPays(st.slots, op.id, id);
    }
    AbortKeepsTable(st, op.id, env);
    var mid, i := Abort(st, op.id, env).0, FirstFree(Abort(st, op.id, env).0.slots);
    assert Unsynced(mid.slots, id) <= Unsynced(st.slots, id);
    OpenKeepsTable(mid, op.id, op.relative, op.desire, op.perm, env);
    if i < MAX_SESSIONS {
      OpenTouchesOneSlot(mid, op.id, op.relative, op.desire, op.perm, env);
      hide Open, Abort;
      var (after, ok) := Open(mid, op.id, op.relative, op.desire, op.perm, env);
      if ok && op.id == id {
        FindAt(after.slots, id, i);
      } else {
        UnsyncedElsewhere(mid.slots, i, after.slots[i], id);
      }
    }
  }

  lemma AppendPays(st: Store, op: Op, env: Env, id: u32)
    requires TableValid(st.slots) && Paced1M(st.slots) && op.AppendOp?
    ensures Unsynced(Apply(st, op, env).slots, id) + (if SyncPoint(st, op, env, id) then SYNC_INTERVAL else 0)
         <= Unsynced(st.slots, id) + Credit(st, op, env, id)
  {
    var i, after := Find(st.slots, op.id), Apply(st, op, env);
    OtherOpsKeepTable(st, op, env);
    if i < MAX_SESSIONS && op.data != [] {
      if op.id == id {
        FindAt(after.slots, id, i);
      } else {
        UnsyncedElsewhere(st.slots, i, after.slots[i], id);
      }
    }
  }

  /** What a synchronisation costs is paid for by bytes that were written and not yet synchronised. */
  lemma OpPays(st: Store, op: Op, env: Env, id: u32)
    requires TableValid(st.slots) && Paced1M(st.slots)
    ensures Unsynced(Apply(st, op, env).slots, id) + (if SyncPoint(st, op, env, id) then SYNC_INTERVAL else 0)
         <= Unsynced(st.slots, id) + Credit(st, op, env, id)
  {
    UnsyncedSmall(st.slots, id);
    match op
    case BeginOp(_, _, _, _) => BeginPays(st, op, env, id);
    case AppendOp(_, _) => AppendPays(st, op, env, id);
    case ShutdownOp => FindNone(Shutdown(st, env).slots, id);
    case _ =>
      if Find(st.slots, op.id) < MAX_SESSIONS {
        ClearPays(st.slots, op.id, id);
      }
  }

  /** Over any run, each synchronisation of an upload is paid for by a whole mebibyte that was written to it
      under the same id, whatever else happens in between. */
  lemma {:induction false} SyncsAreRare(st: Store, ops: seq<Op>, envs: seq<Env>, id: u32)
    requires |ops| == |envs| && TableValid(st.slots) && Paced1M(st.slots)
    ensures Unsynced(Run(st, ops, envs).slots, id) + SYNC_INTERVAL * SyncCount(st, ops, envs, id)
         <= Unsynced(st.slots, id) + TotalCredit(st, ops, envs, id)
    decreases ops
  {
    if ops != [] {
      EveryOpKeepsTable(st, ops[0], envs[0]);
      OpPays(st, ops[0], envs[0], id);
      hide Apply, Unsynced, Credit, SyncPoint, TableValid, Paced1M;
      SyncsAreRare(Apply(st, ops[0], envs[0]), ops[1..], envs[1..], id);
    }
  }

  /** From a cleared table on there is at most one synchronisation per mebibyte of chunks that were taken
      whole, for every id and under every interleaving. */
  lemma PacingBound(fs: FS, ops: seq<Op>, envs: seq<Env>, id: u32)
    requires |ops| == |envs|
    ensures var st := Store(seq(MAX_SESSIONS, _ => CLEARED), fs);
            SyncCount(st, ops, envs, id) <= TotalCredit(st, ops, envs, id) / 0x10_0000
  {
    var st := Store(seq(MAX_SESSIONS, _ => CLEARED), fs);
    InitialTable(fs);
    FindNone(st.slots, id);
    SyncsAreRare(st, ops, envs, id);
    RunKeepsTable(st, ops, envs);
    UnsyncedSmall(Run(st, ops, envs).slots, id);
    hide Run, SyncCount, TotalCredit;
  }

  // ---- Shutdown ------------------------------------------------------------------------------

  /** `path` is the temporary file of an open session. */
  predicate IsTemp(slots: seq<Session>, path: bytes)
  {
    exists i :: 0 <= i < |slots| && slots[i].used && slots[i].tempPath == path
  }

  lemma {:induction false} UnlinkAllNodes(fs: FS, slots: seq<Session>, env: Env, path: bytes)
    ensures var after := UnlinkAll(fs, slots, env);
            && (path in after.nodes ==> path in fs.nodes && after.nodes[path] == fs.nodes[path])
            && (path in fs.nodes && !IsTemp(slots, path) ==> path in after.nodes)
            && (env.unlinkOk && IsTemp(slots, path) ==> !IsFile(after, path))
    decreases slots
  {
    if slots != [] {
      var next := if slots[0].used then Unlink(fs, slots[0].tempPath, env.unlinkOk).0 else fs;
      UnlinkAllNodes(next, slots[1..], env, path);
      assert IsTemp(slots, path) <==> (slots[0].used && slots[0].tempPath == path) || IsTemp(slots[1..], path) by {
        assert slots == [slots[0]] + slots[1..];
      }
    }
  }

  /** Shutdown leaves no open session and no temporary file of one; every other name stays. */
  lemma ShutdownCleans(st: Store, env: Env)
    requires TableValid(st.slots)
    ensures var after := Shutdown(st, env);
            && TableValid(after.slots) && (forall i :: 0 <= i < MAX_SESSIONS ==> !after.slots[i].used)
            && (forall p :: env.unlinkOk && IsTemp(st.slots, p) ==> !IsFile(after.fs, p))
            && (forall p :: p in st.fs.nodes && !IsTemp(st.slots, p)
                            ==> p in after.fs.nodes && after.fs.nodes[p] == st.fs.nodes[p])
  {
    var after := Shutdown(st, env);
    forall p | env.unlinkOk && IsTemp(st.slots, p) ensures !IsFile(after.fs, p) {
      UnlinkAllNodes(st.fs, st.slots, env, p);
    }
    forall p | p in st.fs.nodes && !IsTemp(st.slots, p)
      ensures p in after.fs.nodes && after.fs.nodes[p] == st.fs.nodes[p]
    {
      UnlinkAllNodes(st.fs, st.slots, env, p);
    }
  }
}
