/** The session table refines a store in which every upload is private until it is published whole. */
module UploadIsolation {
  import opened Bytes
  import opened FileSystem
  import opened Uploads
  import opened UploadTable

  /** One upload of the simple store: where it goes, the permission to set, what it holds. */
  datatype Upload = Upload(final: bytes, perm: Option<nat>, data: bytes)

  /** The simple store: private uploads by id, and all other files. */
  datatype Atomic = Atomic(open: map<u32, Upload>, files: map<bytes, bytes>)

  /** `p` is where some open upload collects its data. */
  predicate IsPrivate(open: map<u32, Upload>, p: bytes)
  {
    exists id :: id in open && p == open[id].final + PART
  }

  lemma TempInjective(p: bytes, q: bytes)
    requires p + PART == q + PART
    ensures p == q
  {
    assert (p + PART)[..|p|] == p && (q + PART)[..|q|] == q;
  }

  // ---- What each file-system call leaves alone -----------------------------------------------

  /** `fs'` differs from `fs` at most at the names in `except`; other files keep inode and content. */
  ghost predicate SameElsewhere(fs: FS, fs': FS, except: set<bytes>)
  {
    forall p :: p !in except ==>
      && (p in fs.nodes <==> p in fs'.nodes)
      && (p in fs.nodes ==> fs'.nodes[p] == fs.nodes[p])
      && Content(fs', p) == Content(fs, p)
  }

  lemma OpenElsewhere(fs: FS, path: bytes, ok: bool)
    requires Valid(fs) && OpenWrite(fs, path, ok).Some?
    ensures var o := OpenWrite(fs, path, ok).value;
            && Valid(o.fs) && SameElsewhere(fs, o.fs, {path})
            && o.fs.nodes.Keys == fs.nodes.Keys + {path}
            && IsFile(o.fs, path) && o.fs.nodes[path].ino == o.ino && Content(o.fs, path) == Some([])
  {
  }

  lemma WriteElsewhere(fs: FS, path: bytes, off: nat, data: bytes)
    requires Valid(fs) && IsFile(fs, path)
    ensures var ino := fs.nodes[path].ino;
            var fs' := WriteAt(fs, ino, off, data);
            && Valid(fs') && SameElsewhere(fs, fs', {path}) && fs'.nodes == fs.nodes
            && Content(fs', path) == Some(Splice(Content(fs, path).value, off, data))
  {
  }

  lemma RenameElsewhere(fs: FS, from: bytes, to: bytes, ok: bool)
    requires Valid(fs) && Rename(fs, from, to, ok).1 && from != to
    ensures var fs' := Rename(fs, from, to, ok).0;
            && Valid(fs') && SameElsewhere(fs, fs', {from, to})
            && from !in fs'.nodes && IsFile(fs', to) && Content(fs', to) == Content(fs, from)
  {
  }

  lemma UnlinkElsewhere(fs: FS, path: bytes, ok: bool)
    requires Valid(fs)
    ensures var (fs', done) := Unlink(fs, path, ok);
            && Valid(fs') && SameElsewhere(fs, fs', {path}) && (!done ==> fs' == fs)
            && (done ==> path !in fs'.nodes)
  {
  }

  lemma ChmodElsewhere(fs: FS, path: bytes, mode: nat, ok: bool)
    requires Valid(fs)
    ensures var (fs', done) := Chmod(fs, path, mode, ok);
            && Valid(fs') && SameElsewhere(fs, fs', {}) && fs'.nodes == fs.nodes
            && (!done ==> fs' == fs)
            && (done ==> IsFile(fs', path) && fs'.inodes[fs'.nodes[path].ino].mode == mode)
  {
    forall p ensures Content(Chmod(fs, path, mode, ok).0, p) == Content(fs, p) {
    }
  }

  // ---- The refinement ------------------------------------------------------------------------

  /** A slot and its file hold exactly the upload `u`. */
  ghost predicate Agrees(s: Session, fs: FS, u: Upload)
  {
    && s.finalPath == u.final && s.tempPath == u.final + PART
    && s.applyPerm == u.perm.Some? && (u.perm.Some? ==> s.fileMode == u.perm.value)
    && IsFile(fs, s.tempPath) && Content(fs, s.tempPath) == Some(u.data)
    && s.fp == Some(Handle(fs.nodes[s.tempPath].ino, |u.data|))
  }

  ghost predicate SlotsAgree(st: Store, open: map<u32, Upload>)
  {
    forall i :: 0 <= i < |st.slots| && st.slots[i].used ==>
      st.slots[i].transferId in open && Agrees(st.slots[i], st.fs, open[st.slots[i].transferId])
  }

  /** Every file that is not private has its published content. */
  ghost predicate FilesAgree(fs: FS, a: Atomic)
  {
    forall p :: !IsPrivate(a.open, p) ==> Content(fs, p) == if p in a.files then Some(a.files[p]) else None
  }

  /** Different uploads work on different names. */
  predicate Disjoint(open: map<u32, Upload>)
  {
    forall x, y :: x in open && y in open && x != y ==>
      open[x].final != open[y].final && open[x].final != open[y].final + PART
  }

  ghost predicate Refines(st: Store, a: Atomic)
  {
    && TableValid(st.slots) && Paced1M(st.slots) && Valid(st.fs)
    && SlotsAgree(st, a.open) && Disjoint(a.open) && FilesAgree(st.fs, a)
    && forall id :: id in a.open ==> Find(st.slots, id) < MAX_SESSIONS
  }

  /** What the caller learns from one operation. */
  datatype Outcome =
    | Began(upload: Option<Upload>, removed: bool)
    | Appended(ok: bool, taken: bytes)
    | Ended(result: Finished, removed: bool)
    | Aborted(removed: bool)

  function OutcomeOf(st: Store, op: Op, env: Env): Outcome
    requires !op.ShutdownOp?
  {
    match op
    case BeginOp(id, relative, desire, perm) =>
      if !Begin(st, id, relative, desire, perm, env).1 then Began(None, env.unlinkOk)
      else
        var target, mode := Target(relative, desire, env.sdMounted), PermOf(perm);
        if target.None? || mode.None? then Began(None, env.unlinkOk)
        else Began(Some(Upload(target.value, mode.value, [])), env.unlinkOk)
    case AppendOp(id, data) =>
      var i := Find(st.slots, id);
      var reached := data != [] && i < |st.slots| && st.slots[i].fp.Some?;
      Appended(Append(st, id, data, env).1, if reached then data[..Taken(data, env)] else [])
    case EndOp(id) => Ended(Finish(st, id, env).1, env.unlinkOk)
    case AbortOp(id) => Aborted(env.unlinkOk)
  }

  /** The upload `id`, if there is one, is over; its private file is removed or, when that fails, becomes
      an ordinary file. */
  function Dropped(a: Atomic, id: u32, removed: bool): Atomic
  {
    if id !in a.open then a
    else
      var temp := a.open[id].final + PART;
      Atomic(a.open - {id}, if removed then a.files - {temp} else a.files[temp := a.open[id].data])
  }

  /** The same operation on the simple store. */
  function AtomicStep(a: Atomic, op: Op, outcome: Outcome): Atomic
    requires !op.ShutdownOp?
  {
    match op
    case BeginOp(id, _, _, _) =>
      if !outcome.Began? then a
      else
        var d := Dropped(a, id, outcome.removed);
        if outcome.upload.Some? then d.(open := d.open[id := outcome.upload.value]) else d
    case AppendOp(id, _) =>
      if outcome.Appended? && id in a.open
      then a.(open := a.open[id := a.open[id].(data := a.open[id].data + outcome.taken)])
      else a
    case EndOp(id) =>
      if id !in a.open || !outcome.Ended? then a
      else
        var u, d := a.open[id], Dropped(a, id, true);
        (match outcome.result
         case NoSession => a
         case RenameFailed => Dropped(a, id, outcome.removed)
         case Published => d.(files := d.files[u.final := u.data])
         case ChmodFailed => d.(files := if outcome.removed then d.files - {u.final} else d.files[u.final := u.data]))
    case AbortOp(id) => if outcome.Aborted? then Dropped(a, id, outcome.removed) else a
  }

  /** The caller's side of the bargain: a new upload works on names of its own. */
  predicate Separate(a: Atomic, op: Op, env: Env)
  {
    op.BeginOp? ==>
      var target := Target(op.relative, op.desire, env.sdMounted);
      target.Some? ==> Apart(a.open, op.id, target.value)
  }

  /** Neither name of an upload to `final` is a name of another open upload than `id`. */
  predicate Apart(open: map<u32, Upload>, id: u32, final: bytes)
  {
    forall b :: b in open && b != id ==>
      open[b].final != final && open[b].final != final + PART && open[b].final + PART != final
  }

  lemma UsedAgrees(st: Store, a: Atomic, id: u32) returns (i: nat)
    requires Refines(st, a)
    ensures i == Find(st.slots, id)
    ensures i < MAX_SESSIONS <==> id in a.open
    ensures i < MAX_SESSIONS ==>
              st.slots[i].used && st.slots[i].transferId == id && Agrees(st.slots[i], st.fs, a.open[id])
  {
    i := Find(st.slots, id);
    assert i < MAX_SESSIONS ==> Matches(st.slots[i], id);
  }

  /** None of the names in `except` is the private name of another upload than `id`. */
  ghost predicate Spares(open: map<u32, Upload>, id: u32, except: set<bytes>)
  {
    forall b :: b in open && b != id ==> open[b].final + PART !in except
  }

  /** Changes confined to names that no other open session uses leave the other sessions alone. */
  lemma OthersAgree(st: Store, a: Atomic, id: u32, fs': FS, except: set<bytes>)
    requires Refines(st, a) && SameElsewhere(st.fs, fs', except)
    requires Spares(a.open, id, except)
    ensures forall i :: 0 <= i < MAX_SESSIONS && st.slots[i].used && st.slots[i].transferId != id ==>
              Agrees(st.slots[i], fs', a.open[st.slots[i].transferId])
  {
    forall i | 0 <= i < MAX_SESSIONS && st.slots[i].used && st.slots[i].transferId != id
      ensures Agrees(st.slots[i], fs', a.open[st.slots[i].transferId])
    {
      assert Agrees(st.slots[i], st.fs, a.open[st.slots[i].transferId]);
    }
  }

  lemma FilesKept(fs: FS, fs': FS, a: Atomic, a': Atomic, temp: bytes)
    requires FilesAgree(fs, a) && SameElsewhere(fs, fs', {temp}) && a'.files == a.files && IsPrivate(a'.open, temp)
    requires forall p :: IsPrivate(a.open, p) ==> IsPrivate(a'.open, p)
    ensures FilesAgree(fs', a')
  {
    hide Content;
  }

  lemma TempsApart(st: Store, a: Atomic, id: u32)
    requires Refines(st, a) && id in a.open
    ensures forall b :: b in a.open && b != id ==> a.open[b].final + PART != a.open[id].final + PART
  {
    forall b | b in a.open && b != id ensures a.open[b].final + PART != a.open[id].final + PART {
      if a.open[b].final + PART == a.open[id].final + PART {
        TempInjective(a.open[b].final, a.open[id].final);
      }
    }
  }

  /** Clearing the slot of `id` after its files were dealt with. */
  lemma ClearSlot(st: Store, a: Atomic, id: u32, fs': FS, except: set<bytes>, files: map<bytes, bytes>)
    requires Refines(st, a) && id in a.open && Valid(fs')
    requires SameElsewhere(st.fs, fs', except)
    requires Spares(a.open, id, except)
    requires FilesAgree(fs', Atomic(a.open - {id}, files))
    ensures Refines(Store(st.slots[Find(st.slots, id) := CLEARED], fs'), Atomic(a.open - {id}, files))
  {
    hide FilesAgree, SameElsewhere, FileSystem.Valid, Agrees, Paced1M, TableValid, SlotsAgree, Disjoint, Find;
    var i := UsedAgrees(st, a, id);
    RefinesParts(st, a);
    var slots := st.slots[i := CLEARED];
    OthersAgree(st, a, id, fs', except);
    ClearedTable(st.slots, i);
    SlotsWithout(st, a, i, fs');
    FewerApart(a.open, id);
    forall b | b in a.open - {id} ensures Find(slots, b) < MAX_SESSIONS {
      StillFound(st, a, slots, b);
    }
  }

  lemma ClearedTable(slots: seq<Session>, i: nat)
    requires TableValid(slots) && Paced1M(slots) && i < MAX_SESSIONS
    ensures TableValid(slots[i := CLEARED]) && Paced1M(slots[i := CLEARED])
  {
    SlotUpdate(slots, i, CLEARED);
  }

  lemma FewerApart(open: map<u32, Upload>, id: u32)
    requires Disjoint(open)
    ensures Disjoint(open - {id})
  {
  }

  lemma SlotsWithout(st: Store, a: Atomic, i: nat, fs': FS)
    requires Refines(st, a) && i < |st.slots| && st.slots[i].used
    requires var id := st.slots[i].transferId;
             forall k :: 0 <= k < MAX_SESSIONS && st.slots[k].used && st.slots[k].transferId != id ==>
               Agrees(st.slots[k], fs', a.open[st.slots[k].transferId])
    ensures SlotsAgree(Store(st.slots[i := CLEARED], fs'), a.open - {st.slots[i].transferId})
  {
    IdsOpen(st, a);
    hide Refines, Agrees;
    var slots, id := st.slots[i := CLEARED], st.slots[i].transferId;
    forall k | 0 <= k < |slots| && slots[k].used
      ensures slots[k].transferId in a.open - {id} && Agrees(slots[k], fs', (a.open - {id})[slots[k].transferId])
    {
      DistinctIds(st, a, i, k);
    }
  }

  /** A name that is private without `id` is private, and is not the private name of `id`. */
  lemma StillPrivate(st: Store, a: Atomic, id: u32)
    requires Refines(st, a) && id in a.open
    ensures forall p :: IsPrivate(a.open, p) <==> IsPrivate(a.open - {id}, p) || p == a.open[id].final + PART
    ensures !IsPrivate(a.open - {id}, a.open[id].final + PART)
    ensures !IsPrivate(a.open, a.open[id].final)
  {
    hide Refines, IsPrivate;
    TempsApart(st, a, id);
    FinalsAreNotTemps(st, a);
    PrivateWithout(a.open, id);
    if IsPrivate(a.open, a.open[id].final) {
      PrivateWitness(a.open, a.open[id].final);
    }
  }

  lemma PrivateWitness(open: map<u32, Upload>, p: bytes)
    requires IsPrivate(open, p)
    ensures exists b :: b in open && open[b].final + PART == p
  {
  }

  lemma PrivateWithout(open: map<u32, Upload>, id: u32)
    requires id in open
    requires forall b :: b in open && b != id ==> open[b].final + PART != open[id].final + PART
    ensures forall p :: IsPrivate(open, p) <==> IsPrivate(open - {id}, p) || p == open[id].final + PART
    ensures !IsPrivate(open - {id}, open[id].final + PART)
  {
    forall p | IsPrivate(open, p) ensures IsPrivate(open - {id}, p) || p == open[id].final + PART {
      var b :| b in open && p == open[b].final + PART;
      assert b != id ==> b in open - {id};
    }
  }

  /** The private file of `id` was removed, or could not be and is an ordinary file now. */
  lemma DroppedFiles(st: Store, a: Atomic, id: u32, fs': FS, removed: bool)
    requires Refines(st, a) && id in a.open
    requires var temp := a.open[id].final + PART;
             SameElsewhere(st.fs, fs', {temp}) && Content(fs', temp) == if removed then None else Some(a.open[id].data)
    ensures FilesAgree(fs', Dropped(a, id, removed))
  {
    hide Content;
    StillPrivate(st, a, id);
  }

  lemma UnlinkTemp(fs: FS, s: Session, u: Upload, ok: bool)
    requires Valid(fs) && Agrees(s, fs, u)
    ensures var fs' := Unlink(fs, s.tempPath, ok).0;
            && Valid(fs') && SameElsewhere(fs, fs', {s.tempPath})
            && Content(fs', s.tempPath) == if ok then None else Some(u.data)
  {
    UnlinkElsewhere(fs, s.tempPath, ok);
  }

  /** Giving up the upload `id`. */
  lemma DropRefines(st: Store, a: Atomic, id: u32, ok: bool)
    requires Refines(st, a) && id in a.open
    ensures var i := Find(st.slots, id);
            && i < |st.slots|
            && Refines(Store(st.slots[i := CLEARED], Unlink(st.fs, st.slots[i].tempPath, ok).0), Dropped(a, id, ok))
  {
    var i := UsedAgrees(st, a, id);
    RefinesTable(st, a);
    RefinesValid(st, a);
    hide Unlink, Content, SlotsAgree, Refines, FilesAgree, FileSystem.Valid, SameElsewhere;
    var temp := st.slots[i].tempPath;
    var fs' := Unlink(st.fs, temp, ok).0;
    UnlinkTemp(st.fs, st.slots[i], a.open[id], ok);
    TempsApart(st, a, id);
    DroppedFiles(st, a, id, fs', ok);
    ClearSlot(st, a, id, fs', {temp}, Dropped(a, id, ok).files);
  }

  lemma RefinesValid(st: Store, a: Atomic)
    requires Refines(st, a)
    ensures Valid(st.fs) && FilesAgree(st.fs, a)
  {
  }

  lemma AbortRefines(st: Store, a: Atomic, id: u32, env: Env)
    requires Refines(st, a)
    ensures Refines(Abort(st, id, env).0, Dropped(a, id, env.unlinkOk))
  {
    var i := UsedAgrees(st, a, id);
    RefinesTable(st, a);
    if i < MAX_SESSIONS {
      DropRefines(st, a, id, env.unlinkOk);
    }
  }

  /** An append that reaches the file, field by field. */
  lemma AppendParts(st: Store, id: u32, data: bytes, env: Env)
    requires TableValid(st.slots) && Find(st.slots, id) < MAX_SESSIONS && data != []
    ensures var i := Find(st.slots, id);
            var s, k, after := st.slots[i], Taken(data, env), Append(st, id, data, env).0;
            && s.fp.Some? && |after.slots| == |st.slots|
            && after == Store(st.slots[i := after.slots[i]], Written(st.fs, s, data[..k]))
            && after.slots[i] == Advanced(s, k).(bytesWritten := after.slots[i].bytesWritten,
                                                 syncedBytes := after.slots[i].syncedBytes)
            && OutcomeOf(st, AppendOp(id, data), env) == Appended(Append(st, id, data, env).1, data[..k])
  {
    hide WriteAt;
  }

  lemma SpliceAtEnd(content: bytes, data: bytes)
    ensures Splice(content, |content|, data) == content + data
  {
  }

  /** A session after `data` was written at the end of its file. */
  function Advanced(s: Session, n: nat): Session
  {
    if s.fp.Some? then s.(fp := Some(Handle(s.fp.value.ino, s.fp.value.off + n))) else s
  }

  function Written(fs: FS, s: Session, data: bytes): FS
  {
    if s.fp.Some? then WriteAt(fs, s.fp.value.ino, s.fp.value.off, data) else fs
  }

  lemma WrittenSession(fs: FS, s: Session, u: Upload, data: bytes)
    requires Valid(fs) && Agrees(s, fs, u)
    ensures Valid(Written(fs, s, data)) && SameElsewhere(fs, Written(fs, s, data), {s.tempPath})
    ensures Agrees(Advanced(s, |data|), Written(fs, s, data), u.(data := u.data + data))
  {
    hide Splice, WriteAt, Content, SameElsewhere, FileSystem.Valid;
    WriteElsewhere(fs, s.tempPath, |u.data|, data);
    SpliceAtEnd(u.data, data);
  }

  /** The simple store after bytes were added to the upload `id`. */
  function Longer(a: Atomic, id: u32, data: bytes): Atomic
    requires id in a.open
  {
    a.(open := a.open[id := a.open[id].(data := a.open[id].data + data)])
  }

  lemma LongerPrivate(a: Atomic, id: u32, data: bytes)
    requires id in a.open
    ensures forall p :: IsPrivate(a.open, p) ==> IsPrivate(Longer(a, id, data).open, p)
    ensures IsPrivate(Longer(a, id, data).open, a.open[id].final + PART)
  {
    var open := Longer(a, id, data).open;
    assert open[id].final == a.open[id].final;
    forall p | IsPrivate(a.open, p) ensures IsPrivate(open, p) {
      var b :| b in a.open && p == a.open[b].final + PART;
      assert b in open && open[b].final == a.open[b].final;
    }
  }

  lemma AppendedFile(st: Store, a: Atomic, id: u32, data: bytes)
    requires Refines(st, a) && id in a.open
    ensures var i := Find(st.slots, id);
            && i < |st.slots|
            && var s, u := st.slots[i], a.open[id];
               var fs' := Written(st.fs, s, data);
               && Valid(fs') && FilesAgree(fs', Longer(a, id, data)) && SameElsewhere(st.fs, fs', {s.tempPath})
               && Agrees(Advanced(s, |data|), fs', u.(data := u.data + data))
  {
    var i := UsedAgrees(st, a, id);
    RefinesTable(st, a);
    RefinesValid(st, a);
    hide Written, Advanced, FilesAgree, SameElsewhere, FileSystem.Valid, Refines, IsPrivate;
    var s := st.slots[i];
    WrittenSession(st.fs, s, a.open[id], data);
    LongerPrivate(a, id, data);
    FilesKept(st.fs, Written(st.fs, s, data), a, Longer(a, id, data), s.tempPath);
  }

  lemma AppendRefines(st: Store, a: Atomic, id: u32, data: bytes, env: Env)
    requires Refines(st, a)
    ensures Refines(Append(st, id, data, env).0,
                    AtomicStep(a, AppendOp(id, data), OutcomeOf(st, AppendOp(id, data), env)))
  {
    hide Refines, Agrees;
    var i := UsedAgrees(st, a, id);
    RefinesTable(st, a);
    if i < MAX_SESSIONS && data != [] {
      AppendReaches(st, a, id, data, env);
    } else {
      AppendMisses(st, a, id, data, env);
    }
  }

  /** An append of nothing, or to no upload, changes nothing. */
  lemma AppendMisses(st: Store, a: Atomic, id: u32, data: bytes, env: Env)
    requires data == [] || (id !in a.open && Find(st.slots, id) == |st.slots|)
    ensures Append(st, id, data, env).0 == st
    ensures AtomicStep(a, AppendOp(id, data), OutcomeOf(st, AppendOp(id, data), env)) == a
  {
    if id in a.open {
      assert a.open[id].data + [] == a.open[id].data;
      assert a.open[id := a.open[id]] == a.open;
    }
  }

  lemma AppendReaches(st: Store, a: Atomic, id: u32, data: bytes, env: Env)
    requires Refines(st, a) && id in a.open && data != []
    ensures Refines(Append(st, id, data, env).0,
                    AtomicStep(a, AppendOp(id, data), OutcomeOf(st, AppendOp(id, data), env)))
  {
    hide Append, OutcomeOf, Written, FilesAgree, SameElsewhere;
    var op := AppendOp(id, data);
    var i := UsedAgrees(st, a, id);
    var taken := data[..Taken(data, env)];
    var after := Append(st, id, data, env).0;
    AppendParts(st, id, data, env);
    AppendedFile(st, a, id, taken);
    TempsApart(st, a, id);
    OthersAgree(st, a, id, after.fs, {st.slots[i].tempPath});
    OtherOpsKeepTable(st, op, env);
    hide Refines, TableValid, Paced1M;
    AppendedSlots(st, a, i, after, AtomicStep(a, op, OutcomeOf(st, op, env)));
  }

  lemma StillFound(st: Store, a: Atomic, slots: seq<Session>, b: u32)
    requires Refines(st, a) && b in a.open && |slots| == MAX_SESSIONS
    requires forall k :: 0 <= k < MAX_SESSIONS && Matches(st.slots[k], b) ==> Matches(slots[k], b)
    ensures Find(slots, b) < MAX_SESSIONS
  {
    hide SlotsAgree, FilesAgree, FileSystem.Valid, Disjoint, Paced1M, TableValid, Matches;
    RefinesTable(st, a);
    assert Matches(st.slots[Find(st.slots, b)], b);
  }

  lemma DistinctIds(st: Store, a: Atomic, i: nat, k: nat)
    requires Refines(st, a) && i < |st.slots| && k < |st.slots| && i != k && st.slots[i].used && st.slots[k].used
    ensures st.slots[i].transferId != st.slots[k].transferId
    ensures st.slots[k].transferId in a.open
  {
    hide FilesAgree, FileSystem.Valid, Disjoint, Paced1M, Agrees, Find;
  }

  lemma RefinesParts(st: Store, a: Atomic)
    requires Refines(st, a)
    ensures |st.slots| == MAX_SESSIONS && Disjoint(a.open)
  {
  }

  lemma FinalsKept(open: map<u32, Upload>, open': map<u32, Upload>)
    requires Disjoint(open) && open'.Keys == open.Keys
    requires forall b :: b in open ==> open'[b].final == open[b].final
    ensures Disjoint(open')
  {
  }

  lemma SlotsFollow(st: Store, a: Atomic, i: nat, after: Store, open: map<u32, Upload>)
    requires Refines(st, a) && i < |st.slots| && st.slots[i].used && |after.slots| == |st.slots|
    requires forall k :: 0 <= k < |st.slots| && k != i ==> after.slots[k] == st.slots[k]
    requires var id := st.slots[i].transferId;
             && after.slots[i].transferId == id && id in open && Agrees(after.slots[i], after.fs, open[id])
             && (forall b :: b in a.open && b != id ==> b in open && open[b] == a.open[b])
             && (forall k :: 0 <= k < |st.slots| && st.slots[k].used && st.slots[k].transferId != id ==>
                   st.slots[k].transferId in a.open && Agrees(st.slots[k], after.fs, a.open[st.slots[k].transferId]))
    ensures SlotsAgree(after, open)
  {
    hide Refines, Agrees;
    forall k | 0 <= k < |after.slots| && after.slots[k].used
      ensures after.slots[k].transferId in open && Agrees(after.slots[k], after.fs, open[after.slots[k].transferId])
    {
      if k != i {
        DistinctIds(st, a, i, k);
      }
    }
  }

  lemma AppendedSlots(st: Store, a: Atomic, i: nat, after: Store, a': Atomic)
    requires Refines(st, a) && i < MAX_SESSIONS && st.slots[i].used
    requires TableValid(after.slots) && Paced1M(after.slots) && Valid(after.fs)
    requires after.slots == st.slots[i := after.slots[i]]
    requires after.slots[i].used && after.slots[i].transferId == st.slots[i].transferId
    requires var id := st.slots[i].transferId;
             && id in a.open && a'.files == a.files
             && a'.open.Keys == a.open.Keys && a'.open[id].final == a.open[id].final
             && (forall b :: b in a.open && b != id ==> a'.open[b] == a.open[b])
             && Agrees(after.slots[i], after.fs, a'.open[id])
             && (forall k :: 0 <= k < MAX_SESSIONS && st.slots[k].used && st.slots[k].transferId != id ==>
                   Agrees(st.slots[k], after.fs, a.open[st.slots[k].transferId]))
    requires FilesAgree(after.fs, a')
    ensures Refines(after, a')
  {
    hide FilesAgree, FileSystem.Valid, Agrees, Paced1M, Disjoint, TableValid, SlotsAgree, Find;
    RefinesParts(st, a);
    FinalsKept(a.open, a'.open);
    forall b | b in a'.open ensures Find(after.slots, b) < MAX_SESSIONS {
      StillFound(st, a, after.slots, b);
    }
    forall k | 0 <= k < |st.slots| && st.slots[k].used && k != i ensures st.slots[k].transferId in a.open {
      DistinctIds(st, a, i, k);
    }
    SlotsFollow(st, a, i, after, a'.open);
  }

  lemma Composed(fs: FS, mid: FS, fs': FS, temp: bytes, final: bytes)
    requires SameElsewhere(fs, mid, {temp, final}) && SameElsewhere(mid, fs', {final})
    ensures SameElsewhere(fs, fs', {temp, final})
  {
  }

  lemma PublishedFiles(st: Store, a: Atomic, id: u32, fs': FS)
    requires Refines(st, a) && id in a.open
    requires var u := a.open[id];
             && SameElsewhere(st.fs, fs', {u.final + PART, u.final})
             && Content(fs', u.final) == Some(u.data) && Content(fs', u.final + PART) == None
    ensures FilesAgree(fs', WithPublished(a, id))
  {
    hide Content;
    StillPrivate(st, a, id);
  }

  /** The simple store after END. */
  function WithPublished(a: Atomic, id: u32): Atomic
    requires id in a.open
  {
    var d := Dropped(a, id, true);
    d.(files := d.files[a.open[id].final := a.open[id].data])
  }

  function WithoutFinal(a: Atomic, id: u32): Atomic
    requires id in a.open
  {
    var d := Dropped(a, id, true);
    d.(files := d.files - {a.open[id].final})
  }

  lemma WithdrawnFiles(fs: FS, fs': FS, a: Atomic, id: u32)
    requires id in a.open && FilesAgree(fs, WithPublished(a, id))
    requires SameElsewhere(fs, fs', {a.open[id].final}) && Content(fs', a.open[id].final) == None
    ensures FilesAgree(fs', WithoutFinal(a, id))
  {
    hide Content;
  }

  /** A rename that succeeded: the final path holds the whole upload. */
  lemma EndRenamed(st: Store, a: Atomic, id: u32, ok: bool)
    requires Refines(st, a) && id in a.open
    ensures var i := Find(st.slots, id);
            && i < |st.slots|
            && var s, u := st.slots[i], a.open[id];
               var (fs', renamed) := Rename(st.fs, s.tempPath, s.finalPath, ok);
               renamed ==>
                 && Valid(fs') && FilesAgree(fs', WithPublished(a, id)) && Content(fs', u.final) == Some(u.data)
                 && SameElsewhere(st.fs, fs', {s.tempPath, s.finalPath}) && s.tempPath != s.finalPath
  {
    var i := UsedAgrees(st, a, id);
    RefinesTable(st, a);
    RefinesValid(st, a);
    hide Refines, FilesAgree, WithPublished;
    var s, u := st.slots[i], a.open[id];
    assert |s.tempPath| > |s.finalPath|;
    if Rename(st.fs, s.tempPath, s.finalPath, ok).1 {
      RenameElsewhere(st.fs, s.tempPath, s.finalPath, ok);
      var fs' := Rename(st.fs, s.tempPath, s.finalPath, ok).0;
      assert Content(fs', s.tempPath) == None;
      hide Rename, Content;
      PublishedFiles(st, a, id, fs');
    }
  }

  lemma BothSpared(st: Store, a: Atomic, id: u32)
    requires Refines(st, a) && id in a.open
    ensures Spares(a.open, id, {a.open[id].final + PART, a.open[id].final})
  {
    hide Refines;
    TempsApart(st, a, id);
    FinalsAreNotTemps(st, a);
  }

  /** Clearing the slot once the file system has changed at the two names of the upload only. */
  lemma ClearPublished(st: Store, a: Atomic, id: u32, fs': FS, a': Atomic)
    requires Refines(st, a) && id in a.open && Valid(fs') && FilesAgree(fs', a') && a'.open == a.open - {id}
    requires SameElsewhere(st.fs, fs', {a.open[id].final + PART, a.open[id].final})
    ensures Refines(Store(st.slots[Find(st.slots, id) := CLEARED], fs'), a')
  {
    hide *;
    BothSpared(st, a, id);
    ClearSlot(st, a, id, fs', {a.open[id].final + PART, a.open[id].final}, a'.files);
  }

  /** A permission that could not be set: the published file is withdrawn, if it can be. */
  lemma ChmodRefused(moved: FS, a: Atomic, id: u32, ok: bool)
    requires id in a.open && Valid(moved) && FilesAgree(moved, WithPublished(a, id))
    requires Content(moved, a.open[id].final) == Some(a.open[id].data)
    ensures var fs' := Unlink(moved, a.open[id].final, ok).0;
            && Valid(fs') && SameElsewhere(moved, fs', {a.open[id].final})
            && FilesAgree(fs', if ok then WithoutFinal(a, id) else WithPublished(a, id))
  {
    hide FilesAgree, WithPublished, WithoutFinal;
    UnlinkElsewhere(moved, a.open[id].final, ok);
    var fs' := Unlink(moved, a.open[id].final, ok).0;
    if ok {
      assert Content(fs', a.open[id].final) == None;
      hide Unlink, Content;
      WithdrawnFiles(moved, fs', a, id);
    }
  }

  lemma ChmodKeepsFiles(moved: FS, path: bytes, mode: nat, ok: bool, a: Atomic)
    requires Valid(moved) && FilesAgree(moved, a)
    ensures var (fs', done) := Chmod(moved, path, mode, ok);
            Valid(fs') && SameElsewhere(moved, fs', {path}) && FilesAgree(fs', a) && (!done ==> fs' == moved)
  {
    ChmodElsewhere(moved, path, mode, ok);
    hide Chmod, Content;
  }

  lemma FailedRename(fs: FS, from: bytes, to: bytes, ok: bool)
    ensures !Rename(fs, from, to, ok).1 ==> Rename(fs, from, to, ok).0 == fs
  {
  }

  lemma RefinesTable(st: Store, a: Atomic)
    requires Refines(st, a)
    ensures |st.slots| == MAX_SESSIONS
  {
  }

  lemma EndRefines(st: Store, a: Atomic, id: u32, env: Env)
    requires Refines(st, a)
    ensures Refines(Finish(st, id, env).0, AtomicStep(a, EndOp(id), OutcomeOf(st, EndOp(id), env)))
  {
    hide Rename, Unlink, Chmod, FilesAgree, Content, SameElsewhere, Refines, FileSystem.Valid, Find;
    var i := UsedAgrees(st, a, id);
    RefinesTable(st, a);
    if i < MAX_SESSIONS {
      DropRefines(st, a, id, env.unlinkOk);
      EndRenamed(st, a, id, env.renameOk);
      var s, u := st.slots[i], a.open[id];
      assert u.final + PART == s.tempPath && u.final == s.finalPath;
      hide Agrees;
      var (moved, renamed) := Rename(st.fs, s.tempPath, s.finalPath, env.renameOk);
      FailedRename(st.fs, s.tempPath, s.finalPath, env.renameOk);
      if renamed {
        var published := WithPublished(a, id);
        if !s.applyPerm {
          ClearPublished(st, a, id, moved, published);
        } else {
          ChmodKeepsFiles(moved, u.final, s.fileMode, env.chmodOk, published);
          var (changed, done) := Chmod(moved, u.final, s.fileMode, env.chmodOk);
          Composed(st.fs, moved, changed, s.tempPath, u.final);
          if done {
            ClearPublished(st, a, id, changed, published);
          } else {
            ChmodRefused(moved, a, id, env.unlinkOk);
            var fs' := Unlink(moved, u.final, env.unlinkOk).0;
            Composed(st.fs, moved, fs', s.tempPath, u.final);
            ClearPublished(st, a, id, fs', if env.unlinkOk then WithoutFinal(a, id) else published);
          }
        }
      }
    }
  }

  lemma FinalsAreNotTemps(st: Store, a: Atomic)
    requires Refines(st, a)
    ensures forall b, c :: b in a.open && c in a.open ==> a.open[b].final + PART != a.open[c].final
  {
    forall b, c | b in a.open && c in a.open ensures a.open[b].final + PART != a.open[c].final {
      if b == c {
        assert |a.open[b].final + PART| > |a.open[c].final|;
      }
    }
  }

  /** A successful `Open`, field by field. */
  lemma OpenedSlot(st: Store, id: u32, relative: bytes, desire: Option<bytes>, perm: Option<bytes>, env: Env)
    requires Open(st, id, relative, desire, perm, env).1
    ensures var i := FirstFree(st.slots);
            var target, mode := Target(relative, desire, env.sdMounted), PermOf(perm);
            && i < |st.slots| && target.Some? && mode.Some?
            && OpenWrite(st.fs, target.value + PART, env.openOk).Some?
            && var o := OpenWrite(st.fs, target.value + PART, env.openOk).value;
               var after := Open(st, id, relative, desire, perm, env).0;
               var s := after.slots[i];
               && after == Store(st.slots[i := s], o.fs)
               && s.used && s.transferId == id && s.fp == Some(Handle(o.ino, 0))
               && s.finalPath == target.value && s.tempPath == target.value + PART
               && s.applyPerm == mode.value.Some? && (mode.value.Some? ==> s.fileMode == mode.value.value)
  {
    hide Target, ParsePerm, OpenWrite, FirstFree;
  }

  /** A failed `Open` touches nothing but one free slot. */
  lemma NotOpened(st: Store, id: u32, relative: bytes, desire: Option<bytes>, perm: Option<bytes>, env: Env)
    requires !Open(st, id, relative, desire, perm, env).1
    ensures var i := FirstFree(st.slots);
            var after := Open(st, id, relative, desire, perm, env).0;
            && after.fs == st.fs
            && if i == |st.slots| then after == st
               else |after.slots| == |st.slots| && after.slots == st.slots[i := after.slots[i]] && !after.slots[i].used
  {
    hide Target, ParsePerm, OpenWrite, FirstFree;
  }

  lemma FreeSlotChange(st: Store, a: Atomic, i: nat, s: Session)
    requires Refines(st, a) && i < MAX_SESSIONS && !st.slots[i].used && !s.used && s.fp.None?
    ensures Refines(st.(slots := st.slots[i := s]), a)
  {
    hide FilesAgree, FileSystem.Valid, Agrees, Disjoint;
    SlotUpdate(st.slots, i, s);
    forall b | b in a.open ensures Find(st.slots[i := s], b) < MAX_SESSIONS {
      StillFound(st, a, st.slots[i := s], b);
    }
  }

  lemma OpenRefines(st: Store, a: Atomic, id: u32, relative: bytes, desire: Option<bytes>, perm: Option<bytes>,
                    env: Env)
    requires Refines(st, a) && id !in a.open
    requires Separate(a, BeginOp(id, relative, desire, perm), env)
    ensures var (after, ok) := Open(st, id, relative, desire, perm, env);
            if ok
            then Refines(after, a.(open := a.open[id := Upload(Target(relative, desire, env.sdMounted).value,
                                                               PermOf(perm).value, [])]))
            else Refines(after, a)
  {
    var (after, ok) := Open(st, id, relative, desire, perm, env);
    var i := FirstFree(st.slots);
    var free := UsedAgrees(st, a, id);
    OpenKeepsTable(st, id, relative, desire, perm, env);
    if !ok {
      NotOpened(st, id, relative, desire, perm, env);
      hide Open, Refines;
      if i < MAX_SESSIONS {
        SlotsOfTable(st, a, after.slots, i);
        FreeSlotChange(st, a, i, after.slots[i]);
      }
    } else {
      OpenedSlot(st, id, relative, desire, perm, env);
      var u := Upload(Target(relative, desire, env.sdMounted).value, PermOf(perm).value, []);
      hide Open, Target, PermOf, OpenWrite;
      OpenedFile(st, a, id, u, env.openOk);
      NewSession(st, a, id, u, i, after);
    }
  }

  lemma SlotsOfTable(st: Store, a: Atomic, slots: seq<Session>, i: nat)
    requires Refines(st, a) && TableValid(slots) && i < MAX_SESSIONS && FirstFree(st.slots) == i
    ensures |st.slots| == MAX_SESSIONS && !st.slots[i].used && (!slots[i].used ==> slots[i].fp.None?)
  {
  }

  /** The file system after the temporary file of `u` was opened. */
  lemma OpenedFile(st: Store, a: Atomic, id: u32, u: Upload, ok: bool)
    requires Refines(st, a) && id !in a.open && OpenWrite(st.fs, u.final + PART, ok).Some?
    requires Apart(a.open, id, u.final)
    ensures var o := OpenWrite(st.fs, u.final + PART, ok).value;
            && Valid(o.fs) && FilesAgree(o.fs, a.(open := a.open[id := u]))
            && IsFile(o.fs, u.final + PART) && o.fs.nodes[u.final + PART].ino == o.ino
            && Content(o.fs, u.final + PART) == Some([])
            && (forall k :: 0 <= k < MAX_SESSIONS && st.slots[k].used ==>
                  Agrees(st.slots[k], o.fs, a.open[st.slots[k].transferId]))
  {
    var temp := u.final + PART;
    OpenElsewhere(st.fs, temp, ok);
    var o := OpenWrite(st.fs, temp, ok).value;
    RefinesValid(st, a);
    hide OpenWrite, Content, FilesAgree, Refines, SameElsewhere, FileSystem.Valid, Agrees;
    forall b | b in a.open ensures a.open[b].final + PART != temp {
      if a.open[b].final + PART == temp {
        TempInjective(a.open[b].final, u.final);
      }
    }
    MorePrivate(a.open, id, u);
    FilesKept(st.fs, o.fs, a, a.(open := a.open[id := u]), temp);
    RefinesTable(st, a);
    OthersAgree(st, a, id, o.fs, {temp});
    IdsOpen(st, a);
  }

  lemma IdsOpen(st: Store, a: Atomic)
    requires Refines(st, a)
    ensures |st.slots| == MAX_SESSIONS
    ensures forall k :: 0 <= k < MAX_SESSIONS && st.slots[k].used ==> st.slots[k].transferId in a.open
  {
  }

  lemma MorePrivate(open: map<u32, Upload>, id: u32, u: Upload)
    requires id !in open
    ensures forall p :: IsPrivate(open, p) ==> IsPrivate(open[id := u], p)
    ensures IsPrivate(open[id := u], u.final + PART)
  {
    var more := open[id := u];
    assert more[id] == u;
    forall p | IsPrivate(open, p) ensures IsPrivate(more, p) {
      var b :| b in open && p == open[b].final + PART;
      assert b in more && more[b] == open[b];
    }
  }

  /** Filling a free slot with a new upload. */
  lemma NewSession(st: Store, a: Atomic, id: u32, u: Upload, i: nat, after: Store)
    requires Refines(st, a) && id !in a.open && i < MAX_SESSIONS && !st.slots[i].used
    requires |after.slots| == MAX_SESSIONS && after.slots == st.slots[i := after.slots[i]]
    requires TableValid(after.slots) && Paced1M(after.slots) && Valid(after.fs)
    requires FilesAgree(after.fs, a.(open := a.open[id := u])) && Apart(a.open, id, u.final)
    requires after.slots[i].used && after.slots[i].transferId == id && Agrees(after.slots[i], after.fs, u)
    requires forall k :: 0 <= k < MAX_SESSIONS && st.slots[k].used ==>
               Agrees(st.slots[k], after.fs, a.open[st.slots[k].transferId])
    ensures Refines(after, a.(open := a.open[id := u]))
  {
    RefinesParts(st, a);
    MoreApart(a.open, id, u);
    IdsOpen(st, a);
    hide FilesAgree, FileSystem.Valid, Agrees, Paced1M, TableValid, SlotsAgree, Disjoint, Find, Apart;
    var open := a.open[id := u];
    assert Matches(after.slots[i], id);
    forall b | b in open ensures Find(after.slots, b) < MAX_SESSIONS {
      if b != id {
        var k := UsedAgrees(st, a, b);
        assert Matches(after.slots[k], b);
      }
    }
    NewSlotAgrees(st, a, id, u, i, after);
  }

  lemma MoreApart(open: map<u32, Upload>, id: u32, u: Upload)
    requires Disjoint(open) && id !in open && Apart(open, id, u.final)
    ensures Disjoint(open[id := u])
  {
  }

  lemma NewSlotAgrees(st: Store, a: Atomic, id: u32, u: Upload, i: nat, after: Store)
    requires id !in a.open && i < MAX_SESSIONS == |st.slots|
    requires |after.slots| == MAX_SESSIONS && after.slots == st.slots[i := after.slots[i]]
    requires after.slots[i].used ==> after.slots[i].transferId == id && Agrees(after.slots[i], after.fs, u)
    requires forall k :: 0 <= k < MAX_SESSIONS && st.slots[k].used ==>
               st.slots[k].transferId in a.open && Agrees(st.slots[k], after.fs, a.open[st.slots[k].transferId])
    ensures SlotsAgree(after, a.open[id := u])
  {
    hide Agrees;
    forall k | 0 <= k < MAX_SESSIONS && after.slots[k].used
      ensures after.slots[k].transferId in a.open[id := u]
              && Agrees(after.slots[k], after.fs, a.open[id := u][after.slots[k].transferId])
    {
      if k != i {
        assert after.slots[k] == st.slots[k];
      }
    }
  }

  lemma BeginRefines(st: Store, a: Atomic, op: Op, env: Env)
    requires Refines(st, a) && op.BeginOp? && Separate(a, op, env)
    ensures Refines(Apply(st, op, env), AtomicStep(a, op, OutcomeOf(st, op, env)))
  {
    hide Open, Abort, Target, PermOf, Refines;
    var dropped := Dropped(a, op.id, env.unlinkOk);
    AbortRefines(st, a, op.id, env);
    var st1 := Abort(st, op.id, env).0;
    OpenRefines(st1, dropped, op.id, op.relative, op.desire, op.perm, env);
    if Open(st1, op.id, op.relative, op.desire, op.perm, env).1 {
      OpenedSlot(st1, op.id, op.relative, op.desire, op.perm, env);
    }
  }

  /** One step of the table is one step of the simple store. */
  lemma StepRefines(st: Store, a: Atomic, op: Op, env: Env)
    requires Refines(st, a) && !op.ShutdownOp? && Separate(a, op, env)
    ensures Refines(Apply(st, op, env), AtomicStep(a, op, OutcomeOf(st, op, env)))
  {
    match op
    case BeginOp(_, _, _, _) => BeginRefines(st, a, op, env);
    case AppendOp(id, data) => AppendRefines(st, a, id, data, env);
    case EndOp(id) => EndRefines(st, a, id, env);
    case AbortOp(id) => AbortRefines(st, a, id, env);
  }

  /** The files that a file system already has. */
  function PublishedIn(fs: FS): map<bytes, bytes>
  {
    map p | p in fs.nodes && Content(fs, p).Some? :: Content(fs, p).value
  }

  /** A fresh table over any valid file system is where every run can start. */
  lemma InitialRefines(fs: FS)
    requires Valid(fs)
    ensures Refines(Store(seq(MAX_SESSIONS, _ => CLEARED), fs), Atomic(map[], PublishedIn(fs)))
  {
  }

  // ---- Whole runs ----------------------------------------------------------------------------

  /** The outcomes of a run of the table. */
  function Outcomes(st: Store, ops: seq<Op>, envs: seq<Env>): (r: seq<Outcome>)
    requires |ops| == |envs| && forall i :: 0 <= i < |ops| ==> !ops[i].ShutdownOp?
    ensures |r| == |ops|
    decreases ops
  {
    if ops == [] then []
    else [OutcomeOf(st, ops[0], envs[0])] + Outcomes(Apply(st, ops[0], envs[0]), ops[1..], envs[1..])
  }

  /** The run of the simple store on the same operations and outcomes. */
  function AtomicRun(a: Atomic, ops: seq<Op>, outcomes: seq<Outcome>): Atomic
    requires |ops| == |outcomes| && forall i :: 0 <= i < |ops| ==> !ops[i].ShutdownOp?
    decreases ops
  {
    if ops == [] then a else AtomicRun(AtomicStep(a, ops[0], outcomes[0]), ops[1..], outcomes[1..])
  }

  /** Every BEGIN of the run keeps its bargain at the moment it happens. */
  predicate AllSeparate(st: Store, a: Atomic, ops: seq<Op>, envs: seq<Env>)
    requires |ops| == |envs| && forall i :: 0 <= i < |ops| ==> !ops[i].ShutdownOp?
    decreases ops
  {
    ops == [] ||
    (Separate(a, ops[0], envs[0])
     && var next := AtomicStep(a, ops[0], OutcomeOf(st, ops[0], envs[0]));
        AllSeparate(Apply(st, ops[0], envs[0]), next, ops[1..], envs[1..]))
  }

  /** Isolation and atomicity: under any interleaving, the table behaves as the simple store. */
  lemma {:induction false} RunRefines(st: Store, a: Atomic, ops: seq<Op>, envs: seq<Env>)
    requires |ops| == |envs| && forall i :: 0 <= i < |ops| ==> !ops[i].ShutdownOp?
    requires Refines(st, a) && AllSeparate(st, a, ops, envs)
    ensures Refines(Run(st, ops, envs), AtomicRun(a, ops, Outcomes(st, ops, envs)))
    decreases ops
  {
    if ops != [] {
      StepRefines(st, a, ops[0], envs[0]);
      hide Refines, AtomicStep, OutcomeOf, Apply;
      var next := AtomicStep(a, ops[0], OutcomeOf(st, ops[0], envs[0]));
      RunRefines(Apply(st, ops[0], envs[0]), next, ops[1..], envs[1..]);
    }
  }

  /** What the history of a run says about one id: the bytes taken since its latest successful BEGIN. */
  function Ledger(ops: seq<Op>, outcomes: seq<Outcome>, id: u32, before: Option<bytes>): Option<bytes>
    requires |ops| == |outcomes| && forall i :: 0 <= i < |ops| ==> !ops[i].ShutdownOp?
    decreases ops
  {
    if ops == [] then before
    else Ledger(ops[1..], outcomes[1..], id, LedgerStep(ops[0], outcomes[0], id, before))
  }

  function LedgerStep(op: Op, outcome: Outcome, id: u32, before: Option<bytes>): Option<bytes>
    requires !op.ShutdownOp?
  {
    if op.id != id then before
    else
      match outcome
      case Began(upload, _) => if upload.Some? then Some([]) else None
      case Appended(_, taken) => if before.Some? then Some(before.value + taken) else None
      case Ended(result, _) => if result.NoSession? then before else None
      case Aborted(_) => None
  }

  function DataOf(a: Atomic, id: u32): Option<bytes>
  {
    if id in a.open then Some(a.open[id].data) else None
  }

  lemma LedgerFollows(st: Store, a: Atomic, op: Op, env: Env, id: u32)
    requires !op.ShutdownOp?
    ensures var outcome := OutcomeOf(st, op, env);
            DataOf(AtomicStep(a, op, outcome), id) == LedgerStep(op, outcome, id, DataOf(a, id))
  {
    hide Begin, Append, Finish, Abort, Target, PermOf;
  }

  lemma {:induction false} RunLedger(st: Store, a: Atomic, ops: seq<Op>, envs: seq<Env>, id: u32)
    requires |ops| == |envs| && forall i :: 0 <= i < |ops| ==> !ops[i].ShutdownOp?
    ensures var outcomes := Outcomes(st, ops, envs);
            DataOf(AtomicRun(a, ops, outcomes), id) == Ledger(ops, outcomes, id, DataOf(a, id))
    decreases ops
  {
    if ops != [] {
      LedgerFollows(st, a, ops[0], envs[0], id);
      hide AtomicStep, OutcomeOf, Apply, LedgerStep;
      var next := AtomicStep(a, ops[0], OutcomeOf(st, ops[0], envs[0]));
      RunLedger(Apply(st, ops[0], envs[0]), next, ops[1..], envs[1..], id);
    }
  }

  /** After any run, every open session's file holds exactly its own bytes since its latest BEGIN. */
  lemma SessionHoldsItsChunks(st: Store, a: Atomic, ops: seq<Op>, envs: seq<Env>, id: u32)
    requires |ops| == |envs| && forall i :: 0 <= i < |ops| ==> !ops[i].ShutdownOp?
    requires Refines(st, a) && AllSeparate(st, a, ops, envs)
    ensures var after := Run(st, ops, envs);
            var i := Find(after.slots, id);
            var written := Ledger(ops, Outcomes(st, ops, envs), id, DataOf(a, id));
            && i <= |after.slots| == MAX_SESSIONS
            && (i < MAX_SESSIONS <==> written.Some?)
            && (i < MAX_SESSIONS ==> Content(after.fs, after.slots[i].tempPath) == written)
  {
    RunRefines(st, a, ops, envs);
    RunLedger(st, a, ops, envs, id);
    hide Run, AtomicRun, Ledger, Outcomes;
    var i := UsedAgrees(Run(st, ops, envs), AtomicRun(a, ops, Outcomes(st, ops, envs)), id);
  }

  /** BEGIN changes no content but that of its own temporary names: the one that an earlier attempt under
      the same id left, and the new one, which is empty afterwards. */
  lemma BeginTouches(st: Store, a: Atomic, op: Op, env: Env, p: bytes)
    requires Refines(st, a) && op.BeginOp?
    requires Content(Apply(st, op, env).fs, p) != Content(st.fs, p)
    ensures var target := Target(op.relative, op.desire, env.sdMounted);
            || (op.id in a.open && p == a.open[op.id].final + PART)
            || (&& Begin(st, op.id, op.relative, op.desire, op.perm, env).1
                && target.Some? && p == target.value + PART && Content(Apply(st, op, env).fs, p) == Some([]))
  {
    hide Open, Abort, Target, Refines, Content, FilesAgree, IsPrivate;
    AbortedFile(st, a, op.id, env, p);
    BeginContent(st, a, op, env, p);
  }

  /** The content after BEGIN, in terms of that after its clean-up of an earlier session. */
  lemma BeginContent(st: Store, a: Atomic, op: Op, env: Env, p: bytes)
    requires Refines(st, a) && op.BeginOp?
    ensures Content(Apply(st, op, env).fs, p)
         == if EmptiesAt(st, op, env, p) then Some([]) else Content(Abort(st, op.id, env).0.fs, p)
  {
    hide Open, Abort, Target, Refines, Content, FilesAgree, IsPrivate;
    AbortRefines(st, a, op.id, env);
    RefinesValid(Abort(st, op.id, env).0, Dropped(a, op.id, env.unlinkOk));
    OpenContent(Abort(st, op.id, env).0, op.id, op.relative, op.desire, op.perm, env, p);
  }

  /** A BEGIN that succeeds with `p` as the temporary name of the new upload. */
  predicate EmptiesAt(st: Store, op: Op, env: Env, p: bytes)
    requires op.BeginOp?
  {
    var target := Target(op.relative, op.desire, env.sdMounted);
    Begin(st, op.id, op.relative, op.desire, op.perm, env).1 && target.Some? && p == target.value + PART
  }

  lemma OpenContent(st: Store, id: u32, relative: bytes, desire: Option<bytes>, perm: Option<bytes>, env: Env, p: bytes)
    requires Valid(st.fs)
    ensures var (after, ok) := Open(st, id, relative, desire, perm, env);
            var target := Target(relative, desire, env.sdMounted);
            Content(after.fs, p)
            == if ok && target.Some? && p == target.value + PART then Some([]) else Content(st.fs, p)
  {
    hide Open, Target, PermOf, OpenWrite, Content, FileSystem.Valid;
    if Open(st, id, relative, desire, perm, env).1 {
      OpenedSlot(st, id, relative, desire, perm, env);
      OpenElsewhere(st.fs, Target(relative, desire, env.sdMounted).value + PART, env.openOk);
    } else {
      NotOpened(st, id, relative, desire, perm, env);
    }
  }

  lemma AbortedFile(st: Store, a: Atomic, id: u32, env: Env, p: bytes)
    requires Refines(st, a)
    ensures Content(Abort(st, id, env).0.fs, p) == Content(st.fs, p) || (id in a.open && p == a.open[id].final + PART)
  {
    var i := UsedAgrees(st, a, id);
    RefinesTable(st, a);
    RefinesValid(st, a);
    hide Refines, Content, FilesAgree, Unlink, FileSystem.Valid;
    if i < MAX_SESSIONS {
      UnlinkElsewhere(st.fs, st.slots[i].tempPath, env.unlinkOk);
    }
  }

  /** Exactly when BEGIN changes a file that is no open upload's private one: it succeeds, takes that name
      for its own private file, and there is something to empty. */
  lemma BeginEmptiesExactly(st: Store, a: Atomic, op: Op, env: Env, p: bytes)
    requires Refines(st, a) && op.BeginOp? && !IsPrivate(a.open, p)
    ensures Content(Apply(st, op, env).fs, p) != Content(st.fs, p)
            <==> && Begin(st, op.id, op.relative, op.desire, op.perm, env).1
                 && Target(op.relative, op.desire, env.sdMounted).Some?
                 && p == Target(op.relative, op.desire, env.sdMounted).value + PART
                 && Content(st.fs, p) != Some([])
  {
    hide Apply, Refines, Begin, Target, Content, IsPrivate;
    PublishedOnlyAtEnd(st, a, op, env, p);
  }

  /** What a reader finds after one operation at a name that is no open upload's private file: at END the
      whole upload, or nothing when the permission could not be set; after a BEGIN that takes the name for
      its own private file an empty file; else what was there before. */
  function PublicAfter(st: Store, a: Atomic, op: Op, env: Env, p: bytes): Option<bytes>
    requires !op.ShutdownOp?
  {
    var before := Content(st.fs, p);
    match op
    case BeginOp(_, _, _, _) => if EmptiesAt(st, op, env, p) then Some([]) else before
    case EndOp(id) =>
      if id !in a.open || a.open[id].final != p then before
      else
        (match Finish(st, id, env).1
         case Published => Some(a.open[id].data)
         case ChmodFailed => if env.unlinkOk then None else Some(a.open[id].data)
         case _ => before)
    case _ => before
  }

  /** The contents of such names after any operation, whatever the names that a BEGIN works on. */
  lemma PublishedOnlyAtEnd(st: Store, a: Atomic, op: Op, env: Env, p: bytes)
    requires Refines(st, a) && !op.ShutdownOp? && !IsPrivate(a.open, p)
    ensures Content(Apply(st, op, env).fs, p) == PublicAfter(st, a, op, env, p)
  {
    hide Apply, Refines, Content, IsPrivate, Abort, Finish, Begin, Target;
    match op
    case BeginOp(id, _, _, _) =>
      BeginContent(st, a, op, env, p);
      AbortedFile(st, a, id, env, p);
      if id in a.open {
        OwnPrivate(a.open, id);
      }
    case EndOp(id) => ContentFollows(st, a, op, env, p);
    case AppendOp(_, _) => ContentFollows(st, a, op, env, p);
    case AbortOp(_) => ContentFollows(st, a, op, env, p);
  }

  /** The content of a name that is not private is what the simple store says, before and after a step
      that is no BEGIN. */
  lemma ContentFollows(st: Store, a: Atomic, op: Op, env: Env, p: bytes)
    requires Refines(st, a) && !op.ShutdownOp? && !op.BeginOp? && !IsPrivate(a.open, p)
    ensures Content(Apply(st, op, env).fs, p) == PublicAfter(st, a, op, env, p)
  {
    hide Apply, FilesAgree, Begin, Append, Finish, Abort, Target, PermOf, IsPrivate, Content, Refines, Find, Separate;
    var a' := AtomicStep(a, op, OutcomeOf(st, op, env));
    NoBargain(a, op, env);
    StepRefines(st, a, op, env);
    NoMorePrivate(a, op, OutcomeOf(st, op, env), p);
    RefinesValid(st, a);
    RefinesValid(Apply(st, op, env), a');
    ContentAgrees(st.fs, a, p);
    ContentAgrees(Apply(st, op, env).fs, a', p);
    if op.id in a.open {
      OwnPrivate(a.open, op.id);
    }
  }

  lemma NoBargain(a: Atomic, op: Op, env: Env)
    requires !op.BeginOp?
    ensures Separate(a, op, env)
  {
  }

  /** Only BEGIN makes names private. */
  lemma NoMorePrivate(a: Atomic, op: Op, outcome: Outcome, p: bytes)
    requires !op.BeginOp? && !op.ShutdownOp? && !IsPrivate(a.open, p)
    ensures !IsPrivate(AtomicStep(a, op, outcome).open, p)
  {
    var open := AtomicStep(a, op, outcome).open;
    forall b | b in open ensures p != open[b].final + PART {
      assert b in a.open && open[b].final == a.open[b].final;
    }
  }

  lemma ContentAgrees(fs: FS, a: Atomic, p: bytes)
    requires FilesAgree(fs, a) && !IsPrivate(a.open, p)
    ensures Content(fs, p) == if p in a.files then Some(a.files[p]) else None
  {
    hide Content, IsPrivate;
  }

  lemma OwnPrivate(open: map<u32, Upload>, id: u32)
    requires id in open
    ensures IsPrivate(open, open[id].final + PART)
  {
  }

  /** The bargain is needed: a second upload to the same path empties what the first has collected. */
  lemma SharedTargetTruncates(st: Store, a: Atomic, b: u32, op: Op, env: Env)
    requires Refines(st, a) && b in a.open && op.BeginOp? && op.id != b
    requires Target(op.relative, op.desire, env.sdMounted) == Some(a.open[b].final)
    requires Begin(st, op.id, op.relative, op.desire, op.perm, env).1
    ensures Content(Apply(st, op, env).fs, a.open[b].final + PART) == Some([])
    ensures !Separate(a, op, env)
  {
    hide Open, Abort, Target, PermOf, Refines, OpenWrite, Content, FilesAgree;
    AbortRefines(st, a, op.id, env);
    var mid := Abort(st, op.id, env).0;
    RefinesValid(mid, Dropped(a, op.id, env.unlinkOk));
    OpenedSlot(mid, op.id, op.relative, op.desire, op.perm, env);
    OpenElsewhere(mid.fs, a.open[b].final + PART, env.openOk);
  }
}
