/** What CHUNK, END and an abort answer and leave behind, operation by operation. */
module UploadResults {
  import opened Bytes
  import opened FileSystem
  import opened Uploads
  import opened UploadTable
  import opened UploadIsolation

  /** A chunk is accepted exactly when it is not empty, its upload is open and the file takes it whole; what
      the file does take is at the end of the upload's file in any case, and nothing else changes. */
  lemma AppendExactly(st: Store, a: Atomic, id: u32, data: bytes, env: Env)
    requires Refines(st, a)
    ensures var (after, ok) := Append(st, id, data, env);
            && (ok <==> id in a.open && data != [] && env.written >= |data|)
            && (id !in a.open || data == [] ==> after == st)
            && (id in a.open ==>
                  var taken := if env.written < |data| then data[..env.written] else data;
                  && Content(after.fs, a.open[id].final + PART) == Some(a.open[id].data + taken)
                  && forall p :: p != a.open[id].final + PART ==> Content(after.fs, p) == Content(st.fs, p))
  {
    var i := UsedAgrees(st, a, id);
    RefinesTables(st, a);
    AppendAnswers(st, id, data, env);
    hide Refines, Content, FilesAgree, FileSystem.Valid, Append, TableValid, Agrees, Find;
    if i < MAX_SESSIONS {
      var taken := if env.written < |data| then data[..env.written] else data;
      if data != [] {
        AppendWrites(st, id, data, env, taken);
        hide Written;
        AppendedContent(st, a, id, taken);
      } else {
        PrivateContent(st, a, id);
        assert a.open[id].data + [] == a.open[id].data;
      }
    }
  }

  lemma RefinesTables(st: Store, a: Atomic)
    requires Refines(st, a)
    ensures TableValid(st.slots) && |st.slots| == MAX_SESSIONS && Valid(st.fs)
  {
  }

  lemma AppendAnswers(st: Store, id: u32, data: bytes, env: Env)
    requires TableValid(st.slots)
    ensures Append(st, id, data, env).1
            <==> Find(st.slots, id) < MAX_SESSIONS && data != [] && env.written >= |data|
    ensures data == [] || Find(st.slots, id) >= MAX_SESSIONS ==> Append(st, id, data, env).0 == st
  {
    hide WriteAt;
  }

  lemma AppendWrites(st: Store, id: u32, data: bytes, env: Env, taken: bytes)
    requires TableValid(st.slots) && Find(st.slots, id) < MAX_SESSIONS && data != []
    requires taken == if env.written < |data| then data[..env.written] else data
    ensures Append(st, id, data, env).0.fs == Written(st.fs, st.slots[Find(st.slots, id)], taken)
  {
    AppendParts(st, id, data, env);
    hide Append, Written, TableValid, Find, OutcomeOf;
    assert data[..Taken(data, env)] == taken;
  }

  lemma PrivateContent(st: Store, a: Atomic, id: u32)
    requires Refines(st, a) && id in a.open
    ensures Content(st.fs, a.open[id].final + PART) == Some(a.open[id].data)
  {
    var i := UsedAgrees(st, a, id);
    hide Refines, Content;
  }

  lemma AppendedContent(st: Store, a: Atomic, id: u32, data: bytes)
    requires Refines(st, a) && id in a.open && Find(st.slots, id) < |st.slots|
    ensures var fs', temp := Written(st.fs, st.slots[Find(st.slots, id)], data), a.open[id].final + PART;
            && Content(fs', temp) == Some(a.open[id].data + data)
            && forall p :: p != temp ==> Content(fs', p) == Content(st.fs, p)
  {
    var i := UsedAgrees(st, a, id);
    AppendedFile(st, a, id, data);
    hide Refines, Content, Written, FilesAgree, FileSystem.Valid, Find;
  }

  /** END succeeds exactly when the upload is open, the rename is possible, and the permission, if one was
      asked for, can be set; otherwise the answer names the first of these that failed. */
  lemma EndExactly(st: Store, a: Atomic, id: u32, env: Env)
    requires Refines(st, a)
    ensures Finish(st, id, env).1
         == if id !in a.open then NoSession
            else if !(env.renameOk && ParentDirs(st.fs, a.open[id].final) && !IsDir(st.fs, a.open[id].final))
            then RenameFailed
            else if a.open[id].perm.Some? && !env.chmodOk then ChmodFailed
            else Published
  {
    var i := UsedAgrees(st, a, id);
    RefinesTable(st, a);
    RefinesValid(st, a);
    hide Refines, FilesAgree, ParentDirs;
    if i < MAX_SESSIONS {
      var s := st.slots[i];
      assert |s.tempPath| > |s.finalPath|;
      if Rename(st.fs, s.tempPath, s.finalPath, env.renameOk).1 {
        RenameElsewhere(st.fs, s.tempPath, s.finalPath, env.renameOk);
      }
    }
  }

  /** A failed rename removes the temporary file, if that can be removed, and touches nothing else. */
  lemma RenameFails(st: Store, a: Atomic, id: u32, env: Env)
    requires Refines(st, a) && Finish(st, id, env).1.RenameFailed?
    ensures var after := Finish(st, id, env).0;
            && id in a.open && Find(after.slots, id) == MAX_SESSIONS
            && (env.unlinkOk ==> a.open[id].final + PART !in after.fs.nodes)
            && forall p :: p != a.open[id].final + PART ==> Content(after.fs, p) == Content(st.fs, p)
  {
    var i := UsedAgrees(st, a, id);
    RefinesTable(st, a);
    RefinesValid(st, a);
    FinishFailed(st, id, env);
    UnlinkElsewhere(st.fs, st.slots[i].tempPath, env.unlinkOk);
    hide Refines, FilesAgree, Content, Rename, FileSystem.Valid, Find, Finish, Unlink;
    assert IsFile(st.fs, st.slots[i].tempPath);
    FileUnlinks(st.fs, st.slots[i].tempPath, env.unlinkOk);
    SlotGone(st, a, id);
  }

  lemma FinishFailed(st: Store, id: u32, env: Env)
    requires Finish(st, id, env).1.RenameFailed?
    ensures var i := Find(st.slots, id);
            && i < |st.slots|
            && Finish(st, id, env).0
               == Store(st.slots[i := CLEARED], Unlink(st.fs, st.slots[i].tempPath, env.unlinkOk).0)
  {
    hide Unlink, Chmod, Find;
  }

  lemma FileUnlinks(fs: FS, path: bytes, ok: bool)
    requires IsFile(fs, path)
    ensures Unlink(fs, path, ok).1 == ok
  {
  }

  lemma SlotGone(st: Store, a: Atomic, id: u32)
    requires Refines(st, a) && id in a.open
    ensures Find(st.slots, id) < |st.slots| == MAX_SESSIONS
    ensures Find(st.slots[Find(st.slots, id) := CLEARED], id) == MAX_SESSIONS
  {
    hide FilesAgree, FileSystem.Valid, Disjoint, SlotsAgree;
    FindNone(st.slots[Find(st.slots, id) := CLEARED], id);
  }

  /** An abort ends the upload, removes its temporary file, if that can be removed, and touches nothing else;
      an abort of an id that is not open touches nothing at all. */
  lemma AbortExactly(st: Store, a: Atomic, id: u32, env: Env)
    requires Refines(st, a)
    ensures var (after, ok) := Abort(st, id, env);
            && (ok <==> id in a.open)
            && (id !in a.open ==> after == st)
            && (id in a.open ==>
                  && Find(after.slots, id) == MAX_SESSIONS
                  && (env.unlinkOk ==> a.open[id].final + PART !in after.fs.nodes)
                  && forall p :: p != a.open[id].final + PART ==> Content(after.fs, p) == Content(st.fs, p))
  {
    var i := UsedAgrees(st, a, id);
    RefinesTable(st, a);
    RefinesValid(st, a);
    if i < MAX_SESSIONS {
      UnlinkElsewhere(st.fs, st.slots[i].tempPath, env.unlinkOk);
      SlotGone(st, a, id);
      hide Refines, FilesAgree, Content, FileSystem.Valid, Find;
      assert IsFile(st.fs, st.slots[i].tempPath);
    }
  }
}
