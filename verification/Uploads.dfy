/** The table of upload sessions over the file system. */
module Uploads {
  import opened Bytes
  import opened Paths
  import opened FileSystem

  const MAX_SESSIONS: nat := 16
  const SYNC_INTERVAL: nat := 0x10_0000
  const PART: bytes := [0x2E, 0x70, 0x61, 0x72, 0x74]
  const NAND_NAME: bytes := [0x6E, 0x61, 0x6E, 0x64]
  const DEFAULT_MODE: nat := 0x1A4
  const MODE_MAX: nat := 0xFFF

  /** An open `FILE*`: an inode and the position of the next write. */
  datatype Handle = Handle(ino: nat, off: nat)

  datatype Session = Session(
    used: bool, transferId: u32, fp: Option<Handle>, relativePath: bytes, tempPath: bytes, finalPath: bytes,
    bytesWritten: nat, syncedBytes: nat, applyPerm: bool, fileMode: nat)

  /** A slot after `memset`. */
  const CLEARED := Session(false, 0, None, [], [], [], 0, 0, false, 0)

  datatype Store = Store(slots: seq<Session>, fs: FS)

  /** What the environment answers during one operation. */
  datatype Env = Env(sdMounted: bool, openOk: bool, written: nat, renameOk: bool, chmodOk: bool, unlinkOk: bool)

  predicate Matches(s: Session, id: u32)
  {
    s.used && s.transferId == id
  }

  /** `find_session`: the first used slot with this id, or the number of slots. */
  function Find(slots: seq<Session>, id: u32): (i: nat)
    ensures i <= |slots|
    ensures i < |slots| ==> Matches(slots[i], id)
    ensures forall k :: 0 <= k < i ==> !Matches(slots[k], id)
  {
    if slots == [] || Matches(slots[0], id) then 0 else 1 + Find(slots[1..], id)
  }

  /** `alloc_session`: the first free slot, or the number of slots. */
  function FirstFree(slots: seq<Session>): (i: nat)
    ensures i <= |slots|
    ensures i < |slots| ==> !slots[i].used
    ensures forall k :: 0 <= k < i ==> slots[k].used
  {
    if slots == [] || !slots[0].used then 0 else 1 + FirstFree(slots[1..])
  }

  // ---- Request parameters --------------------------------------------------------------------

  /** `strtoul` works on the 32-bit `unsigned long` of the device. */
  function ParseOctalDigits(s: bytes, acc: nat): Option<nat>
  {
    if s == [] then Some(acc)
    else if 0x30 <= s[0] <= 0x37 then ParseOctalDigits(s[1..], 8 * acc + (s[0] - 0x30))
    else None
  }

  predicate IsSpace(b: byte)
  {
    b == 0x20 || 0x09 <= b <= 0x0D
  }

  function SkipSpaces(s: bytes): bytes
  {
    if s != [] && IsSpace(s[0]) then SkipSpaces(s[1..]) else s
  }

  /** `parse_perm_octal`: optional spaces and sign, octal digits, nothing behind, at most 07777. */
  function ParsePerm(perm: bytes): (m: Option<nat>)
    ensures m.Some? ==> m.value <= MODE_MAX
  {
    var s := SkipSpaces(perm);
    var negative := s != [] && s[0] == 0x2D;
    var digits := if s != [] && (s[0] == 0x2B || s[0] == 0x2D) then s[1..] else s;
    if digits == [] then None
    else
      match ParseOctalDigits(digits, 0)
      case None => None
      case Some(v) =>
        var bounded := if v >= U32_MODULUS then U32_MODULUS - 1
                       else if negative then (U32_MODULUS - v) % U32_MODULUS
                       else v;
        if bounded > MODE_MAX then None else Some(bounded)
  }

  /** A mode as four octal digits. */
  function FourDigits(mode: nat): bytes
    requires mode <= MODE_MAX
  {
    [0x30 + mode / 512, 0x30 + mode / 64 % 8, 0x30 + mode / 8 % 8, 0x30 + mode % 8]
  }

  /** Every mode that `chmod` accepts is read back from its octal digits. */
  lemma PermRoundTrip(mode: nat)
    requires mode <= MODE_MAX
    ensures ParsePerm(FourDigits(mode)) == Some(mode)
  {
    hide ParsePerm;
    var m1, m2, m3 := mode / 8, mode / 64, mode / 512;
    assert m2 == m1 / 8 && m3 == m2 / 8;
    ReadFour(m3, m2 % 8, m1 % 8, mode % 8);
  }

  lemma ReadFour(a: nat, b: nat, c: nat, d: nat)
    requires a < 8 && b < 8 && c < 8 && d < 8
    ensures ParsePerm([0x30 + a, 0x30 + b, 0x30 + c, 0x30 + d]) == Some(8 * (8 * (8 * a + b) + c) + d)
  {
    hide ParseOctalDigits;
    var p: byte, q: byte, r: byte, s: byte := 0x30 + a, 0x30 + b, 0x30 + c, 0x30 + d;
    OneDigit(p, [q, r, s], 0);
    OneDigit(q, [r, s], a);
    OneDigit(r, [s], 8 * a + b);
    OneDigit(s, [], 8 * (8 * a + b) + c);
    NoDigits(8 * (8 * (8 * a + b) + c) + d);
    assert [s] + [] == [s] && [r] + [s] == [r, s] && [q] + [r, s] == [q, r, s] && [p] + [q, r, s] == [p, q, r, s];
    assert SkipSpaces([p, q, r, s]) == [p, q, r, s];
  }

  lemma NoDigits(acc: nat)
    ensures ParseOctalDigits([], acc) == Some(acc)
  {
  }

  lemma OneDigit(d: byte, more: bytes, acc: nat)
    requires 0x30 <= d <= 0x37
    ensures ParseOctalDigits([d] + more, acc) == ParseOctalDigits(more, 8 * acc + (d - 0x30))
    ensures [d] + more != [] && ([d] + more)[0] == d
  {
    assert ([d] + more)[1..] == more;
  }

  /** `path_storage_matches_desire`. */
  predicate StorageMatches(actual: Storage, desire: Option<bytes>)
  {
    desire.None? || desire.value == []
    || (desire.value == NAND_NAME && actual.Nand?) || (desire.value == SD && actual.Sd?)
  }

  /** The permission a request asks for: none, or the parsed one; `None` when it is malformed. */
  function PermOf(perm: Option<bytes>): Option<Option<nat>>
  {
    if perm.None? || perm.value == [] then Some(None)
    else
      match ParsePerm(perm.value)
      case None => None
      case Some(m) => Some(Some(m))
  }

  /** The path that a writing request works on, when the path and storage checks pass. */
  function Resolve(relative: bytes, desire: Option<bytes>, sdMounted: bool): Option<bytes>
  {
    match BuildPath(relative, PATH_MAX)
    case None => None
    case Some(Built(path, storage)) =>
      if StorageMatches(storage, desire) && (storage.Sd? ==> sdMounted) then Some(path) else None
  }

  /** The final path of an upload that passes every check before the file is opened. */
  function Target(relative: bytes, desire: Option<bytes>, sdMounted: bool): Option<bytes>
  {
    match Resolve(relative, desire, sdMounted)
    case None => None
    case Some(path) => if |relative| < PATH_MAX && |path + PART| < PATH_MAX then Some(path) else None
  }

  /** A path of one component is a name under the root. */
  lemma OneName(s: bytes)
    requires s != [] && s[0] != 0x2E && s[0] != 0x73 && |s| <= 255 && SLASH !in s
    ensures Target(s, None, false) == Some([SLASH] + s)
  {
    NoSlashSplit(s);
    assert Keep([s][1..]) == [] && Kept(s) == [s];
    assert Slashed([s][1..]) == [] && Slashed([s]) == [SLASH] + s + [];
    assert Canonical(s) == [SLASH] + s;
    assert s[0] != SD[0] && s[0] != DOTDOT[0];
  }

  // ---- The operations ------------------------------------------------------------------------

  /** `usb_responder_file_abort_upload`. */
  function Abort(st: Store, id: u32, env: Env): (Store, bool)
  {
    var i := Find(st.slots, id);
    if i == |st.slots| then (st, false)
    else (Store(st.slots[i := CLEARED], Unlink(st.fs, st.slots[i].tempPath, env.unlinkOk).0), true)
  }

  /** The part of BEGIN that follows the clean-up of an earlier session with the same id. */
  function Open(st: Store, id: u32, relative: bytes, desire: Option<bytes>, perm: Option<bytes>, env: Env)
    : (Store, bool)
  {
    var i := FirstFree(st.slots);
    if i == |st.slots| then (st, false)
    else
      var s := st.slots[i].(applyPerm := false, fileMode := DEFAULT_MODE);
      match PermOf(perm)
      case None => (st.(slots := st.slots[i := s]), false)
      case Some(mode) =>
        var s := if mode.Some? then s.(applyPerm := true, fileMode := mode.value) else s;
        match Target(relative, desire, env.sdMounted)
        case None => (st.(slots := st.slots[i := s]), false)
        case Some(final) =>
          var s := s.(finalPath := final, relativePath := relative, tempPath := final + PART);
          match OpenWrite(st.fs, s.tempPath, env.openOk)
          case None => (st.(slots := st.slots[i := s.(fp := None)]), false)
          case Some(Opened(fs, ino)) =>
            var s := s.(used := true, transferId := id, fp := Some(Handle(ino, 0)), bytesWritten := 0,
                        syncedBytes := 0);
            (Store(st.slots[i := s], fs), true)
  }

  /** `usb_responder_file_begin_upload`. */
  function Begin(st: Store, id: u32, relative: bytes, desire: Option<bytes>, perm: Option<bytes>, env: Env)
    : (Store, bool)
  {
    Open(Abort(st, id, env).0, id, relative, desire, perm, env)
  }

  /** The byte counters after a complete write of `n` bytes; a synchronisation brings them level. */
  function Paced(s: Session, n: nat): Session
  {
    var written := s.bytesWritten + n;
    s.(bytesWritten := written,
       syncedBytes := if written - s.syncedBytes >= SYNC_INTERVAL then written else s.syncedBytes)
  }

  /** How many bytes of the chunk `fwrite` takes. */
  function Taken(data: bytes, env: Env): (k: nat)
    ensures k <= |data|
  {
    if env.written < |data| then env.written else |data|
  }

  /** `usb_responder_file_append_upload_chunk`. */
  function Append(st: Store, id: u32, data: bytes, env: Env): (Store, bool)
  {
    var i := Find(st.slots, id);
    if data == [] || i == |st.slots| || st.slots[i].fp.None? then (st, false)
    else
      var s, k := st.slots[i], Taken(data, env);
      var h := s.fp.value;
      var fs := WriteAt(st.fs, h.ino, h.off, data[..k]);
      var s := s.(fp := Some(Handle(h.ino, h.off + k)));
      if k < |data| then (Store(st.slots[i := s], fs), false)
      else (Store(st.slots[i := Paced(s, k)], fs), true)
  }

  datatype Finished = NoSession | RenameFailed | ChmodFailed | Published

  /** `usb_responder_file_finish_upload`. */
  function Finish(st: Store, id: u32, env: Env): (Store, Finished)
  {
    var i := Find(st.slots, id);
    if i == |st.slots| then (st, NoSession)
    else
      var s := st.slots[i];
      var slots := st.slots[i := CLEARED];
      var (fs, renamed) := Rename(st.fs, s.tempPath, s.finalPath, env.renameOk);
      if !renamed then (Store(slots, Unlink(fs, s.tempPath, env.unlinkOk).0), RenameFailed)
      else if !s.applyPerm then (Store(slots, fs), Published)
      else
        var (fs, changed) := Chmod(fs, s.finalPath, s.fileMode, env.chmodOk);
        if changed then (Store(slots, fs), Published)
        else (Store(slots, Unlink(fs, s.finalPath, env.unlinkOk).0), ChmodFailed)
  }

  /** Removes the temporary files of the used slots from `i` on. */
  function UnlinkAll(fs: FS, slots: seq<Session>, env: Env): FS
    decreases slots
  {
    if slots == [] then fs
    else UnlinkAll(if slots[0].used then Unlink(fs, slots[0].tempPath, env.unlinkOk).0 else fs, slots[1..], env)
  }

  /** `usb_responder_file_ops_shutdown`. */
  function Shutdown(st: Store, env: Env): Store
  {
    Store(seq(|st.slots|, _ => CLEARED), UnlinkAll(st.fs, st.slots, env))
  }

  // ---- The table in memory -------------------------------------------------------------------

  class FileOps {
    const sessions: array<Session>
    var fs: FS

    ghost predicate Valid()
      reads this
    {
      sessions.Length == MAX_SESSIONS
    }

    ghost function State(): Store
      reads this, sessions
    {
      Store(sessions[..], fs)
    }

    /** `usb_responder_file_ops_init`. */
    constructor (fs: FS)
      ensures Valid() && fresh(sessions)
      ensures State() == Store(seq(MAX_SESSIONS, _ => CLEARED), fs)
    {
      sessions := new Session[MAX_SESSIONS](_ => CLEARED);
      this.fs := fs;
    }

    /** `find_session`. */
    method FindSession(id: u32) returns (i: nat)
      requires Valid()
      ensures i == Find(sessions[..], id)
    {
      i := 0;
      while i < sessions.Length
        invariant i <= sessions.Length
        invariant forall k :: 0 <= k < i ==> !Matches(sessions[k], id)
      {
        if sessions[i].used && sessions[i].transferId == id {
          return;
        }
        i := i + 1;
      }
    }

    /** `alloc_session`. */
    method AllocSession() returns (i: nat)
      requires Valid()
      modifies sessions
      ensures i == FirstFree(old(sessions[..]))
      ensures sessions[..] == if i < MAX_SESSIONS
                              then old(sessions[..])[i := old(sessions[..])[i].(used := true)]
                              else old(sessions[..])
    {
      i := 0;
      while i < sessions.Length
        invariant i <= sessions.Length && sessions[..] == old(sessions[..])
        invariant forall k :: 0 <= k < i ==> sessions[k].used
      {
        if !sessions[i].used {
          sessions[i] := sessions[i].(used := true);
          return;
        }
        i := i + 1;
      }
    }

    /** `usb_responder_file_abort_upload`. */
    method AbortUpload(id: u32, env: Env) returns (ok: bool)
      requires Valid()
      modifies this, sessions
      ensures Valid() && (State(), ok) == Abort(old(State()), id, env)
    {
      var i := FindSession(id);
      if i == MAX_SESSIONS {
        return false;
      }
      sessions[i] := sessions[i].(fp := None);
      fs := Unlink(fs, sessions[i].tempPath, env.unlinkOk).0;
      sessions[i] := CLEARED;
      assert sessions[..] == old(sessions[..])[i := sessions[i]];
      ok := true;
    }

    /** `usb_responder_file_begin_upload`. */
    method BeginUpload(id: u32, relative: bytes, desire: Option<bytes>, perm: Option<bytes>, env: Env)
      returns (ok: bool)
      requires Valid()
      modifies this, sessions
      ensures Valid() && (State(), ok) == Begin(old(State()), id, relative, desire, perm, env)
    {
      var found := FindSession(id);
      if found < MAX_SESSIONS {
        var _ := AbortUpload(id, env);
      }
      ok := OpenUpload(id, relative, desire, perm, env);
    }

    /** The checks between the permission and the first file-system call. */
    method ResolveTarget(relative: bytes, desire: Option<bytes>, sdMounted: bool) returns (target: Option<bytes>)
      ensures target == Target(relative, desire, sdMounted)
    {
      hide BuildPath;
      var buffer := new byte[PATH_MAX];
      var built, storage, length := BuildPathInPlace(relative, buffer, PATH_MAX);
      if !built || !StorageMatches(storage, desire) || (storage.Sd? && !sdMounted) {
        return None;
      }
      var finalPath := buffer[..length];
      if |relative| >= PATH_MAX {
        return None;
      }
      if |finalPath + PART| >= PATH_MAX {
        return None;
      }
      target := Some(finalPath);
    }

    /** The defaults and the permission of a newly taken slot. */
    method SetPermission(i: nat, perm: Option<bytes>) returns (ok: bool)
      requires Valid() && i < MAX_SESSIONS
      modifies sessions
      ensures ok == PermOf(perm).Some?
      ensures var s := old(sessions[..])[i].(applyPerm := false, fileMode := DEFAULT_MODE);
              sessions[..] == old(sessions[..])[i :=
                if ok && PermOf(perm).value.Some?
                then s.(applyPerm := true, fileMode := PermOf(perm).value.value)
                else s]
    {
      hide ParsePerm;
      ok := true;
      sessions[i] := sessions[i].(applyPerm := false, fileMode := DEFAULT_MODE);
      if perm.Some? && perm.value != [] {
        var mode := ParsePerm(perm.value);
        if mode.None? {
          ok := false;
        } else {
          sessions[i] := sessions[i].(applyPerm := true, fileMode := mode.value);
        }
      }
      assert sessions[..] == old(sessions[..])[i := sessions[i]];
    }

    /** Gives a taken slot back. */
    method Release(i: nat)
      requires Valid() && i < MAX_SESSIONS
      modifies sessions
      ensures sessions[..] == old(sessions[..])[i := old(sessions[..])[i].(used := false)]
    {
      sessions[i] := sessions[i].(used := false);
    }

    method OpenUpload(id: u32, relative: bytes, desire: Option<bytes>, perm: Option<bytes>, env: Env) returns (ok: bool)
      requires Valid()
      modifies this, sessions
      ensures Valid() && (State(), ok) == Open(old(State()), id, relative, desire, perm, env)
    {
      hide Target, PermOf, OpenWrite, FirstFree;
      var i := AllocSession();
      if i == MAX_SESSIONS {
        return false;
      }
      var granted := SetPermission(i, perm);
      if !granted {
        Release(i);
        assert sessions[..] == old(sessions[..])[i := sessions[i]];
        return false;
      }
      var target := ResolveTarget(relative, desire, env.sdMounted);
      if target.None? {
        Release(i);
        assert sessions[..] == old(sessions[..])[i := sessions[i]];
        return false;
      }
      var final := target.value;
      sessions[i] := sessions[i].(finalPath := final, relativePath := relative, tempPath := final + PART);
      var handle := OpenWrite(fs, sessions[i].tempPath, env.openOk);
      if handle.None? {
        sessions[i] := sessions[i].(fp := None, used := false);
      } else {
        fs := handle.value.fs;
        sessions[i] := sessions[i].(fp := Some(Handle(handle.value.ino, 0)), transferId := id,
                                    bytesWritten := 0, syncedBytes := 0);
      }
      assert sessions[..] == old(sessions[..])[i := sessions[i]];
      ok := handle.Some?;
    }

    /** `usb_responder_file_append_upload_chunk`. */
    method AppendUploadChunk(id: u32, data: bytes, env: Env) returns (ok: bool)
      requires Valid()
      modifies this, sessions
      ensures Valid() && (State(), ok) == Append(old(State()), id, data, env)
    {
      if data == [] {
        return false;
      }
      var i := FindSession(id);
      if i == MAX_SESSIONS || sessions[i].fp.None? {
        return false;
      }
      var h := sessions[i].fp.value;
      var k := Taken(data, env);
      fs := WriteAt(fs, h.ino, h.off, data[..k]);
      sessions[i] := sessions[i].(fp := Some(Handle(h.ino, h.off + k)));
      if k != |data| {
        assert sessions[..] == old(sessions[..])[i := sessions[i]];
        return false;
      }
      sessions[i] := sessions[i].(bytesWritten := sessions[i].bytesWritten + |data|);
      if sessions[i].bytesWritten - sessions[i].syncedBytes >= SYNC_INTERVAL {
        sessions[i] := sessions[i].(syncedBytes := sessions[i].bytesWritten);
      }
      assert sessions[..] == old(sessions[..])[i := sessions[i]];
      ok := true;
    }

    /** `usb_responder_file_finish_upload`. */
    method FinishUpload(id: u32, env: Env) returns (outcome: Finished)
      requires Valid()
      modifies this, sessions
      ensures Valid() && (State(), outcome) == Finish(old(State()), id, env)
    {
      var i := FindSession(id);
      if i == MAX_SESSIONS {
        return NoSession;
      }
      sessions[i] := sessions[i].(fp := None);
      var s := sessions[i];
      var (moved, renamed) := Rename(fs, s.tempPath, s.finalPath, env.renameOk);
      fs := moved;
      if !renamed {
        fs := Unlink(fs, s.tempPath, env.unlinkOk).0;
        sessions[i] := CLEARED;
        assert sessions[..] == old(sessions[..])[i := sessions[i]];
        return RenameFailed;
      }
      if s.applyPerm {
        var (next, done) := Chmod(fs, s.finalPath, s.fileMode, env.chmodOk);
        fs := next;
        if !done {
          fs := Unlink(fs, s.finalPath, env.unlinkOk).0;
          sessions[i] := CLEARED;
          assert sessions[..] == old(sessions[..])[i := sessions[i]];
          return ChmodFailed;
        }
      }
      sessions[i] := CLEARED;
      assert sessions[..] == old(sessions[..])[i := sessions[i]];
      outcome := Published;
    }

    /** `usb_responder_file_ops_shutdown`. */
    method ShutdownAll(env: Env)
      requires Valid()
      modifies this, sessions
      ensures Valid() && State() == Shutdown(old(State()), env)
    {
      for i := 0 to sessions.Length
        invariant sessions[..] == old(sessions[..])
        invariant UnlinkAll(fs, old(sessions[..])[i..], env) == UnlinkAll(old(fs), old(sessions[..]), env)
      {
        assert old(sessions[..])[i..][1..] == old(sessions[..])[i + 1..];
        if sessions[i].used {
          fs := Unlink(fs, sessions[i].tempPath, env.unlinkOk).0;
        }
      }
      for i := 0 to sessions.Length
        invariant fs == UnlinkAll(old(fs), old(sessions[..]), env)
        invariant forall k :: 0 <= k < i ==> sessions[k] == CLEARED
      {
        sessions[i] := CLEARED;
      }
    }
  }
}
