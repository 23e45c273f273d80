/** The frames of one `file_put`, and what the device's handlers make of them. */
module UploadSequence {
  import opened Bytes
  import opened FrameCodec
  import opened KvCodec
  import opened Paths
  import opened FileSystem
  import opened Uploads
  import opened UploadTable
  import opened UploadIsolation
  import opened Handlers

  /** The arguments of `file_put`, with the request id it took and the content of the local file. */
  datatype Put = Put(rid: u32, path: bytes, desire: bytes, perm: bytes, local: bytes, chunkSize: int)

  /** Empty options are not sent. */
  function Items(p: Put): (r: seq<Item>)
    ensures 1 <= |r| <= 3
  {
    [Item(KEY_PATH, p.path)]
    + (if p.desire != [] then [Item(KEY_DESIRE, p.desire)] else [])
    + (if p.perm != [] then [Item(KEY_PERM, p.perm)] else [])
  }

  /** Path, storage and permission fit the payload's 16-bit length fields. */
  predicate CanSend(p: Put)
  {
    EncodeKvHost(Items(p)).Some?
  }

  /** What one `f.read(n)` returns: nothing for zero, everything for a negative size. */
  function ReadPiece(local: bytes, n: int): (r: bytes)
    ensures r <= local
  {
    if n < 0 || |local| <= n then local else local[..n]
  }

  /** What successive `f.read(n)` return up to the first empty one. */
  function Pieces(local: bytes, n: int): seq<bytes>
    decreases |local|
  {
    var piece := ReadPiece(local, n);
    if piece == [] then [] else [piece] + Pieces(local[|piece|..], n)
  }

  /** The bytes that the loop over the pieces gets to send. */
  function Sent(p: Put): bytes
  {
    if p.chunkSize == 0 then [] else p.local
  }

  function BeginFrame(p: Put): Frame
    requires CanSend(p)
  {
    Frame(MSG_PUT_BEGIN, 0, p.rid, EncodeKvHost(Items(p)).value)
  }

  function ChunkFrame(rid: u32, piece: bytes): Frame
  {
    Frame(MSG_PUT_CHUNK, 0, rid, Le32(rid) + piece)
  }

  function EndFrame(rid: u32): Frame
  {
    Frame(MSG_PUT_END, 0, rid, Le32(rid))
  }

  function ChunkFrames(rid: u32, pieces: seq<bytes>): (r: seq<Frame>)
    ensures |r| == |pieces|
  {
    seq(|pieces|, i requires 0 <= i < |pieces| => ChunkFrame(rid, pieces[i]))
  }

  lemma {:induction false} PiecesShape(local: bytes, n: int)
    ensures var ps := Pieces(local, n);
            && Concat(ps) == (if n == 0 then [] else local)
            && forall i :: 0 <= i < |ps| ==> 1 <= |ps[i]| <= |local| && (n > 0 ==> |ps[i]| <= n)
    decreases |local|
  {
    hide Concat;
    var piece := ReadPiece(local, n);
    ConcatFront(piece, Pieces(local[|piece|..], n));
    if piece != [] {
      var rest, ps := local[|piece|..], Pieces(local, n);
      PiecesShape(rest, n);
      assert local == piece + rest && ps == [piece] + Pieces(rest, n);
      forall i | 0 <= i < |ps| ensures 1 <= |ps[i]| <= |local| && (n > 0 ==> |ps[i]| <= n) {
        assert i > 0 ==> ps[i] == Pieces(rest, n)[i - 1];
      }
    }
  }

  lemma {:induction false} ItemsLength(items: seq<Item>)
    ensures |EncodeItems(items)| <= |items| * (4 + 2 * U16_MODULUS)
  {
    if items != [] {
      ItemsLength(items[1..]);
      hide EncodeItem;
    }
  }

  /** BEGIN is always short enough for the device. */
  lemma BeginFits(p: Put)
    requires CanSend(p)
    ensures |BeginFrame(p).payload| <= MAX_PAYLOAD
  {
    hide EncodeItems, Le16, Le32;
    ItemsLength(Items(p));
  }

  predicate AllUploads(frames: seq<Frame>)
  {
    forall i :: 0 <= i < |frames| ==> IsUpload(frames[i])
  }

  /** The requests of one upload, in order. */
  function PutFrames(p: Put): (r: seq<Frame>)
    requires CanSend(p)
    ensures AllUploads(r)
    ensures forall i :: 0 <= i < |r| ==> r[i].requestId == p.rid
  {
    [BeginFrame(p)] + ChunkFrames(p.rid, Pieces(p.local, p.chunkSize)) + [EndFrame(p.rid)]
  }

  /** The handlers, one frame after the other. */
  function Serve(st: Store, frames: seq<Frame>, answers: seq<Answers>): (Store, seq<Frame>)
    requires AllUploads(frames) && |answers| >= |frames|
    decreases frames
  {
    if frames == [] then (st, [])
    else
      var (next, reply) := HandleUpload(st, frames[0], answers[0]);
      var (last, more) := Serve(next, frames[1..], answers[1..]);
      (last, [reply] + more)
  }

  lemma {:induction false} ServeAppend(st: Store, a: seq<Frame>, b: seq<Frame>, answers: seq<Answers>)
    requires AllUploads(a) && AllUploads(b) && |answers| >= |a| + |b|
    ensures AllUploads(a + b)
    ensures var (mid, first) := Serve(st, a, answers);
            var (last, second) := Serve(mid, b, answers[|a|..]);
            Serve(st, a + b, answers) == (last, first + second)
    decreases |a|
  {
    hide HandleUpload;
    if a == [] {
      assert a + b == b && answers[0..] == answers;
      assert [] + Serve(st, b, answers).1 == Serve(st, b, answers).1;
    } else {
      assert (a + b)[1..] == a[1..] + b && (a + b)[0] == a[0];
      var (next, reply) := HandleUpload(st, a[0], answers[0]);
      ServeAppend(next, a[1..], b, answers[1..]);
      assert answers[1..][|a| - 1..] == answers[|a|..];
      var mid := Serve(next, a[1..], answers[1..]).0;
      var first, second := Serve(next, a[1..], answers[1..]).1, Serve(mid, b, answers[|a|..]).1;
      assert ([reply] + first) + second == [reply] + (first + second);
    }
  }

  lemma ServeOne(st: Store, f: Frame, answers: seq<Answers>)
    requires IsUpload(f) && |answers| >= 1
    ensures Serve(st, [f], answers) == (HandleUpload(st, f, answers[0]).0, [HandleUpload(st, f, answers[0]).1])
  {
    hide HandleUpload;
    var (next, reply) := HandleUpload(st, f, answers[0]);
    assert [f][1..] == [] && Serve(next, [], answers[1..]) == (next, []);
    assert [reply] + [] == [reply];
  }

  // ---- When the device can take the upload ---------------------------------------------------

  /** The system calls on behalf of one frame succeed, and the card is mounted or not as `sd` says. */
  predicate Succeeds(a: Answers, sd: bool)
  {
    a.env.openOk && a.env.renameOk && a.env.chmodOk && a.env.written >= MAX_PAYLOAD && a.env.sdMounted == sd
  }

  predicate AllSucceed(answers: seq<Answers>, sd: bool)
  {
    forall i :: 0 <= i < |answers| ==> Succeeds(answers[i], sd)
  }

  /** An option as the device sees it: as a C string, if it was sent at all. */
  function Seen(text: bytes): Option<bytes>
  {
    if text != [] then Some(CString(text)) else None
  }

  function PutTarget(p: Put, sd: bool): Option<bytes>
  {
    Target(CString(p.path), Seen(p.desire), sd)
  }

  /** The permission that the device is asked for; `None` when it is malformed. */
  function ModeOf(p: Put): Option<Option<nat>>
  {
    PermOf(Seen(p.perm))
  }

  /** The path is acceptable and not nested in a missing directory, no other open upload works on its
      names, a slot is free or is about to be freed by the retry, and no directory is in the way. */
  ghost predicate Ready(st: Store, a: Atomic, p: Put, sd: bool)
  {
    && Refines(st, a)
    && PutTarget(p, sd).Some? && ModeOf(p).Some?
    && (Find(st.slots, p.rid) < MAX_SESSIONS || FirstFree(st.slots) < MAX_SESSIONS)
    && var final := PutTarget(p, sd).value;
       && Apart(a.open, p.rid, final)
       && ParentDirs(st.fs, final) && !IsDir(st.fs, final)
       && (final + PART in st.fs.nodes ==> IsFile(st.fs, final + PART))
  }

  /** `p` is under way and `got` has been written. */
  ghost predicate Uploading(st: Store, a: Atomic, p: Put, final: bytes, got: bytes)
  {
    && Refines(st, a) && p.rid in a.open && ModeOf(p).Some?
    && a.open[p.rid] == Upload(final, ModeOf(p).value, got)
    && ParentDirs(st.fs, final) && !IsDir(st.fs, final)
  }

  // ---- BEGIN ---------------------------------------------------------------------------------

  lemma GetFirst(it: Item, rest: seq<Item>, key: bytes)
    requires 0 !in it.key
    ensures KvGet([it] + rest, key) == if it.key == key then Some(CString(it.value)) else KvGet(rest, key)
  {
    CStringOfNulFree(it.key);
    assert ([it] + rest)[1..] == rest;
  }

  lemma KeysDiffer()
    ensures KEY_PATH != KEY_DESIRE && KEY_PATH != KEY_PERM && KEY_DESIRE != KEY_PERM
  {
    assert KEY_PATH[1] != KEY_PERM[1];
  }

  lemma KeysNulFree()
    ensures 0 !in KEY_PATH && 0 !in KEY_DESIRE && 0 !in KEY_PERM
  {
  }

  /** What `kv_get` finds in the entries of an upload: every text up to its first NUL. */
  lemma ItemsFound(p: Put)
    ensures KvGet(Items(p), KEY_PATH) == Some(CString(p.path))
    ensures KvGet(Items(p), KEY_DESIRE) == Seen(p.desire)
    ensures KvGet(Items(p), KEY_PERM) == Seen(p.perm)
  {
    KeysNulFree();
    hide KvGet, CString;
    KeysDiffer();
    var first := Item(KEY_PATH, p.path);
    var desire := if p.desire != [] then [Item(KEY_DESIRE, p.desire)] else [];
    var perm := if p.perm != [] then [Item(KEY_PERM, p.perm)] else [];
    assert Items(p) == [first] + (desire + perm);
    forall key | key in {KEY_PATH, KEY_DESIRE, KEY_PERM}
      ensures KvGet(Items(p), key) == if key == KEY_PATH then Some(CString(p.path))
                                      else if key == KEY_DESIRE then Seen(p.desire)
                                      else Seen(p.perm)
    {
      GetNone(key);
      GetFirst(first, desire + perm, key);
      assert [] + perm == perm && perm + [] == perm;
      if p.desire != [] {
        GetFirst(desire[0], perm, key);
      }
      if p.perm != [] {
        GetFirst(perm[0], [], key);
      }
    }
  }

  lemma GetNone(key: bytes)
    ensures KvGet([], key) == None
  {
  }

  /** What the device's handler reads out of the BEGIN payload. */
  lemma BeginPayload(p: Put)
    requires CanSend(p)
    ensures DecodeKv(BeginFrame(p).payload) == Some(Items(p))
  {
    hide EncodeItems, Le16;
    HostReadsDevice(Items(p));
    DecodeKvExact(BeginFrame(p).payload, Items(p));
  }

  /** The same directories. */
  ghost predicate SameDirs(fs: FS, fs': FS)
  {
    forall q :: IsDir(fs, q) <==> IsDir(fs', q)
  }

  lemma DirsKept(fs: FS, fs': FS, path: bytes)
    requires SameDirs(fs, fs')
    ensures ParentDirs(fs, path) <==> ParentDirs(fs', path)
    ensures IsDir(fs, path) <==> IsDir(fs', path)
  {
    hide IsDir;
  }

  lemma AbortDirs(st: Store, id: u32, env: Env)
    ensures SameDirs(st.fs, Abort(st, id, env).0.fs)
    ensures var fs' := Abort(st, id, env).0.fs;
            forall q :: q in fs'.nodes ==> q in st.fs.nodes && fs'.nodes[q] == st.fs.nodes[q]
  {
  }

  lemma OpenDirs(fs: FS, path: bytes, ok: bool)
    requires OpenWrite(fs, path, ok).Some?
    ensures SameDirs(fs, OpenWrite(fs, path, ok).value.fs)
  {
    hide ParentDirs;
  }

  /** `.part` adds no directory to the way. */
  lemma TempParent(fs: FS, final: bytes)
    requires ParentDirs(fs, final)
    ensures ParentDirs(fs, final + PART)
  {
    var temp := final + PART;
    forall i | 0 < i < |temp| && temp[i] == SLASH ensures IsDir(fs, temp[..i]) {
      if i < |final| {
        assert temp[..i] == final[..i];
      }
    }
  }

  lemma TempOpens(fs: FS, temp: bytes)
    requires Valid(fs) && ParentDirs(fs, temp) && (temp in fs.nodes ==> IsFile(fs, temp))
    ensures OpenWrite(fs, temp, true).Some?
  {
    hide ParentDirs;
  }

  function BeginOf(p: Put): Op
  {
    BeginOp(p.rid, CString(p.path), Seen(p.desire), Seen(p.perm))
  }

  lemma ReadyOpens(st: Store, a: Atomic, p: Put, sd: bool, env: Env)
    requires Ready(st, a, p, sd)
    ensures OpenWrite(Abort(st, p.rid, env).0.fs, PutTarget(p, sd).value + PART, true).Some?
    ensures ParentDirs(Abort(st, p.rid, env).0.fs, PutTarget(p, sd).value)
    ensures !IsDir(Abort(st, p.rid, env).0.fs, PutTarget(p, sd).value)
  {
    var final := PutTarget(p, sd).value;
    AbortRefines(st, a, p.rid, env);
    AbortDirs(st, p.rid, env);
    hide Target, ParentDirs, Abort, SameDirs;
    var fs' := Abort(st, p.rid, env).0.fs;
    DirsKept(st.fs, fs', final);
    TempParent(fs', final);
    TempOpens(fs', final + PART);
  }

  lemma BeginOpens(st: Store, a: Atomic, p: Put, sd: bool, env: Env)
    requires Ready(st, a, p, sd) && env.openOk && env.sdMounted == sd
    ensures var (after, ok) := Begin(st, p.rid, CString(p.path), Seen(p.desire), Seen(p.perm), env);
            && ok && ParentDirs(after.fs, PutTarget(p, sd).value) && !IsDir(after.fs, PutTarget(p, sd).value)
  {
    ReadyOpens(st, a, p, sd, env);
    hide Target, PermOf, CString, Abort, OpenWrite, ParentDirs, SameDirs, IsDir;
    BeginOnTarget(st, p.rid, CString(p.path), Seen(p.desire), Seen(p.perm), env);
    var mid := Abort(st, p.rid, env).0;
    OpenedSlot(mid, p.rid, CString(p.path), Seen(p.desire), Seen(p.perm), env);
    OpenDirs(mid.fs, PutTarget(p, sd).value + PART, true);
    hide Open;
    DirsKept(mid.fs, Begin(st, p.rid, CString(p.path), Seen(p.desire), Seen(p.perm), env).0.fs, PutTarget(p, sd).value);
  }

  /** The store once `p` has begun. */
  function BegunAs(a: Atomic, p: Put, final: bytes, got: bytes): Atomic
    requires ModeOf(p).Some?
  {
    a.(open := a.open[p.rid := Upload(final, ModeOf(p).value, got)])
  }

  /** The simple store once an earlier attempt under the same id has been cleaned up. */
  function Cleaned(a: Atomic, p: Put, answers: Answers): Atomic
  {
    Dropped(a, p.rid, answers.env.unlinkOk)
  }

  lemma BeginServed(st: Store, a: Atomic, p: Put, sd: bool, answers: Answers)
    requires Ready(st, a, p, sd) && CanSend(p) && Succeeds(answers, sd)
    ensures var (after, reply) := HandleUpload(st, BeginFrame(p), answers);
            var final := PutTarget(p, sd).value;
            && reply == BeganReply(p.rid)
            && Uploading(after, BegunAs(Cleaned(a, p, answers), p, final, []), p, final, [])
  {
    hide Target, PermOf, Begin, ParentDirs, IsDir, DecodeCounted, KvGet, EncodeKvHost, Refines, KvReply,
         Dropped, CString;
    BeginPayload(p);
    ItemsFound(p);
    BeginOpens(st, a, p, sd, answers.env);
    BeginRefines(st, a, BeginOf(p), answers.env);
  }

  // ---- CHUNK ---------------------------------------------------------------------------------

  lemma IdOfChunk(rid: u32, data: bytes)
    ensures (Le32(rid) + data)[..4] == Le32(rid) && (Le32(rid) + data)[4..] == data
    ensures ReadLe32((Le32(rid) + data)[..4]) == rid
  {
    ReadWrite32(rid);
  }

  lemma ChunkParts(rid: u32, piece: bytes)
    ensures TransferId(ChunkFrame(rid, piece)) == rid && ChunkData(ChunkFrame(rid, piece)) == piece
    ensures TransferId(EndFrame(rid)) == rid
  {
    hide Le32, ReadLe32;
    IdOfChunk(rid, piece);
    IdOfChunk(rid, []);
    assert Le32(rid) + [] == Le32(rid);
  }

  lemma AppendSucceeds(st: Store, a: Atomic, p: Put, final: bytes, got: bytes, piece: bytes, env: Env)
    requires Uploading(st, a, p, final, got) && piece != [] && env.written >= |piece|
    ensures var (after, ok) := Append(st, p.rid, piece, env);
            && ok && after.fs.nodes == st.fs.nodes
            && OutcomeOf(st, AppendOp(p.rid, piece), env) == Appended(true, piece)
  {
    hide FilesAgree, ParentDirs, Content, PermOf;
    var i := UsedAgrees(st, a, p.rid);
    assert piece[..|piece|] == piece;
  }

  lemma ChunkReplies(st: Store, rid: u32, piece: bytes, answers: Answers)
    requires Append(st, rid, piece, answers.env).1
    ensures HandleUpload(st, ChunkFrame(rid, piece), answers) == (Append(st, rid, piece, answers.env).0, OkReply(rid))
  {
    ChunkParts(rid, piece);
    hide Append, KvReply, Le32, TransferId, ChunkData;
  }

  lemma SameNodes(fs: FS, fs': FS, path: bytes)
    requires fs'.nodes == fs.nodes && ParentDirs(fs, path) && !IsDir(fs, path)
    ensures ParentDirs(fs', path) && !IsDir(fs', path)
  {
  }

  lemma ChunkServed(st: Store, a: Atomic, p: Put, final: bytes, got: bytes, piece: bytes, sd: bool, answers: Answers)
    requires Uploading(st, a, p, final, got) && 1 <= |piece| <= MAX_PAYLOAD && Succeeds(answers, sd)
    ensures var (after, reply) := HandleUpload(st, ChunkFrame(p.rid, piece), answers);
            && reply == OkReply(p.rid)
            && Uploading(after, BegunAs(a, p, final, got + piece), p, final, got + piece)
  {
    hide Append, Refines, PermOf, HandleUpload, OkReply, ParentDirs, IsDir, OutcomeOf;
    AppendSucceeds(st, a, p, final, got, piece, answers.env);
    AppendRefines(st, a, p.rid, piece, answers.env);
    ChunkReplies(st, p.rid, piece, answers);
    SameNodes(st.fs, Append(st, p.rid, piece, answers.env).0.fs, final);
    assert AtomicStep(a, AppendOp(p.rid, piece), Appended(true, piece)).open == BegunAs(a, p, final, got + piece).open;
  }

  // ---- END -----------------------------------------------------------------------------------

  lemma FinishPublishes(st: Store, a: Atomic, p: Put, final: bytes, got: bytes, env: Env)
    requires Uploading(st, a, p, final, got) && env.renameOk && env.chmodOk
    ensures var (after, outcome) := Finish(st, p.rid, env);
            var mode := ModeOf(p).value;
            && outcome.Published? && final + PART !in after.fs.nodes
            && (mode.Some? ==> IsFile(after.fs, final) && after.fs.nodes[final].ino in after.fs.inodes
                               && after.fs.inodes[after.fs.nodes[final].ino].mode == mode.value)
  {
    var i := UsedAgrees(st, a, p.rid);
    RefinesTable(st, a);
    var s := st.slots[i];
    assert |final + PART| > |final|;
    hide FilesAgree, ParentDirs, PermOf, SlotsAgree, Find, Paced1M, TableValid, Disjoint;
    assert Rename(st.fs, s.tempPath, s.finalPath, true).1;
    RenameElsewhere(st.fs, s.tempPath, s.finalPath, true);
    ChmodElsewhere(Rename(st.fs, s.tempPath, s.finalPath, true).0, final, s.fileMode, true);
  }

  /** The simple store with the upload out of the way and its file in place. */
  function Settled(a: Atomic, p: Put, final: bytes): Atomic
  {
    Atomic(a.open - {p.rid}, (a.files - {final + PART})[final := Sent(p)])
  }

  /** What a complete upload leaves behind: the file and nothing else. */
  ghost predicate Uploaded(after: Store, a: Atomic, p: Put, final: bytes)
  {
    && Content(after.fs, final) == Some(Sent(p))
    && final + PART !in after.fs.nodes
    && Find(after.slots, p.rid) == MAX_SESSIONS
    && (ModeOf(p).Some? && ModeOf(p).value.Some? ==>
          && IsFile(after.fs, final) && after.fs.nodes[final].ino in after.fs.inodes
          && after.fs.inodes[after.fs.nodes[final].ino].mode == ModeOf(p).value.value)
    && Refines(after, Settled(a, p, final))
  }

  lemma EndReplies(st: Store, rid: u32, answers: Answers)
    requires Finish(st, rid, answers.env).1.Published?
    ensures HandleUpload(st, EndFrame(rid), answers) == (Finish(st, rid, answers.env).0, OkReply(rid))
  {
    ChunkParts(rid, []);
    hide Finish, KvReply, Le32, TransferId;
  }

  lemma FinishRefines(st: Store, a: Atomic, p: Put, final: bytes, env: Env)
    requires Refines(st, a) && p.rid in a.open && a.open[p.rid].final == final && a.open[p.rid].data == Sent(p)
    requires Finish(st, p.rid, env).1.Published?
    ensures Refines(Finish(st, p.rid, env).0, Settled(a, p, final))
    ensures !IsPrivate(Settled(a, p, final).open, final)
  {
    hide Finish, PermOf, Refines, ParentDirs, Find, Content, IsPrivate;
    var open := UsedAgrees(st, a, p.rid);
    EndRefines(st, a, p.rid, env);
    StillPrivate(st, a, p.rid);
  }

  lemma UploadingMeans(st: Store, a: Atomic, p: Put, final: bytes, got: bytes)
    requires Uploading(st, a, p, final, got)
    ensures Refines(st, a) && p.rid in a.open && a.open[p.rid].final == final && a.open[p.rid].data == got
  {
    hide Refines, PermOf, ParentDirs;
  }

  lemma EndServed(st: Store, a: Atomic, p: Put, final: bytes, sd: bool, answers: Answers)
    requires Uploading(st, a, p, final, Sent(p)) && Succeeds(answers, sd)
    ensures var (after, reply) := HandleUpload(st, EndFrame(p.rid), answers);
            reply == OkReply(p.rid) && Uploaded(after, a, p, final)
  {
    hide Finish, HandleUpload, PermOf, OkReply, Refines, Content, IsFile, Find, Uploading, IsPrivate;
    FinishPublishes(st, a, p, final, Sent(p), answers.env);
    UploadingMeans(st, a, p, final, Sent(p));
    EndReplies(st, p.rid, answers);
    FinishRefines(st, a, p, final, answers.env);
    var after := Finish(st, p.rid, answers.env).0;
    var done := Settled(a, p, final);
    var i := UsedAgrees(after, done, p.rid);
    FindBound(after, done, p.rid);
    PublishedContent(after, done, final);
  }

  lemma FindBound(st: Store, a: Atomic, id: u32)
    requires Refines(st, a)
    ensures Find(st.slots, id) <= MAX_SESSIONS
  {
  }

  lemma PublishedContent(st: Store, a: Atomic, final: bytes)
    requires Refines(st, a) && final in a.files && !IsPrivate(a.open, final)
    ensures Content(st.fs, final) == Some(a.files[final])
  {
    hide Content;
  }

  // ---- The whole sequence --------------------------------------------------------------------

  lemma {:induction false} ChunksServed(st: Store, a: Atomic, p: Put, final: bytes, got: bytes, pieces: seq<bytes>,
                                        sd: bool, answers: seq<Answers>)
    requires Uploading(st, a, p, final, got) && |answers| >= |pieces| && AllSucceed(answers, sd)
    requires ModeOf(p).Some?
    requires forall i :: 0 <= i < |pieces| ==> 1 <= |pieces[i]| <= MAX_PAYLOAD
    ensures var (after, replies) := Serve(st, ChunkFrames(p.rid, pieces), answers);
            && Uploading(after, BegunAs(a, p, final, got + Concat(pieces)), p, final, got + Concat(pieces))
            && replies == seq(|pieces|, _ => OkReply(p.rid))
    decreases |pieces|
  {
    hide HandleUpload, Uploading, OkReply;
    if pieces == [] {
      assert got + [] == got;
      Unchanged(st, a, p, final, got);
    } else {
      assert Succeeds(answers[0], sd);
      ChunkServed(st, a, p, final, got, pieces[0], sd, answers[0]);
      var next := HandleUpload(st, ChunkFrame(p.rid, pieces[0]), answers[0]).0;
      var begun := BegunAs(a, p, final, got + pieces[0]);
      ChunksServed(next, begun, p, final, got + pieces[0], pieces[1..], sd, answers[1..]);
      assert ChunkFrames(p.rid, pieces)[1..] == ChunkFrames(p.rid, pieces[1..]);
      assert (got + pieces[0]) + Concat(pieces[1..]) == got + (pieces[0] + Concat(pieces[1..]));
      assert begun.open[p.rid := Upload(final, ModeOf(p).value, got + Concat(pieces))]
          == a.open[p.rid := Upload(final, ModeOf(p).value, got + Concat(pieces))];
    }
  }

  lemma Unchanged(st: Store, a: Atomic, p: Put, final: bytes, got: bytes)
    requires Uploading(st, a, p, final, got)
    ensures Uploading(st, BegunAs(a, p, final, got), p, final, got)
  {
    hide Refines, PermOf;
    assert BegunAs(a, p, final, got).open == a.open;
  }

  lemma UploadedBase(after: Store, a: Atomic, p: Put, final: bytes, got: bytes)
    requires ModeOf(p).Some? && Uploaded(after, BegunAs(a, p, final, got), p, final)
    ensures Uploaded(after, a, p, final)
  {
    hide Refines, PermOf, Content, Find, IsFile;
    assert BegunAs(a, p, final, got).open - {p.rid} == a.open - {p.rid};
  }

  /** Everything behind BEGIN. */
  lemma TailServed(st: Store, a: Atomic, p: Put, final: bytes, pieces: seq<bytes>, sd: bool, answers: seq<Answers>)
    requires ModeOf(p).Some? && Uploading(st, a, p, final, []) && Concat(pieces) == Sent(p)
    requires |answers| >= |pieces| + 1 && AllSucceed(answers, sd)
    requires forall i :: 0 <= i < |pieces| ==> 1 <= |pieces[i]| <= MAX_PAYLOAD
    ensures var tail := ChunkFrames(p.rid, pieces) + [EndFrame(p.rid)];
            && AllUploads(tail)
            && Uploaded(Serve(st, tail, answers).0, a, p, final)
            && Serve(st, tail, answers).1 == seq(|pieces| + 1, _ => OkReply(p.rid))
  {
    hide HandleUpload, Uploading, Uploaded, OkReply, PermOf, Concat;
    var mid, last := ChunkFrames(p.rid, pieces), [EndFrame(p.rid)];
    ChunksServed(st, a, p, final, [], pieces, sd, answers);
    assert [] + Sent(p) == Sent(p);
    var chunked := Serve(st, mid, answers).0;
    assert Succeeds(answers[|mid|], sd);
    EndServed(chunked, BegunAs(a, p, final, Sent(p)), p, final, sd, answers[|mid|]);
    ServeOne(chunked, EndFrame(p.rid), answers[|mid|..]);
    UploadedBase(Serve(chunked, last, answers[|mid|..]).0, a, p, final, Sent(p));
    ServeAppend(st, mid, last, answers);
  }

  /** The first frame of the sequence. */
  lemma FirstServed(st: Store, a: Atomic, p: Put, sd: bool, answers: seq<Answers>)
    requires CanSend(p) && Ready(st, a, p, sd) && |answers| >= 1 && AllSucceed(answers, sd)
    ensures PutTarget(p, sd).Some? && ModeOf(p).Some?
    ensures var (begun, replies) := Serve(st, [BeginFrame(p)], answers);
            var final := PutTarget(p, sd).value;
            && replies == [BeganReply(p.rid)]
            && Uploading(begun, BegunAs(Cleaned(a, p, answers[0]), p, final, []), p, final, [])
  {
    assert Succeeds(answers[0], sd);
    hide HandleUpload, Uploading, Refines, BeganReply, EncodeKvHost, Target, PermOf, CString, Dropped;
    BeginServed(st, a, p, sd, answers[0]);
    ServeOne(st, BeginFrame(p), answers);
  }

  /** Uploading by frames of acceptable size: with every system call succeeding, the final path holds the
      bytes that were sent, which are the local file unless the chunk size is zero, the temporary name and
      the session are gone, every other file and session is as before, and every reply is positive. */
  lemma UploadServed(st: Store, a: Atomic, p: Put, sd: bool, answers: seq<Answers>)
    requires CanSend(p) && Ready(st, a, p, sd) && WithinLimit(PutFrames(p))
    requires |answers| >= |PutFrames(p)| && AllSucceed(answers, sd)
    ensures var (after, replies) := Serve(st, PutFrames(p), answers);
            && Uploaded(after, Cleaned(a, p, answers[0]), p, PutTarget(p, sd).value)
            && replies == [BeganReply(p.rid)] + seq(|PutFrames(p)| - 1, _ => OkReply(p.rid))
  {
    hide *;
    SplitFrames(p);
    PiecesFit(p, |Pieces(p.local, p.chunkSize)|);
    FirstServed(st, a, p, sd, answers);
    RestSucceeds(answers, sd);
    var pieces := Pieces(p.local, p.chunkSize);
    var final := PutTarget(p, sd).value;
    var tail := ChunkFrames(p.rid, pieces) + [EndFrame(p.rid)];
    var begun := Serve(st, [BeginFrame(p)], answers).0;
    var b := Cleaned(a, p, answers[0]);
    TailServed(begun, BegunAs(b, p, final, []), p, final, pieces, sd, answers[1..]);
    UploadedBase(Serve(begun, tail, answers[1..]).0, b, p, final, []);
    ServeAppend(st, [BeginFrame(p)], tail, answers);
  }

  lemma SplitFrames(p: Put)
    requires CanSend(p)
    ensures AllUploads([BeginFrame(p)])
    ensures Concat(Pieces(p.local, p.chunkSize)) == Sent(p)
    ensures |PutFrames(p)| == |Pieces(p.local, p.chunkSize)| + 2
    ensures PutFrames(p) == [BeginFrame(p)] + (ChunkFrames(p.rid, Pieces(p.local, p.chunkSize)) + [EndFrame(p.rid)])
    ensures WithinLimit(PutFrames(p)) ==> WithinLimit(PutFrames(p)[..|PutFrames(p)| - 1])
  {
    hide EncodeKvHost, Le32;
    PiecesShape(p.local, p.chunkSize);
  }

  /** Where the chunks are among the frames. */
  lemma ChunkAt(p: Put, i: nat)
    requires CanSend(p) && i < |Pieces(p.local, p.chunkSize)|
    ensures i + 1 < |PutFrames(p)| && PutFrames(p)[i + 1] == ChunkFrame(p.rid, Pieces(p.local, p.chunkSize)[i])
  {
    hide EncodeKvHost, Le32, Pieces, BeginFrame, EndFrame, ChunkFrame, CanSend;
    var chunks := ChunkFrames(p.rid, Pieces(p.local, p.chunkSize));
    assert PutFrames(p)[i + 1] == chunks[i];
  }

  /** Chunks whose frames are within the limit. */
  lemma PiecesFit(p: Put, n: nat)
    requires CanSend(p) && n <= |Pieces(p.local, p.chunkSize)| && WithinLimit(PutFrames(p)[..n + 1])
    ensures forall i :: 0 <= i < n ==> 1 <= |Pieces(p.local, p.chunkSize)[i]| <= MAX_PAYLOAD
  {
    hide EncodeKvHost, Le32, Pieces, PutFrames, CanSend;
    PiecesShape(p.local, p.chunkSize);
    SplitFrames(p);
    var pieces, frames := Pieces(p.local, p.chunkSize), PutFrames(p);
    forall i | 0 <= i < n ensures 1 <= |pieces[i]| <= MAX_PAYLOAD {
      ChunkAt(p, i);
      assert frames[..n + 1][i + 1] == ChunkFrame(p.rid, pieces[i]);
    }
  }

  /** An upload that stops after `k` of its frames: the session is still open with the chunks that were
      taken, and the final path is as it was before (unless it was the private name of the very upload
      that this one retries). */
  lemma UploadCutShort(st: Store, a: Atomic, p: Put, sd: bool, answers: seq<Answers>, k: nat)
    requires CanSend(p) && Ready(st, a, p, sd) && 1 <= k < |PutFrames(p)| && WithinLimit(PutFrames(p)[..k])
    requires |answers| >= k && AllSucceed(answers, sd)
    ensures PutTarget(p, sd).Some? && ModeOf(p).Some?
    ensures var (after, replies) := Serve(st, PutFrames(p)[..k], answers);
            var final, got := PutTarget(p, sd).value, Concat(Pieces(p.local, p.chunkSize)[..k - 1]);
            && (!IsPrivate(a.open, final) ==> Content(after.fs, final) == Content(st.fs, final))
            && Find(after.slots, p.rid) < MAX_SESSIONS && Content(after.fs, final + PART) == Some(got)
            && Uploading(after, BegunAs(Cleaned(a, p, answers[0]), p, final, got), p, final, got)
            && replies == [BeganReply(p.rid)] + seq(k - 1, _ => OkReply(p.rid))
  {
    hide *;
    PrefixFrames(p, k);
    PiecesFit(p, k - 1);
    var pieces := Pieces(p.local, p.chunkSize)[..k - 1];
    var first, mid := [BeginFrame(p)], ChunkFrames(p.rid, pieces);
    FirstServed(st, a, p, sd, answers);
    var final, got := PutTarget(p, sd).value, Concat(pieces);
    var begun := Serve(st, first, answers).0;
    var base := Cleaned(a, p, answers[0]);
    var b := BegunAs(base, p, final, []);
    RestSucceeds(answers, sd);
    ChunksServed(begun, b, p, final, [], pieces, sd, answers[1..]);
    assert [] + got == got;
    BegunTwice(base, p, final, got);
    StillOpen(st, a, p, sd, answers[0], Serve(begun, mid, answers[1..]).0, BegunAs(base, p, final, got), final, got);
    ServeAppend(st, first, mid, answers);
  }

  lemma RestSucceeds(answers: seq<Answers>, sd: bool)
    requires AllSucceed(answers, sd) && |answers| >= 1
    ensures AllSucceed(answers[1..], sd)
  {
  }

  lemma BegunTwice(a: Atomic, p: Put, final: bytes, got: bytes)
    requires ModeOf(p).Some?
    ensures BegunAs(BegunAs(a, p, final, []), p, final, got) == BegunAs(a, p, final, got)
    ensures BegunAs(a, p, final, got).files == a.files
  {
  }

  lemma PrefixFrames(p: Put, k: nat)
    requires CanSend(p) && 1 <= k < |PutFrames(p)|
    ensures AllUploads([BeginFrame(p)])
    ensures AllUploads(ChunkFrames(p.rid, Pieces(p.local, p.chunkSize)[..k - 1]))
    ensures |PutFrames(p)| == |Pieces(p.local, p.chunkSize)| + 2
    ensures PutFrames(p)[..k] == [BeginFrame(p)] + ChunkFrames(p.rid, Pieces(p.local, p.chunkSize)[..k - 1])
  {
    hide EncodeKvHost, Le32;
    PiecesShape(p.local, p.chunkSize);
  }

  /** Every name of the upload but its own is as it was in the store that it started from. */
  lemma StillOpen(st: Store, a: Atomic, p: Put, sd: bool, first: Answers, after: Store, b: Atomic, final: bytes,
                  got: bytes)
    requires Ready(st, a, p, sd) && final == PutTarget(p, sd).value
    requires Uploading(after, b, p, final, got) && b.files == Cleaned(a, p, first).files
    ensures !IsPrivate(a.open, final) ==> Content(after.fs, final) == Content(st.fs, final)
    ensures Find(after.slots, p.rid) < MAX_SESSIONS && Content(after.fs, final + PART) == Some(got)
  {
    hide ParentDirs, PermOf, Content, Target, FilesAgree, IsPrivate, CString;
    var i := UsedAgrees(after, b, p.rid);
    RefinesValid(after, b);
    RefinesValid(st, a);
    if !IsPrivate(a.open, final) {
      StillPrivate(after, b, p.rid);
      ContentAgrees(after.fs, b, final);
      ContentAgrees(st.fs, a, final);
      if p.rid in a.open {
        OwnPrivate(a.open, p.rid);
      }
    }
  }

  // ---- What no request does to the tree ------------------------------------------------------

  /** The same directories, and no new entry but files. */
  ghost predicate Keeps(fs: FS, fs': FS)
  {
    SameDirs(fs, fs') && forall q :: q in fs'.nodes ==> IsFile(fs', q) || (q in fs.nodes && !IsFile(fs, q))
  }

  lemma KeepsTrans(a: FS, b: FS, c: FS)
    requires Keeps(a, b) && Keeps(b, c)
    ensures Keeps(a, c)
  {
  }

  lemma UnlinkKeeps(fs: FS, path: bytes, ok: bool)
    ensures Keeps(fs, Unlink(fs, path, ok).0)
  {
  }

  lemma RenameKeeps(fs: FS, from: bytes, to: bytes, ok: bool)
    ensures Keeps(fs, Rename(fs, from, to, ok).0)
  {
    hide ParentDirs;
  }

  lemma ChmodKeeps(fs: FS, path: bytes, mode: nat, ok: bool)
    ensures Keeps(fs, Chmod(fs, path, mode, ok).0)
  {
  }

  lemma OpenKeepsTree(fs: FS, path: bytes, ok: bool)
    requires OpenWrite(fs, path, ok).Some?
    ensures Keeps(fs, OpenWrite(fs, path, ok).value.fs)
  {
    hide ParentDirs;
  }

  lemma BeginKeeps(st: Store, id: u32, relative: bytes, desire: Option<bytes>, perm: Option<bytes>, env: Env)
    ensures Keeps(st.fs, Begin(st, id, relative, desire, perm, env).0.fs)
  {
    hide Keeps, Unlink, OpenWrite, Target, PermOf, Open;
    var mid := Abort(st, id, env).0;
    var i := Find(st.slots, id);
    UnlinkKeeps(st.fs, if i < |st.slots| then st.slots[i].tempPath else [], env.unlinkOk);
    KeepsSelf(st.fs);
    if Open(mid, id, relative, desire, perm, env).1 {
      OpenedSlot(mid, id, relative, desire, perm, env);
      OpenKeepsTree(mid.fs, Target(relative, desire, env.sdMounted).value + PART, env.openOk);
      KeepsTrans(st.fs, mid.fs, Begin(st, id, relative, desire, perm, env).0.fs);
    } else {
      NotOpened(mid, id, relative, desire, perm, env);
    }
  }

  lemma KeepsSelf(fs: FS)
    ensures Keeps(fs, fs)
  {
  }

  lemma FinishKeeps(st: Store, id: u32, env: Env)
    ensures Keeps(st.fs, Finish(st, id, env).0.fs)
  {
    hide Keeps, Unlink, Rename, Chmod;
    KeepsSelf(st.fs);
    var i := Find(st.slots, id);
    if i < |st.slots| {
      var s := st.slots[i];
      var moved := Rename(st.fs, s.tempPath, s.finalPath, env.renameOk).0;
      RenameKeeps(st.fs, s.tempPath, s.finalPath, env.renameOk);
      UnlinkKeeps(moved, s.tempPath, env.unlinkOk);
      KeepsTrans(st.fs, moved, Unlink(moved, s.tempPath, env.unlinkOk).0);
      var changed := Chmod(moved, s.finalPath, s.fileMode, env.chmodOk).0;
      ChmodKeeps(moved, s.finalPath, s.fileMode, env.chmodOk);
      KeepsTrans(st.fs, moved, changed);
      UnlinkKeeps(changed, s.finalPath, env.unlinkOk);
      KeepsTrans(st.fs, changed, Unlink(changed, s.finalPath, env.unlinkOk).0);
    }
  }

  lemma AppendKeeps(st: Store, id: u32, data: bytes, env: Env)
    ensures Append(st, id, data, env).0.fs.nodes == st.fs.nodes
    ensures Keeps(st.fs, Append(st, id, data, env).0.fs)
  {
  }

  /** No upload request, whatever becomes of it, makes or removes a directory, and every entry that it makes
      or changes is a file. */
  lemma HandleKeeps(st: Store, f: Frame, answers: Answers)
    requires IsUpload(f)
    ensures Keeps(st.fs, HandleUpload(st, f, answers).0.fs)
  {
    hide Keeps, Begin, Append, Finish, DecodeCounted, KvGet, KvReply;
    KeepsSelf(st.fs);
    AppendKeeps(st, TransferId(f), ChunkData(f), answers.env);
    FinishKeeps(st, TransferId(f), answers.env);
    if DecodeKv(f.payload).Some? && KvGet(DecodeKv(f.payload).value, KEY_PATH).Some? {
      var items := DecodeKv(f.payload).value;
      BeginKeeps(st, f.requestId, KvGet(items, KEY_PATH).value, KvGet(items, KEY_DESIRE), KvGet(items, KEY_PERM),
                 answers.env);
    }
  }

  lemma {:induction false} ServeKeeps(st: Store, frames: seq<Frame>, answers: seq<Answers>)
    requires AllUploads(frames) && |answers| >= |frames|
    ensures Keeps(st.fs, Serve(st, frames, answers).0.fs)
    decreases frames
  {
    hide Keeps, HandleUpload;
    if frames == [] {
      KeepsSelf(st.fs);
    } else {
      var next := HandleUpload(st, frames[0], answers[0]).0;
      HandleKeeps(st, frames[0], answers[0]);
      ServeKeeps(next, frames[1..], answers[1..]);
      KeepsTrans(st.fs, next.fs, Serve(next, frames[1..], answers[1..]).0.fs);
    }
  }
}
