/** The device's frame handlers: from a request frame to a table operation and a reply frame. */
module Handlers {
  import opened Bytes
  import opened FrameCodec
  import opened KvCodec
  import opened FileSystem
  import opened Uploads
  import opened UploadTable

  const MSG_HELLO: u16 := 1
  const MSG_STATUS: u16 := 2
  const MSG_ERROR: u16 := 3
  const MSG_PUT_BEGIN: u16 := 10
  const MSG_PUT_CHUNK: u16 := 11
  const MSG_PUT_END: u16 := 12

  // FILE_GET to FILE_STAT, COMMAND_EXEC and DEVINFO, which do not touch the session table.
  const OTHER_REQUESTS: set<u16> := {13, 14, 15, 16, 17, 18, 20, 30}

  // "path", "desire_storage", "perm", "status", "ok", "transfer_id", "request_id", "message",
  // "service", "usb_responder", "version", "1"
  const KEY_PATH: bytes := [0x70, 0x61, 0x74, 0x68]
  const KEY_DESIRE: bytes := [0x64, 0x65, 0x73, 0x69, 0x72, 0x65, 0x5F, 0x73, 0x74, 0x6F, 0x72, 0x61, 0x67, 0x65]
  const KEY_PERM: bytes := [0x70, 0x65, 0x72, 0x6D]
  const KEY_STATUS: bytes := [0x73, 0x74, 0x61, 0x74, 0x75, 0x73]
  const VALUE_OK: bytes := [0x6F, 0x6B]
  const KEY_TRANSFER: bytes := [0x74, 0x72, 0x61, 0x6E, 0x73, 0x66, 0x65, 0x72, 0x5F, 0x69, 0x64]
  const VALUE_REQUEST: bytes := [0x72, 0x65, 0x71, 0x75, 0x65, 0x73, 0x74, 0x5F, 0x69, 0x64]
  const KEY_MESSAGE: bytes := [0x6D, 0x65, 0x73, 0x73, 0x61, 0x67, 0x65]
  const KEY_SERVICE: bytes := [0x73, 0x65, 0x72, 0x76, 0x69, 0x63, 0x65]
  const VALUE_SERVICE: bytes := [0x75, 0x73, 0x62, 0x5F, 0x72, 0x65, 0x73, 0x70, 0x6F, 0x6E, 0x64, 0x65, 0x72]
  const KEY_VERSION: bytes := [0x76, 0x65, 0x72, 0x73, 0x69, 0x6F, 0x6E]
  const VALUE_VERSION: bytes := [0x31]

  /** The text of an error reply fits in the handler's 512-byte buffer. */
  type Text = t: bytes | |t| < 512 witness []

  /** A reply whose size the 32-bit sum of the encoder does not overflow. */
  type Sendable = f: Frame | HEADER_SIZE + |f.payload| < U32_MODULUS witness Frame(0, 0, 0, [])

  /** What the environment answers while one frame is handled: the system calls, the error text, and
      for the requests that are not modelled their effect on the files and their reply. */
  datatype Answers = Answers(env: Env, text: Text, otherFs: FS, otherReply: Option<Sendable>)

  predicate IsUpload(f: Frame)
  {
    f.typ == MSG_PUT_BEGIN || f.typ == MSG_PUT_CHUNK || f.typ == MSG_PUT_END
  }

  /** `send_kv_response` for at most `MAX_KV` entries. */
  function KvReply(typ: u16, requestId: u32, items: seq<Item>): Frame
    requires |items| <= MAX_KV
  {
    Frame(typ, 0, requestId, EncodeKv(items).value)
  }

  function ErrorReply(requestId: u32, text: Text): Frame
  {
    KvReply(MSG_ERROR, requestId, [Item(KEY_MESSAGE, text)])
  }

  function OkReply(requestId: u32): Frame
  {
    KvReply(MSG_STATUS, requestId, [Item(KEY_STATUS, VALUE_OK)])
  }

  function BeganReply(requestId: u32): Frame
  {
    KvReply(MSG_STATUS, requestId, [Item(KEY_STATUS, VALUE_OK), Item(KEY_TRANSFER, VALUE_REQUEST)])
  }

  /** `handle_file_put_begin`. */
  function HandleBegin(st: Store, f: Frame, a: Answers): (Store, Frame)
  {
    match DecodeKv(f.payload)
    case None => (st, ErrorReply(f.requestId, a.text))
    case Some(items) =>
      match KvGet(items, KEY_PATH)
      case None => (st, ErrorReply(f.requestId, a.text))
      case Some(path) =>
        var (after, ok) := Begin(st, f.requestId, path, KvGet(items, KEY_DESIRE), KvGet(items, KEY_PERM), a.env);
        (after, if ok then BeganReply(f.requestId) else ErrorReply(f.requestId, a.text))
  }

  /** The transfer id of a chunk or end frame: its first four payload bytes, else the request id. */
  function TransferId(f: Frame): u32
  {
    if |f.payload| >= 4 then ReadLe32(f.payload[..4]) else f.requestId
  }

  function ChunkData(f: Frame): bytes
  {
    if |f.payload| >= 4 then f.payload[4..] else f.payload
  }

  /** `handle_file_put_chunk`. */
  function HandleChunk(st: Store, f: Frame, a: Answers): (Store, Frame)
  {
    var (after, ok) := Append(st, TransferId(f), ChunkData(f), a.env);
    (after, if ok then OkReply(f.requestId) else ErrorReply(f.requestId, a.text))
  }

  /** `handle_file_put_end`. */
  function HandleEnd(st: Store, f: Frame, a: Answers): (Store, Frame)
  {
    var (after, outcome) := Finish(st, TransferId(f), a.env);
    (after, if outcome.Published? then OkReply(f.requestId) else ErrorReply(f.requestId, a.text))
  }

  /** The upload branches of `handle_frame`. */
  function HandleUpload(st: Store, f: Frame, a: Answers): (Store, Frame)
    requires IsUpload(f)
  {
    if f.typ == MSG_PUT_BEGIN then HandleBegin(st, f, a)
    else if f.typ == MSG_PUT_CHUNK then HandleChunk(st, f, a)
    else HandleEnd(st, f, a)
  }

  function HelloReply(requestId: u32): Frame
  {
    KvReply(MSG_STATUS, requestId, [Item(KEY_SERVICE, VALUE_SERVICE), Item(KEY_VERSION, VALUE_VERSION)])
  }

  /** `handle_frame`. */
  function HandleFrame(st: Store, f: Frame, a: Answers): (r: (Store, Option<Frame>))
    ensures r.1.Some? ==> HEADER_SIZE + |r.1.value.payload| < U32_MODULUS
  {
    if IsUpload(f) then
      ReplyShape(st, f, a);
      var (after, reply) := HandleUpload(st, f, a);
      (after, Some(reply))
    else if f.typ == MSG_HELLO then
      HelloShape(f.requestId);
      (st, Some(HelloReply(f.requestId)))
    else if f.typ in OTHER_REQUESTS then (st.(fs := a.otherFs), a.otherReply)
    else
      KvReplyShape(MSG_ERROR, f.requestId, [Item(KEY_MESSAGE, a.text)]);
      (st, Some(ErrorReply(f.requestId, a.text)))
  }

  /** The upload handlers on the table in memory. */
  method HandleUploadInPlace(files: FileOps, f: Frame, a: Answers) returns (reply: Frame)
    requires files.Valid() && IsUpload(f)
    modifies files, files.sessions
    ensures files.Valid() && (files.State(), reply) == HandleUpload(old(files.State()), f, a)
  {
    hide Begin, Append, Finish, DecodeCounted, KvReply;
    var ok: bool;
    if f.typ == MSG_PUT_BEGIN {
      var items := DecodeKvAdvancing(f.payload, MAX_KV);
      if items.None? {
        return ErrorReply(f.requestId, a.text);
      }
      var path := KvGet(items.value, KEY_PATH);
      if path.None? {
        return ErrorReply(f.requestId, a.text);
      }
      ok := files.BeginUpload(f.requestId, path.value, KvGet(items.value, KEY_DESIRE), KvGet(items.value, KEY_PERM),
                              a.env);
      reply := if ok then BeganReply(f.requestId) else ErrorReply(f.requestId, a.text);
    } else if f.typ == MSG_PUT_CHUNK {
      ok := files.AppendUploadChunk(TransferId(f), ChunkData(f), a.env);
      reply := if ok then OkReply(f.requestId) else ErrorReply(f.requestId, a.text);
    } else {
      var outcome := files.FinishUpload(TransferId(f), a.env);
      reply := if outcome.Published? then OkReply(f.requestId) else ErrorReply(f.requestId, a.text);
    }
  }

  /** `handle_frame` on the table in memory. */
  method HandleFrameInPlace(files: FileOps, f: Frame, a: Answers) returns (reply: Option<Frame>)
    requires files.Valid()
    modifies files, files.sessions
    ensures files.Valid() && (files.State(), reply) == HandleFrame(old(files.State()), f, a)
  {
    hide HandleUpload, KvReply;
    if IsUpload(f) {
      var r := HandleUploadInPlace(files, f, a);
      reply := Some(r);
    } else if f.typ == MSG_HELLO {
      reply := Some(HelloReply(f.requestId));
    } else if f.typ in OTHER_REQUESTS {
      files.fs := a.otherFs;
      reply := a.otherReply;
    } else {
      reply := Some(ErrorReply(f.requestId, a.text));
    }
  }

  /** No frame, whatever its type and payload, breaks the session table. */
  lemma FrameKeepsTable(st: Store, f: Frame, a: Answers)
    requires TableValid(st.slots) && Paced1M(st.slots)
    ensures TableValid(HandleFrame(st, f, a).0.slots) && Paced1M(HandleFrame(st, f, a).0.slots)
  {
    hide TableValid, Paced1M, Begin, Append, Finish, DecodeCounted, KvGet, KvReply;
    if IsUpload(f) {
      EveryOpKeepsTable(st, AppendOp(TransferId(f), ChunkData(f)), a.env);
      EveryOpKeepsTable(st, EndOp(TransferId(f)), a.env);
      if DecodeKv(f.payload).Some? {
        var items := DecodeKv(f.payload).value;
        var path := KvGet(items, KEY_PATH);
        if path.Some? {
          EveryOpKeepsTable(st, BeginOp(f.requestId, path.value, KvGet(items, KEY_DESIRE), KvGet(items, KEY_PERM)),
                            a.env);
        }
      }
    }
  }

  /** Every reply is a short frame that carries the request's id and an acceptable payload. */
  lemma ReplyShape(st: Store, f: Frame, a: Answers)
    requires IsUpload(f)
    ensures var reply := HandleUpload(st, f, a).1;
            && reply.requestId == f.requestId && |reply.payload| < 1024
            && (reply.typ == MSG_STATUS || reply.typ == MSG_ERROR)
            && DecodeKvHost(reply.payload).Some?
  {
    hide Begin, Append, Finish, DecodeCounted, KvGet, EncodeKv;
    KvReplyShape(MSG_ERROR, f.requestId, [Item(KEY_MESSAGE, a.text)]);
    KvReplyShape(MSG_STATUS, f.requestId, [Item(KEY_STATUS, VALUE_OK)]);
    KvReplyShape(MSG_STATUS, f.requestId, [Item(KEY_STATUS, VALUE_OK), Item(KEY_TRANSFER, VALUE_REQUEST)]);
  }

  lemma HelloShape(requestId: u32)
    ensures |HelloReply(requestId).payload| < 1024
  {
    KvReplyShape(MSG_STATUS, requestId, [Item(KEY_SERVICE, VALUE_SERVICE), Item(KEY_VERSION, VALUE_VERSION)]);
  }

  lemma KvReplyShape(typ: u16, requestId: u32, items: seq<Item>)
    requires 1 <= |items| <= 2 && forall i :: 0 <= i < |items| ==> |items[i].key| < 12 && |items[i].value| < 512
    requires |items| == 2 ==> |items[0].value| + |items[1].value| < 512
    ensures |KvReply(typ, requestId, items).payload| < 1024
    ensures DecodeKvHost(KvReply(typ, requestId, items).payload).Some?
  {
    hide EncodeItem, DecodeKvHost, Le16, Dictionary;
    assert AllShort(items);
    HostReadsDevice(items);
    FrontItem(items[0], items[1..]);
    assert items == [items[0]] + items[1..];
    if |items| == 2 {
      FrontItem(items[1], []);
      assert items[1..] == [items[1]] + [];
    }
  }
}
