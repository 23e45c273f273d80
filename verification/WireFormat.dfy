/** The bytes on the wire, spelled out: numbers, headers, payloads and the words in them. */
module WireFormat {
  import opened Bytes
  import opened Crc32
  import opened CrcMachine
  import opened FrameCodec
  import opened KvCodec
  import opened CommandCodec
  import opened FileSystem
  import opened Uploads
  import opened Handlers
  import opened UploadSequence

  /** A text of the protocol. */
  function Ascii(s: string): bytes
    requires forall i :: 0 <= i < |s| ==> s[i] < 128 as char
  {
    seq(|s|, i requires 0 <= i < |s| => s[i] as int)
  }

  /** Sixteen and thirty-two bits, least significant byte first. */
  function Short16(v: u16): bytes
  {
    [v % 0x100, v / 0x100]
  }

  function Word32(v: u32): bytes
  {
    [v % 0x100, v / 0x100 % 0x100, v / 0x1_0000 % 0x100, v / 0x100_0000]
  }

  lemma NumbersOnTheWire(v: u16, w: u32)
    ensures Le16(v) == Short16(v) && Le32(w) == Word32(w)
  {
    LowHalf(w);
    HighHalf(w);
  }

  lemma LowHalf(w: nat)
    ensures w % 0x1_0000 % 0x100 == w % 0x100 && w % 0x1_0000 / 0x100 == w / 0x100 % 0x100
  {
    var h, l := w / 0x1_0000, w % 0x1_0000;
    assert w == 0x1_0000 * h + l;
    var m, b := l / 0x100, l % 0x100;
    assert w == 0x100 * (0x100 * h + m) + b;
    assert w / 0x100 == 0x100 * h + m && w % 0x100 == b;
  }

  lemma HighHalf(w: nat)
    ensures w / 0x1_0000 / 0x100 == w / 0x100_0000
  {
  }

  // ---- Frames --------------------------------------------------------------------------------

  /** Every frame: the letters SAPE, version 1, type, flags, request id, length and checksum. */
  lemma FrameOnTheWire(f: Frame)
    requires |f.payload| < U32_MODULUS
    ensures Encode(f) == [0x53, 0x41, 0x50, 0x45] + [1, 0] + Short16(f.typ) + Word32(f.flags) + Word32(f.requestId)
                         + Word32(|f.payload|) + Word32(CrcField(f.payload)) + f.payload
    ensures Ascii("SAPE") == [0x53, 0x41, 0x50, 0x45]
  {
    HeaderWords(HeaderOf(f));
    MagicWord();
    hide Le16, Le32, Word32, Short16, CrcField, HeaderBytes;
    assert HeaderOf(f).payloadLen == |f.payload|;
  }

  lemma HeaderWords(h: Header)
    ensures HeaderBytes(h) == Word32(h.magic) + Short16(h.version) + Short16(h.typ) + Word32(h.flags)
                              + Word32(h.requestId) + Word32(h.payloadLen) + Word32(h.payloadCrc)
  {
    NumbersOnTheWire(h.version, h.magic);
    NumbersOnTheWire(h.typ, h.flags);
    NumbersOnTheWire(0, h.requestId);
    NumbersOnTheWire(0, h.payloadLen);
    NumbersOnTheWire(0, h.payloadCrc);
    hide Le16, Le32, Word32, Short16;
  }

  lemma MagicWord()
    ensures Word32(MAGIC) == [0x53, 0x41, 0x50, 0x45] == Ascii("SAPE") && Short16(VERSION) == [1, 0]
  {
  }

  /** The checksum of no payload at all is 0. */
  lemma EmptyChecksum()
    ensures CrcField([]) == 0
  {
    assert Crc([]) == Zeros(32);
    ValueOfDigits(Zeros(32));
    hide FromBits;
  }

  /** A HELLO, field by field. */
  lemma HelloOnTheWire()
    ensures Encode(Frame(1, 0, 7, []))
         == [0x53, 0x41, 0x50, 0x45] + [1, 0] + [1, 0] + [0, 0, 0, 0] + [7, 0, 0, 0] + [0, 0, 0, 0] + [0, 0, 0, 0] + []
  {
    EmptyChecksum();
    FrameOnTheWire(Frame(1, 0, 7, []));
    DigitWords();
    hide Encode, CrcField, Word32, Short16;
  }

  /** A chunk that carries the digits 1 to 9, field by field. */
  lemma DigitsOnTheWire()
    ensures Encode(Frame(11, 0, 0x0102_0304, [0x31, 0x32, 0x33, 0x34, 0x35, 0x36, 0x37, 0x38, 0x39]))
         == [0x53, 0x41, 0x50, 0x45] + [1, 0] + [11, 0] + [0, 0, 0, 0] + [4, 3, 2, 1] + [9, 0, 0, 0]
            + [0x26, 0x39, 0xF4, 0xCB] + [0x31, 0x32, 0x33, 0x34, 0x35, 0x36, 0x37, 0x38, 0x39]
  {
    CheckValue();
    var digits := [0x31, 0x32, 0x33, 0x34, 0x35, 0x36, 0x37, 0x38, 0x39];
    FrameOnTheWire(Frame(11, 0, 0x0102_0304, digits));
    DigitWords();
    hide Encode, CrcField, Word32, Short16;
    assert |digits| == 9;
  }

  lemma DigitWords()
    ensures Short16(1) == [1, 0] && Short16(11) == [11, 0] && Word32(7) == [7, 0, 0, 0]
    ensures Word32(0) == [0, 0, 0, 0] && Word32(9) == [9, 0, 0, 0]
    ensures Word32(0x0102_0304) == [4, 3, 2, 1] && Word32(0xCBF4_3926) == [0x26, 0x39, 0xF4, 0xCB]
  {
  }

  // ---- Payloads ------------------------------------------------------------------------------

  /** An entry: both lengths, then the key and the value. */
  lemma EntryOnTheWire(it: Item)
    requires |it.key| < 0x1_0000 && |it.value| < 0x1_0000
    ensures EncodeItem(it) == Short16(|it.key|) + Short16(|it.value|) + it.key + it.value
  {
    NumbersOnTheWire(|it.key|, 0);
    NumbersOnTheWire(|it.value|, 0);
    hide Le16, Short16, Le32, Word32;
    assert it.key[..|it.key|] == it.key && it.value[..|it.value|] == it.value;
    assert |it.key| % U16_MODULUS == |it.key| && |it.value| % U16_MODULUS == |it.value|;
  }

  /** A list: the number of entries, then one entry after the other. */
  lemma EntriesOnTheWire(it: Item, more: seq<Item>)
    ensures EncodeItems([]) == [] && EncodeItems([it] + more) == EncodeItem(it) + EncodeItems(more)
    ensures |more| <= 32 ==> EncodeKv(more) == Some(Short16(|more|) + EncodeItems(more))
    ensures |more| > 32 ==> EncodeKv(more) == None
  {
    assert ([it] + more)[1..] == more;
    if |more| <= 32 {
      NumbersOnTheWire(|more|, 0);
    }
    hide EncodeItem, Le16;
  }

  lemma CommandOnTheWire(r: Request)
    requires |r.command| < U32_MODULUS
    ensures EncodeRequest(r)
         == Word32(r.timeoutMs) + Word32(r.maxStdout) + Word32(r.maxStderr) + Word32(|r.command|) + r.command
  {
    NumbersOnTheWire(0, r.timeoutMs);
    NumbersOnTheWire(0, r.maxStdout);
    NumbersOnTheWire(0, r.maxStderr);
    NumbersOnTheWire(0, |r.command|);
    hide Le32;
  }

  /** A result: the exit code in two's complement, the flag in four bytes, the duration, both lengths cut to
      32 bits, and both streams. */
  lemma ResultOnTheWire(r: Result)
    ensures EncodeResult(r)
         == Word32(if r.exitCode < 0 then r.exitCode + 0x1_0000_0000 else r.exitCode)
            + [if r.timedOut then 1 else 0, 0, 0, 0] + Word32(r.durationMs)
            + Word32(|r.stdout| % 0x1_0000_0000) + Word32(|r.stderr| % 0x1_0000_0000) + r.stdout + r.stderr
  {
    NumbersOnTheWire(0, if r.exitCode < 0 then r.exitCode + 0x1_0000_0000 else r.exitCode);
    NumbersOnTheWire(0, r.durationMs);
    NumbersOnTheWire(0, |r.stdout| % 0x1_0000_0000);
    NumbersOnTheWire(0, |r.stderr| % 0x1_0000_0000);
    hide Le32;
  }

  // ---- Requests and replies ------------------------------------------------------------------

  lemma Words()
    ensures KEY_PATH == Ascii("path") && KEY_DESIRE == Ascii("desire_storage") && KEY_PERM == Ascii("perm")
    ensures KEY_STATUS == Ascii("status") && VALUE_OK == Ascii("ok") && KEY_MESSAGE == Ascii("message")
    ensures KEY_TRANSFER == Ascii("transfer_id") && VALUE_REQUEST == Ascii("request_id")
    ensures KEY_SERVICE == Ascii("service") && VALUE_SERVICE == Ascii("usb_responder")
    ensures KEY_VERSION == Ascii("version") && VALUE_VERSION == Ascii("1")
  {
  }

  /** The requests of an upload. */
  lemma UploadOnTheWire(p: Put, piece: bytes)
    requires CanSend(p)
    ensures BeginFrame(p).typ == 10 && BeginFrame(p).flags == 0 && BeginFrame(p).requestId == p.rid
    ensures BeginFrame(p).payload
         == Short16(1 + (if p.desire != [] then 1 else 0) + (if p.perm != [] then 1 else 0))
            + EncodeItems([Item(Ascii("path"), p.path)]
                          + (if p.desire != [] then [Item(Ascii("desire_storage"), p.desire)] else [])
                          + (if p.perm != [] then [Item(Ascii("perm"), p.perm)] else []))
    ensures ChunkFrame(p.rid, piece) == Frame(11, 0, p.rid, Word32(p.rid) + piece)
    ensures EndFrame(p.rid) == Frame(12, 0, p.rid, Word32(p.rid))
  {
    Words();
    hide Ascii, EncodeItems, Le16, Le32;
    NumbersOnTheWire(|Items(p)|, p.rid);
  }

  lemma ReplyRead(typ: u16, rid: u32, items: seq<Item>)
    requires 1 <= |items| <= 2 && forall i :: 0 <= i < |items| ==> |items[i].key| < 12 && |items[i].value| < 512
    ensures DecodeKvHost(KvReply(typ, rid, items).payload) == Some(Dictionary(items))
    ensures KvReply(typ, rid, items).typ == typ && KvReply(typ, rid, items).requestId == rid
    ensures KvReply(typ, rid, items).flags == 0
  {
    hide EncodeItem, DecodeKvHost, Le16, Dictionary;
    assert AllShort(items);
    HostReadsDevice(items);
  }

  lemma SmallDictionaries(a: Item, b: Item)
    ensures Dictionary([a]) == map[a.key := a.value]
    ensures Dictionary([a, b]) == map[a.key := a.value][b.key := b.value]
  {
    assert [a][..0] == [] && [a, b][..1] == [a];
  }

  /** What the host reads out of the replies; the words are those of `Words`. */
  lemma OkRead(rid: u32)
    ensures OkReply(rid).typ == 2 && OkReply(rid).requestId == rid
    ensures DecodeKvHost(OkReply(rid).payload) == Some(map[KEY_STATUS := VALUE_OK])
  {
    ReplyRead(2, rid, [Item(KEY_STATUS, VALUE_OK)]);
    SmallDictionaries(Item(KEY_STATUS, VALUE_OK), Item(KEY_STATUS, VALUE_OK));
    hide KvReply, DecodeKvHost, Dictionary;
  }

  lemma BeganRead(rid: u32)
    ensures BeganReply(rid).typ == 2 && BeganReply(rid).requestId == rid
    ensures DecodeKvHost(BeganReply(rid).payload) == Some(map[KEY_STATUS := VALUE_OK][KEY_TRANSFER := VALUE_REQUEST])
  {
    ReplyRead(2, rid, [Item(KEY_STATUS, VALUE_OK), Item(KEY_TRANSFER, VALUE_REQUEST)]);
    SmallDictionaries(Item(KEY_STATUS, VALUE_OK), Item(KEY_TRANSFER, VALUE_REQUEST));
    hide KvReply, DecodeKvHost, Dictionary;
  }

  lemma ErrorRead(rid: u32, text: Text)
    ensures ErrorReply(rid, text).typ == 3 && ErrorReply(rid, text).requestId == rid
    ensures DecodeKvHost(ErrorReply(rid, text).payload) == Some(map[KEY_MESSAGE := text])
  {
    ReplyRead(3, rid, [Item(KEY_MESSAGE, text)]);
    SmallDictionaries(Item(KEY_MESSAGE, text), Item(KEY_MESSAGE, text));
    hide KvReply, DecodeKvHost, Dictionary;
  }

  lemma HelloRead(rid: u32)
    ensures HelloReply(rid).typ == 2 && HelloReply(rid).requestId == rid
    ensures DecodeKvHost(HelloReply(rid).payload)
         == Some(map[KEY_SERVICE := VALUE_SERVICE][KEY_VERSION := VALUE_VERSION])
  {
    ReplyRead(2, rid, [Item(KEY_SERVICE, VALUE_SERVICE), Item(KEY_VERSION, VALUE_VERSION)]);
    SmallDictionaries(Item(KEY_SERVICE, VALUE_SERVICE), Item(KEY_VERSION, VALUE_VERSION));
    hide KvReply, DecodeKvHost, Dictionary;
  }

  /** The types of the requests that the device knows. */
  const KNOWN: set<u16> := {1, 10, 11, 12, 13, 14, 15, 16, 17, 18, 20, 30}

  /** Every frame: HELLO and unsupported types are answered without touching anything, the uploads by the
      upload handlers, and no other request touches the session table. */
  lemma DispatchExactly(st: Store, f: Frame, a: Answers)
    ensures f.typ == 1 ==>
              var (after, reply) := HandleFrame(st, f, a);
              && after == st && reply.Some? && reply.value.typ == 2 && reply.value.requestId == f.requestId
              && DecodeKvHost(reply.value.payload)
                 == Some(map[KEY_SERVICE := VALUE_SERVICE][KEY_VERSION := VALUE_VERSION])
    ensures f.typ in {10, 11, 12} ==>
              IsUpload(f) && HandleFrame(st, f, a) == (HandleUpload(st, f, a).0, Some(HandleUpload(st, f, a).1))
    ensures f.typ !in KNOWN ==>
              var (after, reply) := HandleFrame(st, f, a);
              && after == st && reply.Some? && reply.value.typ == 3 && reply.value.requestId == f.requestId
              && DecodeKvHost(reply.value.payload) == Some(map[KEY_MESSAGE := a.text])
    ensures f.typ !in {10, 11, 12} ==> HandleFrame(st, f, a).0.slots == st.slots
  {
    HelloRead(f.requestId);
    ErrorRead(f.requestId, a.text);
    hide KvReply, DecodeKvHost, HandleUpload, HelloReply, ErrorReply;
  }

  /** A BEGIN whose payload cannot be read, or has no path in it, is refused and touches nothing. */
  lemma MalformedBegin(st: Store, f: Frame, a: Answers)
    requires f.typ == 10
    requires DecodeKv(f.payload).None? || KvGet(DecodeKv(f.payload).value, KEY_PATH).None?
    ensures HandleUpload(st, f, a) == (st, ErrorReply(f.requestId, a.text))
  {
    hide DecodeCounted, KvGet, KvReply;
  }
}
