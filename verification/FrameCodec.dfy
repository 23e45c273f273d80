/** The 24-byte header and its checked payload, as the C device and the Python host code them. */
module FrameCodec {
  import opened Bytes
  import opened Crc32
  import opened CrcMachine

  const MAGIC: u32 := 0x4550_4153
  const VERSION: u16 := 1
  const HEADER_SIZE: nat := 24
  const MAX_PAYLOAD: nat := 8 * 1024 * 1024

  datatype Frame = Frame(typ: u16, flags: u32, requestId: u32, payload: bytes)

  /** Payloads that both ends are willing to receive. */
  predicate WithinLimit(frames: seq<Frame>)
  {
    forall i :: 0 <= i < |frames| ==> |frames[i].payload| <= MAX_PAYLOAD
  }

  datatype Header = Header(
    magic: u32, version: u16, typ: u16, flags: u32, requestId: u32, payloadLen: u32, payloadCrc: u32)

  function HeaderBytes(h: Header): (r: bytes)
    ensures |r| == HEADER_SIZE
  {
    Le32(h.magic) + Le16(h.version) + Le16(h.typ) + Le32(h.flags) + Le32(h.requestId)
    + Le32(h.payloadLen) + Le32(h.payloadCrc)
  }

  function ParseHeader(raw: bytes): Header
    requires |raw| >= HEADER_SIZE
  {
    Header(ReadLe32(raw[..4]), ReadLe16(raw[4..6]), ReadLe16(raw[6..8]), ReadLe32(raw[8..12]),
           ReadLe32(raw[12..16]), ReadLe32(raw[16..20]), ReadLe32(raw[20..24]))
  }

  function HeaderOf(f: Frame): Header
    requires |f.payload| < U32_MODULUS
  {
    Header(MAGIC, VERSION, f.typ, f.flags, f.requestId, |f.payload|, CrcField(f.payload))
  }

  /** `Frame.encode`: the bytes of a frame on the wire. */
  function Encode(f: Frame): (raw: bytes)
    requires |f.payload| < U32_MODULUS
    ensures |raw| == HEADER_SIZE + |f.payload|
  {
    HeaderBytes(HeaderOf(f)) + f.payload
  }

  /** `decode_frame` of the host: lengths are compared as unbounded integers. */
  function DecodePython(raw: bytes): Option<Frame>
  {
    if |raw| < HEADER_SIZE then None
    else
      var h := ParseHeader(raw);
      if h.magic != MAGIC || h.version != VERSION then None
      else if |raw| != HEADER_SIZE + h.payloadLen then None
      else if CrcField(raw[HEADER_SIZE..]) != h.payloadCrc then None
      else Some(Frame(h.typ, h.flags, h.requestId, raw[HEADER_SIZE..]))
  }

  /** The unsigned sum `24u + payload_len` of the C decoder. */
  function WrappedSize(payloadLen: u32): u32
  {
    (HEADER_SIZE + payloadLen) % U32_MODULUS
  }

  /** The wrapping check accepts exactly the true length, because shorter buffers are already refused. */
  lemma WrappedCheckIsExact(payloadLen: u32, size: nat)
    requires HEADER_SIZE <= size < U32_MODULUS
    ensures WrappedSize(payloadLen) == size <==> HEADER_SIZE + payloadLen == size
  {
  }

  /** `usb_responder_protocol_decode_frame`. */
  function DecodeC(raw: bytes): Option<Frame>
  {
    if |raw| < HEADER_SIZE then None
    else
      var h := ParseHeader(raw);
      if h.magic != MAGIC || h.version != VERSION then None
      else if WrappedSize(h.payloadLen) != |raw| then None
      else
        WrappedCheckIsExact(h.payloadLen, |raw|);
        var payload := raw[HEADER_SIZE..HEADER_SIZE + h.payloadLen];
        if CrcField(payload) != h.payloadCrc then None
        else Some(Frame(h.typ, h.flags, h.requestId, payload))
  }

  // ---- The codecs as the C functions run them ------------------------------------------------

  method WriteLe16(buf: array<byte>, off: nat, v: u16)
    requires off + 2 <= buf.Length
    modifies buf
    ensures buf[..off + 2] == old(buf[..off]) + Le16(v)
    ensures buf[off + 2..] == old(buf[off + 2..])
  {
    buf[off] := v % 256;
    buf[off + 1] := v / 256;
  }

  method WriteLe32(buf: array<byte>, off: nat, v: u32)
    requires off + 4 <= buf.Length
    modifies buf
    ensures buf[..off + 4] == old(buf[..off]) + Le32(v)
    ensures buf[off + 4..] == old(buf[off + 4..])
  {
    WriteLe16(buf, off, v % U16_MODULUS);
    WriteLe16(buf, off + 2, v / U16_MODULUS);
  }

  /** `memcpy(buf + off, src + from, n)`. */
  method CopyBytes(buf: array<byte>, off: nat, src: array<byte>, from: nat, n: nat)
    requires off + n <= buf.Length && from + n <= src.Length && buf != src
    modifies buf
    ensures buf[..off + n] == old(buf[..off]) + src[from..from + n]
    ensures buf[off + n..] == old(buf[off + n..])
  {
    for i := 0 to n
      invariant buf[..off] == old(buf[..off])
      invariant buf[off..off + i] == src[from..from + i]
      invariant buf[off + n..] == old(buf[off + n..])
    {
      buf[off + i] := src[from + i];
      assert buf[off..off + i + 1] == buf[off..off + i] + [buf[off + i]];
      assert src[from..from + i + 1] == src[from..from + i] + [src[from + i]];
    }
    assert buf[..off + n] == buf[..off] + buf[off..off + n];
  }

  method WriteHeader(raw: array<byte>, h: Header)
    requires HEADER_SIZE <= raw.Length
    modifies raw
    ensures raw[..HEADER_SIZE] == HeaderBytes(h)
  {
    hide Le16, Le32;
    WriteLe32(raw, 0, h.magic);
    WriteLe16(raw, 4, h.version);
    WriteLe16(raw, 6, h.typ);
    WriteLe32(raw, 8, h.flags);
    WriteLe32(raw, 12, h.requestId);
    WriteLe32(raw, 16, h.payloadLen);
    WriteLe32(raw, 20, h.payloadCrc);
  }

  /** `usb_responder_protocol_encode_frame`: fills the header field by field, then the payload. */
  method EncodeFrame(typ: u16, flags: u32, requestId: u32, payload: array<byte>, payloadLen: u32)
    returns (raw: array<byte>)
    requires payloadLen <= payload.Length && HEADER_SIZE + payloadLen < U32_MODULUS
    ensures fresh(raw)
    ensures raw[..] == Encode(Frame(typ, flags, requestId, payload[..payloadLen]))
  {
    hide HeaderBytes, FromBits;
    raw := new byte[HEADER_SIZE + payloadLen];
    var crc := ComputeCrc32(payload, payloadLen);
    WordInRange(crc);
    WriteHeader(raw, Header(MAGIC, VERSION, typ, flags, requestId, payloadLen, FromBits(crc)));
    CopyBytes(raw, HEADER_SIZE, payload, 0, payloadLen);
    assert raw[..] == raw[..HEADER_SIZE + payloadLen];
  }

  lemma WordInRange(w: Word)
    ensures FromBits(w) < U32_MODULUS
  {
    BitsInRange(w);
    WordRange();
  }

  /** `usb_responder_protocol_decode_frame` over a C buffer. */
  method DecodeFrame(raw: array<byte>, rawSize: nat) returns (frame: Option<Frame>)
    requires rawSize <= raw.Length
    ensures frame == DecodeC(raw[..rawSize])
  {
    if rawSize < HEADER_SIZE {
      return None;
    }
    var h := ParseHeader(raw[..HEADER_SIZE]);
    assert h == ParseHeader(raw[..rawSize]) by {
      HeaderIsPrefix(raw[..rawSize]);
      assert raw[..rawSize][..HEADER_SIZE] == raw[..HEADER_SIZE];
    }
    if h.magic != MAGIC || h.version != VERSION {
      return None;
    }
    if WrappedSize(h.payloadLen) != rawSize {
      return None;
    }
    WrappedCheckIsExact(h.payloadLen, rawSize);
    var payload := new byte[h.payloadLen];
    CopyBytes(payload, 0, raw, HEADER_SIZE, h.payloadLen);
    SliceOfTake(raw[..], rawSize, HEADER_SIZE, rawSize);
    assert payload[..h.payloadLen] == raw[..][HEADER_SIZE..rawSize] && raw[..][..rawSize] == raw[..rawSize];
    var crc := ComputeCrc32(payload, h.payloadLen);
    if h.payloadCrc != FromBits(crc) {
      return None;
    }
    frame := Some(Frame(h.typ, h.flags, h.requestId, payload[..h.payloadLen]));
  }

  // ---- What the codecs mean ------------------------------------------------------------------

  lemma HeaderIsPrefix(raw: bytes)
    requires |raw| >= HEADER_SIZE
    ensures ParseHeader(raw) == ParseHeader(raw[..HEADER_SIZE])
  {
    var p := raw[..HEADER_SIZE];
    assert raw[..4] == p[..4] && raw[4..6] == p[4..6] && raw[6..8] == p[6..8] && raw[8..12] == p[8..12];
    assert raw[12..16] == p[12..16] && raw[16..20] == p[16..20] && raw[20..24] == p[20..24];
  }

  lemma ParseHeaderBytes(h: Header, tail: bytes)
    ensures ParseHeader(HeaderBytes(h) + tail) == h
  {
    var raw := HeaderBytes(h) + tail;
    assert raw[..4] == Le32(h.magic);
    assert raw[4..6] == Le16(h.version);
    assert raw[6..8] == Le16(h.typ);
    assert raw[8..12] == Le32(h.flags);
    assert raw[12..16] == Le32(h.requestId);
    assert raw[16..20] == Le32(h.payloadLen);
    assert raw[20..24] == Le32(h.payloadCrc);
    hide Le16, Le32, ReadLe16, ReadLe32;
    ReadWrite32(h.magic);
    ReadWrite16(h.version);
    ReadWrite16(h.typ);
    ReadWrite32(h.flags);
    ReadWrite32(h.requestId);
    ReadWrite32(h.payloadLen);
    ReadWrite32(h.payloadCrc);
  }

  lemma HeaderBytesParse(raw: bytes)
    requires |raw| == HEADER_SIZE
    ensures HeaderBytes(ParseHeader(raw)) == raw
  {
    hide Le16, Le32, ReadLe16, ReadLe32;
    WriteRead32(raw[..4]);
    WriteRead16(raw[4..6]);
    WriteRead16(raw[6..8]);
    WriteRead32(raw[8..12]);
    WriteRead32(raw[12..16]);
    WriteRead32(raw[16..20]);
    WriteRead32(raw[20..24]);
    assert raw == raw[..4] + raw[4..6] + raw[6..8] + raw[8..12] + raw[12..16] + raw[16..20] + raw[20..24];
  }

  /** The host accepts exactly the encodings, and the encoding of a frame is its only one. */
  lemma DecodePythonExact(raw: bytes, f: Frame)
    ensures DecodePython(raw) == Some(f) <==> |f.payload| < U32_MODULUS && raw == Encode(f)
  {
    if |f.payload| < U32_MODULUS && raw == Encode(f) {
      ParseHeaderBytes(HeaderOf(f), f.payload);
      assert raw[HEADER_SIZE..] == f.payload;
    }
    if DecodePython(raw) == Some(f) {
      HeaderIsPrefix(raw);
      HeaderBytesParse(raw[..HEADER_SIZE]);
      assert ParseHeader(raw) == HeaderOf(f);
      assert raw == raw[..HEADER_SIZE] + raw[HEADER_SIZE..];
    }
  }

  /** The C decoder agrees with the host on every buffer below 4 GiB and refuses all others. */
  lemma DecodersAgree(raw: bytes)
    ensures DecodeC(raw) == if |raw| < U32_MODULUS then DecodePython(raw) else None
  {
    if HEADER_SIZE <= |raw| < U32_MODULUS {
      var h := ParseHeader(raw);
      WrappedCheckIsExact(h.payloadLen, |raw|);
      if WrappedSize(h.payloadLen) == |raw| {
        assert raw[HEADER_SIZE..HEADER_SIZE + h.payloadLen] == raw[HEADER_SIZE..];
      }
    }
  }

  /** The C decoder accepts exactly the encodings that fit in 32 bits of length. */
  lemma DecodeCExact(raw: bytes, f: Frame)
    ensures DecodeC(raw) == Some(f) <==> HEADER_SIZE + |f.payload| < U32_MODULUS && raw == Encode(f)
  {
    DecodersAgree(raw);
    DecodePythonExact(raw, f);
  }

  /** A burst of at most 32 wrong bits in the payload is refused by both ends. */
  lemma CorruptPayloadRefused(f: Frame, damaged: bytes, p: nat)
    requires |f.payload| < U32_MODULUS && |damaged| == |f.payload| && damaged != f.payload
    requires DifferOnlyInBurst(f.payload, damaged, p)
    ensures DecodePython(HeaderBytes(HeaderOf(f)) + damaged) == None
    ensures DecodeC(HeaderBytes(HeaderOf(f)) + damaged) == None
  {
    var raw := HeaderBytes(HeaderOf(f)) + damaged;
    ParseHeaderBytes(HeaderOf(f), damaged);
    assert raw[HEADER_SIZE..] == damaged;
    BurstDetected(f.payload, damaged, p);
    CrcFieldInjective(f.payload, damaged);
    DecodersAgree(raw);
  }
}
