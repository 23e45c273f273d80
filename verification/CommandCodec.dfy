/** The payloads of command execution: the host's request and the device's result. */
module CommandCodec {
  import opened Bytes
  import opened FrameCodec

  const REQUEST_HEADER: nat := 16
  const RESULT_HEADER: nat := 20

  datatype Request = Request(timeoutMs: u32, maxStdout: u32, maxStderr: u32, command: bytes)

  /** `encode_command_exec` of the host. */
  function EncodeRequest(r: Request): (p: bytes)
    requires |r.command| < U32_MODULUS
    ensures |p| == REQUEST_HEADER + |r.command|
  {
    Le32(r.timeoutMs) + Le32(r.maxStdout) + Le32(r.maxStderr) + Le32(|r.command|) + r.command
  }

  /** `usb_responder_protocol_decode_command_request`; `16u + cmd_len` is a sum of 32 bits. */
  function DecodeRequest(p: bytes): Option<Request>
  {
    if |p| < REQUEST_HEADER then None
    else
      var len := ReadLe32(p[12..16]);
      if (REQUEST_HEADER + len) % U32_MODULUS != |p| then None
      else Some(Request(ReadLe32(p[..4]), ReadLe32(p[4..8]), ReadLe32(p[8..12]), p[16..16 + len]))
  }

  /** The device accepts exactly the encodings whose length fits in 32 bits. */
  lemma DecodeRequestExact(p: bytes, r: Request)
    ensures DecodeRequest(p) == Some(r)
            <==> REQUEST_HEADER + |r.command| < U32_MODULUS && p == EncodeRequest(r)
  {
    if REQUEST_HEADER + |r.command| < U32_MODULUS && p == EncodeRequest(r) {
      ReadEncodedRequest(p, r);
      hide ReadLe32;
      assert p[16..16 + |r.command|] == p[16..] == r.command;
    }
    if DecodeRequest(p) == Some(r) {
      EncodeDecodedRequest(p, r);
    }
  }

  lemma EncodeDecodedRequest(p: bytes, r: Request)
    requires DecodeRequest(p) == Some(r)
    ensures |p| < U32_MODULUS && |p| == REQUEST_HEADER + |r.command| && p == EncodeRequest(r)
  {
    hide Le32, ReadLe32;
    DecodedWords(p, r);
    FourWords(p);
  }

  /** The fields of a decoded request, encoded again. */
  lemma DecodedWords(p: bytes, r: Request)
    requires DecodeRequest(p) == Some(r)
    ensures |p| < U32_MODULUS && |p| == REQUEST_HEADER + |r.command| && r.command == p[16..]
    ensures Le32(r.timeoutMs) == p[..4] && Le32(r.maxStdout) == p[4..8] && Le32(r.maxStderr) == p[8..12]
    ensures Le32(|r.command|) == p[12..16]
  {
    hide Le32, ReadLe32;
    WriteRead32(p[..4]);
    WriteRead32(p[4..8]);
    WriteRead32(p[8..12]);
    WriteRead32(p[12..16]);
  }

  lemma FourWords(p: bytes)
    requires |p| >= 16
    ensures p == p[..4] + p[4..8] + p[8..12] + p[12..16] + p[16..]
  {
    SliceSplit(p, 0, 4, 8);
    SliceSplit(p, 0, 8, 12);
    SliceSplit(p, 0, 12, 16);
    SliceSplit(p, 0, 16, |p|);
  }

  lemma ReadEncodedRequest(p: bytes, r: Request)
    requires |r.command| < U32_MODULUS && p == EncodeRequest(r)
    ensures ReadLe32(p[..4]) == r.timeoutMs && ReadLe32(p[4..8]) == r.maxStdout
    ensures ReadLe32(p[8..12]) == r.maxStderr && ReadLe32(p[12..16]) == |r.command| && p[16..] == r.command
  {
    assert p[..4] == Le32(r.timeoutMs) && p[4..8] == Le32(r.maxStdout);
    assert p[8..12] == Le32(r.maxStderr) && p[12..16] == Le32(|r.command|);
    ReadWrite32(r.timeoutMs);
    ReadWrite32(r.maxStdout);
    ReadWrite32(r.maxStderr);
    ReadWrite32(|r.command|);
  }

  type i32 = x: int | -0x8000_0000 <= x < 0x8000_0000

  datatype Result = Result(exitCode: i32, timedOut: bool, durationMs: u32, stdout: bytes, stderr: bytes)

  /** `(uint32_t)x` and `(int32_t)u`: two's complement. */
  function ToUnsigned(x: i32): u32
  {
    if x < 0 then x + U32_MODULUS else x
  }

  function ToSigned(u: u32): i32
  {
    if u < 0x8000_0000 then u else u - U32_MODULUS
  }

  /** `usb_responder_protocol_encode_command_result`; the stream lengths are cut to 32 bits. */
  function EncodeResult(r: Result): bytes
  {
    Le32(ToUnsigned(r.exitCode)) + [if r.timedOut then 1 else 0, 0, 0, 0] + Le32(r.durationMs)
    + Le32(|r.stdout| % U32_MODULUS) + Le32(|r.stderr| % U32_MODULUS) + r.stdout + r.stderr
  }

  /** `decode_command_result` of the host. */
  function DecodeResult(d: bytes): Option<Result>
  {
    if |d| < RESULT_HEADER then None
    else
      var outLen, errLen := ReadLe32(d[12..16]), ReadLe32(d[16..20]);
      if |d| != RESULT_HEADER + outLen + errLen then None
      else Some(Result(ToSigned(ReadLe32(d[..4])), d[4] != 0, ReadLe32(d[8..12]),
                       d[20..20 + outLen], d[20 + outLen..]))
  }

  lemma ReadEncodedResult(r: Result)
    ensures var d := EncodeResult(r);
            && |d| == RESULT_HEADER + |r.stdout| + |r.stderr|
            && ReadLe32(d[..4]) == ToUnsigned(r.exitCode)
            && d[4] == (if r.timedOut then 1 else 0)
            && ReadLe32(d[8..12]) == r.durationMs
            && ReadLe32(d[12..16]) == |r.stdout| % U32_MODULUS
            && ReadLe32(d[16..20]) == |r.stderr| % U32_MODULUS
            && d[20..] == r.stdout + r.stderr
  {
    var d := EncodeResult(r);
    var a, b, c := Le32(ToUnsigned(r.exitCode)), [if r.timedOut then 1 else 0, 0, 0, 0], Le32(r.durationMs);
    var e, f := Le32(|r.stdout| % U32_MODULUS), Le32(|r.stderr| % U32_MODULUS);
    ReadWrite32(ToUnsigned(r.exitCode));
    ReadWrite32(r.durationMs);
    ReadWrite32(|r.stdout| % U32_MODULUS);
    ReadWrite32(|r.stderr| % U32_MODULUS);
    hide Le32, ReadLe32;
    assert d == a + b + c + e + f + (r.stdout + r.stderr);
    FiveWords(a, b, c, e, f, r.stdout + r.stderr);
  }

  lemma FiveWords(a: bytes, b: bytes, c: bytes, e: bytes, f: bytes, rest: bytes)
    requires |a| == |b| == |c| == |e| == |f| == 4
    ensures var d := a + b + c + e + f + rest;
            && d[..4] == a && d[4] == b[0] && d[8..12] == c && d[12..16] == e && d[16..20] == f && d[20..] == rest
  {
  }

  /** The host recovers every field of a result, sign included, exactly when no length was cut. */
  lemma ResultRoundTrip(r: Result)
    ensures DecodeResult(EncodeResult(r)) == Some(r) <==> |r.stdout| < U32_MODULUS && |r.stderr| < U32_MODULUS
  {
    var d := EncodeResult(r);
    ReadEncodedResult(r);
    hide ReadLe32, EncodeResult;
    if |r.stdout| < U32_MODULUS && |r.stderr| < U32_MODULUS {
      assert d[20..20 + |r.stdout|] == d[20..][..|r.stdout|] == r.stdout;
      assert d[20 + |r.stdout|..] == d[20..][|r.stdout|..] == r.stderr;
    }
  }

  // ---- The codecs over buffers ---------------------------------------------------------------

  /** The sixteen bytes in front of the command. */
  method WriteRequestHeader(out: array<byte>, timeoutMs: u32, maxStdout: u32, maxStderr: u32, len: u32)
    requires REQUEST_HEADER <= out.Length
    modifies out
    ensures out[..REQUEST_HEADER] == Le32(timeoutMs) + Le32(maxStdout) + Le32(maxStderr) + Le32(len)
  {
    hide Le32;
    WriteLe32(out, 0, timeoutMs);
    WriteLe32(out, 4, maxStdout);
    WriteLe32(out, 8, maxStderr);
    WriteLe32(out, 12, len);
  }

  /** `usb_responder_protocol_encode_command_request`; a length above 32 bits is cut in its field. */
  method EncodeRequestBuffer(timeoutMs: u32, maxStdout: u32, maxStderr: u32, command: array<byte>)
    returns (out: array<byte>)
    ensures fresh(out)
    ensures out[..] == Le32(timeoutMs) + Le32(maxStdout) + Le32(maxStderr)
                       + Le32(command.Length % U32_MODULUS) + command[..]
    ensures command.Length < U32_MODULUS ==>
              out[..] == EncodeRequest(Request(timeoutMs, maxStdout, maxStderr, command[..]))
  {
    hide Le32;
    out := new byte[REQUEST_HEADER + command.Length];
    WriteRequestHeader(out, timeoutMs, maxStdout, maxStderr, command.Length % U32_MODULUS);
    CopyBytes(out, REQUEST_HEADER, command, 0, command.Length);
    assert out[..] == out[..REQUEST_HEADER + command.Length] && command[0..command.Length] == command[..];
  }

  /** `usb_responder_protocol_decode_command_request` over a C buffer. */
  method DecodeRequestBuffer(payload: array<byte>, payloadSize: nat) returns (r: Option<Request>)
    requires payloadSize <= payload.Length
    ensures r == DecodeRequest(payload[..payloadSize])
  {
    hide ReadLe32;
    if payloadSize < REQUEST_HEADER {
      return None;
    }
    ghost var all := payload[..payloadSize];
    assert payload[0..4] == all[..4] && payload[4..8] == all[4..8] && payload[8..12] == all[8..12];
    assert payload[12..16] == all[12..16];
    var timeoutMs, maxStdout := ReadLe32(payload[0..4]), ReadLe32(payload[4..8]);
    var maxStderr, len := ReadLe32(payload[8..12]), ReadLe32(payload[12..16]);
    if (REQUEST_HEADER + len) % U32_MODULUS != payloadSize {
      return None;
    }
    assert REQUEST_HEADER + len == payloadSize;
    var command := new byte[len + 1];
    CopyBytes(command, 0, payload, REQUEST_HEADER, len);
    command[len] := 0;
    assert command[..len] == all[16..16 + len];
    r := Some(Request(timeoutMs, maxStdout, maxStderr, command[..len]));
  }

  /** The twenty bytes in front of the two streams. */
  method WriteResultHeader(out: array<byte>, exitCode: i32, timedOut: bool, durationMs: u32, outLen: u32, errLen: u32)
    requires RESULT_HEADER <= out.Length
    modifies out
    ensures out[..RESULT_HEADER] == Le32(ToUnsigned(exitCode)) + [if timedOut then 1 else 0, 0, 0, 0]
                                    + Le32(durationMs) + Le32(outLen) + Le32(errLen)
  {
    hide Le32, ToUnsigned;
    WriteLe32(out, 0, ToUnsigned(exitCode));
    out[4] := if timedOut then 1 else 0;
    out[5] := 0;
    out[6] := 0;
    out[7] := 0;
    assert out[..8] == out[..4] + [out[4], out[5], out[6], out[7]];
    WriteLe32(out, 8, durationMs);
    WriteLe32(out, 12, outLen);
    WriteLe32(out, 16, errLen);
  }

  /** `usb_responder_protocol_encode_command_result`. */
  method EncodeResultBuffer(exitCode: i32, timedOut: bool, durationMs: u32, stdout: array<byte>, stderr: array<byte>)
    returns (out: array<byte>)
    ensures fresh(out)
    ensures out[..] == EncodeResult(Result(exitCode, timedOut, durationMs, stdout[..], stderr[..]))
  {
    hide Le32;
    out := new byte[RESULT_HEADER + stdout.Length + stderr.Length];
    WriteResultHeader(out, exitCode, timedOut, durationMs, stdout.Length % U32_MODULUS, stderr.Length % U32_MODULUS);
    CopyBytes(out, RESULT_HEADER, stdout, 0, stdout.Length);
    CopyBytes(out, RESULT_HEADER + stdout.Length, stderr, 0, stderr.Length);
    assert stdout[0..stdout.Length] == stdout[..] && stderr[0..stderr.Length] == stderr[..];
    assert out[..] == out[..RESULT_HEADER + stdout.Length + stderr.Length];
  }
}
