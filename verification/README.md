# USB responder: a verified model

The repository is a file and command service over two USB bulk endpoints: a C daemon on the device (`src/`) and a
Python client on the host (`pyhost/`). Frames have a 24-byte header, a payload and a CRC-32; uploads go into `.part`
files and are renamed into place. This project models both ends and proves that they compose: the bytes of a local
file that `file_put` sends arrive, through USB packets, the receive buffer, the event loop, the frame handlers and the
session table, as the content of the final path, and it states exactly when they do not.

`dafny verify dfyconfig.toml` checks the whole project.

## How the model is laid out

From the wire upwards, one module a file:

- `Bytes`, `Crc32`, `CrcMachine`, `CrcPolynomial`: little-endian integers and C strings; the bitwise CRC on machine
  words, the table-driven CRC of section 8 of RFC 1952, and division of polynomials over GF(2).
- `FrameCodec`, `KvCodec`, `CommandCodec`: the codecs of both languages, with the 16- and 32-bit truncations and
  wrapping sums of the C code written out.
- `WireFormat`: the bytes of frames, payloads and replies spelled out, and which request gets which reply.
- `UsbTransport`, `HostClient`: packets as in section 5.8.3 of USB 2.0 (a bulk transfer ends when the request is full
  or a short packet arrives), the zero-length-packet rules of both ends, the client's reader and writer.
- `IoUtils`, `Reassembly`: reads and writes that move less than asked, the simple frame reader, and the receive buffer
  that refines it.
- `Paths`, `FileSystem`, `TreeOps`: the path normaliser, a map from absolute paths to directories, files and symbolic
  links, recursive delete and parent-creating mkdir.
- `RequestChecks`, `UploadResults`: exactly which paths, storages and permissions are accepted, and exactly what CHUNK,
  END and an abort answer and leave behind.
- `Uploads`, `UploadTable`, `UploadIsolation`: the sixteen upload sessions, what every operation keeps about the
  table, and the refinement to a store in which an upload is private until it is published whole.
- `Handlers`, `Responder`, `LoopEvents`: from frames to table operations and replies, the event loop with endpoints that
  are enabled and disabled at any time, and what each kind of turn does.
- `Clashes`: exactly which BEGINs harm other uploads, and exactly which chunks may do without a transfer id.
- `UploadSequence`, `EndToEnd`, `UsbUpload`, `UploadOutcome`, `UploadSeries`, `FilePut`: the frames of one `file_put`;
  the end-to-end theorem over an arbitrarily chunked byte stream; the same over USB in lockstep; what a reported success
  is worth when system calls fail; the first upload, a series and a retry; and `file_put` itself against the device in
  memory.
- `ShellExec`: shell capture with a deadline, escalation of signals and bounded output.

Code that changes state is modelled as classes and methods (`Receiver`, `FileOps`, `Client`, `Runtime`, `Session`,
`Disk`, `ByteBuffer`), each proved equal to a function on values about which the theorems are stated. What the
environment decides (how `poll`, `read`, `write`, `open`, `rename`, `chmod`, `unlink`, `waitpid` and the clock answer)
is a parameter, and the theorems hold for all its values.

## Findings

- **A request frame whose length is a positive multiple of 16384 bytes breaks the connection.** The host ends it with
  a zero-length packet, the device's full reads do not absorb that packet, and the next `read` returns 0, which the
  device takes for the end of the endpoint: it closes both endpoints, and the host times out.
  `UsbUpload.UploadOverUsb` shows that an upload completes if and only if none of its frames is above 8 MiB and none
  but the last has such a length; `UsbUpload.Flows` states this as arithmetic on the sizes the caller knows. The
  default chunk size is affected: in `UploadSeries.DefaultChunkStalls`, the upload of a file of 16356 bytes, all the
  bytes arrive in the `.part` file and only END is left without a reply.
- **A chunk without a transfer id loses bytes or goes astray.** `PROTOCOL.md:98` makes the id optional; the code takes
  the first four bytes of every chunk of at least four bytes for one (`src/responder.c:366-370`).
  `Clashes.BareChunkExactly`: such a chunk is added to its sender's upload if and only if it has fewer than four bytes.
  `Clashes.BareChunkGoesTo`: any other goes, four bytes short, to the upload that its first bytes name, so that
  isolation, which holds for the operations of the table, does not hold for such frames; `Clashes.BareChunkWitness`
  is a byte sent for one upload that ends up in another and is acknowledged.
- **Uploads that work on one another's names wrong each other.** A BEGIN is harmless to the other open uploads if and
  only if neither of its names, the final path and the `.part` file, is a name of one of them
  (`Clashes.SeparateExactly`). Each of the three ways to fail has its lemma and its input: `Clashes.SameFinalWitness`,
  `Clashes.TempIsFinalWitness` and `Clashes.StolenWitness`. In the last, an upload to `x.part` while another is open
  on `x`, the END of the latter reports success although its data is gone.
- **BEGIN empties a finished file whose name is the new upload's `.part` file.** `UploadIsolation.BeginEmptiesExactly`:
  a BEGIN changes a file that is no open upload's private one if and only if it succeeds, takes that name for its own
  private file, and the file is not empty already. `Clashes.FinishedFileEmptied` is the BEGIN of `x`, as the first
  request after start-up, that empties a finished `x.part`.
- A chunk size of zero makes `file_put` report success for an empty file. `UploadSeries.FirstUploadCopies` says exactly
  when the local file is copied, `UploadSeries.ZeroChunkCopiesNothing` is the upload that is not.
- A response above 8 MiB leaves the client stuck: it refuses the header, does not drop it, and refuses it again at
  every later receive. `HostClient.LockstepRun` says that a receive returns the frame sent if and only if every
  response so far is within the limit.
- The deadline of a shell command does not bound the loop: once the child is collected, a process that keeps a pipe
  open keeps the loop going, without a signal or a reported timeout. `ShellExec.AfterReaping` says exactly when the loop
  goes on and when a timeout is reported; `ShellExec.OrphanKeepsLoop` is a deadline of one second and any number of
  further turns.
- `PROTOCOL.md:195` forbids paths that start with `/`; the code skips leading slashes (`src/file_ops.c:98-100`), so
  that one makes no difference (`Paths.LeadingSlashIgnored`).

## Model

| member | source | states |
|---|---|---|
| CrcMachine.ComputeCrc32 | src/crc32.c:3-12 | the nested loops on 32-bit machine words, with the constants of the source, compute the table-driven CRC of RFC 1952, section 8, of the buffer |
| CrcMachine.StepOfBits | src/crc32.c:8 | the shift, mask and xor of the source on a machine word are one step of the specified register |
| CrcMachine.CheckValue | src/crc32.c:3-12 | the checksum of the digits 1 to 9 is 0xCBF43926, the check value of this CRC |
| Crc32.CrcIsRfcCrc | src/crc32.c:3-12 | bitwise and table-driven CRC agree on every byte string |
| Crc32.PolynomialValue | src/crc32.c:8 | the polynomial word is 0xEDB88320 |
| Crc32.StartValue | src/crc32.c:4 | the start word, which is also added at the end, is 0xFFFFFFFF |
| Crc32.RegisterIsBitSerial | src/crc32.c:5-10 | byte-wise processing equals feeding the message bit by bit, least significant bit first |
| Crc32.BitStepLinear | src/crc32.c:8 | one register step is linear over GF(2) |
| Crc32.RegisterLinear | src/crc32.c:5-10 | the register after a xor of start words and messages is the xor of the registers |
| Crc32.CrcAffine | src/crc32.c:3-12 | for equal lengths, the xor of three checksums is the checksum of the xor of the messages |
| Crc32.RunBackwards | src/crc32.c:5-10 | over at most 32 bits only one start word reaches zero: the register step can be undone |
| Crc32.BurstDetected | src/crc32.c:3-12 | different messages that differ only within 32 consecutive bits have different checksums |
| Crc32.CrcFieldInjective | src/crc32.c:11 | the checksum as a 32-bit number loses nothing |
| CrcPolynomial.RegisterDivides | src/crc32.c:5-10 | the register is the remainder of the message polynomial, with the quotient exhibited |
| CrcPolynomial.RemainderUnique | src/crc32.c:5-10 | quotient and remainder of that division are unique |
| CrcPolynomial.CrcIsRemainder | src/crc32.c:3-12 | a word is the remainder of the message, its first 32 coefficients inverted, if and only if it differs from the checksum in every bit |
| FrameCodec.EncodeFrame | src/protocol.c:72-104 | the buffer filled field by field is the host's encoding of the frame |
| FrameCodec.DecodeFrame | src/protocol.c:106-149 | the C decoder over a buffer equals the specified decoder on its first `rawSize` bytes |
| FrameCodec.WrappedCheckIsExact | src/protocol.c:127-132 | for buffers from a header up to 4 GiB the wrapping sum of header size and `payload_len` accepts exactly the true length |
| FrameCodec.ParseHeaderBytes | pyhost/protocol.py:45-55 | every header field is read back from its bytes, whatever follows |
| FrameCodec.DecodePythonExact | pyhost/protocol.py:42-69 | the host decodes a buffer to a frame if and only if it is the encoding of that frame |
| FrameCodec.DecodersAgree | src/protocol.c:106-149 | the C decoder equals the host's below 4 GiB and refuses everything else |
| FrameCodec.DecodeCExact | src/protocol.c:106-149 | the device decodes a buffer to a frame if and only if it is its encoding and fits in 32 bits |
| FrameCodec.CorruptPayloadRefused | src/protocol.c:142-147 | both decoders refuse a payload damaged within a burst of 32 bits |
| WireFormat.FrameOnTheWire | src/protocol.c:72-104 | every frame is the letters SAPE, version 1, type, flags, id, length and checksum, least significant bytes first, and the payload |
| WireFormat.DigitsOnTheWire | src/protocol.c:72-104 | a chunk with the digits 1 to 9, field by field |
| WireFormat.HelloOnTheWire | src/protocol.c:72-104 | a HELLO, field by field; the checksum of no payload is 0 |
| WireFormat.EntryOnTheWire | src/protocol.c:204-241 | a short entry is both lengths, the key and the value |
| WireFormat.EntriesOnTheWire | src/protocol.c:204-241 | a payload is the number of entries, at most 32, and one entry after the other |
| KvCodec.ByteBuffer.Append | src/protocol.c:34-51 | the doubling buffer keeps its content and appends exactly the given bytes |
| KvCodec.EncodeKvBuffered | src/protocol.c:204-241 | the encoder over the growing buffer yields the specified payload, or nothing above 32 entries |
| KvCodec.DecodeKvAdvancing | src/protocol.c:243-285 | the advancing decoder equals the specified decoder for any capacity |
| KvCodec.DecodeKvIntoDict | pyhost/protocol.py:82-102 | the host's loop builds the dictionary of the decoded entries, last entry winning |
| KvCodec.DecodeEncoded | src/protocol.c:204-285 | every accepted list is parseable; texts come back modulo 65536 in length, short ones unchanged |
| KvCodec.DecodeKvExact | src/protocol.c:243-285 | a payload decodes to a list if and only if it is the encoding of that list of short entries |
| KvCodec.ReencodeAccepted | src/protocol.c:204-285 | re-encoding the C-string view of an accepted payload gives it back exactly when it has no NUL |
| KvCodec.FirstMatchIsDictionary | src/responder.c:320-327 | with distinct NUL-free keys the device's first match is the host's dictionary entry |
| KvCodec.HostReadsDevice | pyhost/protocol.py:72-102 | both encoders agree on short entries and the host reads the device's payload |
| CommandCodec.EncodeRequestBuffer | src/protocol.c:299-322 | the buffer filled in place is the host's encoding; a command of 4 GiB or more gets its length cut to 32 bits |
| CommandCodec.DecodeRequestBuffer | src/protocol.c:324-346 | the C decoder over a buffer equals the specified decoder |
| CommandCodec.EncodeResultBuffer | src/protocol.c:356-386 | the buffer filled in place is the specified encoding, both streams included |
| CommandCodec.DecodeRequestExact | src/protocol.c:324-346 | a command request is accepted if and only if it is an encoding whose length fits in 32 bits |
| CommandCodec.ResultRoundTrip | src/protocol.c:356-386 | the host recovers a command result, sign included, exactly when no length was cut to 32 bits |
| WireFormat.CommandOnTheWire | src/protocol.c:299-322 | the four words of a command request in their order, and the command |
| WireFormat.ResultOnTheWire | src/protocol.c:356-386 | the fields of a result in their order, the exit code in two's complement, and both streams |
| IoUtils.ReadFull | src/io_utils.c:25-43 | short and interrupted reads yield the front of the input in order; without errors it fails only at the end of the input |
| IoUtils.WriteFull | src/io_utils.c:45-64 | partial and interrupted writes put out exactly the data; on failure a proper prefix of it |
| IoUtils.ReadFrameUnbuffered | src/protocol.c:151-180 | for every size limit, two whole reads and the decoder deliver exactly what the simple reader gets from the stream |
| HostClient.WriteLimited | src/protocol.c:53-70 | pieces of 16 KiB put the same packets on the wire as one transfer, with one zero-length packet if needed |
| UsbTransport.PacketizeAppend | src/protocol.c:53-70 | consecutive writes make the packets of one write when all but the last are whole packets |
| UsbTransport.FullLastPacketGetsZlp | src/io_utils.c:65-73 | for both packet sizes every response that ends in a full packet gets a zero-length packet |
| UsbTransport.ZlpExactly | src/io_utils.c:65-73 | a response ends in a zero-length packet if and only if its length is a positive multiple of 64, for both packet sizes |
| UsbTransport.DeviceReadsFrame | src/responder.c:191 | reads of 16 KiB cut a request at 16 KiB and at its own end, whatever follows on the wire |
| UsbTransport.EmptyReadExactlyForMultiples | pyhost/client.py:93-103 | among those reads only the last can be empty, and it is exactly for multiples of 16 KiB |
| HostClient.Client.SendFrame | pyhost/client.py:93-103 | the writing loop and its zero-length packet put the frame's OUT transfer on the wire |
| HostClient.NextId | pyhost/client.py:87-91 | a request id is never zero and never the previous one |
| HostClient.IdsDiffer | pyhost/client.py:87-91 | no two of 2^32 - 1 requests in a row have the same id |
| HostClient.Client.DoReadSome | pyhost/client.py:121-135 | the loop that skips empty reads equals its specification |
| HostClient.Client.DoRecvFrame | pyhost/client.py:105-119 | the buffer-filling loops equal the specified receive |
| HostClient.RecvExact | pyhost/client.py:105-135 | behind left-over empty packets exactly the frame is received, no request overflows, the buffer is empty again |
| HostClient.DamagedResponse | pyhost/client.py:105-119 | a response whose payload was damaged within a burst of 32 bits is reported and dropped, and what is behind it is not affected |
| HostClient.PipelinedRun | pyhost/client.py:105-135 | responses written ahead of the host are received one by one, in order |
| HostClient.JammedStays | pyhost/client.py:105-119 | once a header above the limit is buffered every receive refuses it again and reads nothing |
| HostClient.LockstepRun | pyhost/client.py:105-135 | in every lockstep run a receive returns the frame sent if and only if every response so far is within 8 MiB; then the buffer is empty and at most one empty packet pending |
| Reassembly.Receiver.RxReserve | src/responder.c:128-146 | afterwards there is room for what is needed, and the buffered bytes are as before |
| Reassembly.Receiver.RxReadSome | src/responder.c:148-219 | the poll and read loop equals its specification for every answer of the environment |
| Reassembly.ReadSomeExactly | src/responder.c:148-219 | a call ends at the first event that is no timeout and no interruption: data is appended; a hang-up, a failed poll or read and an empty read fail, and mark the endpoint as shut down only where the source does |
| Reassembly.Receiver.ReadFrameBuffered | src/responder.c:221-274 | the buffered reader in memory equals the specified reader |
| Reassembly.CleanReadFrame | src/responder.c:221-274 | a wrong magic or version or a length above 8 MiB fails as soon as the header is there; otherwise a call waits for exactly the frame |
| Reassembly.FillConserves | src/responder.c:148-219 | reading moves bytes from the endpoint to the end of the buffer and loses none |
| Reassembly.DeliveredIsFront | src/responder.c:221-274 | a delivered frame's encoding is the front of the unconsumed stream and the rest is kept |
| Reassembly.RefinesSimpleReader | src/responder.c:221-274 | without read failures the buffered reader delivers exactly what the simple reader gets |
| Reassembly.ReassemblyIgnoresChunking | src/responder.c:128-274 | however a stream of frames is cut into reads, the frames come out whole and in order |
| Reassembly.RunConservesStream | src/responder.c:221-274 | in any run, delivered encodings followed by the unconsumed bytes make up the stream |
| Reassembly.ReadFrameIsLocal | src/responder.c:221-274 | a call that has returned is not affected by what the endpoint answers later |
| Paths.BuildPathInPlace | src/file_ops.c:82-133 | the in-place tokeniser succeeds if and only if there is no `..` and the canonical path fits, and writes that path, terminated and in bounds |
| Paths.KeptJoin | src/file_ops.c:82-133 | joining plain components and splitting the path gives the components back |
| Paths.BuildPathIdempotent | src/file_ops.c:82-133 | the normaliser leaves its own output alone |
| Paths.LeadingSlashIgnored | src/file_ops.c:98-100 | a leading slash makes no difference |
| RequestChecks.KeptByComponent | src/file_ops.c:82-133 | a slash separates components, empty and `.` components do not count, and a path has a `..` exactly when one of its components is `..` |
| RequestChecks.ResolveExactly | src/file_ops.c:135-158 | a request resolves to its canonical path if and only if it has no `..`, fits, asks for no storage or for the one it is on (`sd` when its first component is `sd`, else `nand`), and the card, if needed, is mounted |
| RequestChecks.StorageAtInputs | src/file_ops.c:135-158 | at two inputs: `sd/x` is accepted for `sd`, and `x` is not |
| TreeOps.Disk.RemoveRecursive | src/file_ops.c:599-642 | terminates; only entries at or beneath the target go, every survivor keeps its parents; success clears the target; when the kernel permits all calls it succeeds if and only if the target is there and every path beneath it is below 4096 bytes |
| TreeOps.Disk.DeletePath | src/file_ops.c:644-660 | a refused path or storage root changes nothing, any other behaves as recursive removal of the resolved path, with the same condition for success |
| TreeOps.PruneChild | src/file_ops.c:615-634 | removing a child keeps all that the walk has established about the directory |
| TreeOps.Disk.MakeDirs | src/file_ops.c:684-735 | mkdir visits exactly the component prefixes in increasing order; an initial run of them is made, nothing else changes; when the kernel permits all calls it succeeds if and only if no prefix is taken by something else than a directory |
| TreeOps.Disk.MakeDirectory | src/file_ops.c:662-736 | success means every prefix is a directory; failure leaves an initial run of prefixes; exactly when it succeeds, with and without `parents`, if the kernel permits all calls |
| Uploads.PermRoundTrip | src/file_ops.c:212-226 | every mode is read back from its four octal digits |
| RequestChecks.PermExactly | src/file_ops.c:212-226 | a permission is read as a mode if and only if it is spaces, an optional sign and octal digits whose value, as `strtoul` takes it, is that mode and at most 07777 |
| RequestChecks.PermOfExactly | src/file_ops.c:318-326 | no or an empty permission asks for no change, any other for the mode it is read as |
| Uploads.Find | src/file_ops.c:240-247 | the first used slot with the id, if there is one |
| Uploads.FirstFree | src/file_ops.c:249-257 | the first free slot, if there is one |
| Uploads.FileOps.constructor | src/file_ops.c:259-266 | every slot starts cleared |
| Uploads.FileOps.BeginUpload | src/file_ops.c:296-355 | the table in memory takes exactly the specified BEGIN step |
| Uploads.FileOps.AppendUploadChunk | src/file_ops.c:357-379 | exactly the specified append step, short writes and pacing included |
| Uploads.FileOps.FinishUpload | src/file_ops.c:381-412 | exactly the specified END step, with its three ways to fail |
| Uploads.FileOps.AbortUpload | src/file_ops.c:414-430 | exactly the specified abort step |
| Uploads.FileOps.ShutdownAll | src/file_ops.c:281-294 | exactly the specified shutdown |
| UploadTable.EveryOpKeepsTable | src/file_ops.c:240-430 | every operation keeps ids distinct, used slots and open files the same, and less than 1 MiB unsynchronised |
| UploadTable.RunKeepsTable | src/file_ops.c:240-430 | the same over every run |
| RequestChecks.BeginSucceeds | src/file_ops.c:296-355 | exactly when BEGIN succeeds, in terms of the texts of the request: a free slot or a retry, an acceptable permission, path and storage, both length limits, and a temporary file that opens |
| UploadResults.AppendExactly | src/file_ops.c:357-379 | a chunk is accepted if and only if it is not empty, its upload is open and the file takes it whole; what the file takes is at its end in any case, and nothing else changes |
| UploadResults.EndExactly | src/file_ops.c:381-412 | which of the four answers END gives, and when |
| UploadResults.RenameFails | src/file_ops.c:396-401 | a failed rename ends the session, removes the temporary file if that works, and touches nothing else |
| UploadResults.AbortExactly | src/file_ops.c:414-430 | the same for an abort; one of an unknown id touches nothing at all |
| UploadTable.SyncsAreRare | src/file_ops.c:357-379 | over any run, each synchronisation of an upload is paid for by a whole mebibyte of chunks taken for its id, whatever happens in between, short writes included |
| UploadTable.PacingBound | src/file_ops.c:357-379 | from a cleared table on, every id synchronises at most once per mebibyte of chunks taken whole, under every interleaving |
| UploadTable.ShutdownCleans | src/file_ops.c:281-294 | no session stays open, their temporary files go when unlinking works, every other name stays |
| UploadIsolation.StepRefines | src/file_ops.c:296-430 | each operation of the table is one operation of the simple store of private uploads |
| UploadIsolation.RunRefines | src/file_ops.c:296-430 | the same under every interleaving of BEGIN, CHUNK, END and abort |
| UploadIsolation.InitialRefines | src/file_ops.c:259-266 | a fresh table over any valid file system is where every run can start |
| UploadIsolation.SessionHoldsItsChunks | src/file_ops.c:296-379 | after any run each open session's file holds exactly the bytes taken since its latest BEGIN |
| UploadIsolation.BeginTouches | src/file_ops.c:296-355 | BEGIN changes no content but that of its own temporary names: the one an earlier attempt left, and the new one, which is empty |
| UploadIsolation.PublishedOnlyAtEnd | src/file_ops.c:296-430 | exactly what any operation leaves at a name that is no upload's private file, whatever names BEGIN works on: at END the whole upload or, after a failed chmod, nothing; after a BEGIN with that `.part` name an empty file; else what was there |
| UploadIsolation.BeginEmptiesExactly | src/file_ops.c:339-349 | a BEGIN changes such a file if and only if it succeeds, takes its name for its own `.part` file, and there is something to empty |
| Clashes.FinishedFileEmptied | src/file_ops.c:339-349 | the same at one input: the first BEGIN of `x` empties a finished `x.part` that holds the byte 07 |
| UploadIsolation.SharedTargetTruncates | src/file_ops.c:326-349 | a second upload to the same final path empties the shared private file |
| Clashes.SeparateSuffices | src/file_ops.c:296-430 | behind a BEGIN on names of its own no chunks, ENDs and aborts, however many, disturb an open upload's final path or make its file differ from its bytes |
| Clashes.SameFinalClashes | src/file_ops.c:296-379 | a BEGIN on another's final path: that upload's file is wrong at once or after one more byte |
| Clashes.TempIsFinalClashes | src/file_ops.c:339-349 | a BEGIN whose `.part` file is another's final path: that path changes outside END |
| Clashes.FinalIsTempClashes | src/file_ops.c:381-412 | a BEGIN whose final path is another's `.part` file: its END replaces that file |
| Clashes.SeparateExactly | src/file_ops.c:296-430 | a successful BEGIN is on names of its own if and only if nothing behind it wrongs an open upload; three operations are enough to tell |
| Clashes.UploadStolen | src/file_ops.c:381-412 | with one upload open on `x` and another begun and ended on `x.part`, the END of the first reports success and publishes the second's content |
| Clashes.SameFinalWitness | src/file_ops.c:326-349 | at one input: a second BEGIN of `x` empties the private file in which the first upload has a byte |
| Clashes.TempIsFinalWitness | src/file_ops.c:339-349 | at one input: BEGIN of `x` empties the finished `x.part` while an upload to it is open |
| Clashes.StolenWitness | src/file_ops.c:381-412 | at one input: upload 1 to `x` has taken a byte, upload 2 to `x.part` begins and ends, and END of upload 1 reports success for an empty file |
| Handlers.HandleFrameInPlace | src/responder.c:794-829 | the dispatch on the table in memory equals the specified handler |
| Handlers.FrameKeepsTable | src/responder.c:329-391 | no frame, whatever its type and payload, breaks the session table |
| Handlers.ReplyShape | src/responder.c:276-318 | every upload reply carries the request's id, is short, and is readable by the host |
| WireFormat.DispatchExactly | src/responder.c:794-829 | HELLO and unsupported types get their replies and touch nothing; only the upload requests touch the session table |
| WireFormat.UploadOnTheWire | pyhost/client.py:163-182 | type, id and payload of the three upload requests |
| WireFormat.Words | pyhost/client.py:164-168 | the keys and values of the protocol, letter by letter |
| WireFormat.OkRead | src/responder.c:371-391 | the host reads type STATUS, the id and `status` = `ok` out of a positive reply |
| WireFormat.BeganRead | src/responder.c:349-357 | the same for the reply to BEGIN, with `transfer_id` = `request_id` |
| WireFormat.ErrorRead | src/responder.c:302-307 | the host reads type ERROR, the id and the message out of an error reply |
| WireFormat.MalformedBegin | src/responder.c:336-346 | a BEGIN that cannot be read or has no path is refused and touches nothing |
| Clashes.BareChunkExactly | src/responder.c:360-377 | a chunk without a transfer id is added to its sender's upload if and only if it has fewer than four bytes |
| Clashes.BareChunkGoesTo | src/responder.c:366-370 | any other goes, four bytes short, to the upload its first four bytes name, or is refused |
| Clashes.MisdirectedChunk | src/responder.c:366-370 | one that starts with another open id is added to that upload and acknowledged to its sender |
| Clashes.BareChunkWitness | src/responder.c:366-370 | the same at one input: two separate uploads and the chunk 02 00 00 00 07 |
| Responder.Runtime.ProcessEp0Events | src/responder.c:849-878 | a batch of control events has the specified effect, event by event |
| LoopEvents.ClosingBatch | src/responder.c:863-870 | a batch whose last ENABLE, DISABLE or UNBIND is one of the latter two leaves both endpoints closed, nothing buffered, and handles nothing |
| LoopEvents.ReopeningBatch | src/responder.c:849-921 | a batch with a DISABLE or UNBIND that ends in ENABLE drops the old buffer and starts a new opening, or leaves everything closed when an endpoint does not open |
| LoopEvents.OpeningBatch | src/responder.c:910-921 | ENABLE alone opens a loop that is down and changes nothing about a live one |
| LoopEvents.IdleBatch | src/responder.c:851-875 | the other events change nothing |
| LoopEvents.HangUp | src/responder.c:941-944 | an endpoint that is not readable is left alone, and closed when it hangs up |
| LoopEvents.DownWaits | src/responder.c:892-899 | a loop that is down neither reads nor handles anything |
| LoopEvents.LoopLeft | src/responder.c:901-933 | the loop is left if and only if its poll fails or the control endpoint cannot be read; it blocks exactly on a readable endpoint without a whole frame |
| Responder.Runtime.CloseEndpoints | src/responder.c:111-122 | both endpoints closed, buffer empty, shutdown flag cleared |
| Responder.Runtime.Step | src/responder.c:887-945 | one turn of the loop in memory is the specified turn for all answers of the environment |
| Responder.Runtime.HandleIoLoop | src/responder.c:883-947 | the loop in memory is the specified run |
| Responder.NoFrameMixesOpenings | src/responder.c:831-947 | at every loop head enabled means both endpoints open, otherwise the buffer is empty; the frames handled from an opening are the front of the bytes that arrived on it |
| Responder.LoopKeepsTable | src/responder.c:883-947 | the session table stays valid and paced through every run of the loop |
| Responder.DaemonCleansUp | src/responder.c:984-992 | however the loop ended, shutdown removes the temporary file of every open upload and no other name |
| UploadSequence.PiecesShape | pyhost/client.py:172-176 | for every chunk size, negative and zero included, the pieces are non-empty, at most a chunk long, and concatenate to the file, or to nothing for zero |
| UploadSequence.ItemsFound | src/responder.c:340-342 | the device finds path, storage and permission of BEGIN as the host put them in, each up to its first NUL |
| UploadSequence.UploadServed | src/file_ops.c:296-412 | serving the frames of an upload, all within 8 MiB, leaves the bytes sent at the final path with the requested mode, no `.part` file, a free slot, all else as before, and only positive replies |
| UploadSequence.UploadCutShort | src/file_ops.c:296-379 | after a proper part of the frames the session is open with the chunks taken and the final path is untouched, unless it was the `.part` name of the upload being retried |
| UploadSequence.ServeKeeps | src/file_ops.c:296-430 | no upload requests make or remove a directory, and every entry they make or change is a file |
| EndToEnd.LoopServes | src/responder.c:883-947 | the event loop serves a stream of requests frame by frame, however it is cut into reads |
| EndToEnd.UploadOverStream | pyhost/client.py:154-183 | for every content, every chunk size whose frames are within 8 MiB and every split into reads the device is left with exactly the bytes sent and the host reads exactly the positive replies |
| UsbUpload.ArrivingEvents | src/responder.c:191-210 | what the device's reads of one request return: its bytes, and one empty read exactly for multiples of 16 KiB |
| UsbUpload.ExchangeServes | pyhost/client.py:138-148 | one request from a quiet state is served and answered, and its length alone decides what is left over |
| UsbUpload.ExchangeExactly | pyhost/client.py:138-148 | the same for every reply: the host is satisfied if and only if the reply is of type STATUS |
| UsbUpload.ExchangeFails | src/responder.c:197-199 | a left-over empty read makes the device close its endpoints and the host time out |
| UsbUpload.ExchangeRefused | src/responder.c:243-247 | so does a request above 8 MiB |
| UsbUpload.ConverseServes | pyhost/client.py:154-183 | a conversation gets exactly as far as the first request that is too large or that leaves an empty read behind; after a complete one the next can follow |
| UsbUpload.FlowsExact | pyhost/client.py:172-183 | every frame is within 8 MiB and none but the last a multiple of 16 KiB if and only if this holds of three sizes known beforehand |
| UsbUpload.UploadOverUsb | pyhost/client.py:154-183 | over USB the upload completes, leaving exactly the bytes sent and a connection ready for the next, if and only if `Flows` holds; otherwise the session stays open with the chunks taken and the final path is untouched, unless it was the `.part` name of the upload being retried |
| UsbUpload.AnsweredExactly | pyhost/client.py:138-183 | the first requests of an upload are all answered if and only if none in front of the last of them stalls or is too large and the last itself is not too large |
| UploadOutcome.ConverseExactly | pyhost/client.py:138-183 | whatever the system calls answer, a conversation succeeds if and only if no request stalls it or is too large and every reply is of type STATUS |
| UploadOutcome.SuccessMeansStored | pyhost/client.py:154-183 | whatever the system calls answer, a reported success means that the bytes sent are at the final path with the requested mode, no `.part` file, a free slot, all else as before |
| UploadOutcome.TraversalFails | pyhost/client.py:154-183 | an upload to a path with a `..` component is always reported as a failure |
| UploadOutcome.FirstResponseDecides | pyhost/client.py:138-148 | the client takes the first response on the pipe and is satisfied if and only if it has the request's id, type STATUS and a readable payload |
| UploadSeries.EnabledIsQuiet | src/responder.c:883-921 | enabling opens a connection that is ready for a first request |
| UploadSeries.FirstUpload | pyhost/client.py:154-183 | the first upload to a device just enabled, in terms of the two file systems alone: it completes if and only if `Flows` holds, puts exactly the bytes sent at the final path, and changes no other name |
| UploadSeries.FirstUploadCopies | pyhost/client.py:172-176 | it completes and copies the local file if and only if it flows and the chunk size is not zero (or the file is empty) |
| UploadSeries.ZeroChunkCopiesNothing | pyhost/client.py:172-176 | at one input: with chunk size zero the upload is reported as done and leaves an empty file |
| UploadSeries.UploadsInSeries | pyhost/client.py:154-183 | any number of uploads over one connection complete if and only if each flows, and leave the files of the uploads in their order; otherwise the first that does not flow ends the series, with the uploads before it complete and its own open with what has arrived |
| UploadSeries.RetryAfterStall | src/file_ops.c:309-312 | after a stall and a new ENABLE an upload under the same id completes if and only if it flows, and the abandoned session is gone |
| UploadSeries.DefaultChunkCanStall | pyhost/client.py:16 | with the default chunk size a file of 16356 bytes violates `Flows` |
| UploadSeries.DefaultChunkStalls | pyhost/client.py:154-183 | the failed upload itself at that input: BEGIN and the chunk are answered, END is not; all 16356 bytes are in `x.part`, and `x` is never written |
| FilePut.Session.Request | pyhost/client.py:93-148 | sending, the device's turn and receiving in memory are the specified exchange; from a quiet state it succeeds if and only if the handler's reply is of type STATUS |
| FilePut.Session.FilePut | pyhost/client.py:154-183 | for every chunk size `file_put` against the device in memory is the specified conversation; an unencodable request sends nothing; a success means that the device holds what was sent |
| ShellExec.AppendLimited | src/shell_exec.c:23-43 | appending keeps the first `max` bytes of everything appended |
| ShellExec.ExecShell | src/shell_exec.c:103-185 | the loop ends in the state that its history describes, at the first turn that has nothing left to do, or fails at the first turn in which a poll or a read of an open pipe fails |
| ShellExec.TurnDescribed | src/shell_exec.c:103-185 | every turn keeps that description, waits included |
| ShellExec.OverdueMeans | src/shell_exec.c:109-116 | a turn is overdue when it sees the deadline passed with the child still running |
| ShellExec.OverdueCounts | src/shell_exec.c:109-116 | one signal for each turn that sees the deadline passed with the child still running |
| ShellExec.OutStreamGrows | src/shell_exec.c:133-170 | the stream of standard output is what its reads delivered before the end of file, and nothing else |
| ShellExec.ErrStreamGrows | src/shell_exec.c:133-170 | the same for standard error |
| ShellExec.NoSignalAfterReaping | src/shell_exec.c:172-184 | once the child is collected no later turn sends a signal |
| ShellExec.AfterReaping | src/shell_exec.c:103-116 | once the child is collected the loop goes on exactly while a pipe is open, whatever the time; a signal was sent and a timeout reported exactly when a turn up to the collecting one was overdue |
| ShellExec.OrphanKeepsLoop | src/shell_exec.c:103-116 | at one family of inputs: a child that exits at once and silent open pipes keep the loop active for any number of turns past the deadline |
| ShellExec.SuccessMeans | src/shell_exec.c:103-188 | on success each buffer is the first `max` bytes of the whole stream, each late turn sent one signal, SIGTERM first and SIGKILL from then on, `timed_out` says whether there was any, every wait is 100 ms or ends at the deadline, and the exit code is the child's, 128 plus its signal, or -1 |

## Left out

- EndToEnd.UploadOverStream: that the system calls of the upload succeed is its assumption, as is that no other open
  upload works on the same names.
- UploadIsolation.RunRefines: every BEGIN works on names that no other open upload uses; `Clashes.SeparateExactly` shows
  that this is what isolation needs, no more and no less. Frames with a transfer id are the operations of the table;
  for frames without one see `Clashes.BareChunkExactly`.
- FilePut.Session.FilePut: the list of the environment's answers is long enough for the local file.
- UsbUpload.UploadOverUsb: each endpoint write completes in full, and the host's zero-length write succeeds (the
  client ignores its failure); partial writes are modelled in `IoUtils` only.
- Crc32.BurstDetected: the host's `zlib.crc32` is taken to be the CRC of RFC 1952.
- IoUtils.ReadFrameUnbuffered: the limit is below 2^32 - 24 bytes, for the same reason as `FrameCodec.EncodeFrame`.
- FrameCodec.EncodeFrame: the payload is below 2^32 - 24 bytes; larger ones overflow the 32-bit size in the source.
- Uploads.PermRoundTrip: `unsigned long` is taken to have 32 bits; with 64 bits only some negative numbers below -2^31
  would be read differently.
- The C decoder of command results, which only a host uses; the Python one is modelled.
- TreeOps.Disk.MakeDirs: a symbolic link to a directory on the way; `stat` follows it and the model does not.
- TreeOps.Disk.RemoveRecursive: symbolic links among the ancestors of a path; the model's links are leaves, as `lstat`
  sees them.
- Handlers.HandleFrameInPlace: the requests other than HELLO and the three upload requests have an arbitrary effect on
  the file system and an arbitrary reply; that they leave the session table alone is taken from the source.
- Real system calls and stdio: buffering inside `fwrite`, errors of `fclose`, durability after power loss. A failed
  call has no effect beyond the one the source gives it.
- Text that a refused BEGIN leaves in an unused slot; nothing reads it before it is overwritten.
- File systems with hard links, and an open through a symbolic link at the temporary path.
- Allocation failures, error-message texts (the text of an error reply is an input), logging.
- UTF-8 decoding on the host: keys and values are byte strings.
- FILE_GET, FILE_LIST, FILE_STAT, FILE_RENAME and DEVINFO, mount tables and free space: foreign data or easy members;
  whether the card is mounted is an input.
- USB descriptors, option parsing, the gadget script and the host's command line.
- Liveness of pipelined requests: the loop polls the endpoint before it looks at buffered frames, so response pairing
  is proved for a host that waits for each reply.
- The clean-up path after a failed shell loop, which kills and collects the child.
