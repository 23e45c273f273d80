/** Bulk transfers: packets on the wire, section 5.8.3 of USB 2.0, and the zero-length-packet rules. */
module UsbTransport {
  import opened Bytes

  const IO_CHUNK: nat := 16 * 1024

  /** The bulk packet sizes of full speed and high speed. */
  predicate PacketSize(mps: nat)
  {
    mps == 64 || mps == 512
  }

  /** One bulk write: full packets and, when the size is not a multiple of `mps`, a short one. */
  function Packetize(data: bytes, mps: nat): seq<bytes>
    requires PacketSize(mps)
  {
    if data == [] then []
    else if |data| <= mps then [data]
    else [data[..mps]] + Packetize(data[mps..], mps)
  }

  datatype Transfer =
    | Completed(data: bytes, rest: seq<bytes>)
    | Overflow
    | NoPacket

  /** A bulk read of `request` bytes that already holds `got`: it ends when the request is full or a
      packet shorter than `mps` arrives; a packet that does not fit is an error. */
  function BulkRead(packets: seq<bytes>, request: nat, mps: nat, got: bytes): Transfer
    requires PacketSize(mps)
    decreases |packets|
  {
    if |got| == request then Completed(got, packets)
    else if packets == [] then NoPacket
    else
      var p := packets[0];
      if |got| + |p| > request then Overflow
      else if |p| < mps then Completed(got + p, packets[1..])
      else BulkRead(packets[1..], request, mps, got + p)
  }

  lemma {:induction false} BulkReadConsumes(packets: seq<bytes>, request: nat, mps: nat, got: bytes)
    requires PacketSize(mps)
    ensures BulkRead(packets, request, mps, got).Completed? ==>
              |BulkRead(packets, request, mps, got).rest| <= |packets|
              && (|got| != request ==> |BulkRead(packets, request, mps, got).rest| < |packets|)
    decreases |packets|
  {
    if |got| != request && packets != [] && |got| + |packets[0]| <= request && |packets[0]| >= mps {
      BulkReadConsumes(packets[1..], request, mps, got + packets[0]);
    }
  }

  /** A read that asks for exactly the data, or for more when the last packet is short, gets it all. */
  lemma {:induction false} BulkReadWhole(got: bytes, data: bytes, tail: seq<bytes>, request: nat, mps: nat)
    requires PacketSize(mps) && data != []
    requires |got| + |data| <= request
    requires |got| + |data| == request || |data| % mps != 0
    ensures BulkRead(Packetize(data, mps) + tail, request, mps, got) == Completed(got + data, tail)
    decreases |data|
  {
    var packets := Packetize(data, mps) + tail;
    if |data| < mps {
      assert packets[0] == data && packets[1..] == tail;
    } else {
      var first, more := data[..mps], data[mps..];
      WholePackets(|data|, mps);
      FirstPacket(data, mps, tail);
      hide Packetize;
      if more == [] {
        assert got + first == got + data;
      } else {
        BulkReadWhole(got + first, more, tail, request, mps);
        assert (got + first) + more == got + data;
      }
    }
  }

  lemma FirstPacket(data: bytes, mps: nat, tail: seq<bytes>)
    requires PacketSize(mps) && |data| >= mps
    ensures Packetize(data, mps) + tail == [data[..mps]] + (Packetize(data[mps..], mps) + tail)
  {
    if |data| == mps {
      assert data[..mps] == data && data[mps..] == [];
    }
  }

  lemma WholePackets(n: nat, mps: nat)
    requires PacketSize(mps) && n >= mps
    ensures (n - mps) % mps == n % mps
  {
    if mps == 64 {
    } else {
    }
  }

  /** Consecutive writes make the packets of one write as long as all but the last are whole packets. */
  lemma {:induction false} PacketizeAppend(a: bytes, b: bytes, mps: nat)
    requires PacketSize(mps) && |a| % mps == 0
    ensures Packetize(a + b, mps) == Packetize(a, mps) + Packetize(b, mps)
    decreases |a|
  {
    if a == [] {
      assert a + b == b;
    } else if |a| == mps {
      if b == [] {
        assert a + b == a;
      } else {
        assert (a + b)[..mps] == a && (a + b)[mps..] == b;
      }
    } else {
      assert (a + b)[..mps] == a[..mps] && (a + b)[mps..] == a[mps..] + b;
      PacketizeAppend(a[mps..], b, mps);
    }
  }

  // ---- Device to host ------------------------------------------------------------------------

  /** `usb_responder_bulk_in_needs_zlp`: 64 divides both packet sizes. */
  predicate NeedsZlp(n: nat)
  {
    n != 0 && n % 64 == 0
  }

  function ZlpAfter(n: nat): seq<bytes>
  {
    if NeedsZlp(n) then [[]] else []
  }

  /** The packets of one response frame. */
  function InTransfer(data: bytes, mps: nat): seq<bytes>
    requires PacketSize(mps)
  {
    Packetize(data, mps) + ZlpAfter(|data|)
  }

  /** Whenever the last packet of a response is full, the device ends it with a zero-length packet. */
  lemma FullLastPacketGetsZlp(n: nat, mps: nat)
    requires PacketSize(mps) && n != 0 && n % mps == 0
    ensures NeedsZlp(n)
  {
    assert mps == 512 ==> n == 512 * (n / 512) && n == 64 * (8 * (n / 512));
  }

  /** Exactly which responses end in a zero-length packet: for packets of 64 bytes those whose last packet
      is full, for packets of 512 bytes also others, all those of a positive multiple of 64 bytes. */
  lemma ZlpExactly(data: bytes, mps: nat)
    requires PacketSize(mps)
    ensures var packets := InTransfer(data, mps);
            packets != [] && packets[|packets| - 1] == [] <==> |data| != 0 && |data| % 64 == 0
  {
    PacketsNotEmpty(data, mps);
    hide Packetize;
  }

  lemma {:induction false} PacketsNotEmpty(data: bytes, mps: nat)
    requires PacketSize(mps)
    ensures forall i :: 0 <= i < |Packetize(data, mps)| ==> Packetize(data, mps)[i] != []
    decreases |data|
  {
    if |data| > mps {
      PacketsNotEmpty(data[mps..], mps);
    }
  }

  // ---- Host to device ------------------------------------------------------------------------

  /** The packets of one request frame: the host adds a zero-length packet after whole packets. */
  function OutTransfer(data: bytes, mps: nat): seq<bytes>
    requires PacketSize(mps)
  {
    Packetize(data, mps) + (if |data| % mps == 0 then [[]] else [])
  }

  /** What successive reads of `IO_CHUNK` bytes return. */
  function DeviceReads(packets: seq<bytes>, mps: nat): seq<bytes>
    requires PacketSize(mps)
    decreases |packets|
  {
    match BulkRead(packets, IO_CHUNK, mps, [])
    case NoPacket => []
    case Overflow => []
    case Completed(data, rest) =>
      BulkReadConsumes(packets, IO_CHUNK, mps, []);
      [data] + DeviceReads(rest, mps)
  }

  /** A frame cut into chunks of `IO_CHUNK` bytes, with an empty one behind an exact multiple. */
  function DeviceChunks(data: bytes): seq<bytes>
  {
    if |data| < IO_CHUNK then [data] else [data[..IO_CHUNK]] + DeviceChunks(data[IO_CHUNK..])
  }

  lemma FirstRead(data: bytes, mps: nat, tail: seq<bytes>)
    requires PacketSize(mps) && |data| >= IO_CHUNK
    ensures OutTransfer(data, mps) + tail
         == Packetize(data[..IO_CHUNK], mps) + (OutTransfer(data[IO_CHUNK..], mps) + tail)
  {
    var first, more := data[..IO_CHUNK], data[IO_CHUNK..];
    ChunkOfPackets(|data|, mps);
    PacketizeAppend(first, more, mps);
    hide Packetize;
    assert data == first + more;
    var zlp := if |data| % mps == 0 then [[]] else [];
    assert (Packetize(first, mps) + Packetize(more, mps)) + zlp + tail
        == Packetize(first, mps) + ((Packetize(more, mps) + zlp) + tail);
  }

  lemma ChunkOfPackets(n: nat, mps: nat)
    requires PacketSize(mps) && n >= IO_CHUNK
    ensures IO_CHUNK % mps == 0 && (n - IO_CHUNK) % mps == n % mps
  {
    if mps == 64 {
    } else {
    }
  }

  /** The last read of a frame: its end is a short packet or the host's zero-length packet. */
  lemma LastRead(data: bytes, mps: nat, tail: seq<bytes>)
    requires PacketSize(mps) && |data| < IO_CHUNK
    ensures BulkRead(OutTransfer(data, mps) + tail, IO_CHUNK, mps, []) == Completed(data, tail)
  {
    hide Packetize, BulkRead;
    if |data| % mps != 0 {
      BulkReadWhole([], data, tail, IO_CHUNK, mps);
      assert OutTransfer(data, mps) + tail == Packetize(data, mps) + tail;
      assert [] + data == data;
    } else {
      EndedByZlp([], data, tail, IO_CHUNK, mps);
      assert OutTransfer(data, mps) + tail == Packetize(data, mps) + ([[]] + tail);
      assert [] + data == data;
    }
  }

  lemma {:induction false} EndedByZlp(got: bytes, data: bytes, tail: seq<bytes>, request: nat, mps: nat)
    requires PacketSize(mps) && |data| % mps == 0
    requires |got| + |data| < request
    ensures BulkRead(Packetize(data, mps) + ([[]] + tail), request, mps, got) == Completed(got + data, tail)
    decreases |data|
  {
    var packets := Packetize(data, mps) + ([[]] + tail);
    if data == [] {
      assert packets == [[]] + tail && packets[0] == [] && packets[1..] == tail;
    } else {
      var first, more := data[..mps], data[mps..];
      FirstPacket(data, mps, [[]] + tail);
      hide Packetize;
      EndedByZlp(got + first, more, tail, request, mps);
      assert (got + first) + more == got + data;
    }
  }

  /** The device's reads of one request frame, whatever follows it on the wire. */
  lemma {:induction false} DeviceReadsFrame(data: bytes, mps: nat, tail: seq<bytes>)
    requires PacketSize(mps)
    ensures DeviceReads(OutTransfer(data, mps) + tail, mps) == DeviceChunks(data) + DeviceReads(tail, mps)
    decreases |data|
  {
    if |data| < IO_CHUNK {
      LastRead(data, mps, tail);
    } else {
      var first, more := data[..IO_CHUNK], data[IO_CHUNK..];
      var rest := OutTransfer(more, mps) + tail;
      FirstRead(data, mps, tail);
      hide OutTransfer;
      BulkReadWhole([], first, rest, IO_CHUNK, mps);
      assert [] + first == first;
      DeviceReadsFrame(more, mps, tail);
      assert ([first] + DeviceChunks(more)) + DeviceReads(tail, mps)
          == [first] + (DeviceChunks(more) + DeviceReads(tail, mps));
    }
  }

  /** The reads make up `data`; only the last can be empty, and it is exactly for multiples of 16 KiB. */
  predicate ChunkShape(c: seq<bytes>, data: bytes)
  {
    && c != [] && Concat(c) == data
    && (forall i :: 0 <= i < |c| ==> |c[i]| <= IO_CHUNK)
    && (forall i :: 0 <= i < |c| - 1 ==> c[i] != [])
    && (c[|c| - 1] == [] <==> |data| % IO_CHUNK == 0)
  }

  lemma OneChunk(data: bytes)
    requires |data| < IO_CHUNK
    ensures ChunkShape([data], data)
  {
    hide Concat;
    ConcatFront(data, []);
    assert [data] + [] == [data] && data + [] == data;
  }

  lemma OneMoreChunk(first: bytes, d: seq<bytes>, more: bytes)
    requires |first| == IO_CHUNK && ChunkShape(d, more)
    ensures ChunkShape([first] + d, first + more)
  {
    hide Concat;
    var c := [first] + d;
    ConcatFront(first, d);
    MultiplesOfChunk(|first + more|);
    assert c[|c| - 1] == d[|d| - 1];
    forall i | 0 <= i < |c| ensures |c[i]| <= IO_CHUNK && (i < |c| - 1 ==> c[i] != []) {
      assert i > 0 ==> c[i] == d[i - 1];
    }
  }

  /** Among the reads of a frame only the last can be empty, and it is exactly for multiples of 16 KiB. */
  lemma {:induction false} EmptyReadExactlyForMultiples(data: bytes)
    ensures ChunkShape(DeviceChunks(data), data)
    decreases |data|
  {
    hide ChunkShape;
    if |data| < IO_CHUNK {
      OneChunk(data);
    } else {
      var first, more := data[..IO_CHUNK], data[IO_CHUNK..];
      EmptyReadExactlyForMultiples(more);
      OneMoreChunk(first, DeviceChunks(more), more);
      assert data == first + more;
    }
  }

  lemma MultiplesOfChunk(n: nat)
    requires n >= IO_CHUNK
    ensures (n - IO_CHUNK) % IO_CHUNK == n % IO_CHUNK
  {
  }
}
