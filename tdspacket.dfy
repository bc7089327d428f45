/**
 * TDS packet framing (section 2.2.3.1 of [MS-TDS]): the 8-byte header
 * (type, status, big-endian length, big-endian SPID, packet id, window),
 * splitting a message payload into packets, reading one packet with its
 * length and type checks, and collecting packets up to end-of-message.
 */
module TdsPacket {
  import opened Wire
  import opened Streams

  // TDSMessageType
  const SqlBatch: byte := 1
  const PreTds7Login: byte := 2
  const Rpc: byte := 3
  const TabularResult: byte := 4
  const Attention: byte := 6
  const BulkLoad: byte := 7
  const TransactionManagerRequest: byte := 14
  const Login7: byte := 16
  const SspiMessage: byte := 17
  const PreLogin: byte := 18

  /** The values of the TDSMessageType enumeration. */
  const KnownPacketTypes: set<byte> :=
    {SqlBatch, PreTds7Login, Rpc, TabularResult, Attention, BulkLoad,
     TransactionManagerRequest, Login7, SspiMessage, PreLogin}

  predicate IsTdsPacketType(b: byte)
  {
    b in KnownPacketTypes
  }

  /** The TLS record content types (change_cipher_spec .. application_data). */
  const SslRecordTypes: set<byte> := {20, 21, 22, 23}

  /**
   * No TDS packet type is also a TLS record type, so classifying a
   * leading byte as one or the other is unambiguous.
   */
  lemma TdsAndSslTypesDisjoint(b: byte)
    ensures !(IsTdsPacketType(b) && b in SslRecordTypes)
  {
  }

  lemma IsTdsPacketTypeValues(b: byte)
    ensures IsTdsPacketType(b) <==> (1 <= b <= 18 && b !in {5, 8, 9, 10, 11, 12, 13, 15})
  {
  }

  // TDSStatus flags
  const StatusNormal: byte := 0
  const EndOfMessage: byte := 0x01
  const StatusIgnore: byte := 0x02
  const ResetConnection: byte := 0x08
  const ResetConnectionSkipTran: byte := 0x10

  predicate IsEom(status: byte) { status % 2 == 1 }

  /** status & ~EndOfMessage */
  function ClearEom(status: byte): (r: byte)
    ensures !IsEom(r) && r / 2 == status / 2
  {
    status - status % 2
  }

  /** status | EndOfMessage */
  function SetEom(status: byte): (r: byte)
    ensures IsEom(r) && r / 2 == status / 2
  {
    ClearEom(status) + 1
  }

  const HeaderLength: nat := 8

  datatype Packet = Packet(
    packetType: byte,
    status: byte,
    length: u16,
    spid: u16,
    packetId: byte,
    window: byte,
    payload: bytes)

  /** A packet whose declared length covers exactly its header and payload. */
  predicate WellFormed(p: Packet)
  {
    p.length == HeaderLength + |p.payload|
  }

  function Header(packetType: byte, status: byte, length: u16, spid: u16, packetId: byte, window: byte): (r: bytes)
    ensures |r| == HeaderLength
  {
    [packetType, status] + BE(length, 2) + BE(spid, 2) + [packetId, window]
  }

  /** The header followed by the payload, as the packet writer emits them. */
  function Serialize(p: Packet): (r: bytes)
    ensures |r| == HeaderLength + |p.payload|
  {
    Header(p.packetType, p.status, p.length, p.spid, p.packetId, p.window) + p.payload
  }

  /**
   * TDSPacket.PacketData: a buffer of Length bytes holding the header and
   * then the payload; a Length under 8 faults on the header stores and a
   * payload that does not fit is an argument error.
   */
  function PacketData(p: Packet): (r: Result<bytes>)
    ensures r.Ok? <==> HeaderLength + |p.payload| <= p.length
    ensures r.Ok? ==> (|r.value| == p.length
      && r.value[..HeaderLength] == Header(p.packetType, p.status, p.length, p.spid, p.packetId, p.window)
      && r.value[HeaderLength..HeaderLength + |p.payload|] == p.payload)
    ensures WellFormed(p) ==> r == Ok(Serialize(p))
  {
    if p.length < HeaderLength then Err(IndexOutOfRange)
    else if HeaderLength + |p.payload| > p.length then Err(Argument)
    else
      var h := Header(p.packetType, p.status, p.length, p.spid, p.packetId, p.window);
      assert (h + p.payload + Zeros(p.length - HeaderLength - |p.payload|))[..HeaderLength] == h;
      assert WellFormed(p) ==> h + p.payload + Zeros(p.length - HeaderLength - |p.payload|) == h + p.payload;
      Ok(h + p.payload + Zeros(p.length - HeaderLength - |p.payload|))
  }

  /** Packets laid end to end on the stream. */
  function SerializeAll(ps: seq<Packet>): bytes
  {
    if |ps| == 0 then [] else Serialize(ps[0]) + SerializeAll(ps[1..])
  }

  /** Packets laid end to end take an 8-byte header each and their payloads. */
  lemma {:induction false} SerializeAllLength(ps: seq<Packet>)
    ensures |SerializeAll(ps)| == HeaderLength * |ps| + PayloadTotal(ps)
  {
    if |ps| > 0 {
      SerializeAllLength(ps[1..]);
    }
  }

  /** The concatenated payloads of a packet sequence. */
  function Payloads(ps: seq<Packet>): bytes
  {
    if |ps| == 0 then [] else ps[0].payload + Payloads(ps[1..])
  }

  lemma {:induction false} PayloadsAppend(a: seq<Packet>, b: seq<Packet>)
    ensures Payloads(a + b) == Payloads(a) + Payloads(b)
  {
    if |a| == 0 {
      assert a + b == b;
    } else {
      assert (a + b)[1..] == a[1..] + b;
      PayloadsAppend(a[1..], b);
    }
  }

  lemma {:induction false} PayloadsLength(ps: seq<Packet>)
    ensures |Payloads(ps)| == PayloadTotal(ps)
  {
    if |ps| > 0 {
      PayloadsLength(ps[1..]);
    }
  }

  function PayloadTotal(ps: seq<Packet>): nat
  {
    if |ps| == 0 then 0 else |ps[0].payload| + PayloadTotal(ps[1..])
  }

  // ---------------------------------------------------------------------
  // Writing a message as packets
  // ---------------------------------------------------------------------

  /**
   * The packets WriteMessageAsync emits for payload[offset..]: chunks of
   * at most maxPayload bytes, ids counting up (wrapping at a byte) and the
   * end-of-message bit on the chunk that reaches the end.
   */
  function Chunks(payload: bytes, offset: nat, maxPayload: nat, packetType: byte, status: byte, spid: u16, id: byte): seq<Packet>
    requires 0 < maxPayload <= 0xFFFF - HeaderLength
    decreases |payload| - offset
  {
    if offset >= |payload| then []
    else
      var n := Min(|payload| - offset, maxPayload);
      var last := offset + n >= |payload|;
      [Packet(packetType, if last then SetEom(status) else status, n + HeaderLength, spid, id, 0, payload[offset..offset + n])]
        + Chunks(payload, offset + n, maxPayload, packetType, status, spid, (id + 1) % 256)
  }

  /** The packet sequence for a whole message: the caller's end-of-message bit cleared, ids from 1. */
  function OutgoingPackets(payload: bytes, packetLength: u16, spid: u16, packetType: byte, status: byte): seq<Packet>
    requires packetLength > HeaderLength
  {
    Chunks(payload, 0, packetLength - HeaderLength, packetType, ClearEom(status), spid, 1)
  }

  lemma {:induction false} ChunksPayloads(payload: bytes, offset: nat, maxPayload: nat, packetType: byte, status: byte, spid: u16, id: byte)
    requires 0 < maxPayload <= 0xFFFF - HeaderLength && offset <= |payload|
    ensures var ps := Chunks(payload, offset, maxPayload, packetType, status, spid, id);
      (|ps| == 0 <==> offset == |payload|) && Payloads(ps) == payload[offset..]
    decreases |payload| - offset
  {
    if offset < |payload| {
      var n := Min(|payload| - offset, maxPayload);
      ChunksPayloads(payload, offset + n, maxPayload, packetType, status, spid, (id + 1) % 256);
      assert payload[offset..] == payload[offset..offset + n] + payload[offset + n..];
    }
  }

  /** Header fields of a run of packets: ids count up from id, wrapping at a byte. */
  predicate HeadersFrom(ps: seq<Packet>, packetType: byte, spid: u16, id: byte)
  {
    forall k :: 0 <= k < |ps| ==>
      WellFormed(ps[k]) && ps[k].packetType == packetType && ps[k].spid == spid
      && ps[k].window == 0 && ps[k].packetId == (id + k) % 256
  }

  /** Every packet but the last is full and keeps the status; the last is non-empty and ends the message. */
  predicate SizesAndStatus(ps: seq<Packet>, maxPayload: nat, status: byte)
  {
    (forall k :: 0 <= k < |ps| - 1 ==> |ps[k].payload| == maxPayload && ps[k].status == status)
    && (|ps| > 0 ==> 1 <= |ps[|ps| - 1].payload| <= maxPayload && ps[|ps| - 1].status == SetEom(status))
  }

  lemma {:induction false} ChunksHeaders(payload: bytes, offset: nat, maxPayload: nat, packetType: byte, status: byte, spid: u16, id: byte)
    requires 0 < maxPayload <= 0xFFFF - HeaderLength && offset <= |payload|
    ensures HeadersFrom(Chunks(payload, offset, maxPayload, packetType, status, spid, id), packetType, spid, id)
    decreases |payload| - offset
  {
    var ps := Chunks(payload, offset, maxPayload, packetType, status, spid, id);
    if offset < |payload| {
      var n := Min(|payload| - offset, maxPayload);
      var nextId: byte := (id + 1) % 256;
      ChunksHeaders(payload, offset + n, maxPayload, packetType, status, spid, nextId);
      var rest := Chunks(payload, offset + n, maxPayload, packetType, status, spid, nextId);
      assert ps == [ps[0]] + rest;
      forall k | 1 <= k < |ps|
        ensures WellFormed(ps[k]) && ps[k].packetType == packetType && ps[k].spid == spid
          && ps[k].window == 0 && ps[k].packetId == (id + k) % 256
      {
        assert ps[k] == rest[k - 1];
        ModAdd256(id + 1, k - 1);
      }
    }
  }

  lemma {:induction false} ChunksSizes(payload: bytes, offset: nat, maxPayload: nat, packetType: byte, status: byte, spid: u16, id: byte)
    requires 0 < maxPayload <= 0xFFFF - HeaderLength && offset <= |payload|
    ensures SizesAndStatus(Chunks(payload, offset, maxPayload, packetType, status, spid, id), maxPayload, status)
    decreases |payload| - offset
  {
    var ps := Chunks(payload, offset, maxPayload, packetType, status, spid, id);
    if offset < |payload| {
      var n := Min(|payload| - offset, maxPayload);
      var nextId: byte := (id + 1) % 256;
      ChunksSizes(payload, offset + n, maxPayload, packetType, status, spid, nextId);
      var rest := Chunks(payload, offset + n, maxPayload, packetType, status, spid, nextId);
      assert ps == [ps[0]] + rest;
      if offset + n < |payload| {
        assert |rest| > 0;
        assert forall k :: 1 <= k < |ps| ==> ps[k] == rest[k - 1];
      } else {
        assert rest == [];
      }
    }
  }

  /**
   * What WriteMessageAsync promises: an empty payload produces no packets;
   * otherwise the chunks concatenate to the payload, every chunk but the
   * last is full, exactly the last carries end-of-message, the other
   * status bits are the caller's on every packet, and the headers carry
   * the type, the chunk length plus 8, the SPID, ids 1, 2, 3, ... and
   * window 0.
   */
  lemma OutgoingPacketsShape(payload: bytes, packetLength: u16, spid: u16, packetType: byte, status: byte)
    requires packetLength > HeaderLength
    ensures var ps := OutgoingPackets(payload, packetLength, spid, packetType, status);
      (|ps| == 0 <==> |payload| == 0)
      && Payloads(ps) == payload
      && HeadersFrom(ps, packetType, spid, 1)
      && (forall k :: 0 <= k < |ps| ==> ps[k].status / 2 == status / 2 && (IsEom(ps[k].status) <==> k == |ps| - 1))
      && (forall k :: 0 <= k < |ps| - 1 ==> |ps[k].payload| == packetLength - HeaderLength)
      && (|ps| > 0 ==> 1 <= |ps[|ps| - 1].payload| <= packetLength - HeaderLength)
  {
    ChunksPayloads(payload, 0, packetLength - HeaderLength, packetType, ClearEom(status), spid, 1);
    ChunksHeaders(payload, 0, packetLength - HeaderLength, packetType, ClearEom(status), spid, 1);
    ChunksSizes(payload, 0, packetLength - HeaderLength, packetType, ClearEom(status), spid, 1);
    assert payload[0..] == payload;
    var ps := OutgoingPackets(payload, packetLength, spid, packetType, status);
    forall k | 0 <= k < |ps|
      ensures ps[k].status / 2 == status / 2 && (IsEom(ps[k].status) <==> k == |ps| - 1)
    {
      if k < |ps| - 1 {
        assert ps[k].status == ClearEom(status);
      } else {
        assert ps[k].status == SetEom(ClearEom(status));
      }
    }
  }

  /** One step of Chunks on the wire: the header and chunk for payload[offset..], then the bytes of the chunks after it. */
  lemma ChunksStep(payload: bytes, offset: nat, maxPayload: nat, packetType: byte, status: byte, spid: u16, id: byte,
                   n: nat, thisStatus: byte)
    requires 0 < maxPayload <= 0xFFFF - HeaderLength && offset < |payload|
    requires n == Min(|payload| - offset, maxPayload)
    requires thisStatus == if offset + n >= |payload| then SetEom(status) else status
    ensures SerializeAll(Chunks(payload, offset, maxPayload, packetType, status, spid, id))
      == Header(packetType, thisStatus, n + HeaderLength, spid, id, 0) + payload[offset..offset + n]
         + SerializeAll(Chunks(payload, offset + n, maxPayload, packetType, status, spid, (id + 1) % 256))
  {
    var p := Packet(packetType, thisStatus, n + HeaderLength, spid, id, 0, payload[offset..offset + n]);
    var rest := Chunks(payload, offset + n, maxPayload, packetType, status, spid, (id + 1) % 256);
    assert Chunks(payload, offset, maxPayload, packetType, status, spid, id) == [p] + rest;
    SerializeAllCons(p, rest);
  }

  lemma SerializeAllCons(p: Packet, ps: seq<Packet>)
    ensures SerializeAll([p] + ps) == Serialize(p) + SerializeAll(ps)
  {
    assert ([p] + ps)[1..] == ps;
  }

  /** TDSPacket.WriteMessageAsync, filling one reused packet buffer per chunk. */
  method WriteMessage(stream: OutputStream, packetLength: u16, spid: u16, payload: bytes, messageType: byte, status0: byte)
    requires packetLength > HeaderLength
    modifies stream
    ensures stream.written == old(stream.written) + SerializeAll(OutgoingPackets(payload, packetLength, spid, messageType, status0))
  {
    var status := ClearEom(status0);
    var packet := new byte[Min(|payload| + HeaderLength, packetLength)];
    var payloadOffset := 0;
    var maxPacketPayload := packetLength - HeaderLength;
    var packetId: byte := 1;
    ghost var base := status;
    ghost var whole := stream.written + SerializeAll(Chunks(payload, payloadOffset, maxPacketPayload, messageType, base, spid, packetId));
    while payloadOffset < |payload|
      invariant payloadOffset <= |payload|
      invariant payloadOffset < |payload| ==> status == base
      invariant whole == stream.written + SerializeAll(Chunks(payload, payloadOffset, maxPacketPayload, messageType, base, spid, packetId))
      decreases |payload| - payloadOffset
    {
      var thisPayloadLength;
      thisPayloadLength, status := WriteChunk(stream, packet, payload, payloadOffset, maxPacketPayload, messageType, status, spid, packetId, whole);
      packetId := (packetId + 1) % 256;
      payloadOffset := payloadOffset + thisPayloadLength;
    }
  }

  /** One trip round WriteMessage's loop: the packet just written is the next one of OutgoingPackets. */
  lemma WriteStep(whole: bytes, before: bytes, after: bytes, payload: bytes, offset: nat, maxPayload: nat, packetType: byte,
                  status: byte, spid: u16, id: byte, n: nat, thisStatus: byte)
    requires 0 < maxPayload <= 0xFFFF - HeaderLength && offset < |payload|
    requires n == Min(|payload| - offset, maxPayload)
    requires thisStatus == if offset + n >= |payload| then SetEom(status) else status
    requires whole == before + SerializeAll(Chunks(payload, offset, maxPayload, packetType, status, spid, id))
    requires after == before + (Header(packetType, thisStatus, n + HeaderLength, spid, id, 0) + payload[offset..offset + n])
    ensures whole == after + SerializeAll(Chunks(payload, offset + n, maxPayload, packetType, status, spid, (id + 1) % 256))
  {
    ChunksStep(payload, offset, maxPayload, packetType, status, spid, id, n, thisStatus);
  }

  /**
   * The body of WriteMessage's loop: the next chunk's length, the status with
   * end-of-message set on the chunk that reaches the end, and that packet
   * written, which is the next packet of the message being sent (what is
   * left to write moves on by one packet).
   */
  method WriteChunk(stream: OutputStream, packet: array<byte>, payload: bytes, payloadOffset: nat, maxPacketPayload: nat,
                    messageType: byte, status: byte, spid: u16, packetId: byte, ghost whole: bytes)
    returns (thisPayloadLength: nat, newStatus: byte)
    requires 0 < maxPacketPayload <= 0xFFFF - HeaderLength && payloadOffset < |payload|
    requires Min(|payload|, maxPacketPayload) + HeaderLength <= packet.Length
    requires whole == stream.written + SerializeAll(Chunks(payload, payloadOffset, maxPacketPayload, messageType, status, spid, packetId))
    modifies stream, packet
    ensures 0 < thisPayloadLength <= |payload| - payloadOffset
    ensures newStatus == if payloadOffset + thisPayloadLength >= |payload| then SetEom(status) else status
    ensures whole == stream.written
      + SerializeAll(Chunks(payload, payloadOffset + thisPayloadLength, maxPacketPayload, messageType, status, spid, (packetId + 1) % 256))
  {
    thisPayloadLength := Min(|payload| - payloadOffset, maxPacketPayload);
    var thisPacketLength := thisPayloadLength + HeaderLength;
    newStatus := status;
    if payloadOffset + thisPayloadLength >= |payload| {
      newStatus := SetEom(status);
    }
    ghost var before := stream.written;
    var header := Header(messageType, newStatus, thisPacketLength, spid, packetId, 0);
    WritePacket(stream, packet, header, payload, payloadOffset, thisPayloadLength);
    WriteStep(whole, before, stream.written, payload, payloadOffset, maxPacketPayload, messageType, status,
              spid, packetId, thisPayloadLength, newStatus);
  }

  /** Fills the packet buffer with a header and a chunk of the payload and writes them out. */
  method WritePacket(stream: OutputStream, packet: array<byte>, header: bytes, payload: bytes, offset: nat, n: nat)
    requires |header| == HeaderLength && offset + n <= |payload| && HeaderLength + n <= packet.Length
    modifies stream, packet
    ensures stream.written == old(stream.written) + (header + payload[offset..offset + n])
  {
    FillPacket(packet, header, payload, offset, n);
    stream.Write(packet[..HeaderLength + n]);
  }

  /** Stores a header and a chunk of the payload at the front of the packet buffer. */
  method FillPacket(packet: array<byte>, header: bytes, payload: bytes, offset: nat, n: nat)
    requires |header| == HeaderLength && offset + n <= |payload| && HeaderLength + n <= packet.Length
    modifies packet
    ensures packet[..HeaderLength + n] == header + payload[offset..offset + n]
  {
    forall i | 0 <= i < HeaderLength {
      packet[i] := header[i];
    }
    forall i | HeaderLength <= i < HeaderLength + n {
      packet[i] := payload[offset + i - HeaderLength];
    }
  }

  // ---------------------------------------------------------------------
  // Reading packets
  // ---------------------------------------------------------------------

  /** The bytes of the packet header that come from the stream (the type may already be known). */
  function HeaderBytesToRead(readTypeFromStream: bool): nat
  {
    if readTypeFromStream then HeaderLength else HeaderLength - 1
  }

  /** How many stream bytes a packet occupies. */
  function Consumed(p: Packet, readTypeFromStream: bool): nat
  {
    HeaderBytesToRead(readTypeFromStream) + |p.payload|
  }

  /**
   * ReadSinglePacketAsync on a stream that will deliver s: an incomplete
   * header, a length under 8 and an incomplete payload fail carrying the
   * bytes read so far; a type other than the expected one fails carrying
   * nothing.
   */
  function ParseSinglePacket(s: bytes, packetType: byte, readTypeFromStream: bool): (r: Result<Packet>)
    ensures r.Ok? ==> (WellFormed(r.value) && r.value.packetType == packetType
      && Consumed(r.value, readTypeFromStream) <= |s|)
  {
    var header :- ParseHeader(s, packetType, readTypeFromStream);
    ParseBody(header, s[HeaderBytesToRead(readTypeFromStream)..], packetType)
  }

  /** The header stage: the eight header bytes, or the incomplete header as the error. */
  function ParseHeader(s: bytes, packetType: byte, readTypeFromStream: bool): (r: Result<bytes>)
    ensures r.Ok? ==> |r.value| == HeaderLength && |s| >= HeaderBytesToRead(readTypeFromStream)
    ensures r.Ok? && !readTypeFromStream ==> r.value[0] == packetType
  {
    var pre := if readTypeFromStream then [] else [packetType];
    var need := HeaderBytesToRead(readTypeFromStream);
    if |s| < need then Err(InvalidPacket(pre + s)) else Ok(pre + s[..need])
  }

  /** The body stage: the length check, the payload that follows the header, the type check. */
  function ParseBody(header: bytes, s: bytes, packetType: byte): (r: Result<Packet>)
    requires |header| == HeaderLength
    ensures r.Ok? ==> (WellFormed(r.value) && r.value.packetType == packetType
      && |r.value.payload| <= |s| && r.value.payload == s[..|r.value.payload|])
  {
    var length := BEValue(header[2..4]);
    if length < HeaderLength then Err(InvalidPacket(header))
    else if |s| < length - HeaderLength then Err(InvalidPacket(header + s))
    else if header[0] != packetType then Err(InvalidPacket([]))
    else Ok(Packet(packetType, header[1], length, BEValue(header[4..6]), header[6], header[7],
                   s[..length - HeaderLength]))
  }

  /** The bytes a packet occupies on the stream, without its type byte when that was peeked. */
  function OnStream(p: Packet, readTypeFromStream: bool): bytes
  {
    if readTypeFromStream then Serialize(p) else Serialize(p)[1..]
  }

  /** Reading a serialized packet gives the packet back, whatever follows it. */
  lemma ParseSerialized(p: Packet, rest: bytes, readTypeFromStream: bool)
    requires WellFormed(p)
    ensures ParseSinglePacket(OnStream(p, readTypeFromStream) + rest, p.packetType, readTypeFromStream) == Ok(p)
  {
    var s := OnStream(p, readTypeFromStream) + rest;
    var need := HeaderBytesToRead(readTypeFromStream);
    var pre := if readTypeFromStream then [] else [p.packetType];
    var header := pre + s[..need];
    var h := Header(p.packetType, p.status, p.length, p.spid, p.packetId, p.window);
    assert header == h;
    assert header[2..4] == BE(p.length, 2);
    assert header[4..6] == BE(p.spid, 2);
    BEValueOfBE(p.length, 2);
    BEValueOfBE(p.spid, 2);
    assert ParseHeader(s, p.packetType, readTypeFromStream) == Ok(h);
    assert s[need..][..p.length - HeaderLength] == p.payload;
  }

  /** TDSPacket.ReadSinglePacketAsync: the header, its length check, the payload, the type check. */
  method ReadSinglePacket(stream: InputStream, packetType: byte, readTypeFromStream: bool) returns (r: Result<Packet>)
    requires stream.Valid()
    modifies stream
    ensures stream.Valid()
    ensures r == ParseSinglePacket(old(stream.Remaining()), packetType, readTypeFromStream)
    ensures r.Ok? ==> stream.pos == old(stream.pos) + Consumed(r.value, readTypeFromStream)
  {
    ghost var s := stream.Remaining();
    var header := ReadHeader(stream, packetType, readTypeFromStream);
    if header.Err? {
      return Err(header.error);
    }
    assert stream.Remaining() == s[HeaderBytesToRead(readTypeFromStream)..];
    r := ReadBody(stream, header.value, packetType);
  }

  /** The header loop of ReadSinglePacketAsync (lines that fill the 8-byte header). */
  method ReadHeader(stream: InputStream, packetType: byte, readTypeFromStream: bool) returns (r: Result<bytes>)
    requires stream.Valid()
    modifies stream
    ensures stream.Valid()
    ensures r == ParseHeader(old(stream.Remaining()), packetType, readTypeFromStream)
    ensures r.Ok? ==> stream.pos == old(stream.pos) + HeaderBytesToRead(readTypeFromStream)
  {
    ghost var s := stream.Remaining();
    ghost var pre: bytes := if readTypeFromStream then [] else [packetType];
    var header := new byte[HeaderLength];
    var packetBytesRead := 0;
    if !readTypeFromStream {
      header[0] := packetType;
      packetBytesRead := 1;
    }
    assert header[..packetBytesRead] == pre;
    packetBytesRead := Fill(stream, header, packetBytesRead, HeaderLength);
    assert header[..packetBytesRead] == header[..|pre|] + header[|pre|..packetBytesRead];
    if packetBytesRead < HeaderLength {
      assert s[..packetBytesRead - |pre|] == s;
      return Err(InvalidPacket(header[..packetBytesRead]));
    }
    assert header[..] == header[..packetBytesRead];
    r := Ok(header[..]);
  }

  /** The payload loop and the type check of ReadSinglePacketAsync. */
  method ReadBody(stream: InputStream, header: bytes, packetType: byte) returns (r: Result<Packet>)
    requires stream.Valid() && |header| == HeaderLength
    modifies stream
    ensures stream.Valid()
    ensures r == ParseBody(header, old(stream.Remaining()), packetType)
    ensures r.Ok? ==> stream.pos == old(stream.pos) + |r.value.payload|
  {
    ghost var s := stream.Remaining();
    BEValue2(header[2..4]);
    var length := header[2] as int * 0x100 + header[3];
    if length < HeaderLength {
      return Err(InvalidPacket(header));
    }
    var payload := new byte[length - HeaderLength];
    var payloadRead := Fill(stream, payload, 0, length - HeaderLength);
    if payloadRead < length - HeaderLength {
      assert s[..payloadRead] == s;
      assert payload[..payloadRead] == payload[0..payloadRead];
      return Err(InvalidPacket(header + payload[..payloadRead]));
    }
    if header[0] != packetType {
      return Err(InvalidPacket([]));
    }
    BEValue2(header[4..6]);
    var spid := header[4] as int * 0x100 + header[5];
    assert payload[..] == payload[0..payloadRead];
    r := Ok(Packet(packetType, header[1], length, spid, header[6], header[7], payload[..]));
  }

  /**
   * TDSPacket.ReadAsync(type, stream): packets up to and including the
   * first one flagged end-of-message; the first packet's type was peeked,
   * the later ones are read from the stream.
   */
  function ParseMessage(s: bytes, packetType: byte, readTypeFromStream: bool): (r: Result<seq<Packet>>)
    ensures r.Ok? ==> |r.value| > 0 && IsEom(r.value[|r.value| - 1].status)
    decreases |s|
  {
    var p :- ParseSinglePacket(s, packetType, readTypeFromStream);
    var c := Consumed(p, readTypeFromStream);
    if IsEom(p.status) then Ok([p])
    else
      var rest :- ParseMessage(s[c..], packetType, true);
      Ok([p] + rest)
  }

  /** What the reader returns is a message: one type throughout, end-of-message on the last packet only. */
  lemma {:induction false} ParseMessageShape(s: bytes, packetType: byte, readTypeFromStream: bool)
    ensures var r := ParseMessage(s, packetType, readTypeFromStream);
      r.Ok? ==> (|r.value| > 0
      && (forall k :: 0 <= k < |r.value| ==> WellFormed(r.value[k]) && r.value[k].packetType == packetType)
      && (forall k :: 0 <= k < |r.value| ==> (IsEom(r.value[k].status) <==> k == |r.value| - 1)))
    decreases |s|
  {
    var p := ParseSinglePacket(s, packetType, readTypeFromStream);
    if p.Ok? && !IsEom(p.value.status) {
      ParseMessageShape(s[Consumed(p.value, readTypeFromStream)..], packetType, true);
    }
  }

  /** The packets of a message as they appear on the stream. */
  function MessageOnStream(ps: seq<Packet>, readTypeFromStream: bool): bytes
    requires |ps| > 0
  {
    OnStream(ps[0], readTypeFromStream) + SerializeAll(ps[1..])
  }

  /**
   * Reading the packets of a message back: every packet has the same type,
   * only the last carries end-of-message, and the reader returns them all.
   */
  lemma {:induction false} ParseMessageOfPackets(ps: seq<Packet>, rest: bytes, readTypeFromStream: bool)
    requires |ps| > 0
    requires forall k :: 0 <= k < |ps| ==> WellFormed(ps[k]) && ps[k].packetType == ps[0].packetType
    requires forall k :: 0 <= k < |ps| ==> (IsEom(ps[k].status) <==> k == |ps| - 1)
    ensures ParseMessage(MessageOnStream(ps, readTypeFromStream) + rest, ps[0].packetType, readTypeFromStream) == Ok(ps)
    decreases |ps|
  {
    FirstOfMessage(ps, rest, readTypeFromStream);
    if |ps| > 1 {
      TailOfMessage(ps);
      ParseMessageOfPackets(ps[1..], rest, true);
      assert ps == [ps[0]] + ps[1..];
    } else {
      assert ps == [ps[0]];
    }
  }

  /** The first packet of a message on the stream reads back, and the rest of the message follows it. */
  lemma FirstOfMessage(ps: seq<Packet>, rest: bytes, readTypeFromStream: bool)
    requires |ps| > 0 && WellFormed(ps[0])
    ensures var s := MessageOnStream(ps, readTypeFromStream) + rest;
      ParseSinglePacket(s, ps[0].packetType, readTypeFromStream) == Ok(ps[0])
      && s[Consumed(ps[0], readTypeFromStream)..] == SerializeAll(ps[1..]) + rest
  {
    var s := MessageOnStream(ps, readTypeFromStream) + rest;
    var tail := SerializeAll(ps[1..]) + rest;
    assert s == OnStream(ps[0], readTypeFromStream) + tail;
    ParseSerialized(ps[0], tail, readTypeFromStream);
    assert |OnStream(ps[0], readTypeFromStream)| == Consumed(ps[0], readTypeFromStream);
  }

  /** After the first packet of a message of several, the rest is a message read with the type byte. */
  lemma TailOfMessage(ps: seq<Packet>)
    requires |ps| > 1
    requires forall k :: 0 <= k < |ps| ==> WellFormed(ps[k]) && ps[k].packetType == ps[0].packetType
    requires forall k :: 0 <= k < |ps| ==> (IsEom(ps[k].status) <==> k == |ps| - 1)
    ensures !IsEom(ps[0].status) && ps[1..][0].packetType == ps[0].packetType
    ensures SerializeAll(ps[1..]) == MessageOnStream(ps[1..], true)
    ensures forall k :: 0 <= k < |ps[1..]| ==> WellFormed(ps[1..][k]) && ps[1..][k].packetType == ps[1..][0].packetType
    ensures forall k :: 0 <= k < |ps[1..]| ==> (IsEom(ps[1..][k].status) <==> k == |ps[1..]| - 1)
  {
    var qs := ps[1..];
    assert forall k :: 0 <= k < |qs| ==> qs[k] == ps[k + 1];
    assert !IsEom(ps[0].status);
  }

  /** TDSPacket.ReadAsync(type, stream): the do/while loop over ReadSinglePacketAsync. */
  method ReadMessage(stream: InputStream, packetType: byte) returns (r: Result<seq<Packet>>)
    requires stream.Valid()
    modifies stream
    ensures stream.Valid()
    ensures r == ParseMessage(old(stream.Remaining()), packetType, false)
  {
    ghost var whole := ParseMessage(stream.Remaining(), packetType, false);
    var packets: seq<Packet> := [];
    var notFirstPacket := false;
    PrependNothing(whole);
    while true
      invariant stream.Valid()
      invariant whole == Prepend(packets, ParseMessage(stream.Remaining(), packetType, notFirstPacket))
      decreases |stream.data| - stream.pos
    {
      ghost var s := stream.Remaining();
      var result := ReadSinglePacket(stream, packetType, notFirstPacket);
      ReadStep(whole, packets, s, packetType, notFirstPacket, stream.Remaining());
      if result.Err? {
        return Err(result.error);
      }
      var lastPacket := result.value;
      packets := packets + [lastPacket];
      if IsEom(lastPacket.status) {
        return Ok(packets);
      }
      notFirstPacket := true;
    }
  }

  /** Prefixes already-collected packets to the outcome of the rest of a read. */
  function Prepend(done: seq<Packet>, r: Result<seq<Packet>>): (q: Result<seq<Packet>>)
    ensures q.Ok? <==> r.Ok?
    ensures r.Err? ==> q == r
  {
    if r.Ok? then Ok(done + r.value) else r
  }

  lemma PrependNothing(r: Result<seq<Packet>>)
    ensures Prepend([], r) == r
  {
    if r.Ok? {
      assert [] + r.value == r.value;
    }
  }

  lemma PrependPrepend(a: seq<Packet>, b: seq<Packet>, r: Result<seq<Packet>>)
    ensures Prepend(a, Prepend(b, r)) == Prepend(a + b, r)
  {
    if r.Ok? {
      assert a + (b + r.value) == (a + b) + r.value;
    }
  }

  /** One packet of ParseMessage: it fails as that packet fails, stops at end-of-message, or carries on. */
  lemma ParseMessageStep(s: bytes, packetType: byte, readTypeFromStream: bool)
    ensures var p := ParseSinglePacket(s, packetType, readTypeFromStream);
      var m := ParseMessage(s, packetType, readTypeFromStream);
      (p.Err? ==> m == Err(p.error))
      && (p.Ok? && IsEom(p.value.status) ==> m == Ok([p.value]))
      && (p.Ok? && !IsEom(p.value.status) ==>
            m == Prepend([p.value], ParseMessage(s[Consumed(p.value, readTypeFromStream)..], packetType, true)))
  {
  }

  /** One trip round ReadMessage's loop, in terms of what the whole read returns. */
  lemma ReadStep(whole: Result<seq<Packet>>, done: seq<Packet>, s: bytes, packetType: byte, readTypeFromStream: bool, after: bytes)
    requires whole == Prepend(done, ParseMessage(s, packetType, readTypeFromStream))
    requires var p := ParseSinglePacket(s, packetType, readTypeFromStream);
      p.Ok? ==> after == s[Consumed(p.value, readTypeFromStream)..]
    ensures var p := ParseSinglePacket(s, packetType, readTypeFromStream);
      (p.Err? ==> whole == Err(p.error))
      && (p.Ok? && IsEom(p.value.status) ==> whole == Ok(done + [p.value]))
      && (p.Ok? && !IsEom(p.value.status) ==> whole == Prepend(done + [p.value], ParseMessage(after, packetType, true)))
  {
    ParseMessageStep(s, packetType, readTypeFromStream);
    var p := ParseSinglePacket(s, packetType, readTypeFromStream);
    if p.Ok? && !IsEom(p.value.status) {
      PrependPrepend(done, [p.value], ParseMessage(after, packetType, true));
    }
  }

  /** TDSPacket.ReadAsync(stream): peeks the type byte; the end of the stream is EndOfStream. */
  function ReadPeeked(s: bytes): (r: Result<seq<Packet>>)
    ensures |s| == 0 ==> r == Err(EndOfStream)
    ensures r.Ok? ==> |r.value| > 0 && forall k :: 0 <= k < |r.value| ==> r.value[k].packetType == s[0]
  {
    if |s| == 0 then Err(EndOfStream)
    else
      ParseMessageShape(s[1..], s[0], false);
      ParseMessage(s[1..], s[0], false)
  }

  method ReadMessageFromStream(stream: InputStream) returns (r: Result<seq<Packet>>)
    requires stream.Valid()
    modifies stream
    ensures stream.Valid()
    ensures r == ReadPeeked(old(stream.Remaining()))
  {
    var peek := stream.ReadByte();
    if peek.None? {
      return Err(EndOfStream);
    }
    r := ReadMessage(stream, peek.value);
  }

  /**
   * The packets WriteMessageAsync emits for a non-empty payload are read
   * back by ReadAsync as the same packets, so their payloads concatenate
   * to the original payload.
   */
  lemma WriteThenRead(payload: bytes, packetLength: u16, spid: u16, packetType: byte, status: byte, rest: bytes)
    requires packetLength > HeaderLength && |payload| > 0
    ensures var ps := OutgoingPackets(payload, packetLength, spid, packetType, status);
      (forall k :: 0 <= k < |ps| ==> WellFormed(ps[k]))
      && ReadPeeked(SerializeAll(ps) + rest) == Ok(ps)
      && Payloads(ps) == payload
  {
    var ps := OutgoingPackets(payload, packetLength, spid, packetType, status);
    OutgoingPacketsShape(payload, packetLength, spid, packetType, status);
    var s := SerializeAll(ps) + rest;
    assert SerializeAll(ps) == Serialize(ps[0]) + SerializeAll(ps[1..]);
    assert s[0] == packetType;
    assert s[1..] == MessageOnStream(ps, false) + rest;
    ParseMessageOfPackets(ps, rest, false);
  }
}
