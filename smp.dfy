/**
 * SMPPacket: one packet of the Session Multiplex Protocol ([MC-SMP]
 * section 2.2.1), a 16-byte little-endian header followed by the
 * payload. The set of SMP type bytes is not part of this model; every
 * member takes it as the parameter `smpTypes`.
 */
module Smp {
  import opened Wire
  import opened Streams

  const HeaderLength: nat := 16

  // SmpFlags
  const Syn: byte := 0x01
  const Ack: byte := 0x02
  const Fin: byte := 0x04
  const DataFlag: byte := 0x08

  predicate IsSmpPacketType(b: byte, smpTypes: set<byte>)
  {
    b in smpTypes
  }

  /** The header's length field: little-endian bytes 4-7. */
  function PacketLength(data: bytes): (r: u32)
    requires |data| >= HeaderLength
    ensures r == LEValue(data[4..8])
  {
    LEValue4(data[4..8]);
    data[7] as int * 0x100_0000 + data[6] as int * 0x1_0000 + data[5] as int * 0x100 + data[4]
  }

  /** An SMP packet is its immutable Data array. */
  datatype SmpPacket = SmpPacket(data: bytes)

  /** What the constructor checks: a whole header, a known type, and a declared length equal to the data's. */
  predicate Valid(p: SmpPacket, smpTypes: set<byte>)
  {
    |p.data| >= HeaderLength && p.data[0] in smpTypes && |p.data| == PacketLength(p.data)
  }

  /** The SMPPacket constructor: accepts exactly the valid data and keeps it as it is. */
  function NewSmpPacket(data: bytes, smpTypes: set<byte>): (r: Result<SmpPacket>)
    ensures r.Ok? <==> Valid(SmpPacket(data), smpTypes)
    ensures r.Ok? ==> r.value.data == data
    ensures r.Err? ==> r.error == Argument
  {
    if |data| < HeaderLength then Err(Argument)
    else if data[0] !in smpTypes then Err(Argument)
    else if |data| != PacketLength(data) then Err(Argument)
    else Ok(SmpPacket(data))
  }

  function PacketType(p: SmpPacket): byte
    requires |p.data| >= HeaderLength
  {
    p.data[0]
  }

  function Flags(p: SmpPacket): byte
    requires |p.data| >= HeaderLength
  {
    p.data[1]
  }

  function Sid(p: SmpPacket): (r: u16)
    requires |p.data| >= HeaderLength
    ensures r == LEValue(p.data[2..4])
  {
    LEValue2(p.data[2..4]);
    p.data[3] as int * 0x100 + p.data[2]
  }

  function Length(p: SmpPacket): u32
    requires |p.data| >= HeaderLength
  {
    PacketLength(p.data)
  }

  function SeqNum(p: SmpPacket): (r: u32)
    requires |p.data| >= HeaderLength
    ensures r == LEValue(p.data[8..12])
  {
    LEValue4(p.data[8..12]);
    p.data[11] as int * 0x100_0000 + p.data[10] as int * 0x1_0000 + p.data[9] as int * 0x100 + p.data[8]
  }

  function Window(p: SmpPacket): (r: u32)
    requires |p.data| >= HeaderLength
    ensures r == LEValue(p.data[12..16])
  {
    LEValue4(p.data[12..16]);
    p.data[15] as int * 0x100_0000 + p.data[14] as int * 0x1_0000 + p.data[13] as int * 0x100 + p.data[12]
  }

  /** The payload: everything after the header, Length - 16 bytes of it. */
  function Payload(p: SmpPacket, smpTypes: set<byte>): (r: bytes)
    requires Valid(p, smpTypes)
    ensures |r| == Length(p) - HeaderLength
    ensures p.data == p.data[..HeaderLength] + r
  {
    p.data[HeaderLength..Length(p)]
  }

  /** A header laid out field by field, as [MC-SMP] section 2.2.1 describes it. */
  function SmpHeader(packetType: byte, flags: byte, sid: u16, length: u32, seqNum: u32, window: u32): (r: bytes)
    ensures |r| == HeaderLength
  {
    [packetType, flags] + LE16(sid) + LE32(length) + LE32(seqNum) + LE32(window)
  }

  /** Every accessor reads back the field the header was built from. */
  lemma SmpHeaderFields(packetType: byte, flags: byte, sid: u16, length: u32, seqNum: u32, window: u32, payload: bytes)
    ensures var p := SmpPacket(SmpHeader(packetType, flags, sid, length, seqNum, window) + payload);
      PacketType(p) == packetType && Flags(p) == flags && Sid(p) == sid && Length(p) == length
      && SeqNum(p) == seqNum && Window(p) == window
  {
    var h := SmpHeader(packetType, flags, sid, length, seqNum, window);
    var d := h + payload;
    assert d[2..4] == LE(sid, 2);
    assert d[4..8] == LE(length, 4);
    assert d[8..12] == LE(seqNum, 4);
    assert d[12..16] == LE(window, 4);
    LEValueOfLE(sid, 2);
    LEValueOfLE(length, 4);
    LEValueOfLE(seqNum, 4);
    LEValueOfLE(window, 4);
  }

  // ---------------------------------------------------------------------
  // Reading from a stream
  // ---------------------------------------------------------------------

  /**
   * The header stage of ReadFromStreamAsync on a stream that will deliver
   * s: None at the end of the stream, otherwise the 16 header bytes (the
   * first one read or supplied). The stream is consumed by the bytes
   * read from it.
   */
  function ParseSmpHeader(s: bytes, readPacketType: bool, packetType: Option<byte>, smpTypes: set<byte>): (r: Result<Option<bytes>>)
    ensures r.Ok? && r.value.None? ==> readPacketType && |s| == 0
    ensures r.Ok? && r.value.Some? ==> (|r.value.value| == HeaderLength
      && |s| >= HeaderConsumed(readPacketType)
      && r.value.value[1..] == s[HeaderConsumed(readPacketType) - (HeaderLength - 1)..HeaderConsumed(readPacketType)]
      && (packetType.Some? ==> r.value.value[0] == packetType.value)
      && (readPacketType ==> r.value.value[0] == s[0] && s[0] in smpTypes))
  {
    if !readPacketType && packetType.None? then Err(Argument)
    else if readPacketType && |s| == 0 then Ok(None)
    else
      var t := if readPacketType then s[0] else packetType.value;
      var rest := if readPacketType then s[1..] else s;
      if readPacketType && t !in smpTypes then Err(SmpInvalidPacket([t]))
      else if packetType.Some? && packetType.value != t then Err(SmpInvalidPacket([t]))
      else if |rest| < HeaderLength - 1 then Err(SslInvalidPacket([t] + rest))
      else Ok(Some([t] + rest[..HeaderLength - 1]))
  }

  /** How many stream bytes the header takes: its type byte may have come from the caller. */
  function HeaderConsumed(readPacketType: bool): nat
  {
    if readPacketType then HeaderLength else HeaderLength - 1
  }

  /**
   * The body stage: the declared length must fit an int (else the array
   * allocation overflows) and cover the header (else the header copy is
   * an argument error); the payload must then arrive whole, and the
   * assembled data must pass the constructor.
   */
  function ParseSmpBody(header: bytes, s: bytes, smpTypes: set<byte>): (r: Result<SmpPacket>)
    requires |header| == HeaderLength
    ensures r.Ok? ==> (Valid(r.value, smpTypes) && |r.value.data| - HeaderLength <= |s|
      && r.value.data == header + s[..|r.value.data| - HeaderLength])
  {
    var len := PacketLength(header);
    if len >= 0x8000_0000 then Err(Overflow)
    else if len < HeaderLength then Err(Argument)
    else if |s| < len - HeaderLength then Err(SslInvalidPacket(header + s))
    else
      var data := header + s[..len - HeaderLength];
      assert data[..HeaderLength] == header;
      NewSmpPacket(data, smpTypes)
  }

  /** SMPPacket.ReadFromStreamAsync on a stream that will deliver s. */
  function ParseSmp(s: bytes, readPacketType: bool, packetType: Option<byte>, smpTypes: set<byte>): (r: Result<Option<SmpPacket>>)
    ensures r.Ok? && r.value.Some? ==> Valid(r.value.value, smpTypes)
  {
    var header :- ParseSmpHeader(s, readPacketType, packetType, smpTypes);
    if header.None? then Ok(None)
    else
      var p :- ParseSmpBody(header.value, s[HeaderConsumed(readPacketType)..], smpTypes);
      Ok(Some(p))
  }

  /** The header loop of ReadFromStreamAsync. */
  method ReadSmpHeader(stream: InputStream, readPacketType: bool, packetType: Option<byte>, smpTypes: set<byte>)
    returns (r: Result<Option<bytes>>)
    requires stream.Valid()
    modifies stream
    ensures stream.Valid()
    ensures r == ParseSmpHeader(old(stream.Remaining()), readPacketType, packetType, smpTypes)
    ensures r.Ok? && r.value.Some? ==> stream.pos == old(stream.pos) + HeaderConsumed(readPacketType)
  {
    ghost var s := stream.Remaining();
    if !readPacketType && packetType.None? {
      return Err(Argument);
    }
    var header := new byte[HeaderLength];
    var packetBytesRead: nat;
    if readPacketType {
      packetBytesRead := stream.ReadInto(header, 0, 1);
      if packetBytesRead == 0 {
        return Ok(None);
      }
      if header[0] !in smpTypes {
        return Err(SmpInvalidPacket(header[..1]));
      }
    } else {
      header[0] := packetType.value;
      packetBytesRead := 1;
    }
    if packetType.Some? && packetType.value != header[0] {
      return Err(SmpInvalidPacket(header[..1]));
    }
    ghost var rest := stream.Remaining();
    ghost var first := header[..1];
    assert readPacketType ==> first == [s[0]] && rest == s[1..];
    assert !readPacketType ==> first == [packetType.value] && rest == s;
    packetBytesRead := Fill(stream, header, 1, HeaderLength);
    assert header[..1] == first;
    assert header[..packetBytesRead] == header[..1] + header[1..packetBytesRead];
    if packetBytesRead < HeaderLength {
      assert rest[..packetBytesRead - 1] == rest;
      return Err(SslInvalidPacket(header[..packetBytesRead]));
    }
    assert header[..] == header[..packetBytesRead];
    r := Ok(Some(header[..]));
  }

  /** The payload loop of ReadFromStreamAsync and the final constructor call. */
  method ReadSmpBody(stream: InputStream, header: bytes, smpTypes: set<byte>) returns (r: Result<SmpPacket>)
    requires stream.Valid() && |header| == HeaderLength
    modifies stream
    ensures stream.Valid()
    ensures r == ParseSmpBody(header, old(stream.Remaining()), smpTypes)
    ensures r.Ok? ==> stream.pos == old(stream.pos) + (|r.value.data| - HeaderLength)
  {
    ghost var s := stream.Remaining();
    var packetLength := PacketLength(header);
    if packetLength >= 0x8000_0000 {
      return Err(Overflow);
    }
    if packetLength < HeaderLength {
      return Err(Argument);
    }
    var data := new byte[packetLength];
    forall i | 0 <= i < HeaderLength {
      data[i] := header[i];
    }
    assert data[..HeaderLength] == header;
    var packetBytesRead := Fill(stream, data, HeaderLength, packetLength);
    assert data[..packetBytesRead] == data[..HeaderLength] + data[HeaderLength..packetBytesRead];
    if packetBytesRead < packetLength {
      assert s[..packetBytesRead - HeaderLength] == s;
      return Err(SslInvalidPacket(data[..packetBytesRead]));
    }
    assert data[..] == data[..packetBytesRead];
    r := NewSmpPacket(data[..], smpTypes);
  }

  /** SMPPacket.ReadFromStreamAsync: null (None) when the stream ends before the type byte. */
  method ReadSmp(stream: InputStream, readPacketType: bool, packetType: Option<byte>, smpTypes: set<byte>)
    returns (r: Result<Option<SmpPacket>>)
    requires stream.Valid()
    modifies stream
    ensures stream.Valid()
    ensures r == ParseSmp(old(stream.Remaining()), readPacketType, packetType, smpTypes)
    ensures r.Ok? && r.value.Some? ==>
      stream.pos == old(stream.pos) + HeaderConsumed(readPacketType) + (|r.value.value.data| - HeaderLength)
  {
    ghost var s := stream.Remaining();
    var header := ReadSmpHeader(stream, readPacketType, packetType, smpTypes);
    if header.Err? {
      return Err(header.error);
    }
    if header.value.None? {
      return Ok(None);
    }
    assert stream.Remaining() == s[HeaderConsumed(readPacketType)..];
    var p := ReadSmpBody(stream, header.value.value, smpTypes);
    if p.Err? {
      return Err(p.error);
    }
    r := Ok(Some(p.value));
  }

  /** SMPPacket.WriteToStreamAsync: the data, verbatim. */
  method WriteSmp(p: SmpPacket, stream: OutputStream)
    modifies stream
    ensures stream.written == old(stream.written) + p.data
  {
    stream.Write(p.data);
  }

  /**
   * Reading back what WriteToStreamAsync wrote returns the same data,
   * whatever follows it, when the type byte is read from the stream and
   * the caller expects that type or none.
   */
  lemma ReadWritten(p: SmpPacket, smpTypes: set<byte>, packetType: Option<byte>, rest: bytes)
    requires Valid(p, smpTypes) && |p.data| < 0x8000_0000
    requires packetType.None? || packetType.value == p.data[0]
    ensures ParseSmp(p.data + rest, true, packetType, smpTypes) == Ok(Some(p))
  {
    var s := p.data + rest;
    assert [s[0]] + s[1..][..HeaderLength - 1] == p.data[..HeaderLength];
    assert ParseSmpHeader(s, true, packetType, smpTypes) == Ok(Some(p.data[..HeaderLength]));
    assert s[HeaderConsumed(true)..] == p.data[HeaderLength..] + rest;
    BodyOfWritten(p, smpTypes, s[HeaderConsumed(true)..], rest);
  }

  /** The same without the leading type byte, which the caller supplies. */
  lemma ReadWrittenTypeSupplied(p: SmpPacket, smpTypes: set<byte>, rest: bytes)
    requires Valid(p, smpTypes) && |p.data| < 0x8000_0000
    ensures ParseSmp(p.data[1..] + rest, false, Some(p.data[0]), smpTypes) == Ok(Some(p))
  {
    var s := p.data[1..] + rest;
    HeaderOfSupplied(p, smpTypes, rest);
    BodyOfWritten(p, smpTypes, s[HeaderConsumed(false)..], rest);
  }

  /** The header stage with the type byte supplied reads the rest of the written header. */
  lemma HeaderOfSupplied(p: SmpPacket, smpTypes: set<byte>, rest: bytes)
    requires Valid(p, smpTypes) && |p.data| < 0x8000_0000
    ensures ParseSmpHeader(p.data[1..] + rest, false, Some(p.data[0]), smpTypes) == Ok(Some(p.data[..HeaderLength]))
    ensures (p.data[1..] + rest)[HeaderConsumed(false)..] == p.data[HeaderLength..] + rest
  {
    var s := p.data[1..] + rest;
    assert [p.data[0]] + s[..HeaderLength - 1] == p.data[..HeaderLength];
    assert s[HeaderConsumed(false)..] == p.data[HeaderLength..] + rest;
  }

  lemma BodyOfWritten(p: SmpPacket, smpTypes: set<byte>, body: bytes, rest: bytes)
    requires Valid(p, smpTypes) && |p.data| < 0x8000_0000
    requires body == p.data[HeaderLength..] + rest
    ensures ParseSmpBody(p.data[..HeaderLength], body, smpTypes) == Ok(p)
  {
    var header := p.data[..HeaderLength];
    assert body[..|p.data| - HeaderLength] == p.data[HeaderLength..];
    assert header + p.data[HeaderLength..] == p.data;
    assert header[4..8] == p.data[4..8];
  }

  // ---------------------------------------------------------------------
  // The mid-payload error as the source builds it
  // ---------------------------------------------------------------------

  /**
   * The body stage as written: on a stream that closes mid-payload the
   * error is built from the zero-filled data buffer with length
   * HeaderLength + packetBytesRead, although packetBytesRead already
   * counts the header; when that overshoots the buffer the copy itself
   * fails with an argument error.
   */
  function ParseSmpBodyAsWritten(header: bytes, s: bytes, smpTypes: set<byte>): (r: Result<SmpPacket>)
    requires |header| == HeaderLength
    ensures r.Ok? ==> r == ParseSmpBody(header, s, smpTypes)
  {
    var len := PacketLength(header);
    if len >= 0x8000_0000 then Err(Overflow)
    else if len < HeaderLength then Err(Argument)
    else if |s| < len - HeaderLength then
      var packetBytesRead := HeaderLength + |s|;
      var data := header + s + Zeros(len - packetBytesRead);
      if HeaderLength + packetBytesRead <= |data| then Err(SslInvalidPacket(data[..HeaderLength + packetBytesRead]))
      else Err(Argument)
    else ParseSmpBody(header, s, smpTypes)
  }

  /**
   * A header declaring 40 bytes followed by only 4 payload bytes: the
   * error as written carries 36 bytes, 16 of them zeros never read, where
   * the 20 bytes read were meant; with 36 declared and 10 delivered it is
   * an argument error instead of an invalid-packet error.
   */
  lemma TruncatedPayloadAsWritten(smpTypes: set<byte>)
    ensures var h := [0x53, 0x08, 0, 0, 40, 0, 0, 0] + Zeros(8);
      var s: bytes := [1, 2, 3, 4];
      ParseSmpBodyAsWritten(h, s, smpTypes) == Err(SslInvalidPacket(h + s + Zeros(16)))
      && ParseSmpBody(h, s, smpTypes) == Err(SslInvalidPacket(h + s))
    ensures var h := [0x53, 0x08, 0, 0, 36, 0, 0, 0] + Zeros(8);
      ParseSmpBodyAsWritten(h, Zeros(10), smpTypes) == Err(Argument)
  {
    var h := [0x53, 0x08, 0, 0, 40, 0, 0, 0] + Zeros(8);
    var s: bytes := [1, 2, 3, 4];
    assert PacketLength(h) == 40;
    assert (h + s + Zeros(20))[..36] == h + s + Zeros(16);
    var h2 := [0x53, 0x08, 0, 0, 36, 0, 0, 0] + Zeros(8);
    assert PacketLength(h2) == 36;
  }

  /**
   * A stream that closes part-way through a packet fails with the SSL
   * error kind carrying exactly the bytes the stream delivered.
   */
  lemma {:induction false} TruncatedCarriesBytesRead(p: SmpPacket, smpTypes: set<byte>, n: nat)
    requires Valid(p, smpTypes) && |p.data| < 0x8000_0000
    requires 1 <= n < |p.data|
    ensures ParseSmp(p.data[..n], true, None, smpTypes) == Err(SslInvalidPacket(p.data[..n]))
  {
    var s := p.data[..n];
    if n < HeaderLength {
      assert [s[0]] + s[1..] == s;
    } else {
      assert [s[0]] + s[1..][..HeaderLength - 1] == p.data[..HeaderLength];
      assert ParseSmpHeader(s, true, None, smpTypes) == Ok(Some(p.data[..HeaderLength]));
      assert PacketLength(p.data[..HeaderLength]) == PacketLength(p.data);
      assert p.data[..HeaderLength] + s[HeaderLength..] == s;
    }
  }
}
