/**
 * SSLPacket: one TLS record (section 6.2.1 of RFC 5246), a 5-byte header
 * of content type, protocol version and big-endian payload length,
 * followed by the payload.
 */
module Ssl {
  import opened Wire
  import opened Streams

  const HeaderLength: nat := 5

  // SslPacketType
  const ChangeCipherSpec: byte := 20
  const Alert: byte := 21
  const Handshake: byte := 22
  const ApplicationData: byte := 23

  predicate IsSslPacketType(b: byte)
  {
    b in {ChangeCipherSpec, Alert, Handshake, ApplicationData}
  }

  datatype SslProtocol = Ssl2 | Ssl3 | Tls | Tls11 | Tls12

  /** The ProtocolVersionNumbers table: a version word to the protocol it names. */
  function ProtocolOf(version: int): (r: Option<SslProtocol>)
    ensures r.Some? <==> version in {0x0200, 0x0300, 0x0301, 0x0302, 0x0303}
  {
    if version == 0x0200 then Some(Ssl2)
    else if version == 0x0300 then Some(Ssl3)
    else if version == 0x0301 then Some(Tls)
    else if version == 0x0302 then Some(Tls11)
    else if version == 0x0303 then Some(Tls12)
    else None
  }

  /** The version word (b1 << 8) | b2. */
  function VersionWord(data: bytes): (r: u16)
    requires |data| >= HeaderLength
    ensures r == BEValue(data[1..3])
  {
    BEValue2(data[1..3]);
    data[1] as int * 0x100 + data[2]
  }

  /** The payload length field: big-endian bytes 3-4. */
  function PayloadLengthOf(data: bytes): (r: u16)
    requires |data| >= HeaderLength
    ensures r == BEValue(data[3..5])
  {
    BEValue2(data[3..5]);
    data[3] as int * 0x100 + data[4]
  }

  /** A TLS record is its immutable Data array. */
  datatype SslPacket = SslPacket(data: bytes)

  /** What the constructor checks. */
  predicate Valid(p: SslPacket)
  {
    HeaderLength <= |p.data| <= 0xFFFF + HeaderLength
    && IsSslPacketType(p.data[0])
    && HeaderLength + PayloadLengthOf(p.data) == |p.data|
    && ProtocolOf(VersionWord(p.data)).Some?
  }

  /** The SSLPacket constructor: accepts exactly the valid data and keeps it as it is. */
  function NewSslPacket(data: bytes): (r: Result<SslPacket>)
    ensures r.Ok? <==> Valid(SslPacket(data))
    ensures r.Ok? ==> r.value.data == data
    ensures r.Err? ==> r.error == Argument
  {
    if |data| < HeaderLength || |data| > 0xFFFF + HeaderLength then Err(Argument)
    else if !IsSslPacketType(data[0]) then Err(Argument)
    else if HeaderLength + PayloadLengthOf(data) != |data| then Err(Argument)
    else if ProtocolOf(VersionWord(data)).None? then Err(Argument)
    else Ok(SslPacket(data))
  }

  function PacketType(p: SslPacket): byte
    requires Valid(p)
  {
    p.data[0]
  }

  /** The protocol lookup cannot fail on a constructed packet: the constructor checked the version. */
  function Protocol(p: SslPacket): (r: SslProtocol)
    requires Valid(p)
    ensures ProtocolOf(VersionWord(p.data)) == Some(r)
  {
    ProtocolOf(VersionWord(p.data)).value
  }

  function PayloadLength(p: SslPacket): u16
    requires Valid(p)
  {
    PayloadLengthOf(p.data)
  }

  /** The payload: the PayloadLength bytes after the header, which are all the rest. */
  function Payload(p: SslPacket): (r: bytes)
    requires Valid(p)
    ensures |r| == PayloadLength(p)
    ensures p.data == p.data[..HeaderLength] + r
  {
    p.data[HeaderLength..HeaderLength + PayloadLength(p)]
  }

  /** A record laid out field by field, as section 6.2.1 of RFC 5246 describes it. */
  function Record(contentType: byte, version: u16, payload: bytes): (r: bytes)
    requires |payload| <= 0xFFFF
    ensures |r| == HeaderLength + |payload|
  {
    [contentType] + BE(version, 2) + BE(|payload|, 2) + payload
  }

  /** A record built from known fields is valid and reads them all back. */
  lemma RecordFields(contentType: byte, version: u16, payload: bytes)
    requires |payload| <= 0xFFFF
    requires IsSslPacketType(contentType) && ProtocolOf(version).Some?
    ensures var p := SslPacket(Record(contentType, version, payload));
      Valid(p) && PacketType(p) == contentType && VersionWord(p.data) == version
      && Protocol(p) == ProtocolOf(version).value && Payload(p) == payload
  {
    var d := Record(contentType, version, payload);
    assert d[1..3] == BE(version, 2);
    assert d[3..5] == BE(|payload|, 2);
    BEValueOfBE(version, 2);
    BEValueOfBE(|payload|, 2);
    assert d[HeaderLength..] == payload;
  }

  // ---------------------------------------------------------------------
  // Reading from a stream
  // ---------------------------------------------------------------------

  function HeaderConsumed(readPacketType: bool): nat
  {
    if readPacketType then HeaderLength else HeaderLength - 1
  }

  /**
   * The header stage of ReadFromStreamAsync on a stream that will deliver
   * s: None at the end of the stream, otherwise the five header bytes.
   */
  function ParseSslHeader(s: bytes, readPacketType: bool, packetType: Option<byte>): (r: Result<Option<bytes>>)
    ensures r.Ok? && r.value.None? ==> readPacketType && |s| == 0
    ensures r.Ok? && r.value.Some? ==> (|r.value.value| == HeaderLength
      && |s| >= HeaderConsumed(readPacketType)
      && (packetType.Some? ==> r.value.value[0] == packetType.value)
      && (readPacketType ==> r.value.value[0] == s[0] && IsSslPacketType(s[0])))
  {
    if !readPacketType && packetType.None? then Err(Argument)
    else if readPacketType && |s| == 0 then Ok(None)
    else
      var t := if readPacketType then s[0] else packetType.value;
      var rest := if readPacketType then s[1..] else s;
      if readPacketType && !IsSslPacketType(t) then Err(SslInvalidPacket([t]))
      else if packetType.Some? && packetType.value != t then Err(SslInvalidPacket([t]))
      else if |rest| < HeaderLength - 1 then Err(SslInvalidPacket([t] + rest))
      else Ok(Some([t] + rest[..HeaderLength - 1]))
  }

  /** The body stage: the payload must arrive whole, then the constructor's checks apply. */
  function ParseSslBody(header: bytes, s: bytes): (r: Result<SslPacket>)
    requires |header| == HeaderLength
    ensures r.Ok? ==> (Valid(r.value) && |r.value.data| - HeaderLength <= |s|
      && r.value.data == header + s[..|r.value.data| - HeaderLength])
  {
    var payloadLength := PayloadLengthOf(header);
    if |s| < payloadLength then Err(SslInvalidPacket(header + s))
    else
      var data := header + s[..payloadLength];
      assert data[..HeaderLength] == header;
      NewSslPacket(data)
  }

  /** SSLPacket.ReadFromStreamAsync on a stream that will deliver s. */
  function ParseSsl(s: bytes, readPacketType: bool, packetType: Option<byte>): (r: Result<Option<SslPacket>>)
    ensures r.Ok? && r.value.Some? ==> Valid(r.value.value)
  {
    var header :- ParseSslHeader(s, readPacketType, packetType);
    if header.None? then Ok(None)
    else
      var p :- ParseSslBody(header.value, s[HeaderConsumed(readPacketType)..]);
      Ok(Some(p))
  }

  /** The header loop of ReadFromStreamAsync. */
  method ReadSslHeader(stream: InputStream, readPacketType: bool, packetType: Option<byte>) returns (r: Result<Option<bytes>>)
    requires stream.Valid()
    modifies stream
    ensures stream.Valid()
    ensures r == ParseSslHeader(old(stream.Remaining()), readPacketType, packetType)
    ensures r.Ok? && r.value.Some? ==> stream.pos == old(stream.pos) + HeaderConsumed(readPacketType)
  {
    ghost var s := stream.Remaining();
    if !readPacketType && packetType.None? {
      return Err(Argument);
    }
    var header := new byte[HeaderLength];
    var headerBytesRead: nat;
    if readPacketType {
      headerBytesRead := stream.ReadInto(header, 0, 1);
      if headerBytesRead == 0 {
        return Ok(None);
      }
      if !IsSslPacketType(header[0]) {
        return Err(SslInvalidPacket(header[..1]));
      }
    } else {
      header[0] := packetType.value;
      headerBytesRead := 1;
    }
    if packetType.Some? && packetType.value != header[0] {
      return Err(SslInvalidPacket(header[..1]));
    }
    ghost var rest := stream.Remaining();
    ghost var first := header[..1];
    assert readPacketType ==> first == [s[0]] && rest == s[1..];
    assert !readPacketType ==> first == [packetType.value] && rest == s;
    headerBytesRead := Fill(stream, header, 1, HeaderLength);
    assert header[..1] == first;
    assert header[..headerBytesRead] == header[..1] + header[1..headerBytesRead];
    if headerBytesRead < HeaderLength {
      assert rest[..headerBytesRead - 1] == rest;
      return Err(SslInvalidPacket(header[..headerBytesRead]));
    }
    assert header[..] == header[..headerBytesRead];
    r := Ok(Some(header[..]));
  }

  /** The payload loop of ReadFromStreamAsync and the final constructor call. */
  method ReadSslBody(stream: InputStream, header: bytes) returns (r: Result<SslPacket>)
    requires stream.Valid() && |header| == HeaderLength
    modifies stream
    ensures stream.Valid()
    ensures r == ParseSslBody(header, old(stream.Remaining()))
    ensures r.Ok? ==> stream.pos == old(stream.pos) + (|r.value.data| - HeaderLength)
  {
    ghost var s := stream.Remaining();
    var payloadLength := PayloadLengthOf(header);
    var data := new byte[HeaderLength + payloadLength];
    forall i | 0 <= i < HeaderLength {
      data[i] := header[i];
    }
    assert data[..HeaderLength] == header;
    var filled := Fill(stream, data, HeaderLength, HeaderLength + payloadLength);
    assert data[..filled] == data[..HeaderLength] + data[HeaderLength..filled];
    if filled < HeaderLength + payloadLength {
      assert s[..filled - HeaderLength] == s;
      return Err(SslInvalidPacket(data[..filled]));
    }
    assert data[..] == data[..filled];
    r := NewSslPacket(data[..]);
  }

  /** SSLPacket.ReadFromStreamAsync: null (None) when the stream ends before the type byte. */
  method ReadSsl(stream: InputStream, readPacketType: bool, packetType: Option<byte>) returns (r: Result<Option<SslPacket>>)
    requires stream.Valid()
    modifies stream
    ensures stream.Valid()
    ensures r == ParseSsl(old(stream.Remaining()), readPacketType, packetType)
    ensures r.Ok? && r.value.Some? ==>
      stream.pos == old(stream.pos) + HeaderConsumed(readPacketType) + (|r.value.value.data| - HeaderLength)
  {
    ghost var s := stream.Remaining();
    var header := ReadSslHeader(stream, readPacketType, packetType);
    if header.Err? {
      return Err(header.error);
    }
    if header.value.None? {
      return Ok(None);
    }
    assert stream.Remaining() == s[HeaderConsumed(readPacketType)..];
    var p := ReadSslBody(stream, header.value.value);
    if p.Err? {
      return Err(p.error);
    }
    r := Ok(Some(p.value));
  }

  /** SSLPacket.WriteToStreamAsync: the data, verbatim. */
  method WriteSsl(p: SslPacket, stream: OutputStream)
    modifies stream
    ensures stream.written == old(stream.written) + p.data
  {
    stream.Write(p.data);
  }

  /** Reading back a written record returns the same data, whatever follows it. */
  lemma ReadWritten(p: SslPacket, packetType: Option<byte>, rest: bytes)
    requires Valid(p)
    requires packetType.None? || packetType.value == p.data[0]
    ensures ParseSsl(p.data + rest, true, packetType) == Ok(Some(p))
  {
    var s := p.data + rest;
    assert [s[0]] + s[1..][..HeaderLength - 1] == p.data[..HeaderLength];
    assert ParseSslHeader(s, true, packetType) == Ok(Some(p.data[..HeaderLength]));
    assert s[HeaderConsumed(true)..] == p.data[HeaderLength..] + rest;
    BodyOfWritten(p, s[HeaderConsumed(true)..], rest);
  }

  lemma BodyOfWritten(p: SslPacket, body: bytes, rest: bytes)
    requires Valid(p)
    requires body == p.data[HeaderLength..] + rest
    ensures ParseSslBody(p.data[..HeaderLength], body) == Ok(p)
  {
    var header := p.data[..HeaderLength];
    assert body[..|p.data| - HeaderLength] == p.data[HeaderLength..];
    assert header + p.data[HeaderLength..] == p.data;
    assert header[3..5] == p.data[3..5];
  }

  /**
   * A stream that closes part-way through a record fails carrying
   * exactly the bytes the stream delivered.
   */
  lemma TruncatedCarriesBytesRead(p: SslPacket, n: nat)
    requires Valid(p) && 1 <= n < |p.data|
    ensures ParseSsl(p.data[..n], true, None) == Err(SslInvalidPacket(p.data[..n]))
  {
    var s := p.data[..n];
    if n < HeaderLength {
      assert [s[0]] + s[1..] == s;
    } else {
      assert [s[0]] + s[1..][..HeaderLength - 1] == p.data[..HeaderLength];
      assert ParseSslHeader(s, true, None) == Ok(Some(p.data[..HeaderLength]));
      assert p.data[..HeaderLength][3..5] == p.data[3..5];
      assert p.data[..HeaderLength] + s[HeaderLength..] == s;
    }
  }
}
