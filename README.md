# TDSProxy in Dafny

TDSProxy accepts SQL Server client connections. It answers the TDS
PreLogin exchange and terminates the client's TLS session, wrapping the
handshake records in TDS packets as the protocol requires. It checks the
client's Login7 request, asks a pluggable authenticator whether it may
connect, and forwards a rewritten Login7 to the real server. From then on
it relays TDS and SMP packets in both directions without looking inside
them.

This project models two parts of the system.

- **The TDS protocol library:**
  - the binary reader and writer extensions: big-endian integers, UTF-16 text, B_VARCHAR and US_VARCHAR, and the obfuscated password;
  - TDS, SMP and SSL packets;
  - message assembly from packets and packet splitting of messages;
  - the PreLogin and Login7 messages;
  - the token-stream message with its ERROR, INFO, LOGINACK, ENVCHANGE, FEATUREEXTACK and DONE tokens.

  For each of these the model has a writer and a reader, with the round trip, or its failure, proved.
- **The proxy's connection logic:**
  - the encryption, version, packet-length and login-policy decisions;
  - the rewrite of the Login7 host name;
  - the TLS handshake adapter;
  - the packet-forwarding loops;
  - the connection's life from PreLogin to close, as a class whose fields are the connection's state.

The streams are byte sequences with a read position, and a read may
deliver fewer bytes than asked for. Writers append to a sequence. The
authenticator is a function the connection is given. The TLS session is
a pair of streams.

Module layout:

- wire.dfy, io.dfy (Wire, Io): BinaryReaderExtensions.cs and BinaryWriterExtensions.cs over pure byte functions and a Reader/Writer class pair.
- streams.dfy (Streams): the network streams the packets are read from and written to.
- tdspacket.dfy (TdsPacket): TDSPacket.cs.
- smp.dfy, ssl.dfy (Smp, Ssl): SMPPacket.cs, SSLPacket.cs.
- messages.dfy (Messages): TDSMessage.cs.
- prelogin.dfy, prelogin_message.dfy, prelogin_sample.dfy (PreLogin, PreLoginMessages, PreLoginSample): TDSPreLoginMessage.cs.
- login7.dfy, login7_proofs.dfy, login7_message.dfy (Login7, Login7Proofs, Login7Messages): TDSLogin7Message.cs.
- tokens.dfy, tokenstream.dfy (Tokens, TokenStreams): TDSToken.cs, TDSTokenStreamMessage.cs.
- message_token.dfy, loginack_token.dfy, envchange_token.dfy, featureextack_token.dfy, done_token.dfy (MessageTokens, LoginAckTokens, EnvChangeTokens, FeatureExtAckTokens, DoneTokens): the token classes.
- text.dfy, authenticator.dfy (Text, Authentication): ordinal case-insensitive comparison; IAuthenticator and SampleAuthenticator.cs.
- connection_rules.dfy, sessions.dfy (ConnectionRules, Sessions): the decisions TDSConnection.cs makes, as functions.
- adapter.dfy, forwarding.dfy, connection.dfy (HandshakeAdapters, Forwarding, Connections): TdsSslHandshakeAdapter, the two forwarding loops, and TDSConnection itself.

## Model

| member | source | states |
|---|---|---|
| Wire.UnobfuscateObfuscateByte | src/TDSProtocol/BinaryReaderExtensions.cs:48-52 | the reader's per-byte map (XOR 0xA5, then swap nibbles) undoes the writer's (swap nibbles, then XOR 0xA5) on every byte |
| Wire.ObfuscateUnobfuscateByte | src/TDSProtocol/BinaryWriterExtensions.cs:71-75 | the writer's per-byte map undoes the reader's on every byte, so the obfuscation is a bijection on bytes |
| Wire.UnobfuscateObfuscate | src/TDSProtocol/BinaryReaderExtensions.cs:45-54 | unobfuscating an obfuscated byte string gives back the original bytes |
| Wire.ObfuscateUnobfuscate | src/TDSProtocol/BinaryWriterExtensions.cs:66-78 | obfuscating an unobfuscated byte string gives back the original bytes |
| Wire.PasswordBytes | src/TDSProtocol/BinaryWriterExtensions.cs:66-78 | a password takes two bytes per UTF-16 code unit on the wire |
| Wire.PasswordRoundTrip | src/TDSProtocol/BinaryReaderExtensions.cs:45-54 | the bytes WriteObfuscatedPassword writes for a password decode, through the reader's map, to that password |
| Wire.DecodeUnicodeBytes | src/TDSProtocol/BinaryWriterExtensions.cs:32-36 | the UTF-16LE bytes of a string decode back to it; the model's encoder keeps every code unit, so this is the source's behaviour for well-formed UTF-16 only (see Left out) |
| Wire.UnicodeBytesDecode | src/TDSProtocol/BinaryReaderExtensions.cs:34-37 | an even number of bytes decoded and re-encoded gives the same bytes; as the source behaves only when those bytes are well-formed UTF-16 (see Left out) |
| Wire.BEValueOfBE | src/TDSProtocol/BinaryWriterExtensions.cs:12-30 | the big-endian bytes of a value that fits read back as that value |
| Wire.BEOfBEValue | src/TDSProtocol/BinaryReaderExtensions.cs:10-32 | any byte string is the big-endian form of its big-endian value |
| Wire.Take | src/TDSProtocol/BinaryReaderExtensions.cs:12 | BinaryReader.ReadBytes: at most n bytes, exactly n when they are there, and min(n, what is left) in general |
| Io.BVarchar | src/TDSProtocol/BinaryWriterExtensions.cs:38-50 | a B_VARCHAR takes one count byte and two bytes per character |
| Io.UsVarchar | src/TDSProtocol/BinaryWriterExtensions.cs:52-64 | a US_VARCHAR takes two count bytes and two bytes per character |
| Io.GetBE | src/TDSProtocol/BinaryReaderExtensions.cs:10-32 | a big-endian read succeeds exactly when n bytes remain, gives the value whose big-endian form they are, and otherwise fails with IndexOutOfRange (the short buffer indexed past its end) |
| Io.GetUnicode | src/TDSProtocol/BinaryReaderExtensions.cs:34-37 | ReadUnicode gives n code units when 2n bytes remain |
| Io.GetUnicodeIsDecode | src/TDSProtocol/BinaryReaderExtensions.cs:34-37 | reading code units one by one equals decoding the bytes ReadBytes(2n) returns, and consumes as many bytes as ReadBytes does |
| Io.CatchEof | src/TDSProtocol/TDSToken.cs:62-79 | a token reader's failure from running out of data comes back as an invalid message; other failures and successes pass unchanged |
| Io.UsVarcharFrom | src/TDSProtocol/TDSLoginAckToken.cs:146-152 | a US_VARCHAR read by a token reader fails only as an invalid message and ends at least two bytes on |
| Io.UsVarcharFromAt | src/TDSProtocol/BinaryWriterExtensions.cs:52-64 | a US_VARCHAR laid out by the writer reads back as its string, ending just past it |
| Io.BVarcharFromAt | src/TDSProtocol/BinaryWriterExtensions.cs:38-50 | a B_VARCHAR laid out by the writer reads back as its string, ending just past it |
| Io.Writer.WriteBigEndianInt16 | src/TDSProtocol/BinaryWriterExtensions.cs:12-15 | appends the big-endian form of the 16-bit two's complement pattern |
| Io.Writer.WriteBigEndianUInt16 | src/TDSProtocol/BinaryWriterExtensions.cs:17-20 | appends the two big-endian bytes of the value |
| Io.Writer.WriteBigEndianInt32 | src/TDSProtocol/BinaryWriterExtensions.cs:22-25 | appends the big-endian form of the 32-bit two's complement pattern |
| Io.Writer.WriteBigEndianUInt32 | src/TDSProtocol/BinaryWriterExtensions.cs:27-30 | appends the four big-endian bytes of the value |
| Io.Writer.WriteUnicodeBytes | src/TDSProtocol/BinaryWriterExtensions.cs:32-36 | appends the UTF-16LE bytes of the string (nothing for the empty or null string) |
| Io.Writer.WriteBVarchar | src/TDSProtocol/BinaryWriterExtensions.cs:38-50 | succeeds exactly when the string has at most 255 characters and then appends its B_VARCHAR; otherwise an argument error with nothing written |
| Io.Writer.WriteUsVarchar | src/TDSProtocol/BinaryWriterExtensions.cs:52-64 | succeeds exactly when the string has at most 65535 characters and then appends its US_VARCHAR; otherwise an argument error with nothing written |
| Io.Writer.WriteObfuscatedPassword | src/TDSProtocol/BinaryWriterExtensions.cs:66-78 | appends the password's UTF-16 bytes, each obfuscated |
| Io.ObfuscateInPlace | src/TDSProtocol/BinaryWriterExtensions.cs:71-75 | the loop leaves every byte of the array replaced by its obfuscated value |
| Io.UnobfuscateInPlace | src/TDSProtocol/BinaryReaderExtensions.cs:48-52 | the loop leaves every byte of the array replaced by its unobfuscated value |
| Io.Reader.ReadBigEndianUInt16 | src/TDSProtocol/BinaryReaderExtensions.cs:16-20 | the big-endian value of the next two bytes, IndexOutOfRange when fewer remain |
| Io.Reader.ReadBigEndianInt16 | src/TDSProtocol/BinaryReaderExtensions.cs:10-14 | the signed reinterpretation of the next two bytes' big-endian value; IndexOutOfRange when fewer remain |
| Io.Reader.ReadBigEndianUInt32 | src/TDSProtocol/BinaryReaderExtensions.cs:28-32 | the big-endian value of the next four bytes, IndexOutOfRange when fewer remain |
| Io.Reader.ReadBigEndianInt32 | src/TDSProtocol/BinaryReaderExtensions.cs:22-26 | the signed reinterpretation of the next four bytes' big-endian value; IndexOutOfRange when fewer remain |
| Io.Reader.ReadUnicode | src/TDSProtocol/BinaryReaderExtensions.cs:34-37 | the decoded code units of up to 2n bytes from the current position, which moves past the bytes consumed |
| Io.Reader.ReadUnicodeAt | src/TDSProtocol/BinaryReaderExtensions.cs:39-43 | seeks to the given position, then reads as ReadUnicode does |
| Io.Reader.ReadObfuscatedPassword | src/TDSProtocol/BinaryReaderExtensions.cs:45-54 | reads up to 2n bytes from the current position, ignoring the position argument as the source does, undoes the obfuscation and decodes them |
| Io.ReadPasswordOfWritten | src/TDSProtocol/BinaryReaderExtensions.cs:45-54 | a reader positioned at a password the writer wrote reads exactly that password back |
| Io.WritesThatFit | src/TDSProtocol/TDSPreLoginMessage.cs:388-418 | what a sequence of writes leaves in a fixed buffer is never longer than the buffer |
| Io.FitsWhole | src/TDSProtocol/TDSPreLoginMessage.cs:388-418 | a sequence of writes overruns a fixed buffer exactly when its bytes end to end are longer than the buffer, and otherwise all of them land |
| Io.WritesThen | src/TDSProtocol/TDSPreLoginMessage.cs:391-418 | writes followed by more writes: an overrun in the first part ends everything there; otherwise the second part is written into the room the first left |
| Io.FirstOverrun | src/TDSProtocol/TDSPreLoginMessage.cs:388-418 | when writes overrun, the buffer holds whole the writes before the first one that does not fit, and that one is left out whole |
| Io.OverrunAfter | src/TDSProtocol/TDSPreLoginMessage.cs:391-418 | when the option table fits and the values overrun, the buffer holds the table, then the value writes before the first one that does not fit |
| Io.FixedWriter.constructor | src/TDSProtocol/TDSPreLoginMessage.cs:388-390 | a writer over a new zeroed array of the given length, at position 0 |
| Io.FixedWriter.Write | src/TDSProtocol/TDSPreLoginMessage.cs:391-418 | one BinaryWriter write into the non-expandable MemoryStream: the bytes land whole when they fit; otherwise NotSupported with nothing written and the position unchanged; the unwritten rest of the array stays zero |
| Io.FixedWriter.WriteEach | src/TDSProtocol/TDSPreLoginMessage.cs:391-418 | writes done one after the other, thrown out of at the first that does not fit: succeeds exactly when none overruns, and the array gains what the writes that fit leave |
| Io.WriteFixed | src/TDSProtocol/TDSPreLoginMessage.cs:388-419 | new byte[capacity] written through a MemoryStream: the array afterwards holds the writes that fit, then zeros, whether the writes succeeded or one threw NotSupported |
| Streams.InputStream.ReadInto | src/TDSProtocol/TDSPacket.cs:189 | Stream.ReadAsync: delivers the next bytes of the stream, at most the count asked for and none only at the end of the stream or for a count of zero, leaving the rest of the buffer untouched |
| Streams.InputStream.ReadByte | src/TDSProtocol/TDSPacket.cs:128-131 | a one-byte peek: the next byte when there is one, nothing at the end of the stream |
| Streams.Fill | src/TDSProtocol/TDSPacket.cs:187-193 | the read-until-full loop: fills the buffer range with the stream's next bytes, as far as the stream goes, and leaves what lies before it untouched |
| Streams.OutputStream.Write | src/TDSProtocol/TDSPacket.cs:106 | the bytes written are appended to what the stream has carried |
| TdsPacket.TdsAndSslTypesDisjoint | src/TDSProtocol/TDSPacket.cs:18-23 | no byte is both a TDS packet type and a TLS record type, so classifying a leading byte is unambiguous |
| TdsPacket.ClearEom | src/TDSProtocol/TDSPacket.cs:80 | clearing end-of-message leaves the bit clear and every other status bit as it was |
| TdsPacket.SetEom | src/TDSProtocol/TDSPacket.cs:95 | setting end-of-message leaves the bit set and every other status bit as it was |
| TdsPacket.PacketData | src/TDSProtocol/TDSPacket.cs:38-55 | a buffer of the declared length holding the header and the payload; an argument error when the payload does not fit; for a well-formed packet, exactly its serialization |
| TdsPacket.ChunksPayloads | src/TDSProtocol/TDSPacket.cs:90-112 | the chunks of payload[offset..] concatenate to it |
| TdsPacket.ChunksHeaders | src/TDSProtocol/TDSPacket.cs:97-104 | every chunk carries the message type, the SPID, a length of its payload plus eight, window 0 and ids counting up from the first, wrapping at a byte |
| TdsPacket.ChunksSizes | src/TDSProtocol/TDSPacket.cs:92-95 | every chunk but the last is full and keeps the caller's status; the last is non-empty and carries end-of-message |
| TdsPacket.OutgoingPacketsShape | src/TDSProtocol/TDSPacket.cs:71-113 | an empty payload produces no packets; otherwise the packets' payloads concatenate to the payload, only the last ends the message, all but the last are full, ids count from 1 and the other status bits are the caller's |
| TdsPacket.Serialize | src/TDSProtocol/TDSPacket.cs:38-55 | the packet data is the 8-byte header and then the payload: exactly 8 bytes longer than the payload |
| TdsPacket.SerializeAllLength | src/TDSProtocol/TDSPacket.cs:92-106 | packets laid end to end on the stream take 8 header bytes each plus their payloads |
| TdsPacket.WriteMessage | src/TDSProtocol/TDSPacket.cs:71-113 | the stream receives exactly the serialized packets of OutgoingPackets, one reused buffer per chunk |
| TdsPacket.WriteChunk | src/TDSProtocol/TDSPacket.cs:92-111 | one trip round the loop: a non-empty chunk no longer than what is left, end-of-message set exactly when it reaches the end, and the packet written is the next one of the message |
| TdsPacket.WritePacket | src/TDSProtocol/TDSPacket.cs:97-106 | appends the header and the chunk of the payload to the stream |
| TdsPacket.FillPacket | src/TDSProtocol/TDSPacket.cs:97-105 | the front of the packet buffer holds the header, then the chunk of the payload |
| TdsPacket.ParseSinglePacket | src/TDSProtocol/TDSPacket.cs:176-245 | a packet read from the stream is well formed (declared length = 8 + payload) and of the expected type; an incomplete header, a length under 8, a short payload or an unexpected type fail with the bytes the source reports |
| TdsPacket.ParseHeader | src/TDSProtocol/TDSPacket.cs:180-193 | the eight header bytes, the first being the peeked type when it was peeked; an incomplete header fails carrying the bytes read |
| TdsPacket.ParseBody | src/TDSProtocol/TDSPacket.cs:196-245 | the length check, the payload that follows and the type check, giving a well-formed packet of the expected type |
| TdsPacket.ParseSerialized | src/TDSProtocol/TDSPacket.cs:176-245 | a serialized well-formed packet reads back as itself, whatever follows it on the stream |
| TdsPacket.ReadSinglePacket | src/TDSProtocol/TDSPacket.cs:176-245 | reads exactly ParseSinglePacket of what the stream delivers, and on success consumes exactly the packet's bytes, however the stream splits its reads |
| TdsPacket.ReadHeader | src/TDSProtocol/TDSPacket.cs:180-193 | the header loop reads ParseHeader of the stream and consumes the header bytes still to come |
| TdsPacket.ReadBody | src/TDSProtocol/TDSPacket.cs:195-245 | the payload loop and type check read ParseBody of the stream and consume the payload |
| TdsPacket.ParseMessageShape | src/TDSProtocol/TDSPacket.cs:150-164 | what ReadAsync(type, stream) returns is a message: non-empty, all of the given type, end-of-message on the last packet only |
| TdsPacket.ParseMessage | src/TDSProtocol/TDSPacket.cs:150-164 | a message read from the stream is never empty, and its last packet carries the end-of-message bit |
| TdsPacket.ParseMessageOfPackets | src/TDSProtocol/TDSPacket.cs:150-164 | the packets of a message, laid end to end, read back as exactly those packets |
| TdsPacket.ReadMessage | src/TDSProtocol/TDSPacket.cs:150-164 | the do/while loop reads exactly ParseMessage of the stream |
| TdsPacket.ReadPeeked | src/TDSProtocol/TDSPacket.cs:126-134 | an empty stream is EndOfStream; every packet read has the peeked byte as its type |
| TdsPacket.ReadMessageFromStream | src/TDSProtocol/TDSPacket.cs:126-134 | peeks the type byte and reads the message: exactly ReadPeeked of the stream |
| TdsPacket.WriteThenRead | src/TDSProtocol/TDSPacket.cs:71-164 | the packets WriteMessageAsync emits for a non-empty payload are read back by ReadAsync as the same packets, whose payloads concatenate to the original payload |
| Smp.PacketLength | src/TDSProtocol/SMPPacket.cs:46-49 | the length field is the little-endian value of header bytes 4-7 |
| Smp.NewSmpPacket | src/TDSProtocol/SMPPacket.cs:32-44 | the constructor accepts exactly the data with a whole header, a known type and a declared length equal to the data's, keeps it unchanged, and rejects the rest with an argument error |
| Smp.Sid | src/TDSProtocol/SMPPacket.cs:55 | the SID is the little-endian value of bytes 2-3 |
| Smp.SeqNum | src/TDSProtocol/SMPPacket.cs:59 | the sequence number is the little-endian value of bytes 8-11 |
| Smp.Window | src/TDSProtocol/SMPPacket.cs:61 | the window is the little-endian value of bytes 12-15 |
| Smp.Payload | src/TDSProtocol/SMPPacket.cs:63-71 | the payload is the Length - 16 bytes after the header, and the data is the header followed by it |
| Smp.SmpHeaderFields | src/TDSProtocol/SMPPacket.cs:51-61 | every accessor of a packet built from header fields reads back the field it was built from |
| Smp.ParseSmpHeader | src/TDSProtocol/SMPPacket.cs:82-123 | nothing only when the type byte was to be read and the stream is empty; otherwise the 16 header bytes, the type byte being the supplied or expected one and a known SMP type when read |
| Smp.ParseSmpBody | src/TDSProtocol/SMPPacket.cs:125-140 | the corrected failure report (as written the whole zero-padded buffer is reported, see Smp.TruncatedPayloadAsWritten): a packet read is valid and is the header followed by the next bytes of the stream; a stream that closes mid-payload fails carrying the bytes actually read |
| Smp.ParseSmp | src/TDSProtocol/SMPPacket.cs:78-141 | every packet ReadFromStreamAsync returns passes the constructor's checks |
| Smp.ReadSmpHeader | src/TDSProtocol/SMPPacket.cs:82-123 | the header loop reads ParseSmpHeader of the stream, consuming the header bytes it reads |
| Smp.ReadSmpBody | src/TDSProtocol/SMPPacket.cs:125-140 | with the corrected failure report (see Smp.TruncatedPayloadAsWritten): the payload loop reads ParseSmpBody of the stream, consuming the payload |
| Smp.ReadSmp | src/TDSProtocol/SMPPacket.cs:78-141 | with the corrected failure report (see Smp.TruncatedPayloadAsWritten): ReadFromStreamAsync reads exactly ParseSmp of the stream and consumes exactly the packet |
| Smp.WriteSmp | src/TDSProtocol/SMPPacket.cs:148-151 | WriteToStreamAsync appends the packet's data verbatim |
| Smp.ReadWritten | src/TDSProtocol/SMPPacket.cs:78-151 | a written packet reads back as itself, whatever follows, when the caller expects its type or none |
| Smp.ReadWrittenTypeSupplied | src/TDSProtocol/SMPPacket.cs:100-104 | the same when the caller supplies the type byte instead of it being read |
| Smp.ParseSmpBodyAsWritten | src/TDSProtocol/SMPPacket.cs:129-138 | the body stage as written: agrees with ParseSmpBody whenever it succeeds; on a stream closed mid-payload it reports header-length-plus-count bytes of the zero-filled buffer, or fails on the copy |
| Smp.TruncatedPayloadAsWritten | src/TDSProtocol/SMPPacket.cs:133-136 | a 40-byte packet cut after 20 bytes is reported with 36 bytes, 16 of them zeros never read; a 36-byte packet cut after 26 fails with an argument error instead |
| Smp.TruncatedCarriesBytesRead | src/TDSProtocol/SMPPacket.cs:129-138 | with the corrected body stage, a packet cut part-way fails carrying exactly the bytes delivered |
| Ssl.ProtocolOf | src/TDSProtocol/SSLPacket.cs:20-27 | the version table names a protocol for exactly the words 0x0200, 0x0300, 0x0301, 0x0302 and 0x0303 |
| Ssl.VersionWord | src/TDSProtocol/SSLPacket.cs:48 | the version word is the big-endian value of bytes 1-2 |
| Ssl.PayloadLengthOf | src/TDSProtocol/SSLPacket.cs:59-62 | the payload length is the big-endian value of bytes 3-4 |
| Ssl.NewSslPacket | src/TDSProtocol/SSLPacket.cs:38-51 | the constructor accepts exactly the data of 5 to 65540 bytes with a known record type, a payload length matching the data and a known version, keeps it unchanged, and rejects the rest with an argument error |
| Ssl.Protocol | src/TDSProtocol/SSLPacket.cs:55 | the protocol lookup of a constructed record always finds its version in the table |
| Ssl.Payload | src/TDSProtocol/SSLPacket.cs:64-72 | the payload is the PayloadLength bytes after the header, which are all the rest of the data |
| Ssl.RecordFields | src/TDSProtocol/SSLPacket.cs:38-62 | a record laid out from a known type, a known version and a payload of at most 65535 bytes is valid and reads its fields back |
| Ssl.ParseSslHeader | src/TDSProtocol/SSLPacket.cs:76-105 | nothing only when the type was to be read and the stream is empty; otherwise the five header bytes with the expected or supplied type |
| Ssl.ParseSslBody | src/TDSProtocol/SSLPacket.cs:107-120 | a record read is valid and is the header followed by the next bytes of the stream |
| Ssl.ParseSsl | src/TDSProtocol/SSLPacket.cs:74-121 | every record ReadFromStreamAsync returns passes the constructor's checks |
| Ssl.ReadSslHeader | src/TDSProtocol/SSLPacket.cs:76-105 | the header loop reads ParseSslHeader of the stream, consuming the header bytes it reads |
| Ssl.ReadSslBody | src/TDSProtocol/SSLPacket.cs:107-120 | the payload loop reads ParseSslBody of the stream, consuming the payload |
| Ssl.ReadSsl | src/TDSProtocol/SSLPacket.cs:74-121 | ReadFromStreamAsync reads exactly ParseSsl of the stream and consumes exactly the record |
| Ssl.WriteSsl | src/TDSProtocol/SSLPacket.cs:123-126 | WriteToStreamAsync appends the record's data verbatim |
| Ssl.ReadWritten | src/TDSProtocol/SSLPacket.cs:74-126 | a written record reads back as itself, whatever follows, when the caller expects its type or none |
| Ssl.TruncatedCarriesBytesRead | src/TDSProtocol/SSLPacket.cs:99-118 | a record cut part-way fails carrying exactly the bytes the stream delivered |
| Messages.KindOf | src/TDSProtocol/TDSMessage.cs:107-112 | the registry finds a message class under exactly its own MessageType, and only under a TDS packet type |
| Messages.Assembled | src/TDSProtocol/TDSMessage.cs:20-51 | no message exactly for a null or empty packet list; the unrecognized-type error only for a type (the override type if given) with no registered class; otherwise the class registered for that type, with a payload as long as all the packets' payloads together |
| Messages.Concatenate | src/TDSProtocol/TDSMessage.cs:38-44 | the payload buffer holds the packets' payloads concatenated in order |
| Messages.BlockCopy | src/TDSProtocol/TDSMessage.cs:42 | Buffer.BlockCopy puts the source at the offset and leaves the rest of the destination untouched |
| Messages.ReceivePreLogin | src/TDSProtocol/TDSMessage.cs:37-48 | a fresh PreLogin message holding the payload as Payload and ReceivedPayload, with the fields its InterpretPayload decodes, or that decoder's failure |
| Messages.ReceiveLogin7 | src/TDSProtocol/TDSMessage.cs:37-48 | a fresh Login7 message holding the payload as received, with the fields and payload its InterpretPayload leaves, or that decoder's failure |
| Messages.ReceiveTabular | src/TDSProtocol/TDSMessage.cs:37-48 | a fresh tabular-data message holding the payload, whose tokens are the fresh, owned tokens the token-stream decoder reads, or the decoder's failure |
| Messages.FromPackets | src/TDSProtocol/TDSMessage.cs:20-51 | no message for a null or empty packet list; the unrecognized-type exception for an unregistered type; otherwise a fresh message of the registered class holding the concatenated payloads, decoded by that class's InterpretPayload, whose failure is the call's |
| Messages.WrittenThenAssembled | src/TDSProtocol/TDSMessage.cs:20-51 | the packets written for a non-empty payload under a registered type read back from the stream and assemble into a message of that class holding the same payload |
| Messages.EnsurePayload | src/TDSProtocol/TDSMessage.cs:78-82 | a payload already present is kept; an absent one is generated from the message's properties; a failed Login7 or token stream generation leaves it absent, a failed PreLogin generation leaves the partly written array; the properties are not changed |
| Messages.WriteAsPackets | src/TDSProtocol/TDSMessage.cs:56-76 | the payload is ensured and then written as the packets WriteMessageAsync cuts it into, under the override type if given; nothing is written when it cannot be generated |
| PreLogin.EntryAt | src/TDSProtocol/TDSPreLoginMessage.cs:363-378 | option i's AddToken call, present only when its property is set, carries token i |
| PreLogin.Entries | src/TDSProtocol/TDSPreLoginMessage.cs:360-380 | the AddToken calls: at most eight options with tokens 0 to 7, in order, then the terminator |
| PreLogin.AddTokens | src/TDSProtocol/TDSPreLoginMessage.cs:351-356 | one option per call, with its token and its length cut to a ushort |
| PreLogin.Bumped | src/TDSProtocol/TDSPreLoginMessage.cs:383-386 | the foreach that moves the offsets past the table keeps one option per option |
| PreLogin.OptionBytes | src/TDSProtocol/TDSPreLoginMessage.cs:338-345 | WriteOption writes one byte for the terminator and five for any other option |
| PreLogin.GenerateEntries | src/TDSProtocol/TDSPreLoginMessage.cs:388-418 | the writes into the fixed buffer give exactly its declared capacity, or NotSupported when they overrun it |
| PreLogin.GeneratedPayload | src/TDSProtocol/TDSPreLoginMessage.cs:358-419 | with the Nonce declared at its 32 bytes (corrected): generation fails only with NotSupported, and a payload it generates has exactly the capacity the declared lengths give |
| PreLogin.GeneratePayloadAsWritten | src/TDSProtocol/TDSPreLoginMessage.cs:358-419 | as written, with the Nonce declared as 1 byte: generation fails only with NotSupported, and a payload it generates has exactly the capacity those declarations give |
| PreLogin.ReadOption | src/TDSProtocol/TDSPreLoginMessage.cs:313-332 | the corrected row check (as written a row is tested against Position + 3 and a short one reads past the end with IndexOutOfRange, see PreLogin.ShortOptionAsWritten): one option row: EndOfStream at the end of the payload, InvalidMessage when a non-terminator row is cut short or its data lies past the end; a row read ends one byte on for the terminator and five for any other, whose data lies within the payload |
| PreLogin.ReadOptionAsWritten | src/TDSProtocol/TDSPreLoginMessage.cs:313-332 | as written: a row fails only with end of stream, an invalid message or IndexOutOfRange, the last only for a non-terminator token followed by just three bytes at the end of the payload; a row read moves forward within the payload, and a non-terminator row takes five bytes and points at data inside the payload |
| PreLogin.ReadOptions | src/TDSProtocol/TDSPreLoginMessage.cs:437-441 | with the corrected row check (see PreLogin.ShortOptionAsWritten): the read loop gives the options before the terminator, all within the payload, or EndOfStream or InvalidMessage |
| PreLogin.ApplyOptionData | src/TDSProtocol/TDSPreLoginMessage.cs:446-540 | one case of the switch: each known option below its minimum length is an invalid message, longer data is accepted, an unknown token changes nothing |
| PreLogin.ApplyOptions | src/TDSProtocol/TDSPreLoginMessage.cs:443-541 | applying the options in order stops only on an invalid message, options before it keeping their effect |
| PreLogin.Interpret | src/TDSProtocol/TDSPreLoginMessage.cs:425-546 | with the corrected row check (see PreLogin.ShortOptionAsWritten): a null payload is an invalid operation; otherwise the failures are an empty payload's IndexOutOfRange, EndOfStream or InvalidMessage |
| PreLogin.TableOptionsShape | src/TDSProtocol/TDSPreLoginMessage.cs:360-386 | the option table has one row per entry with its token and ushort length, the terminator last, and takes five bytes per option plus one |
| PreLogin.GeneratedLayout | src/TDSProtocol/TDSPreLoginMessage.cs:388-418 | for entries whose lengths are exact and fit the ushort offsets, the payload is exactly the table followed by the values |
| PreLogin.OptionPlacement | src/TDSProtocol/TDSPreLoginMessage.cs:351-386 | option k's offset is the table size plus the lengths before it, and its data lies within the buffer |
| PreLogin.ReadWrittenOption | src/TDSProtocol/TDSPreLoginMessage.cs:313-345 | ReadOption on the five bytes WriteOption wrote for a non-terminator option reads that option back |
| PreLogin.TableHead | src/TDSProtocol/TDSPreLoginMessage.cs:437-441 | the first row of a written table reads back and the rest of the table follows it |
| PreLogin.ReadTable | src/TDSProtocol/TDSPreLoginMessage.cs:437-441 | reading a written option table gives its options before the terminator |
| PreLogin.ApplyEntryAt | src/TDSProtocol/TDSPreLoginMessage.cs:394-417 | decoding the bytes written for property i restores exactly property i |
| PreLogin.OptionInPayload | src/TDSProtocol/TDSPreLoginMessage.cs:388-418 | in a generated payload, option k's data is that entry's value |
| PreLogin.EntriesRoundTrip | src/TDSProtocol/TDSPreLoginMessage.cs:358-546 | interpreting the payload generated from fitting entries applies the entries in order |
| PreLogin.TableReadBack | src/TDSProtocol/TDSPreLoginMessage.cs:430-441 | a generated payload does not start with a TLS record type and its table reads back as the options before the terminator |
| PreLogin.GeneratedPayloadRoundTrip | src/TDSProtocol/TDSPreLoginMessage.cs:358-546 | with the Nonce declared at its 32 bytes (corrected; as written it is declared as 1 byte and generation fails, see PreLogin.NonceOverrunsAsWritten): for encodable fields, generating a payload succeeds and interpreting it in a new message restores every property |
| PreLogin.EntriesFromNonce | src/TDSProtocol/TDSPreLoginMessage.cs:377-378 | declaring the Nonce with 1 byte instead of 32 changes only the declared lengths, by 31 when a Nonce is set |
| PreLogin.NonceOverrunsAsWritten | src/TDSProtocol/TDSPreLoginMessage.cs:377-378 | as written, every encodable PreLogin with a Nonce fails to generate with NotSupported, while the 32-byte declaration generates it |
| PreLogin.ReadOptionAsWrittenDiffers | src/TDSProtocol/TDSPreLoginMessage.cs:323 | the source's bound check differs from the corrected one exactly when a non-terminator token is followed by three bytes, giving IndexOutOfRange instead of InvalidMessage |
| PreLogin.ShortOptionAsWritten | src/TDSProtocol/TDSPreLoginMessage.cs:323-328 | a concrete payload whose row is cut after three bytes: IndexOutOfRange as written, InvalidMessage corrected |
| PreLoginMessages.MakeTraceId | src/TDSProtocol/TDSPreLoginMessage.cs:164-175 | the ActivityId setter admits exactly 0 or 20 bytes and keeps them; anything else is an argument error |
| PreLoginMessages.BumpOffsets | src/TDSProtocol/TDSPreLoginMessage.cs:385-386 | the loop moves every offset past the table as Bumped says |
| PreLoginMessages.TableCallsBytes | src/TDSProtocol/TDSPreLoginMessage.cs:338-345 | the writes of WriteOption over the table, laid end to end, are the option table bytes: the token, then the offset and length big-endian unless it is the terminator |
| PreLoginMessages.ValueCallsFromBytes | src/TDSProtocol/TDSPreLoginMessage.cs:394-418 | the value writes, laid end to end, are the values of the set properties in token order |
| PreLoginMessages.WriteCallsBytes | src/TDSProtocol/TDSPreLoginMessage.cs:391-418 | all the writes of GeneratePayload, laid end to end, are the option table and then the values |
| PreLoginMessages.GeneratedBufferWith | src/TDSProtocol/TDSPreLoginMessage.cs:388 | the Payload array GeneratePayload leaves has the declared size, the table length plus the declared option lengths |
| PreLoginMessages.GeneratedBuffer | src/TDSProtocol/TDSPreLoginMessage.cs:388 | with the Nonce declared at its 32 bytes (corrected), the array has the table length plus the corrected declared lengths |
| PreLoginMessages.GeneratedBufferIsPayload | src/TDSProtocol/TDSPreLoginMessage.cs:358-419 | generation fails, always with NotSupported, exactly when some write overruns the array; when it succeeds the array is the generated payload |
| PreLoginMessages.FailedBuffer | src/TDSProtocol/TDSPreLoginMessage.cs:388-419 | after a failed generation the array holds the whole option table, then the value writes before the first that does not fit, then zeros; for either declared Nonce length, so with the declared length 1 as written (see PreLogin.NonceOverrunsAsWritten) and with the corrected 32 |
| PreLoginMessages.ReadOptionFrom | src/TDSProtocol/TDSPreLoginMessage.cs:313-332 | with the corrected row check (see PreLogin.ShortOptionAsWritten): ReadOption on the message's reader gives ReadOption's option and moves to its end, or fails as it does |
| PreLoginMessages.ReadOptionTable | src/TDSProtocol/TDSPreLoginMessage.cs:437-441 | with the corrected row check (see PreLogin.ShortOptionAsWritten): the while loop reads exactly ReadOptions of the payload |
| PreLoginMessages.ApplyOptionAt | src/TDSProtocol/TDSPreLoginMessage.cs:446-491 | the Version, Encryption, InstOpt and ThreadId cases decode the option's data as ApplyOptionData does |
| PreLoginMessages.ApplyLaterOptionAt | src/TDSProtocol/TDSPreLoginMessage.cs:492-540 | the Mars, TraceId, FedAuthRequired, Nonce and unknown-token cases decode as ApplyOptionData does |
| PreLoginMessages.GenerateInto | src/TDSProtocol/TDSPreLoginMessage.cs:358-419 | the body of GeneratePayload, with the Nonce declared at its 32 bytes (corrected; the source declares 1, see Findings): fails exactly as GeneratedPayload does and returns the partly or wholly written array either way |
| PreLoginMessages.PreLoginMessage.constructor | src/TDSProtocol/TDSPreLoginMessage.cs:10-19 | a new message has no properties set and no payload |
| PreLoginMessages.PreLoginMessage.SetVersion | src/TDSProtocol/TDSPreLoginMessage.cs:64-74 | sets the version and drops the payload, nothing else changing |
| PreLoginMessages.PreLoginMessage.SetEncryption | src/TDSProtocol/TDSPreLoginMessage.cs:88-98 | sets the encryption and drops the payload, nothing else changing |
| PreLoginMessages.PreLoginMessage.SetInstValidity | src/TDSProtocol/TDSPreLoginMessage.cs:105-115 | sets the instance name and drops the payload, nothing else changing |
| PreLoginMessages.PreLoginMessage.SetThreadId | src/TDSProtocol/TDSPreLoginMessage.cs:121-129 | sets the thread id and drops the payload, nothing else changing |
| PreLoginMessages.PreLoginMessage.SetMars | src/TDSProtocol/TDSPreLoginMessage.cs:144-152 | sets the MARS option and drops the payload, nothing else changing |
| PreLoginMessages.PreLoginMessage.SetTraceId | src/TDSProtocol/TDSPreLoginMessage.cs:221-229 | sets the trace id and drops the payload, nothing else changing |
| PreLoginMessages.PreLoginMessage.SetFedAuthRequired | src/TDSProtocol/TDSPreLoginMessage.cs:246-254 | sets the FedAuthRequired option and drops the payload, nothing else changing |
| PreLoginMessages.PreLoginMessage.SetNonce | src/TDSProtocol/TDSPreLoginMessage.cs:262-274 | a Nonce other than none or 32 bytes is an argument error that changes nothing; otherwise it is set and the payload dropped |
| PreLoginMessages.PreLoginMessage.SetSslPayload | src/TDSProtocol/TDSPreLoginMessage.cs:278-284 | the payload becomes the TLS bytes as given, the properties unchanged |
| PreLoginMessages.PreLoginMessage.GeneratePayload | src/TDSProtocol/TDSPreLoginMessage.cs:358-419 | with the Nonce declared at its 32 bytes (corrected): the payload becomes GeneratedPayload of the properties; when a write overruns, the call fails with NotSupported and the payload is the array assigned before the writes, as far as it was written |
| PreLoginMessages.PreLoginMessage.InterpretPayload | src/TDSProtocol/TDSPreLoginMessage.cs:425-546 | with the corrected row check (see PreLogin.ShortOptionAsWritten): the properties end as Interpret of the old properties and payload says, with its error, the payload kept |
| PreLoginSample.SampleGenerate | TDSProtocolTests/TDSPreLoginMessageTests.cs:46-69 | the fields of the unit test generate exactly its 39 bytes |
| PreLoginSample.SampleInterpret | TDSProtocolTests/TDSPreLoginMessageTests.cs:12-44 | the 39 bytes of the unit test decode to exactly its fields |
| Login7.FixedLength | src/TDSProtocol/TDSLogin7Message.cs:524-536 | the fixed part is 86 bytes before TDS 7.2 and 94 from 7.2 on, which is where the last fixed word ends |
| Login7.FixedWords | src/TDSProtocol/TDSLogin7Message.cs:555-638 | the writer emits 35 fixed words before TDS 7.2 and 38 from 7.2 on |
| Login7.DataSegments | src/TDSProtocol/TDSLogin7Message.cs:647-660 | the data block consists of twelve items, written in the writer's order |
| Login7.Word | src/TDSProtocol/TDSLogin7Message.cs:702-766 | each fixed word the reader takes fits the width of its field |
| Login7.EndOffset | src/TDSProtocol/TDSLogin7Message.cs:785 | an item ends at its offset plus its length; an empty item ends at 0 |
| Login7.MaxOf | src/TDSProtocol/TDSLogin7Message.cs:786-801 | the end of the data block is one of the item ends and is at least every one of them |
| Login7Proofs.WordOfWordBytes | src/TDSProtocol/TDSLogin7Message.cs:555-566 | reading back word k of the written words gives the value written, truncated to the word's width |
| Login7Proofs.AllWords | src/TDSProtocol/TDSLogin7Message.cs:555-638 | every word the writer emitted reads back |
| Login7Proofs.PayloadWord | src/TDSProtocol/TDSLogin7Message.cs:555-638 | word k of a generated payload is the fixed word the writer emitted, truncated to its width |
| Login7Proofs.PayloadLength | src/TDSProtocol/TDSLogin7Message.cs:522-550 | the generator fills its buffer exactly: the payload's length is the size it allocates |
| Login7Proofs.DataPosIsOffset | src/TDSProtocol/TDSLogin7Message.cs:568-613 | every item before SSPI lies where the table's running 16-bit offset puts it |
| Login7Proofs.DecodeFixedOfPayload | src/TDSProtocol/TDSLogin7Message.cs:702-779 | from a generated payload the reader takes the fixed part the writer put there |
| Login7.GeneratedPayload | src/TDSProtocol/TDSLogin7Message.cs:520-690 | generation fails only with an overflow or an argument error, and succeeds only for a message that has a ClientID and whose total length fits an int |
| Login7.DecodeFixed | src/TDSProtocol/TDSLogin7Message.cs:702-779 | the fixed part fails only with end of stream or an invalid message; its declared length and its end lie within the payload, and it is 94 bytes long exactly when the version is TDS 7.2 or later and the host name offset leaves room for the 7.2 fields, 86 otherwise |
| Login7.DecodeData | src/TDSProtocol/TDSLogin7Message.cs:810-911 | a data block that is read starts no earlier than the fixed part ends and ends within the declared length; the message keeps the fixed part's TDS version and ClientID, and its previous FeatureExt when no extension is flagged |
| Login7.Decode | src/TDSProtocol/TDSLogin7Message.cs:696-911 | fewer than 4 bytes end the stream; a decoded message had a fixed part within the payload and a data block between the end of the fixed part and the declared length |
| Login7Proofs.StringItemOf | src/TDSProtocol/TDSLogin7Message.cs:810-853 | a string item reads back from its offset wherever the reader stands; an empty one reads as empty and the reader does not move |
| Login7Proofs.PasswordItemOf | src/TDSProtocol/TDSLogin7Message.cs:812 | an obfuscated password item reads back from the reader's position as the password written |
| Login7Proofs.DataEndOfExpected | src/TDSProtocol/TDSLogin7Message.cs:785-807 | the table of an encodable message declares a data block that ends before the feature chain, so the reader's length check passes |
| Login7Proofs.ExtensionItem | src/TDSProtocol/TDSLogin7Message.cs:816-848 | the extension slot read at its offset passes both offset checks and points just past the data block |
| Login7Proofs.SspiItem | src/TDSProtocol/TDSLogin7Message.cs:854-860 | SSPI is read back from its offset with its full length |
| Login7Proofs.ChangePasswordItem | src/TDSProtocol/TDSLogin7Message.cs:865-867 | ChangePassword is read back where it was written, and is empty before TDS 7.2 |
| Login7Proofs.FeatureHeadAt | src/TDSProtocol/TDSLogin7Message.cs:671-676 | a written feature reads back as its identifier, its length and its data |
| Login7Proofs.ReadFeaturesOf | src/TDSProtocol/TDSLogin7Message.cs:873-899 | a chain of features with no terminator identifier among them, followed by a terminator, reads back as itself within any declared length that covers it |
| Login7Proofs.ReadFeaturesShape | src/TDSProtocol/TDSLogin7Message.cs:873-899 | whatever the chain reader accepts is a list of features with no terminator identifier, ended by a terminator that lies inside both the declared length and the payload |
| Login7Proofs.ChainRead | src/TDSProtocol/TDSLogin7Message.cs:869-908 | the chain the extension slot points at reads back as the message's FeatureExt list |
| Login7Proofs.DecodeDataOfLaid | src/TDSProtocol/TDSLogin7Message.cs:810-911 | every item of the data block reads back, one after the other |
| Login7Proofs.RoundTrip | src/TDSProtocol/TDSLogin7Message.cs:520-925 | an encodable message generates a payload, and that payload decodes back to the message; the FeatureExt list held before survives when no chain is written |
| Login7Proofs.RoundTripFresh | src/TDSProtocol/TDSLogin7Message.cs:520-925 | read into a fresh message, a generated payload gives back exactly the message written |
| Login7Proofs.DecodeRejects | src/TDSProtocol/TDSLogin7Message.cs:702-807 | a payload too short for its fields ends the stream; a declared length beyond the payload, a data block starting inside the fixed part, or a data block running past the declared length is an invalid message |
| Login7Proofs.GenerateRejects | src/TDSProtocol/TDSLogin7Message.cs:547-615 | the generator fails exactly when the buffer size overflows a 32-bit int or there is no ClientID, and it reports the matching error |
| Login7Messages.Interpretation | src/TDSProtocol/TDSLogin7Message.cs:696-925 | with no payload, interpretation fails with an argument error; otherwise the fields become what the reader decodes, and a chain read through the FeatureExt setter discards the cached payload |
| Login7Messages.GenerateThenInterpret | src/TDSProtocol/TDSLogin7Message.cs:520-925 | a message that is given the payload its own fields generate interprets it back to those same fields |
| Login7Messages.Login7Message.constructor | src/TDSProtocol/TDSLogin7Message.cs:11-20 | a new message has default fields and no payload |
| Login7Messages.Login7Message.SetTdsVersion | src/TDSProtocol/TDSLogin7Message.cs:26-36 | only TdsVersion changes, and the cached payload is dropped |
| Login7Messages.Login7Message.SetHostName | src/TDSProtocol/TDSLogin7Message.cs:291-301 | only HostName changes, and the cached payload is dropped |
| Login7Messages.Login7Message.SetUserName | src/TDSProtocol/TDSLogin7Message.cs:307-317 | only UserName changes, and the cached payload is dropped |
| Login7Messages.Login7Message.SetPassword | src/TDSProtocol/TDSLogin7Message.cs:323-333 | only Password changes, and the cached payload is dropped |
| Login7Messages.Login7Message.SetDatabase | src/TDSProtocol/TDSLogin7Message.cs:438-448 | only Database changes, and the cached payload is dropped |
| Login7Messages.Login7Message.SetFeatureExt | src/TDSProtocol/TDSLogin7Message.cs:390-400 | only FeatureExt changes, and the cached payload is dropped |
| Login7Messages.Login7Message.GeneratePayload | src/TDSProtocol/TDSLogin7Message.cs:520-690 | the payload becomes the generated bytes; on failure the error is returned and the payload is unchanged |
| Login7Messages.Login7Message.EnsurePayload | src/TDSProtocol/TDSMessage.cs:78-82 | a payload that exists is kept; a missing one is generated |
| Login7Messages.Login7Message.InterpretPayload | src/TDSProtocol/TDSLogin7Message.cs:696-925 | the result, the fields and the payload are what Interpretation gives; the payload as received is kept |
| Tokens.RegistryKeys | src/TDSProtocol/TDSToken.cs:109-115 | an id has a registered constructor exactly when some token class carries that id |
| Tokens.EncodeBody | src/TDSProtocol/TDSMessageToken.cs:137-161 | a body writer fails, with an argument error, exactly on a token whose string is too long for its count |
| Tokens.Encode | src/TDSProtocol/TDSToken.cs:48-52 | a written token is its id byte followed by its body, and it fails exactly when its body cannot be written |
| Tokens.ParseBody | src/TDSProtocol/TDSToken.cs:67-69 | the reader registered for an id yields a token of that id and advances past the id |
| Tokens.ParseToken | src/TDSProtocol/TDSToken.cs:62-79 | running out before the id byte is end of stream; an unregistered id, or any failure in the body, is an invalid message; a token read has the id read, is stamped with the given offset, and has a received length of one plus its body's count |
| Tokens.ReceivedLengthOfWritten | src/TDSProtocol/TDSToken.cs:69 | the received length of a written token equals the bytes it takes for ENVCHANGE and DONE; for ERROR and INFO it is one more wherever the two line-number width tests agree; for LOGINACK it is short by the program name's length; for FEATUREEXTACK it is short by two per feature |
| Tokens.WriteBody | src/TDSProtocol/TDSMessageToken.cs:137-161 | the writer appends the encoded body, or fails with an argument error when the body cannot be written |
| Tokens.WriteToken | src/TDSProtocol/TDSToken.cs:48-52 | the writer appends the encoded token, or fails with an argument error |
| Tokens.ReadBody | src/TDSProtocol/TDSToken.cs:67-69 | the result is the registered body reader's, and the reader's position ends after the body |
| Tokens.ReadToken | src/TDSProtocol/TDSToken.cs:62-79 | the result is ParseToken's at the reader's position, and the position ends after the token |
| TokenStreams.Token.constructor | src/TDSProtocol/TDSToken.cs:35-38 | a token built to be sent belongs to its message, has its body, and carries no received offset or length |
| TokenStreams.Token.Read | src/TDSProtocol/TDSToken.cs:62-70 | a token that was read belongs to its message and holds the body, offset and length read |
| TokenStreams.Token.SetNumber | src/TDSProtocol/TDSMessageToken.cs:27-35 | only Number changes, and the message's payload is dropped |
| TokenStreams.Token.SetState | src/TDSProtocol/TDSMessageToken.cs:43-51 | only State changes, and the message's payload is dropped |
| TokenStreams.Token.SetClass | src/TDSProtocol/TDSMessageToken.cs:59-67 | only Class changes, and the message's payload is dropped |
| TokenStreams.Token.SetMsgText | src/TDSProtocol/TDSMessageToken.cs:75-83 | only MsgText changes, and the message's payload is dropped |
| TokenStreams.Token.SetServerName | src/TDSProtocol/TDSMessageToken.cs:91-99 | only ServerName changes, and the message's payload is dropped |
| TokenStreams.Token.SetProcName | src/TDSProtocol/TDSMessageToken.cs:107-115 | only ProcName changes, and the message's payload is dropped |
| TokenStreams.Token.SetLineNumber | src/TDSProtocol/TDSMessageToken.cs:123-131 | only LineNumber changes, and the message's payload is dropped |
| TokenStreams.Token.SetInterface | src/TDSProtocol/TDSLoginAckToken.cs:30-38 | only Interface changes, and the message's payload is dropped |
| TokenStreams.Token.SetTdsVersion | src/TDSProtocol/TDSLoginAckToken.cs:46-54 | only TDSVersion changes, and the message's payload is dropped |
| TokenStreams.Token.SetProgName | src/TDSProtocol/TDSLoginAckToken.cs:64-72 | only ProgName changes, and the message's payload is dropped |
| TokenStreams.Token.SetProgVersion | src/TDSProtocol/TDSLoginAckToken.cs:92-100 | only ProgVersion changes, and the message's payload is dropped |
| TokenStreams.Token.SetType | src/TDSProtocol/TDSEnvChangeToken.cs:52-93 | the type changes as the EnvChange Type setter has it: fixed values are installed, the cached length is cleared, and the message's payload is dropped |
| TokenStreams.Token.SetOldValue | src/TDSProtocol/TDSEnvChangeToken.cs:100-126 | a null value, or a type with a fixed OldValue, is refused and nothing changes; otherwise only OldValue changes, and the payload is dropped |
| TokenStreams.Token.SetNewValue | src/TDSProtocol/TDSEnvChangeToken.cs:134-156 | a null value, or a type with a fixed NewValue, is refused and nothing changes; otherwise only NewValue changes, and the payload is dropped |
| TokenStreams.Token.SetFeatureAckOpts | src/TDSProtocol/TDSFeatureExtAckToken.cs:26-34 | the list is stored, with null stored as empty, and the message's payload is dropped |
| TokenStreams.Token.SetStatus | src/TDSProtocol/TDSDoneToken.cs:31-42 | only Status changes, and the message's payload is dropped |
| TokenStreams.Token.SetCurCmd | src/TDSProtocol/TDSDoneToken.cs:44-55 | only CurCmd changes, and the message's payload is dropped |
| TokenStreams.Token.SetDoneRowCount | src/TDSProtocol/TDSDoneToken.cs:57-66 | only DoneRowCount changes, and the message's payload is dropped |
| TokenStreams.PayloadWriterFails | src/TDSProtocol/TDSTokenStreamMessage.cs:83-84 | the payload writer fails, with an argument error, exactly on the tokens that cannot be written |
| TokenStreams.Serialized | src/TDSProtocol/TDSTokenStreamMessage.cs:77-89 | the payload is the tokens written in list order; the first token that cannot be written stops the writes with an argument error |
| TokenStreams.SerializedAppend | src/TDSProtocol/TDSTokenStreamMessage.cs:83-84 | the payload of two token lists is the payload of the first followed by the payload of the second |
| TokenStreams.SerializedOne | src/TDSProtocol/TDSTokenStreamMessage.cs:83-84 | the payload of a single token is that token as written |
| TokenStreams.SerializedFailure | src/TDSProtocol/TDSTokenStreamMessage.cs:83-84 | a token list that cannot be written fails with an argument error |
| TokenStreams.Rethrown | src/TDSProtocol/TDSTokenStreamMessage.cs:110-124 | an invalid message is rethrown as an invalid message, and any other failure as a plain fault; both name the token's number and offset |
| TokenStreams.PayloadReaderAtEnd | src/TDSProtocol/TDSToken.cs:64 | the payload reader fails with end of stream at the end of the payload |
| TokenStreams.StepFails | src/TDSProtocol/TDSTokenStreamMessage.cs:106-124 | one failed read ends the loop, keeping what was read before it |
| TokenStreams.StepReads | src/TDSProtocol/TDSTokenStreamMessage.cs:106-131 | one successful read moves the rest of the loop past the token it read |
| TokenStreams.StampedOffsets | src/TDSProtocol/TDSTokenStreamMessage.cs:104-130 | each token's offset is the starting offset plus the lengths of the tokens before it |
| TokenStreams.StopsAtTerminal | src/TDSProtocol/TDSTokenStreamMessage.cs:103-131 | the loop stops right after the first DONE without the More flag: every token before the last is non-terminal, and the loop ends without failure exactly when the last token is terminal |
| TokenStreams.OffsetsAreSums | src/TDSProtocol/TDSTokenStreamMessage.cs:104-130 | each token read is stamped with the sum of the received lengths before it; a failure names the next token's number and offset |
| TokenStreams.InterpretedTokens | src/TDSProtocol/TDSTokenStreamMessage.cs:95-133 | from a payload, the tokens are read with offsets equal to the sums of earlier lengths; only the last may be a terminal DONE, and it is one exactly when no failure ended the loop |
| TokenStreams.Interpreted | src/TDSProtocol/TDSTokenStreamMessage.cs:95-133 | a payload read without error yields at least one token, and the last one is a terminal DONE |
| TokenStreams.Decode | src/TDSProtocol/TDSTokenStreamMessage.cs:103-132 | the reading loop, from any position: when it stops without error it has read at least one token and stopped on a terminal DONE |
| TokenStreams.EmptyPayloadFails | src/TDSProtocol/TDSTokenStreamMessage.cs:106-124 | an empty payload fails on token 1, at offset 0 |
| TokenStreams.FirstWithId | src/TDSProtocol/TDSTokenStreamMessage.cs:59-62 | the index found is that of the first token with the id, and there is no index exactly when no token has the id |
| TokenStreams.OwnedRun | src/TDSProtocol/TDSTokenStreamMessage.cs:50-57 | the run at the front of the list consists of tokens of this message, and the token after it, if any, belongs to another message |
| TokenStreams.TokenStreamMessage.constructor | src/TDSProtocol/TDSTokenStreamMessage.cs:32 | a new message has no tokens and no payload |
| TokenStreams.TokenStreamMessage.SetRawMessage | src/TDSProtocol/TDSTokenStreamMessage.cs:22-26 | RawMessage sets the payload as it is given |
| TokenStreams.TokenStreamMessage.ClearTokens | src/TDSProtocol/TDSTokenStreamMessage.cs:36-39 | the token list becomes empty and the payload is unchanged |
| TokenStreams.TokenStreamMessage.AddToken | src/TDSProtocol/TDSTokenStreamMessage.cs:41-46 | a token of this message is appended; a token of another message is refused with an invalid operation, and the list is unchanged |
| TokenStreams.TokenStreamMessage.AddTokens | src/TDSProtocol/TDSTokenStreamMessage.cs:50-57 | a null list adds nothing; otherwise the tokens up to the first one from another message are appended, and that token fails the call |
| TokenStreams.TokenStreamMessage.FindToken | src/TDSProtocol/TDSTokenStreamMessage.cs:59-62 | the token found is in the list and has the id; the result is null exactly when no token has the id |
| TokenStreams.TokenStreamMessage.GeneratePayload | src/TDSProtocol/TDSTokenStreamMessage.cs:77-89 | the payload becomes the serialized tokens, written in list order; it is set only when every token was written |
| TokenStreams.TokenStreamMessage.EnsurePayload | src/TDSProtocol/TDSTokenStreamMessage.cs:68-71 | a payload that exists is kept; a missing one is generated |
| TokenStreams.TokenStreamMessage.InterpretPayload | src/TDSProtocol/TDSTokenStreamMessage.cs:95-133 | no payload is an invalid operation; otherwise tokens are appended in wire order up to a terminal DONE, and on a failure the tokens read before it stay in the list and the error is rethrown with the token's number and offset |
| TokenStreams.TokenStreamMessage.ReadTokens | src/TDSProtocol/TDSTokenStreamMessage.cs:103-131 | the loop appends exactly the tokens the interpretation reads, with the token count and the running offset |
| TokenStreams.WriteTokens | src/TDSProtocol/TDSTokenStreamMessage.cs:83-84 | each token is written in list order, and the first that cannot be written ends the loop with an argument error |
| MessageTokens.EncodeBody | src/TDSProtocol/TDSMessageToken.cs:137-157 | the body is the length field followed by the fields; a string too long for its length prefix is an argument error |
| MessageTokens.ParseBody | src/TDSProtocol/TDSMessageToken.cs:163-205 | every failure, a running out of data included, is an invalid message; a body that is read ends past its fixed fields and line number and reports a count of at least the versioned fixed part plus three |
| MessageTokens.RoundTrip | src/TDSProtocol/TDSMessageToken.cs:137-205 | reading an encoded body gives its fields back, with the line number as wide as the version allows, and ends right after the body; the declared length exceeds the written bytes by two wherever the writer's and the reader's line-number tests disagree |
| MessageTokens.ExactLengthRejectedBefore72 | src/TDSProtocol/TDSMessageToken.cs:169-177 | a TDS 7.1 body with empty strings whose length counts exactly the bytes after it is rejected as too short |
| MessageTokens.WriteBody | src/TDSProtocol/TDSMessageToken.cs:137-157 | the writer appends the encoded body; a string too long for its prefix stops the writing with an argument error, after the bytes written before it |
| MessageTokens.ReadBody | src/TDSProtocol/TDSMessageToken.cs:163-205 | reading field by field gives ParseBody's result and ends at its position |
| LoginAckTokens.EncodeBody | src/TDSProtocol/TDSLoginAckToken.cs:108-118 | the body is written exactly when the program name fits its one-byte count, and it is 2 + 10 + 2·\|ProgName\| bytes long |
| LoginAckTokens.ParseBody | src/TDSProtocol/TDSLoginAckToken.cs:124-167 | every failure, a running out of data included, is an invalid message; a body that is read ends past the fixed part and reports at least the fixed part plus two |
| LoginAckTokens.ParseOfReadable | src/TDSProtocol/TDSLoginAckToken.cs:137-159 | with a length field that covers the character-based Length, the fields come back and the reader skips length − Length bytes past the program version |
| LoginAckTokens.ParseBodyWith | src/TDSProtocol/TDSLoginAckToken.cs:124-167 | a body whose length field is any value covering the character-based Length reads back its fields, reports that length + 2, and ends length − Length bytes past the program version |
| LoginAckTokens.BodyWithAsWritten | src/TDSProtocol/TDSLoginAckToken.cs:108-118 | the encoding is the writer's calls in order: the length, the interface and the TDS version, then the counted program name, then the program version |
| LoginAckTokens.RoundTrip | src/TDSProtocol/TDSLoginAckToken.cs:108-167 | reading the token's own encoding gives its fields back and ends right after it; the reported count is Length + 2, which falls short of the bytes spanned by the program name's character count |
| LoginAckTokens.ByteCountedLengthOvershoots | src/TDSProtocol/TDSLoginAckToken.cs:157 | for a body whose length field counts bytes, the count reported is right, but the reader skips as many bytes past the body as the program name has characters |
| LoginAckTokens.WriteBody | src/TDSProtocol/TDSLoginAckToken.cs:108-118 | the writer appends the encoded body; a name too long for its count fails with an argument error after the length, interface and version were written |
| LoginAckTokens.ReadBody | src/TDSProtocol/TDSLoginAckToken.cs:124-167 | reading field by field gives ParseBody's result and ends at its position |
| EnvChangeTokens.SetType | src/TDSProtocol/TDSEnvChangeToken.cs:52-93 | the Type setter forgets the cached length, sets the type and installs the values that type fixes |
| EnvChangeTokens.SetOldValue | src/TDSProtocol/TDSEnvChangeToken.cs:100-126 | null is an argument error; a type with a fixed OldValue is an invalid operation; otherwise OldValue is set and the cached length is cleared |
| EnvChangeTokens.SetNewValue | src/TDSProtocol/TDSEnvChangeToken.cs:134-156 | null is an argument error; a type with a fixed NewValue is an invalid operation; otherwise NewValue is set and the cached length is cleared |
| EnvChangeTokens.SettersKeepFixedValues | src/TDSProtocol/TDSEnvChangeToken.cs:52-156 | the setters keep the fixed values: the Type setter installs them, and a value setter refuses exactly the types that have a fixed value |
| EnvChangeTokens.SettersResetLength | src/TDSProtocol/TDSEnvChangeToken.cs:20 | after any setter, the length is again 1 + \|NewValue\| + \|OldValue\|, truncated to 16 bits |
| EnvChangeTokens.FormatOf | src/TDSProtocol/TDSEnvChangeToken.cs:187-232 | every type the reader's switch knows has a value prefix of 1, 2 or 4 bytes, and only one-byte prefixes count characters |
| EnvChangeTokens.ReadDataFrom | src/TDSProtocol/TDSEnvChangeToken.cs:241-283 | a value that is read holds at least its prefix and no more than the room the token has left, and the reader moves past the prefix and the data bytes it found |
| EnvChangeTokens.ParseBody | src/TDSProtocol/TDSEnvChangeToken.cs:173-235 | a body that is read has a type the switch knows, remembers its declared length, reports a count of that length plus two, and ends at least past the header and both prefixes |
| EnvChangeTokens.EncodeBody | src/TDSProtocol/TDSEnvChangeToken.cs:161-167 | corrected: the body is the 2-byte length and the type byte followed by both values, 3 bytes more than the values together |
| EnvChangeTokens.EncodeBodyAsWritten | src/TDSProtocol/TDSEnvChangeToken.cs:161-167 | as written (OldValue before NewValue): the same 3 bytes more than the values together, so only the order of the values differs from the corrected body |
| EnvChangeTokens.ParseBodyRejects | src/TDSProtocol/TDSEnvChangeToken.cs:175-232 | a header cut short and an unknown type are invalid messages |
| EnvChangeTokens.NegativeSizes | src/TDSProtocol/TDSEnvChangeToken.cs:256-267 | an L_VARBYTE count too large wraps the sum and the allocation fails with an overflow, as does one below −4; a count from −4 to −1 leaves an array shorter than the prefix, so the stores go out of range |
| EnvChangeTokens.ParseOfReadable | src/TDSProtocol/TDSEnvChangeToken.cs:198-234 | for readable data, the first value read is the new value and the second the old value, and the length is remembered |
| EnvChangeTokens.RoundTrip | src/TDSProtocol/TDSEnvChangeToken.cs:161-235 | reading a body written by the corrected writer gives the type and both values back, remembers the declared length, and ends right after the body |
| EnvChangeTokens.SwappedRoundTrip | src/TDSProtocol/TDSEnvChangeToken.cs:161-235 | reading back what the writer as written emits gives the type, but with the two values exchanged |
| EnvChangeTokens.SwappedExample | src/TDSProtocol/TDSEnvChangeToken.cs:165-166 | a Database change from "A" to "B", written as written, reads back as a change from "B" to "A" |
| EnvChangeTokens.WriteBody | src/TDSProtocol/TDSEnvChangeToken.cs:161-167 | the writer appends the corrected encoding of the body |
| EnvChangeTokens.ReadData | src/TDSProtocol/TDSEnvChangeToken.cs:241-283 | the array holds what ReadDataFrom describes, and the reader moves past what it read |
| EnvChangeTokens.ReadBody | src/TDSProtocol/TDSEnvChangeToken.cs:173-235 | reading step by step gives ParseBody's result and ends at its position |
| FeatureExtAckTokens.StoredOpts | src/TDSProtocol/TDSFeatureExtAckToken.cs:31-32 | the setter stores a null list as empty and any other list as given |
| FeatureExtAckTokens.EncodeBody | src/TDSProtocol/TDSFeatureExtAckToken.cs:40-59 | the features are written up to the first terminator, followed by the terminator byte |
| FeatureExtAckTokens.EncodePlain | src/TDSProtocol/TDSFeatureExtAckToken.cs:42-58 | a list with no terminator is written feature by feature and then closed with 0xFF |
| FeatureExtAckTokens.EncodeStopsAtTerminator | src/TDSProtocol/TDSFeatureExtAckToken.cs:45-46 | nothing from the first terminator on is written, except the terminator byte itself |
| FeatureExtAckTokens.CountFallsShort | src/TDSProtocol/TDSFeatureExtAckToken.cs:97 | the bytes of the features and the terminator exceed the count the reader reports by two per feature |
| FeatureExtAckTokens.ParseRejects | src/TDSProtocol/TDSFeatureExtAckToken.cs:76-94 | the reader fails at the end of the data, inside a feature header, or on a negative length |
| FeatureExtAckTokens.ParseErrors | src/TDSProtocol/TDSFeatureExtAckToken.cs:76-94 | the reader fails only with an invalid message, or with the argument error of a negative length |
| FeatureExtAckTokens.ParseBody | src/TDSProtocol/TDSFeatureExtAckToken.cs:65-99 | a list that is read ends past where it started and within the data |
| FeatureExtAckTokens.ParseShape | src/TDSProtocol/TDSFeatureExtAckToken.cs:65-99 | the list read ends with the terminator entry and holds no other; the reader moves two bytes per feature further than the count it reports |
| FeatureExtAckTokens.RoundTrip | src/TDSProtocol/TDSFeatureExtAckToken.cs:40-99 | reading a written list with no terminator gives its features back followed by the terminator entry, and ends right after the written bytes |
| FeatureExtAckTokens.Reencode | src/TDSProtocol/TDSFeatureExtAckToken.cs:40-99 | writing the list the reader returns reproduces exactly the bytes it read |
| FeatureExtAckTokens.WriteBody | src/TDSProtocol/TDSFeatureExtAckToken.cs:40-59 | the writer appends the encoded body |
| FeatureExtAckTokens.ReadFeature | src/TDSProtocol/TDSFeatureExtAckToken.cs:73-97 | one pass of the loop reads the id and, for a feature, its length and data, as the reader's step describes |
| FeatureExtAckTokens.ReadBody | src/TDSProtocol/TDSFeatureExtAckToken.cs:65-99 | reading until the terminator gives ParseBody's result and ends at its position |
| DoneTokens.EncodeBody | src/TDSProtocol/TDSDoneToken.cs:68-77 | the body is four bytes of status and command followed by the row count, 8 bytes wide from TDS 7.2 on and 4 bytes before |
| DoneTokens.ParseBody | src/TDSProtocol/TDSDoneToken.cs:68-77 | the inverse of the writer reads the three fields in writing order; a body cut short is an invalid message |
| DoneTokens.ParseBodyAsWritten | src/TDSProtocol/TDSToken.cs:60 | without an override of the abstract reader, reading a Done body always fails, as an invalid message |
| DoneTokens.RoundTrip | src/TDSProtocol/TDSDoneToken.cs:68-77 | reading a written body gives its fields back, with the row count cut to its low 32 bits before TDS 7.2; the fields are unchanged exactly when the version is 7.2 or later or the count fits 32 bits |
| DoneTokens.NoReaderAsWritten | src/TDSProtocol/TDSDoneToken.cs:9-77 | every Done token the library writes is lost to the reader as declared, and is read back by the writer's inverse |
| DoneTokens.Reencode | src/TDSProtocol/TDSDoneToken.cs:68-77 | writing what was read reproduces the bytes the reader consumed |
| DoneTokens.WriteBody | src/TDSProtocol/TDSDoneToken.cs:68-77 | the writer appends status, command, then the row count at the version's width |
| DoneTokens.ReadBody | src/TDSProtocol/TDSDoneToken.cs:68-77 | reading field by field gives ParseBody's result and ends at its position |
| ConnectionRules.ClientEncryption | src/TDSProxy/TDSConnection.cs:653-656 | the client keeps the encryption it asked for when unencrypted connections are allowed or it asked for On; otherwise it is told Required |
| ConnectionRules.ClientAlwaysEncrypts | src/TDSProxy/TDSConnection.cs:652-656 | unless unencrypted connections are allowed, the client is always told On or Required |
| ConnectionRules.ClientPreLoginVerdict | src/TDSProxy/TDSConnection.cs:610-624 | a PreLogin with no Encryption option is dropped silently, and exactly a NOT_SUPPORTED one is answered with Required before the drop |
| ConnectionRules.NegotiatedPacketLength | src/TDSProxy/TDSConnection.cs:734 | the packet length is PacketSize clamped to 512..65535, so it is always larger than a packet header |
| ConnectionRules.CappedTdsVersion | src/TDSProxy/TDSConnection.cs:833-834 | the TDS version sent on is never above 7.4, and any version at or above 7.4 becomes exactly 7.4 |
| ConnectionRules.CappedIdempotent | src/TDSProxy/TDSConnection.cs:833-834 | capping twice changes nothing more |
| ConnectionRules.DenialReason | src/TDSProxy/TDSConnection.cs:736-768 | the login is refused exactly when it asks for a user instance, integrated security, SSPI or federated authentication, and the reason given is that of the first of these checks, in that order |
| ConnectionRules.PresumedServerTdsVersion | src/TDSProxy/TDSConnection.cs:796-810 | the presumed version never exceeds 7.4, and is 7.2 or later exactly for servers from 9.0 on |
| ConnectionRules.PresumedMonotone | src/TDSProxy/TDSConnection.cs:797-810 | a newer server is never presumed to speak an older TDS version |
| ConnectionRules.DenialText | src/TDSProxy/TDSConnection.cs:820 | the denial text is the 14-character "Login failed. " followed by the reason |
| ConnectionRules.DisplayUserAt | src/TDSProxy/TDSConnection.cs:835 | "user@" is the authenticator's DisplayUsername, or the client's user name when there is none, followed by '@' |
| ConnectionRules.SubstringFrom | src/TDSProxy/TDSConnection.cs:843 | Substring(start) succeeds exactly when the start lies within the string, and gives the suffix from it; any other start is an argument error |
| ConnectionRules.HostName | src/TDSProxy/TDSConnection.cs:838-849 | the corrected rewrite: the host name is at most 128 characters and ends with the address, or with the address and ")"; it starts with "user@" whenever "user@" and the address fit; it is exactly "user@host (ip)" or "user@ip" when that fits; it fails exactly when "user@" and the address do not fit and the address alone is longer than 124 |
| ConnectionRules.HostNameAsWrittenAgrees | src/TDSProxy/TDSConnection.cs:838-846 | where the code does what its comments say (the first and third branches), the rewrite as written and the corrected rewrite agree |
| ConnectionRules.HostNameAsWritten | src/TDSProxy/TDSConnection.cs:838-849 | as written: the only failure is Substring's argument error; where "user@host (ip)" fits, or "user@ip" fits but no part of the host does, the result is at most 128 characters, starts with "user@" and ends with the address, followed by ")" when a host name is kept |
| ConnectionRules.SuffixBranchAsWritten | src/TDSProxy/TDSConnection.cs:841-843 | the second branch as written gives a suffix of "user@", then "...@" and the address, as long as "user@" plus twice the address less 120, which grows with the user name; the corrected rewrite gives exactly 128 |
| ConnectionRules.SuffixBranchExample | src/TDSProxy/TDSConnection.cs:843 | a 300-character "user@" with the address 10.0.0.1 gives a host name of 196 characters as written, and 128 as corrected |
| ConnectionRules.TruncationBranchAsWritten | src/TDSProxy/TDSConnection.cs:847-849 | the fourth branch as written always passes Substring a negative start and fails with an argument error; the corrected rewrite succeeds there |
| ConnectionRules.TruncationBranchExample | src/TDSProxy/TDSConnection.cs:849 | "u@", the address 10.0.0.1 and a 120-character host name reach the fourth branch |
| ConnectionRules.WrappedThenUnwrapped | src/TDSProxy/TDSConnection.cs:291-297 | TLS bytes a client wraps in PRELOGIN packets start with the type byte the adapter peeks for, and the rest unwraps to the same bytes |
| ConnectionRules.Unwrapped | src/TDSProxy/TDSConnection.cs:295-297 | a wrapper read that succeeds has read a whole PRELOGIN message from the stream, and the PreLogin decoder accepted its payload |
| ConnectionRules.Delivered | src/TDSProxy/TDSConnection.cs:258-269 | a read returns count bytes when more are available, and otherwise all of them; it never returns more than count or more than are available, and the rest stays stashed |
| ConnectionRules.UnwrapCopyDiffers | src/TDSProxy/TDSConnection.cs:311 | the copy as written fails exactly when the payload is shorter than the count asked for, and otherwise copies the bytes the read returns |
| ConnectionRules.UnwrapCopyAsWritten | src/TDSProxy/TDSConnection.cs:301-311 | as written: Buffer.BlockCopy of count bytes succeeds exactly when the payload holds count bytes and the buffer has room for them, and then gives the first count bytes of the payload; otherwise an argument error |
| ConnectionRules.UnwrapCopyExample | src/TDSProxy/TDSConnection.cs:301-311 | a 4096-byte read of a wrapper holding one 6-byte TLS record fails as written, where the corrected copy returns the 6 bytes |
| Authentication.SampleAuthenticate | src/SampleAuthenticator/SampleAuthenticator.cs:16-26 | a result is always given; the connection is allowed unless the user name is "baduser" in any case; the proxy connects with the client's own user name, password and database, and displays the user name |
| Authentication.SampleIgnoresAddress | src/SampleAuthenticator/SampleAuthenticator.cs:16-26 | the sample's answer does not depend on the client's address |
| Text.Ascii | src/TDSProxy/TDSConnection.cs:543 | an ASCII literal has as many UTF-16 code units as characters |
| Text.UpperMerges | src/TDSProxy/TDSConnection.cs:543 | folding merges a code unit only with its other case: two code units compare equal exactly when they are equal or are the two cases of one ASCII letter |
| Text.EqualsIgnoreCaseEquivalence | src/SampleAuthenticator/SampleAuthenticator.cs:20 | the case-insensitive comparison is reflexive, symmetric and transitive |
| HandshakeAdapters.ReadWrapper | src/TDSProxy/TDSConnection.cs:295-297 | the result is the SSL payload of the PreLogin message that follows, or the failure of reading or decoding it |
| HandshakeAdapters.HandshakeAdapter.Pending | src/TDSProxy/TDSConnection.cs:107-108 | with nothing stashed, no bytes are pending |
| HandshakeAdapters.HandshakeAdapter.constructor | src/TDSProxy/TDSConnection.cs:110-113 | a new adapter has nothing stashed and reads from and writes to the client's streams |
| HandshakeAdapters.HandshakeAdapter.Read | src/TDSProxy/TDSConnection.cs:245-351 | a read returns at most count bytes and writes nothing outside them; outside the handshake it reads straight through and drops any stash; during the handshake it serves the stash first, and otherwise peeks one byte and either unwraps a PRELOGIN or TABULAR_RESULT wrapper, with the corrected copy (see ConnectionRules.UnwrapCopyExample), or passes the byte through |
| HandshakeAdapters.HandshakeAdapter.ReadStash | src/TDSProxy/TDSConnection.cs:252-275 | the stashed bytes are returned first, as many as fit, and the rest stays stashed |
| HandshakeAdapters.HandshakeAdapter.ReadFresh | src/TDSProxy/TDSConnection.cs:277-334 | with nothing stashed, the end of the stream returns 0, a wrapper type is unwrapped with the corrected copy (see ConnectionRules.UnwrapCopyExample), and any other byte is passed through |
| HandshakeAdapters.HandshakeAdapter.ReadWrapped | src/TDSProxy/TDSConnection.cs:295-319 | with the corrected copy (as written BlockCopy copies the count asked for and throws when fewer bytes come back, see ConnectionRules.UnwrapCopyExample): the wrapper's payload is unwrapped; as much as fits is returned and the rest is stashed, or the failure of reading it is returned |
| HandshakeAdapters.HandshakeAdapter.Unwrap | src/TDSProxy/TDSConnection.cs:300-319 | the corrected copy: as many bytes as Delivered allows are returned, and the returned bytes followed by the stash are exactly the payload |
| HandshakeAdapters.HandshakeAdapter.PassPeeked | src/TDSProxy/TDSConnection.cs:321-334 | a byte that starts no wrapper is returned first, followed by a direct read of up to count − 1 more bytes; a read of zero bytes fails |
| HandshakeAdapters.HandshakeAdapter.Write | src/TDSProxy/TDSConnection.cs:376-392 | during the handshake the bytes go out as the SSL payload of a PreLogin message in TABULAR_RESULT packets; otherwise they go out as they are |
| HandshakeAdapters.CopyInto | src/TDSProxy/TDSConnection.cs:271 | Buffer.BlockCopy puts the bytes at the offset and leaves the rest of the buffer unchanged |
| Forwarding.NextPacket | src/TDSProxy/TDSConnection.cs:875-890 | a packet the reader accepts is a non-empty prefix of what the peer sent |
| Forwarding.TdsPacketIsRead | src/TDSProxy/TDSConnection.cs:875-881 | a TDS packet the reader accepts after its peeked type byte serializes to a prefix of the bytes it was read from |
| Forwarding.SmpPacketIsRead | src/TDSProxy/TDSConnection.cs:883-889 | an SMP packet the reader accepts after its peeked type byte holds a prefix of the bytes it was read from |
| Forwarding.Forward | src/TDSProxy/TDSConnection.cs:863-911 | what the loop forwards is a prefix of what the peer sent |
| Forwarding.ForwardStep | src/TDSProxy/TDSConnection.cs:870-900 | one trip of the loop forwards the next packet and then whatever the rest of the stream forwards |
| Forwarding.NextOfTdsPacket | src/TDSProxy/TDSConnection.cs:875-881 | a well-formed TDS packet at the front of a stream is forwarded as itself |
| Forwarding.NextOfSmpPacket | src/TDSProxy/TDSConnection.cs:883-889 | a valid SMP packet at the front of a stream is forwarded as itself |
| Forwarding.ForwardFrame | src/TDSProxy/TDSConnection.cs:870-900 | a packet the peer sends is forwarded as itself, and forwarding goes on after it |
| Forwarding.ForwardsFrames | src/TDSProxy/TDSConnection.cs:870-900 | packets the peer sends are forwarded byte for byte, and forwarding carries on with whatever follows them |
| Forwarding.ForwardsAll | src/TDSProxy/TDSConnection.cs:863-911 | a peer that sends only well-formed packets and then closes has exactly those bytes forwarded, and the loop stops because the peer closed |
| Forwarding.ForwardPacket | src/TDSProxy/TDSConnection.cs:875-890 | after a known type byte, a packet the reader refuses fails and writes nothing; otherwise the packet is written to the sink and nothing after it is consumed |
| Forwarding.Pump | src/TDSProxy/TDSConnection.cs:863-979 | the loop writes to the sink exactly what Forward gives for the source, and stops for Forward's reason |
| Forwarding.StartsEmpty | src/TDSProxy/TDSConnection.cs:869-870 | before the first packet nothing has been sent |
| Forwarding.StopsHere | src/TDSProxy/TDSConnection.cs:891-899 | where the loop stops, what it has sent is everything forwarding sends |
| Forwarding.GoesOn | src/TDSProxy/TDSConnection.cs:870-900 | forwarding one packet keeps the loop invariant |
| Forwarding.ForwardOne | src/TDSProxy/TDSConnection.cs:872-899 | one turn of the loop either stops, having sent nothing, for the reason forwarding stops there, or consumes input and sends bytes that, followed by what forwarding sends from the rest, are what forwarding sends |
| Forwarding.PeekType | src/TDSProxy/TDSConnection.cs:872-873 | the one-byte read returns the next byte, or nothing at the end of the stream |
| Sessions.FirstPacket | src/TDSProxy/TDSConnection.cs:599-600 | the first packet is the first one TDSPacket.ReadAsync reads, and there is none exactly when that read fails |
| Sessions.PreLoginSentThenRead | src/TDSProxy/TDSConnection.cs:660-676 | a PreLogin the proxy sends is read back as the same options, both as PRELOGIN packets and, with the PreLogin type forced, as TABULAR_RESULT packets |
| Sessions.HandshakeWriteUnwraps | src/TDSProxy/TDSConnection.cs:382-388 | the TLS data the adapter writes during the handshake reads back as TABULAR_RESULT packets whose payloads are the same bytes |
| Sessions.Rewritten | src/TDSProxy/TDSConnection.cs:831-852 | rewriting an admitted login fails exactly when the corrected host-name rule fails |
| Sessions.ForwardedOnlyWhenAdmitted | src/TDSProxy/TDSConnection.cs:538-567 | a login reaches the server only when every check passed, the user is not "sa" and the authenticator admitted it; the login sent carries the authenticator's credentials and database and a TDS version of at most 7.4 and is otherwise the client's; its host name, built by the corrected rule, has at most 128 characters |
| Sessions.RefusalReasons | src/TDSProxy/TDSConnection.cs:538-556 | every refusal names the first check that failed, or the bad credentials the authenticator refused |
| Sessions.SampleRefusesBadUser | src/TDSProxy/TDSConnection.cs:549-555 | with the sample authenticator, a login that passes the checks as "baduser", in any case, is refused as bad credentials |
| Sessions.SampleForwardsOwnCredentials | src/TDSProxy/TDSConnection.cs:549-567 | with the sample authenticator, a forwarded login keeps the client's own user name, password and database, and its host name starts with "user@" whenever "user@" and the address fit in 128 characters |
| Sessions.DenialPayload | src/TDSProxy/TDSConnection.cs:813-826 | the denial payload is the ERROR token written, followed by the DONE token written, for any reason that fits the text's 16-bit count |
| Sessions.DenialPayloadOf | src/TDSProxy/TDSConnection.cs:813-826 | building the denial payload fails only with an argument error, and never for a reason that leaves room for "Login failed. " in the message text's 16-bit count |
| Connections.DisposedClosesOnce | src/TDSProxy/TDSConnection.cs:453-486 | disposing leaves the connection Closed with its streams torn down, and disposing again changes nothing |
| Connections.WritePreLogin | src/TDSProxy/TDSConnection.cs:660 | a PreLogin is written as the packets of its generated payload, as PRELOGIN packets or, when overridden, as TABULAR_RESULT packets; the write fails exactly when the payload cannot be generated |
| Connections.PreLoginFrom | src/TDSProxy/TDSConnection.cs:601-602 | a PreLogin message is built from the packets exactly when they hold a PreLogin message, and it carries that message's options |
| Connections.ReadPreLogin | src/TDSProxy/TDSConnection.cs:599-602 | the first packet's SPID is remembered when a packet was read, and a PreLogin message is returned exactly when the stream's first message is one |
| Connections.OpenAppend | src/TDSProxy/TDSConnection.cs:902-903 | events that close nothing still close nothing when joined |
| Connections.Login7From | src/TDSProxy/TDSConnection.cs:725-727 | a Login7 message is built from the packets exactly when they hold a Login7 message, and it carries that login |
| Connections.DenialMessage | src/TDSProxy/TDSConnection.cs:813-826 | the denial message holds a fresh ERROR token and then a DONE token, and its payload is the denial payload whenever that can be generated |
| Connections.DenialTokensMessage | src/TDSProxy/TDSConnection.cs:814-825 | a fresh tabular-data message owning fresh tokens, exactly the denial's ERROR and DONE tokens, with no payload yet |
| Connections.Rewrite | src/TDSProxy/TDSConnection.cs:831-852 | the login is changed into its rewrite, with its stored payload dropped, or an argument error is returned when the host name cannot be built |
| Connections.WriteLogin7 | src/TDSProxy/TDSConnection.cs:578 | a Login7 is written as LOGIN7 packets of its stored payload, or of its generated payload when none is stored |
| Connections.WriteTabular | src/TDSProxy/TDSConnection.cs:828-829 | a token-stream message is written as TABULAR_RESULT packets of its payload |
| Connections.Connection.constructor | src/TDSProxy/TDSConnection.cs:402-430 | a new connection is in the PreLogin state with the default packet length, encryption Off, SPID 0 and no events, and keeps the settings and streams it is given |
| Connections.Connection.Enter | src/TDSProxy/TDSConnection.cs:513 | moving on to a later state records it and changes nothing else |
| Connections.Connection.Close | src/TDSProxy/TDSConnection.cs:448-486 | closing does what disposing does: an open connection becomes Closed and its streams are torn down once; a closed one is left alone |
| Connections.Connection.ReadPreLoginFromClient | src/TDSProxy/TDSConnection.cs:595-648 | the SPID of the client's first packet is remembered; its PreLogin is kept exactly when it has an encryption option other than NOT_SUPPORTED; a NOT_SUPPORTED client is sent its PreLogin back with encryption REQUIRED; nothing else is written |
| Connections.Connection.CheckClientPreLogin | src/TDSProxy/TDSConnection.cs:610-624 | the PreLogin is kept exactly when the verdict is to proceed; a NOT_SUPPORTED client is answered with REQUIRED, and nothing is written otherwise |
| Connections.Connection.ProcessAndForwardPreLogin | src/TDSProxy/TDSConnection.cs:650-661 | the encryption offered to the client is decided from the client's request, and the server is sent the client's PreLogin with encryption NOT_SUPPORTED |
| Connections.Connection.ReadPreLoginResponseFromServer | src/TDSProxy/TDSConnection.cs:663-708 | the SPID of the server's first packet and the server's software version are remembered; its answer is kept exactly when it is a PreLogin in TABULAR_RESULT packets that carries a version and does not require encryption |
| Connections.Connection.ProcessAndForwardPreLoginResponse | src/TDSProxy/TDSConnection.cs:710-716 | the client is sent the server's answer, as TABULAR_RESULT packets, with the encryption decided for the client |
| Connections.Connection.ReadLogin7FromClient | src/TDSProxy/TDSConnection.cs:718-792 | the client's Login7 is read from its TLS stream; when one is decoded it is recorded, with its packet length (negotiated) and TDS version; it is kept exactly when no check refuses it, and a refused one is answered with the denial for the first failing check |
| Connections.Connection.CheckLogin7 | src/TDSProxy/TDSConnection.cs:733-768 | the negotiated packet length and the client's TDS version are recorded; the login is admitted exactly when no check refuses it, and otherwise the denial for the first failing check is sent |
| Connections.Connection.SendLogin7DeniedResponse | src/TDSProxy/TDSConnection.cs:794-829 | the denial is sent in TABULAR_RESULT packets at the TDS version presumed for the server, on the client's socket when encryption is Off and on its TLS stream otherwise, and fails exactly when the payload cannot be generated |
| Connections.Connection.ProcessAndForwardLogin7 | src/TDSProxy/TDSConnection.cs:831-854 | the server is sent the rewrite of the client's login as LOGIN7 packets, and the login is recorded as forwarded; a host name that cannot be built stops it before anything is written |
| Connections.Connection.ForwardOutsideToInside | src/TDSProxy/TDSConnection.cs:863-911 | the server is sent exactly what forwarding the client's stream gives; a client that closes has the shutdowns recorded, an unknown packet type closes the connection, and a packet that cannot be read fails; a closed connection forwards nothing |
| Connections.Connection.ForwardInsideToOutside | src/TDSProxy/TDSConnection.cs:913-979 | the client, on its socket or its TLS stream as encryption says, is sent exactly what forwarding the server's stream gives; the other client stream is left alone; it stops as the other direction does |
| Connections.Connection.Stopped | src/TDSProxy/TDSConnection.cs:891-909 | how a forwarding loop ends: a peer that closed the stream has the given socket shutdowns recorded, an unexpected packet type disposes the connection and records it closed, and a read that failed fails with its error; the settings and logins are kept |
| Connections.WriteWithEncryption | src/TDSProxy/TDSConnection.cs:658-660 | the PreLogin has its encryption option replaced by the given value, nothing else of its fields changed, and the stream is sent exactly that PreLogin's generated payload as one packet |
| Connections.Connection.Connected | src/TDSProxy/TDSConnection.cs:856-861 | the server gets what forwarding the client gives and, unless that met an unknown packet type and closed the connection, the client gets what forwarding the server gives |
| Connections.Connection.ExchangePreLogin | src/TDSProxy/TDSConnection.cs:492-510 | when PreLogin goes through, the client has been offered encryption other than NOT_SUPPORTED, and always ON or REQUIRED unless unencrypted connections are allowed |
| Connections.Connection.RelayClientPreLogin | src/TDSProxy/TDSConnection.cs:492-497 | when the client's PreLogin is forwarded, the client has been offered encryption other than NOT_SUPPORTED, and ON or REQUIRED unless unencrypted connections are allowed |
| Connections.Connection.RelayServerPreLogin | src/TDSProxy/TDSConnection.cs:499-510 | relaying the server's answer leaves the encryption decided for the client unchanged |
| Connections.Connection.LoginPhase | src/TDSProxy/TDSConnection.cs:525-579 | only a Login7 the rules allow reaches the server; the Login state is entered exactly when login processing is on |
| Connections.Connection.ProcessLogin7 | src/TDSProxy/TDSConnection.cs:527-567 | once a Login7 is decoded, the outcome follows the login decision: a refusal is answered with its denial, "sa" and a host name that cannot be built stop silently, and only an admitted login's rewrite is forwarded; with no Login7 nothing is forwarded |
| Connections.Connection.AuthenticateAndForward | src/TDSProxy/TDSConnection.cs:543-567 | after the checks, the outcome follows the login decision: a refusal is answered with its denial, "sa" and a failed host name stop silently, and only the admitted login's rewrite is forwarded |
| Connections.Connection.RelayLogin7 | src/TDSProxy/TDSConnection.cs:569-579 | with login processing skipped, the client's login reaches the server only when it passed the checks, and nothing is written to the server otherwise |
| Connections.Connection.ForwardLogin7 | src/TDSProxy/TDSConnection.cs:570-578 | a login that passed the checks is written to the server, with the payload it was read from or, when the FeatureExt setter discarded that payload, the one generated from its properties; it counts as forwarded exactly when it could be written |
| Connections.Connection.ProcessConnection | src/TDSProxy/TDSConnection.cs:488-593 | the connection always ends Closed with its streams torn down; every Login7 the proxy itself writes to the server passed every check and is either the client's own (login processing skipped, client encryption Off) or the rewrite of one the authenticator admitted; none is written without a successful TLS handshake. With login processing skipped and the client's encryption not Off, the proxy relays at once and the client's Login7 reaches the server inside the relayed bytes unchecked; this property does not speak of it |

## Left out

- Concurrency: the two forwarding directions run together in the source (Task.WhenAll, src/TDSProxy/TDSConnection.cs:856-861). Connections.Connection.Connected runs the client-to-server loop to its end and then the server-to-client loop. Interleavings, and a direction stopping because the other closed a stream, are not modelled.
- The 30-second cancellation of the Login7 read (src/TDSProxy/TDSConnection.cs:721-723) is not modelled, since the model has no clock. A client that never sends its Login7 is a stream that ends.
- TLS: SslStream is an external engine. The session is modelled as the streams sslIn and sslOut. Whether AuthenticateAsServerAsync succeeds is the boolean handshakeSucceeds, which the connection is given. The handshake records go through HandshakeAdapters.HandshakeAdapter, which is modelled in full.
- Connections.Connection.ForwardInsideToOutside: when the client's stream is TLS, the source starts a flush after every packet and waits for it before the next write (src/TDSProxy/TDSConnection.cs:932-936, 961-964). The model records only the final flush (FlushOutsideSsl). The bytes the client receives are the same.
- Socket half-closes, stream closes and disposal are recorded as events in Connections.Connection.events, not performed. The ObjectDisposedException filters after a close (src/TDSProxy/TDSConnection.cs:638, 905, 973) appear as the Closed state.
- Logging, the hex dumps and DumpReceivedPayload are out of scope as output only. So is the Login7 dump to a file on a length mismatch (src/TDSProtocol/TDSLogin7Message.cs:913-923), which is driven by configuration.
- Connections and Sessions compose the corrected rules listed under "## Findings": the corrected host name, the corrected adapter copy, the 32-byte Nonce declaration, the five-byte option check, the EnvChange writer in the reader's order and the SMP truncation error. In the program, a login reaching the host-name branches 2 or 4, a Nonce-carrying PreLogin, or a short handshake read ends the connection with an exception instead. Each such divergence is exhibited by its as-written member.
- Sessions.ForwardedOnlyWhenAdmitted: its bound |hostName| ≤ 128 is a property of the corrected rule ConnectionRules.HostName; the host name rule as written (ConnectionRules.HostNameAsWritten) can exceed it (ConnectionRules.SuffixBranchExample).
- DoneTokens.ParseBody: TDSDoneToken.cs has no ReadFromBinaryReader override, although the method is abstract in TDSToken.cs:60, so the class as shown does not compile. The model reads a DONE body with the exact inverse of its writer, and DoneTokens.ParseBodyAsWritten is the reader as declared. Token streams that end at a DONE token (src/TDSProtocol/TDSTokenStreamMessage.cs:129) depend on the inverse reader.
- Login7Proofs.RoundTrip: the round trip is proved for messages satisfying Login7Proofs.Encodable. These exclusions are the code's own behaviour, followed as written. The writer reserves the Language slot but never writes its data (src/TDSProtocol/TDSLogin7Message.cs:647-660). An SSPI block of exactly 0xFFFF bytes is written with a short length of 0xFFFF, which the reader takes as "see cbSSPILong", while cbSSPILong is written only above 0xFFFF. ReadObfuscatedPassword is given ChangePassword's offset but reads from the current position (src/TDSProtocol/BinaryReaderExtensions.cs:45-54), so ChangePassword is read from the wrong place when AttachDBFile is empty and SSPI is not.
- Token lengths, followed as written:
  - LoginAckTokens.ParseBody: the LOGINACK Length property counts characters, and the reader skips Length minus it, so a byte-counted length skips past the body (LoginAckTokens.ByteCountedLengthOvershoots).
  - MessageTokens.ParseBody: ERROR and INFO decide the LineNumber width by TdsVersion ≥ 0x7200000 (src/TDSProtocol/TDSMessageToken.cs:144, 169), and the reader reports length + 3 bytes read (:197).
  - FeatureExtAckTokens.ParseBody: counts len + 3 for each feature (src/TDSProtocol/TDSFeatureExtAckToken.cs:97).
  These values are stamped into the tokens' received length and offsets as the code computes them (Tokens.ReceivedLengthOfWritten); no claim is made about what they should have been.
- DoneTokens: the row count is written as 64 bits from TDS 7.2 on and as 32 bits before, as TDSDoneToken.cs does.
- The proxy never reads the server's answer to the forwarded Login7. It goes straight to forwarding, as TDSConnection.cs:567-583 does, so no LOGINACK check is modelled.
- Smp: the SMP packet types that SMPPacket.IsSMPPacketType accepts are a parameter (smpTypes), since the SmpPacketType enumeration is not part of this model.
- Hosting, the listener, the Windows service, configuration binding (TDSProxyService.cs, TDSListener.cs, Program.cs, Configuration/*.cs) and certificate lookup are not part of this model. SkipLoginProcessing and AllowUnencryptedConnections are plain booleans of the connection.
- The message and token registries built by reflection (TDSMessage.cs, TDSToken.cs) are static tables: Messages and Tokens.RegistryKeys.
- The legacy top-level TDSProtocol/ and TDSProxy/ trees are superseded revisions of the src/ code and are not modelled.
- The APM shims of the adapter (BeginRead, EndRead and TaskAsyncResult, src/TDSProxy/TDSConnection.cs:68-237) and the synchronous Read and Write wrappers only delegate to ReadAsync and WriteAsync, which are modelled.
- Wire.DecodeUnicodeBytes, Wire.UnicodeBytesDecode: the model's UTF-16LE encoder and decoder map each code unit to its two bytes and back. .NET's Encoding.Unicode, used by src/TDSProtocol/BinaryWriterExtensions.cs:32-36 and src/TDSProtocol/BinaryReaderExtensions.cs:34-37, replaces an unpaired surrogate with U+FFFD, so both round trips describe the source only for well-formed UTF-16 text.
- Connections.Connection.ProcessConnection: with login processing skipped and the client's encryption not Off, the source calls Connected() at once (src/TDSProxy/TDSConnection.cs:567-587), and the client's Login7 reaches the server inside the relayed bytes without any check. The property covers only the Login7 messages the proxy writes itself.
- TdsPacket.WriteMessage, TdsPacket.OutgoingPackets: require a packet length above the 8-byte header. At exactly 8 the source's loop (src/TDSProtocol/TDSPacket.cs:86-92) never advances, and below 8 each chunk length is negative. Every caller passes a length that ConnectionRules.NegotiatedPacketLength has clamped to at least 512, or the 4096 default.
- PreLogin.TraceIdData: a TraceId always carries its ActivityId bytes. In the source an ActivityId that was never set is null, and writing the TraceId then throws ArgumentNullException (src/TDSProtocol/TDSPreLoginMessage.cs:409-411). The setter (:164-175) rejects null, so only that never-set case is left out.
- PreLoginMessages.PreLoginMessage.GeneratePayload: a failed generation leaves the partly written, zero-padded array as the payload, as the source does (src/TDSProtocol/TDSPreLoginMessage.cs:388). Sending that message again would transmit the array, since Messages.EnsurePayload then finds a payload present and keeps it.
- Strings are sequences of UTF-16 code units. Text.EqualsIgnoreCase folds ASCII letters only. It agrees with ordinal ignore-case comparison wherever one side is an ASCII literal, as in every use here ("sa", "baduser").

## Findings

| source | as written | input that shows it | evidently intended | confidence | as-written member | corrected member |
|---|---|---|---|---|---|---|
| src/TDSProxy/TDSConnection.cs:841-843 | when "user@" and the address overflow, the host name keeps the suffix of "user@" from 124 − \|ip\| onward, so it grows with the user name | a 300-character "user@" with the address 10.0.0.1 gives a 196-character host name | at most 128 characters: the tail of "user@" cut to fit before "...@" and the address | not executed | ConnectionRules.SuffixBranchExample | ConnectionRules.HostName |
| src/TDSProxy/TDSConnection.cs:847-849 | the host name is cut with Substring(122 − (\|user@\| + \|host\| + \|ip\|)), a start that is always negative in that branch, so Substring throws | user "u", address 10.0.0.1 and a 120-character host name | the host name truncated so that the whole is 128 characters | not executed | ConnectionRules.TruncationBranchExample | ConnectionRules.HostName |
| src/TDSProxy/TDSConnection.cs:311 | the unwrapped payload is copied with Buffer.BlockCopy(payload, 0, buffer, offset, count), count being the bytes asked for | a 4096-byte read while the client's wrapper holds one 6-byte TLS record: BlockCopy throws | copy the bytes actually returned, stashing the rest | not executed | ConnectionRules.UnwrapCopyExample | HandshakeAdapters.HandshakeAdapter.Unwrap |
| src/TDSProtocol/TDSPreLoginMessage.cs:377-378 | the Nonce option is declared with length 1 but its 32 bytes are written into the buffer sized from the declarations | any PreLogin with a Nonce: writing overruns the fixed-size buffer and throws NotSupportedException | declare the Nonce with length 32 | not executed | PreLogin.NonceOverrunsAsWritten | PreLogin.GeneratedPayloadRoundTrip |
| src/TDSProtocol/TDSPreLoginMessage.cs:323 | an option row is rejected when Position + 3 > Length, though a row takes five bytes | the payload 00 00 05 00 reads past its end (IndexOutOfRange) | reject a short row as an invalid message | not executed | PreLogin.ShortOptionAsWritten | PreLogin.ReadOption |
| src/TDSProtocol/TDSEnvChangeToken.cs:165-166 | the writer puts OldValue before NewValue, while the reader takes NewValue first | a Database change from "A" to "B" reads back as a change from "B" to "A" | write NewValue, then OldValue, as the reader and the protocol expect | not executed | EnvChangeTokens.SwappedExample | EnvChangeTokens.RoundTrip |
| src/TDSProtocol/SMPPacket.cs:133-136 | a payload cut short raises SSLInvalidPacketException with the whole zero-padded buffer and HeaderLength + packetBytesRead, though packetBytesRead already counts the header | a 40-byte SMP packet cut after 20 bytes is reported as 36 bytes, 16 of them never read; one of 36 cut after 26 throws ArgumentException | carry exactly the bytes read | not executed | Smp.TruncatedPayloadAsWritten | Smp.TruncatedCarriesBytesRead |
| src/TDSProtocol/TDSDoneToken.cs:9-77 | the DONE token overrides only the writer, leaving TDSToken.ReadFromBinaryReader (src/TDSProtocol/TDSToken.cs:60) without a body | any DONE token the server sends cannot be read | a reader that inverts WriteBodyToBinaryWriter | not executed | DoneTokens.NoReaderAsWritten | DoneTokens.RoundTrip |
