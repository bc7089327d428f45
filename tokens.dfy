/**
 * A token of a tabular-result stream (MS-TDS section 2.2.7): its one-byte
 * id, then its body. The library knows six tokens, found through a
 * registry keyed by id: ERROR and INFO (which share the message-token
 * body), LOGINACK, FEATUREEXTACK, ENVCHANGE and DONE.
 *
 * Reading a token reads the id, looks it up and reads the body; every
 * failure after the id byte, an unknown id among them, is reported as an
 * invalid message, while running out of data on the id byte itself is
 * not caught there. The token records the offset it was read at and, as
 * its received length, one plus the count its body reader returns.
 */
module Tokens {
  import opened Wire
  import opened Io
  import MessageTokens
  import LoginAckTokens
  import EnvChangeTokens
  import FeatureExtAckTokens
  import DoneTokens

  // TDSTokenType, for the tokens in the registry.
  const ErrorId: byte := 0xAA
  const InfoId: byte := 0xAB
  const LoginAckId: byte := 0xAD
  const FeatureExtAckId: byte := 0xAE
  const EnvChangeId: byte := 0xE3
  const DoneId: byte := 0xFD

  /** The token classes, each with the fields it carries. */
  datatype TokenBody =
    | ErrorToken(message: MessageTokens.MessageFields)
    | InfoToken(message: MessageTokens.MessageFields)
    | LoginAck(loginAck: LoginAckTokens.LoginAckFields)
    | EnvChange(envChange: EnvChangeTokens.EnvChangeFields)
    | FeatureExtAck(featureAckOpts: seq<FeatureExtAckTokens.FeatureAckOpt>)
    | Done(done: DoneTokens.DoneFields)

  /** TokenId, which each token class fixes. */
  function TokenId(t: TokenBody): byte
  {
    match t
    case ErrorToken(_) => ErrorId
    case InfoToken(_) => InfoId
    case LoginAck(_) => LoginAckId
    case EnvChange(_) => EnvChangeId
    case FeatureExtAck(_) => FeatureExtAckId
    case Done(_) => DoneId
  }

  /** The ids the registry has a constructor for. */
  predicate Registered(id: byte)
  {
    id in {ErrorId, InfoId, LoginAckId, FeatureExtAckId, EnvChangeId, DoneId}
  }

  /** The registry is keyed by token id: an id is registered exactly when some token class has it. */
  lemma RegistryKeys(id: byte)
    ensures Registered(id) <==> exists t: TokenBody :: TokenId(t) == id
  {
    if Registered(id) {
      var m := MessageTokens.MessageFields(0, 0, 0, [], [], [], 0);
      var t :=
        if id == ErrorId then ErrorToken(m)
        else if id == InfoId then InfoToken(m)
        else if id == LoginAckId then LoginAck(LoginAckTokens.LoginAckFields(0, 0, [], LoginAckTokens.ProgVersion(0, 0, 0, 0)))
        else if id == FeatureExtAckId then FeatureExtAck([])
        else if id == EnvChangeId then EnvChange(EnvChangeTokens.Initial)
        else Done(DoneTokens.DoneFields(0, 0, 0));
      assert TokenId(t) == id;
    }
  }

  // ---------------------------------------------------------------------
  // Writing
  // ---------------------------------------------------------------------

  /** The tokens whose writer does not reject a string too long for its count. */
  predicate Writable(t: TokenBody)
  {
    match t
    case ErrorToken(m) => MessageTokens.Writable(m)
    case InfoToken(m) => MessageTokens.Writable(m)
    case LoginAck(f) => |f.progName| <= 0xFF
    case _ => true
  }

  /** WriteBodyToBinaryWriter of the token's class, as the bytes it writes. */
  function EncodeBody(version: u32, t: TokenBody): (r: Result<bytes>)
    ensures r.Ok? <==> Writable(t)
    ensures r.Err? ==> r.error == Argument
  {
    match t
    case ErrorToken(m) => MessageTokens.EncodeBody(version, m)
    case InfoToken(m) => MessageTokens.EncodeBody(version, m)
    case LoginAck(f) => LoginAckTokens.EncodeBody(f)
    case EnvChange(e) => Ok(EnvChangeTokens.EncodeBody(e))
    case FeatureExtAck(opts) => Ok(FeatureExtAckTokens.EncodeBody(opts))
    case Done(d) => Ok(DoneTokens.EncodeBody(version, d))
  }

  /** WriteToBinaryWriter: the id byte, then the body. */
  function Encode(version: u32, t: TokenBody): (r: Result<bytes>)
    ensures r.Ok? <==> Writable(t)
    ensures r.Err? ==> r.error == Argument
    ensures r.Ok? ==> |r.value| > 0 && r.value[0] == TokenId(t) && r.value[1..] == EncodeBody(version, t).value
  {
    var body :- EncodeBody(version, t);
    Ok([TokenId(t)] + body)
  }

  // ---------------------------------------------------------------------
  // Reading
  // ---------------------------------------------------------------------

  /** A token as read: its fields, the offset it was read at and its received length. */
  datatype Received = Received(body: TokenBody, receivedOffset: int, receivedLength: int)

  /** The body reader of the class registered for id. */
  function ParseBody(version: u32, id: byte, data: bytes, pos: nat): (r: Result<Parsed<TokenBody>>)
    requires Registered(id)
    ensures r.Ok? ==> TokenId(r.value.value) == id && r.value.next > pos
  {
    if id == ErrorId then AsError(MessageTokens.ParseBody(version, data, pos))
    else if id == InfoId then AsInfo(MessageTokens.ParseBody(version, data, pos))
    else if id == LoginAckId then AsLoginAck(LoginAckTokens.ParseBody(data, pos))
    else if id == FeatureExtAckId then
      var r := FeatureExtAckTokens.ParseBody(data, pos);
      if r.Ok? then FeatureExtAckTokens.ParseShape(data, pos); AsFeatureExtAck(r) else AsFeatureExtAck(r)
    else if id == EnvChangeId then AsEnvChange(EnvChangeTokens.ParseBody(data, pos))
    else AsDone(DoneTokens.ParseBody(version, data, pos))
  }

  // A body reader's result as a token of its class.

  function AsError(r: Result<Parsed<MessageTokens.MessageFields>>): Result<Parsed<TokenBody>>
  {
    if r.Err? then Err(r.error) else Ok(Parsed(ErrorToken(r.value.value), r.value.count, r.value.next))
  }

  function AsInfo(r: Result<Parsed<MessageTokens.MessageFields>>): Result<Parsed<TokenBody>>
  {
    if r.Err? then Err(r.error) else Ok(Parsed(InfoToken(r.value.value), r.value.count, r.value.next))
  }

  function AsLoginAck(r: Result<Parsed<LoginAckTokens.LoginAckFields>>): Result<Parsed<TokenBody>>
  {
    if r.Err? then Err(r.error) else Ok(Parsed(LoginAck(r.value.value), r.value.count, r.value.next))
  }

  function AsFeatureExtAck(r: Result<Parsed<seq<FeatureExtAckTokens.FeatureAckOpt>>>): Result<Parsed<TokenBody>>
  {
    if r.Err? then Err(r.error) else Ok(Parsed(FeatureExtAck(r.value.value), r.value.count, r.value.next))
  }

  function AsEnvChange(r: Result<Parsed<EnvChangeTokens.EnvChangeFields>>): Result<Parsed<TokenBody>>
  {
    if r.Err? then Err(r.error) else Ok(Parsed(EnvChange(r.value.value), r.value.count, r.value.next))
  }

  function AsDone(r: Result<Parsed<DoneTokens.DoneFields>>): Result<Parsed<TokenBody>>
  {
    if r.Err? then Err(r.error) else Ok(Parsed(Done(r.value.value), r.value.count, r.value.next))
  }

  /**
   * ReadFromBinaryReader: the id byte (its end of stream escapes as it
   * is), then inside the catch the registry lookup and the body, any
   * failure there becoming an invalid message. The token read is
   * stamped with the offset given and one plus its body's count.
   */
  function ParseToken(version: u32, data: bytes, pos: nat, offset: int): (r: Result<Parsed<Received>>)
    ensures r.Err? ==> (r.error == EndOfStream <==> pos >= |data|)
    ensures r.Err? ==> r.error == EndOfStream || r.error == InvalidMessage
    ensures pos < |data| && !Registered(data[pos]) ==> r == Err(InvalidMessage)
    ensures r.Ok? ==> pos < |data| && TokenId(r.value.value.body) == data[pos]
    ensures r.Ok? ==> r.value.value.receivedOffset == offset && r.value.value.receivedLength == r.value.count
    ensures r.Ok? ==> r.value.count >= 1 && r.value.next > pos + 1
  {
    var id :- GetByte(data, pos);
    if !Registered(id) then Err(InvalidMessage)
    else
      var b := ParseBody(version, id, data, pos + 1);
      if b.Err? then Err(InvalidMessage)
      else Ok(Parsed(Received(b.value.value, offset, 1 + b.value.count), 1 + b.value.count, b.value.next))
  }

  // ---------------------------------------------------------------------
  // Round trip
  // ---------------------------------------------------------------------

  /** The data a stored ENVCHANGE value carries after its prefix. */
  function ValueData(fm: EnvChangeTokens.ValueFormat, v: bytes): bytes
  {
    if fm.prefixWidth <= |v| then v[fm.prefixWidth..] else []
  }

  /** The ENVCHANGE token holds values in its type's format, ready to be written. */
  predicate EnvChangeReadable(e: EnvChangeTokens.EnvChangeFields)
  {
    var fm := EnvChangeTokens.FormatOf(e.envType);
    fm.Some? && EnvChangeTokens.WellFormed(e, fm.value, ValueData(fm.value, e.oldValue), ValueData(fm.value, e.newValue))
  }

  /** The tokens whose body reader takes back exactly what the body writer wrote. */
  predicate RoundTrips(version: u32, t: TokenBody)
  {
    match t
    case ErrorToken(m) => MessageTokens.Writable(m) && MessageTokens.LengthFits(version, m)
    case InfoToken(m) => MessageTokens.Writable(m) && MessageTokens.LengthFits(version, m)
    case LoginAck(f) => |f.progName| <= 0xFF
    case EnvChange(e) => EnvChangeReadable(e)
    case FeatureExtAck(opts) => FeatureExtAckTokens.NoTerminator(opts) && FeatureExtAckTokens.Sized(opts)
    case Done(_) => true
  }

  /**
   * What the reader makes of a written token: a line number or row count
   * cut to the version's width, the ENVCHANGE length remembered, the
   * FEATUREEXTACK list closed by its terminator entry.
   */
  function AsRead(version: u32, t: TokenBody): TokenBody
  {
    match t
    case ErrorToken(m) => ErrorToken(MessageTokens.FieldsAsRead(version, m))
    case InfoToken(m) => InfoToken(MessageTokens.FieldsAsRead(version, m))
    case LoginAck(f) => t
    case EnvChange(e) => EnvChange(e.(cachedLength := Some(EnvChangeTokens.Length(e))))
    case FeatureExtAck(opts) => FeatureExtAck(opts + [FeatureExtAckTokens.TerminatorOpt])
    case Done(d) => Done(DoneTokens.FieldsAsRead(version, d))
  }

  /** The count the body reader reports for a written token. */
  function BodyCount(version: u32, t: TokenBody): nat
  {
    match t
    case ErrorToken(m) => MessageTokens.DeclaredLength(version, m) + 3
    case InfoToken(m) => MessageTokens.DeclaredLength(version, m) + 3
    case LoginAck(f) => LoginAckTokens.Length(f) + 2
    case EnvChange(e) => EnvChangeTokens.Length(e) as nat + 2
    case FeatureExtAck(opts) => FeatureExtAckTokens.AckCount(opts) + 1
    case Done(_) => DoneTokens.BodyLength(version)
  }

  // The registry sends each id to its own class's reader. With the round
  // trip of each body module (MessageTokens.RoundTrip and the others) and
  // the stamping ParseToken states, these give the round trip of a whole
  // written token.

  /** The ERROR id reads a message-token body. */
  lemma ReadsError(version: u32, data: bytes, pos: nat)
    ensures ParseBody(version, ErrorId, data, pos) == AsError(MessageTokens.ParseBody(version, data, pos))
  {
  }

  /** The INFO id reads a message-token body too. */
  lemma ReadsInfo(version: u32, data: bytes, pos: nat)
    ensures ParseBody(version, InfoId, data, pos) == AsInfo(MessageTokens.ParseBody(version, data, pos))
  {
  }

  /** The LOGINACK id reads a LOGINACK body. */
  lemma ReadsLoginAck(version: u32, data: bytes, pos: nat)
    ensures ParseBody(version, LoginAckId, data, pos) == AsLoginAck(LoginAckTokens.ParseBody(data, pos))
  {
  }

  /** The ENVCHANGE id reads an ENVCHANGE body. */
  lemma ReadsEnvChange(version: u32, data: bytes, pos: nat)
    ensures ParseBody(version, EnvChangeId, data, pos) == AsEnvChange(EnvChangeTokens.ParseBody(data, pos))
  {
  }

  /** The FEATUREEXTACK id reads a FEATUREEXTACK body. */
  lemma ReadsFeatureExtAck(version: u32, data: bytes, pos: nat)
    ensures ParseBody(version, FeatureExtAckId, data, pos) == AsFeatureExtAck(FeatureExtAckTokens.ParseBody(data, pos))
  {
  }

  /** The DONE id reads a DONE body at the version's row-count width. */
  lemma ReadsDone(version: u32, data: bytes, pos: nat)
    ensures ParseBody(version, DoneId, data, pos) == AsDone(DoneTokens.ParseBody(version, data, pos))
  {
  }

  /**
   * The received length of a written token against the bytes it takes:
   * exact for ENVCHANGE and DONE, one more for ERROR and INFO at
   * versions whose two line-number tests agree, and short by the program
   * name's character count for LOGINACK and by two per feature for
   * FEATUREEXTACK.
   */
  lemma ReceivedLengthOfWritten(version: u32, t: TokenBody)
    requires RoundTrips(version, t)
    ensures var n := |Encode(version, t).value|;
      match t
      case ErrorToken(m) => 1 + BodyCount(version, t) == n + 1 + MessageTokens.AssumedLineWidth(version) - MessageTokens.LineWidth(version)
      case InfoToken(m) => 1 + BodyCount(version, t) == n + 1 + MessageTokens.AssumedLineWidth(version) - MessageTokens.LineWidth(version)
      case LoginAck(f) => 1 + BodyCount(version, t) + |f.progName| == n
      case EnvChange(_) => 1 + BodyCount(version, t) == n
      case FeatureExtAck(opts) => 1 + BodyCount(version, t) + 2 * |opts| == n
      case Done(_) => 1 + BodyCount(version, t) == n
  {
    var body := EncodeBody(version, t).value;
    var data := body;
    assert data[0..] == body + [];
    match t
    case ErrorToken(m) =>
      MessageTokens.RoundTrip(version, m, data, 0, [], |body|);
    case InfoToken(m) =>
      MessageTokens.RoundTrip(version, m, data, 0, [], |body|);
    case LoginAck(f) =>
      LoginAckTokens.RoundTrip(f, data, 0, []);
    case EnvChange(e) =>
      assert EnvChangeTokens.Length(e) == 1 + |e.newValue| + |e.oldValue|;
    case FeatureExtAck(opts) =>
      FeatureExtAckTokens.CountFallsShort(opts);
    case Done(d) =>
  }

  // ---------------------------------------------------------------------
  // The writer and the reader
  // ---------------------------------------------------------------------

  /** The body writer of the token's class. */
  method WriteBody(w: Writer, version: u32, t: TokenBody) returns (r: Result<()>)
    modifies w
    ensures r == (if Writable(t) then Ok(()) else Err(Argument))
    ensures r.Ok? ==> w.written == old(w.written) + EncodeBody(version, t).value
  {
    match t
    case ErrorToken(m) =>
      r := MessageTokens.WriteBody(w, version, m);
    case InfoToken(m) =>
      r := MessageTokens.WriteBody(w, version, m);
    case LoginAck(f) =>
      r := LoginAckTokens.WriteBody(w, f);
    case EnvChange(e) =>
      EnvChangeTokens.WriteBody(w, e);
      r := Ok(());
    case FeatureExtAck(opts) =>
      FeatureExtAckTokens.WriteBody(w, opts);
      r := Ok(());
    case Done(d) =>
      DoneTokens.WriteBody(w, version, d);
      r := Ok(());
  }

  /** WriteToBinaryWriter: the id byte, then the body. */
  method WriteToken(w: Writer, version: u32, t: TokenBody) returns (r: Result<()>)
    modifies w
    ensures r == (if Writable(t) then Ok(()) else Err(Argument))
    ensures r.Ok? ==> w.written == old(w.written) + Encode(version, t).value
  {
    ghost var o := w.written;
    w.WriteByte(TokenId(t));
    r := WriteBody(w, version, t);
    if r.Ok? {
      Assoc(o, [TokenId(t)], EncodeBody(version, t).value);
    }
  }

  /** The body reader of the class registered for id. */
  method ReadBody(rd: Reader, version: u32, id: byte) returns (r: Result<Parsed<TokenBody>>)
    requires Registered(id)
    modifies rd
    ensures r == ParseBody(version, id, rd.data, old(rd.pos))
    ensures r.Ok? ==> rd.pos == r.value.next
  {
    if id == ErrorId {
      var p := MessageTokens.ReadBody(rd, version);
      r := AsError(p);
    } else if id == InfoId {
      var p := MessageTokens.ReadBody(rd, version);
      r := AsInfo(p);
    } else if id == LoginAckId {
      var p := LoginAckTokens.ReadBody(rd);
      r := AsLoginAck(p);
    } else if id == FeatureExtAckId {
      var p := FeatureExtAckTokens.ReadBody(rd);
      r := AsFeatureExtAck(p);
    } else if id == EnvChangeId {
      var p := EnvChangeTokens.ReadBody(rd);
      r := AsEnvChange(p);
    } else {
      var p := DoneTokens.ReadBody(rd, version);
      r := AsDone(p);
    }
  }

  /** ReadFromBinaryReader, from the reader's position. */
  method ReadToken(rd: Reader, version: u32, offset: int) returns (r: Result<Parsed<Received>>)
    modifies rd
    ensures r == ParseToken(version, rd.data, old(rd.pos), offset)
    ensures r.Ok? ==> rd.pos == r.value.next
  {
    var id :- rd.ReadByte();
    if !Registered(id) {
      return Err(InvalidMessage);
    }
    var b := ReadBody(rd, version, id);
    if b.Err? {
      return Err(InvalidMessage);
    }
    r := Ok(Parsed(Received(b.value.value, offset, 1 + b.value.count), 1 + b.value.count, b.value.next));
  }
}
