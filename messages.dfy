/**
 * TDSMessage: the registry of concrete message classes keyed by their
 * MessageType, building a message from the packets that carried it
 * (payloads concatenated, then the class's InterpretPayload), the lazy
 * payload cache, and writing a message as packets.
 */
module Messages {
  import opened Wire
  import opened Streams
  import TdsPacket
  import PreLogin
  import PreLoginMessages
  import Login7
  import Login7Messages
  import TokenStreams

  /** The concrete classes of TDSMessage: TDSPreLoginMessage, TDSLogin7Message, TDSTabularDataMessage. */
  datatype Kind = PreLoginKind | Login7Kind | TabularResultKind

  /** The MessageType property of each concrete class. */
  function TypeOf(k: Kind): byte
  {
    match k
    case PreLoginKind => TdsPacket.PreLogin
    case Login7Kind => TdsPacket.Login7
    case TabularResultKind => TdsPacket.TabularResult
  }

  /**
   * ConcreteTypeConstructors as a table: the class whose MessageType is t,
   * if any. Every class is found under its own type and under no other.
   */
  function KindOf(t: byte): (r: Option<Kind>)
    ensures forall k :: r == Some(k) <==> TypeOf(k) == t
    ensures r.Some? ==> TdsPacket.IsTdsPacketType(t)
  {
    if t == TdsPacket.PreLogin then Some(PreLoginKind)
    else if t == TdsPacket.Login7 then Some(Login7Kind)
    else if t == TdsPacket.TabularResult then Some(TabularResultKind)
    else None
  }

  /** A message object of one of the concrete classes. */
  datatype Message =
    | PreLoginMsg(preLogin: PreLoginMessages.PreLoginMessage)
    | Login7Msg(login7: Login7Messages.Login7Message)
    | TabularMsg(tabular: TokenStreams.TokenStreamMessage)

  function KindOfMessage(m: Message): Kind
  {
    match m
    case PreLoginMsg(_) => PreLoginKind
    case Login7Msg(_) => Login7Kind
    case TabularMsg(_) => TabularResultKind
  }

  function Object(m: Message): object
  {
    match m
    case PreLoginMsg(x) => x
    case Login7Msg(x) => x
    case TabularMsg(x) => x
  }

  function Payload(m: Message): Option<bytes>
    reads Object(m)
  {
    match m
    case PreLoginMsg(x) => x.payload
    case Login7Msg(x) => x.payload
    case TabularMsg(x) => x.payload
  }

  function ReceivedPayload(m: Message): Option<bytes>
    reads Object(m)
  {
    match m
    case PreLoginMsg(x) => x.receivedPayload
    case Login7Msg(x) => x.receivedPayload
    case TabularMsg(x) => x.receivedPayload
  }

  // ---------------------------------------------------------------------
  // FromPackets
  // ---------------------------------------------------------------------

  /** The type the registry is asked for: the override if given, else the first packet's. */
  function EffectiveType(first: TdsPacket.Packet, overrideType: Option<byte>): byte
  {
    if overrideType.Some? then overrideType.value else first.packetType
  }

  /**
   * The exception for an unregistered type: it carries the first packet's
   * PacketData, whose own failure surfaces instead when the packet's
   * Length cannot hold it.
   */
  function Unrecognized(first: TdsPacket.Packet): Error
  {
    match TdsPacket.PacketData(first)
    case Err(e) => e
    case Ok(d) => InvalidPacket(d)
  }

  /**
   * What FromPackets decides before any decoder runs: no message for a
   * null or empty list, the exception for an unregistered type, or the
   * class to instantiate and the payloads of all packets in order.
   */
  function Assembled(packets: Option<seq<TdsPacket.Packet>>, overrideType: Option<byte>): (r: Result<Option<(Kind, bytes)>>)
    ensures r == Ok(None) <==> packets.None? || |packets.value| == 0
    ensures r.Err? ==> KindOf(EffectiveType(packets.value[0], overrideType)).None?
    ensures r.Ok? && r.value.Some? ==>
      && TypeOf(r.value.value.0) == EffectiveType(packets.value[0], overrideType)
      && |r.value.value.1| == TdsPacket.PayloadTotal(packets.value)
  {
    if packets.None? || |packets.value| == 0 then Ok(None)
    else
      var first := packets.value[0];
      match KindOf(EffectiveType(first, overrideType))
      case None => Err(Unrecognized(first))
      case Some(k) =>
        TdsPacket.PayloadsLength(packets.value);
        Ok(Some((k, TdsPacket.Payloads(packets.value))))
  }

  /**
   * The payload buffer of FromPackets: sized to the sum of the payload
   * lengths, then each packet's payload block-copied at the running offset.
   */
  method Concatenate(ps: seq<TdsPacket.Packet>) returns (payload: bytes)
    ensures payload == TdsPacket.Payloads(ps)
  {
    TdsPacket.PayloadsLength(ps);
    var buffer := new byte[TdsPacket.PayloadTotal(ps)];
    var offset := 0;
    var i := 0;
    while i < |ps|
      invariant 0 <= i <= |ps|
      invariant offset == |TdsPacket.Payloads(ps[..i])|
      invariant TdsPacket.Payloads(ps[..i]) + TdsPacket.Payloads(ps[i..]) == TdsPacket.Payloads(ps)
      invariant buffer.Length == |TdsPacket.Payloads(ps)|
      invariant buffer[..offset] == TdsPacket.Payloads(ps[..i])
    {
      var chunk := ps[i].payload;
      assert TdsPacket.Payloads(ps[i..]) == chunk + TdsPacket.Payloads(ps[i + 1..]) by {
        assert ps[i..][1..] == ps[i + 1..];
      }
      BlockCopy(chunk, buffer, offset);
      assert ps[..i + 1] == ps[..i] + [ps[i]];
      TdsPacket.PayloadsAppend(ps[..i], [ps[i]]);
      assert TdsPacket.Payloads([ps[i]]) == chunk by {
        assert [ps[i]][1..] == [];
      }
      TdsPacket.PayloadsAppend(ps[..i + 1], ps[i + 1..]);
      assert ps[..i + 1] + ps[i + 1..] == ps;
      offset := offset + |chunk|;
      i := i + 1;
    }
    assert ps[..i] == ps;
    payload := buffer[..];
  }

  /** Buffer.BlockCopy of all of src into dst at offset. */
  method BlockCopy(src: bytes, dst: array<byte>, offset: nat)
    requires offset + |src| <= dst.Length
    modifies dst
    ensures dst[..offset] == old(dst[..offset])
    ensures dst[offset..offset + |src|] == src
    ensures dst[offset + |src|..] == old(dst[offset + |src|..])
  {
    forall j | 0 <= j < |src| {
      dst[offset + j] := src[j];
    }
  }

  /**
   * A fresh TDSPreLoginMessage given payload p as Payload and
   * ReceivedPayload, then interpreted: Interpret from no options decides
   * its options, and a failure is the call's.
   */
  method ReceivePreLogin(p: bytes) returns (r: Result<PreLoginMessages.PreLoginMessage>)
    ensures var o := PreLogin.Interpret(PreLogin.NoFields, Some(p));
      && (o.1.Some? ==> r == Err(o.1.value))
      && (o.1.None? ==> r.Ok? && fresh(r.value) && r.value.fields == o.0
                        && r.value.payload == Some(p) && r.value.receivedPayload == Some(p))
  {
    var m := new PreLoginMessages.PreLoginMessage();
    m.payload := Some(p);
    m.receivedPayload := Some(p);
    var err := m.InterpretPayload();
    if err.Some? {
      return Err(err.value);
    }
    r := Ok(m);
  }

  /** A fresh TDSLogin7Message given payload p and interpreted, as Interpretation has it. */
  method ReceiveLogin7(p: bytes) returns (r: Result<Login7Messages.Login7Message>)
    ensures var o := Login7Messages.Interpretation(Login7.NoLogin7, Some(p));
      && (o.0.Err? ==> r == Err(o.0.error))
      && (o.0.Ok? ==> r.Ok? && fresh(r.value) && r.value.fields == o.1
                      && r.value.payload == o.2 && r.value.receivedPayload == Some(p))
  {
    var m := new Login7Messages.Login7Message();
    m.payload := Some(p);
    m.receivedPayload := Some(p);
    var res := m.InterpretPayload();
    if res.Err? {
      return Err(res.error);
    }
    r := Ok(m);
  }

  /**
   * A fresh TDSTabularDataMessage given payload p and interpreted: its
   * tokens are those Interpreted reads, each fresh and owned by it.
   */
  method ReceiveTabular(p: bytes, version: u32) returns (r: Result<TokenStreams.TokenStreamMessage>)
    ensures var d := TokenStreams.Interpreted(version, p);
      && (d.1.Some? ==> r == Err(d.1.value))
      && (d.1.None? ==> r.Ok? && fresh(r.value) && TokenStreams.Views(r.value.tokens) == d.0
                        && r.value.payload == Some(p) && r.value.receivedPayload == Some(p)
                        && forall i :: 0 <= i < |r.value.tokens| ==> fresh(r.value.tokens[i]) && r.value.tokens[i].message == r.value)
  {
    var m := new TokenStreams.TokenStreamMessage();
    m.payload := Some(p);
    m.receivedPayload := Some(p);
    var res := m.InterpretPayload(version);
    if res.Err? {
      return Err(res.error);
    }
    assert m.tokens[0..] == m.tokens;
    r := Ok(m);
  }

  /**
   * TDSMessage.FromPackets: Assembled decides between no message, the
   * unrecognized-type exception, and a fresh message of the registered
   * class holding the concatenated payload, which its InterpretPayload
   * then decodes. The ambient TdsVersion is the version parameter.
   */
  method FromPackets(packets: Option<seq<TdsPacket.Packet>>, overrideType: Option<byte>, version: u32)
    returns (r: Result<Option<Message>>)
    ensures var a := Assembled(packets, overrideType);
      && (a == Ok(None) ==> r == Ok(None))
      && (a.Err? ==> r == Err(a.error))
      && (r.Ok? && r.value.Some? ==> a.Ok? && a.value.Some? && KindOfMessage(r.value.value) == a.value.value.0
                                     && fresh(Object(r.value.value))
                                     && ReceivedPayload(r.value.value) == Some(a.value.value.1))
    ensures var a := Assembled(packets, overrideType);
      a.Ok? && a.value.Some? && a.value.value.0 == PreLoginKind ==>
        var o := PreLogin.Interpret(PreLogin.NoFields, Some(a.value.value.1));
        && (o.1.Some? ==> r == Err(o.1.value))
        && (o.1.None? ==> r.Ok? && r.value.Some? && r.value.value.PreLoginMsg?
                          && r.value.value.preLogin.fields == o.0 && r.value.value.preLogin.payload == Some(a.value.value.1))
    ensures var a := Assembled(packets, overrideType);
      a.Ok? && a.value.Some? && a.value.value.0 == Login7Kind ==>
        var o := Login7Messages.Interpretation(Login7.NoLogin7, Some(a.value.value.1));
        && (o.0.Err? ==> r == Err(o.0.error))
        && (o.0.Ok? ==> r.Ok? && r.value.Some? && r.value.value.Login7Msg?
                        && r.value.value.login7.fields == o.1 && r.value.value.login7.payload == o.2)
    ensures var a := Assembled(packets, overrideType);
      a.Ok? && a.value.Some? && a.value.value.0 == TabularResultKind ==>
        var d := TokenStreams.Interpreted(version, a.value.value.1);
        && (d.1.Some? ==> r == Err(d.1.value))
        && (d.1.None? ==> r.Ok? && r.value.Some? && r.value.value.TabularMsg?
                          && TokenStreams.Views(r.value.value.tabular.tokens) == d.0
                          && r.value.value.tabular.payload == Some(a.value.value.1))
  {
    if packets.None? || |packets.value| == 0 {
      return Ok(None);
    }
    var ps := packets.value;
    var first := ps[0];
    var kind := KindOf(EffectiveType(first, overrideType));
    if kind.None? {
      return Err(Unrecognized(first));
    }
    var payload := Concatenate(ps);
    match kind.value
    case PreLoginKind =>
      var m := ReceivePreLogin(payload);
      if m.Err? {
        return Err(m.error);
      }
      r := Ok(Some(PreLoginMsg(m.value)));
    case Login7Kind =>
      var m := ReceiveLogin7(payload);
      if m.Err? {
        return Err(m.error);
      }
      r := Ok(Some(Login7Msg(m.value)));
    case TabularResultKind =>
      var m := ReceiveTabular(payload, version);
      if m.Err? {
        return Err(m.error);
      }
      r := Ok(Some(TabularMsg(m.value)));
  }

  /**
   * The packets written for a non-empty payload under a registered type
   * are read back from the stream and assembled into a message of that
   * type's class holding the same payload.
   */
  lemma WrittenThenAssembled(payload: bytes, packetLength: u16, spid: u16, t: byte, status: byte, rest: bytes)
    requires packetLength > TdsPacket.HeaderLength && |payload| > 0 && KindOf(t).Some?
    ensures var ps := TdsPacket.OutgoingPackets(payload, packetLength, spid, t, status);
      && TdsPacket.ReadPeeked(TdsPacket.SerializeAll(ps) + rest) == Ok(ps)
      && Assembled(Some(ps), None) == Ok(Some((KindOf(t).value, payload)))
  {
    var ps := TdsPacket.OutgoingPackets(payload, packetLength, spid, t, status);
    TdsPacket.WriteThenRead(payload, packetLength, spid, t, status, rest);
    TdsPacket.OutgoingPacketsShape(payload, packetLength, spid, t, status);
    assert ps[0].packetType == t;
  }

  // ---------------------------------------------------------------------
  // The payload cache and writing
  // ---------------------------------------------------------------------

  /** The objects a message's payload generation reads: the message and, for a token stream, its tokens. */
  function Footprint(m: Message): set<object>
    reads Object(m)
  {
    match m
    case PreLoginMsg(x) => {x}
    case Login7Msg(x) => {x}
    case TabularMsg(x) =>
      var ts: set<object> := set t: TokenStreams.Token | t in x.tokens;
      {x as object} + ts
  }

  /**
   * What EnsurePayload does to m: a payload present is kept and nothing
   * fails; an absent one is generated from the message's properties (the
   * PreLogin option table, the Login7 layout, the tokens written at
   * version). A failed Login7 or token stream generation leaves the
   * payload absent; a failed PreLogin generation leaves the partly
   * written array it had already assigned. The properties and the
   * payload as received are not touched.
   */
  twostate predicate Ensured(m: Message, version: u32, new r: Result<()>)
    reads Object(m), Footprint(m)
  {
    && ReceivedPayload(m) == old(ReceivedPayload(m))
    && (old(Payload(m)).Some? ==> r == Ok(()) && Payload(m) == old(Payload(m)))
    && (r.Ok? ==> Payload(m).Some?)
    && match m
       case PreLoginMsg(x) =>
         && x.fields == old(x.fields)
         && (old(x.payload).None? ==> var g := PreLogin.GeneratedPayload(x.fields);
               && (g.Ok? ==> r == Ok(()) && x.payload == Some(g.value))
               && (g.Err? ==> r == Err(NotSupported) && x.payload == Some(PreLoginMessages.GeneratedBuffer(x.fields))))
       case Login7Msg(x) =>
         && x.fields == old(x.fields)
         && (old(x.payload).None? ==> var g := Login7.GeneratedPayload(x.fields);
               && (g.Ok? ==> r == Ok(()) && x.payload == Some(g.value))
               && (g.Err? ==> r == Err(g.error) && x.payload == None))
       case TabularMsg(x) =>
         && x.tokens == old(x.tokens)
         && (old(x.payload).None? ==> var s := TokenStreams.Serialized(TokenStreams.PayloadWriter(version), TokenStreams.Views(x.tokens));
               && (s.Ok? ==> r == Ok(()) && x.payload == Some(s.value))
               && (s.Err? ==> r == Err(Argument) && x.payload == None))
  }

  /** TDSMessage.EnsurePayload: GeneratePayload only when there is no payload. */
  method EnsurePayload(m: Message, version: u32) returns (r: Result<()>)
    modifies Object(m)
    ensures Ensured(m, version, r)
  {
    match m
    case PreLoginMsg(x) =>
      if x.payload.None? {
        r := x.GeneratePayload();
      } else {
        r := Ok(());
      }
    case Login7Msg(x) =>
      r := x.EnsurePayload();
    case TabularMsg(x) =>
      r := x.EnsurePayload(version);
  }

  /** The type written in every header: the override if given, else the message's MessageType. */
  function WrittenType(m: Message, overrideType: Option<byte>): byte
  {
    if overrideType.Some? then overrideType.value else TypeOf(KindOfMessage(m))
  }

  /**
   * WriteAsPackets (TDSPacket.WriteMessageAsync on the message): the
   * payload ensured, then written as the packets OutgoingPackets cuts it
   * into under the written type; nothing is written when the payload
   * cannot be generated.
   */
  method WriteAsPackets(stream: OutputStream, packetLength: u16, spid: u16, m: Message, status: byte,
                        overrideType: Option<byte>, version: u32) returns (r: Result<()>)
    requires packetLength > TdsPacket.HeaderLength
    modifies stream, Object(m)
    ensures Ensured(m, version, r)
    ensures r.Err? ==> stream.written == old(stream.written)
    ensures r.Ok? ==>
      var sent := TdsPacket.OutgoingPackets(Payload(m).value, packetLength, spid, WrittenType(m, overrideType), status);
      stream.written == old(stream.written) + TdsPacket.SerializeAll(sent)
  {
    r := EnsurePayload(m, version);
    if r.Err? {
      return;
    }
    TdsPacket.WriteMessage(stream, packetLength, spid, Payload(m).value, WrittenType(m, overrideType), status);
  }
}
