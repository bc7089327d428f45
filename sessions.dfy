/**
 * The messages a TDSConnection exchanges during PreLogin and Login7, as
 * functions of the bytes its peers send: which message the proxy makes
 * of them, what it decides about a login, and the bytes it sends back.
 */
module Sessions {
  import opened Wire
  import opened Text
  import TdsPacket
  import PreLogin
  import Login7
  import Login7Messages
  import Messages
  import Tokens
  import MessageTokens
  import DoneTokens
  import TokenStreams
  import Authentication
  import ConnectionRules

  // ---------------------------------------------------------------------
  // What the proxy reads
  // ---------------------------------------------------------------------

  /** The first packet of the message a peer's bytes start with, when TDSPacket.ReadAsync reads one. */
  function FirstPacket(s: bytes): (r: Option<TdsPacket.Packet>)
    ensures r.Some? ==> TdsPacket.ReadPeeked(s).Ok? && r.value == TdsPacket.ReadPeeked(s).value[0]
    ensures r.None? ==> TdsPacket.ReadPeeked(s).Err?
  {
    match TdsPacket.ReadPeeked(s)
    case Err(_) => None
    case Ok(ps) => Some(ps[0])
  }

  /**
   * The PreLogin options of the message in packets read from a peer, as
   * TDSMessage.FromPackets decodes them; None when decoding fails or the
   * message is not a PreLogin message.
   */
  function PreLoginIn(ps: seq<TdsPacket.Packet>, overrideType: Option<byte>): Option<PreLogin.Fields>
  {
    match Messages.Assembled(Some(ps), overrideType)
    case Err(_) => None
    case Ok(a) =>
      if a.None? || a.value.0 != Messages.PreLoginKind then None
      else
        var o := PreLogin.Interpret(PreLogin.NoFields, Some(a.value.1));
        if o.1.Some? then None else Some(o.0)
  }

  /** The PreLogin options of the message a peer's bytes start with, read by TDSPacket.ReadAsync. */
  function PreLoginOf(s: bytes, overrideType: Option<byte>): Option<PreLogin.Fields>
  {
    match TdsPacket.ReadPeeked(s)
    case Err(_) => None
    case Ok(ps) => PreLoginIn(ps, overrideType)
  }

  /** The server's answer the proxy reads: TABULAR_RESULT packets decoded as a PreLogin message. */
  function ServerPreLoginOf(s: bytes): Option<PreLogin.Fields>
  {
    var first := FirstPacket(s);
    if first.None? || first.value.packetType != TdsPacket.TabularResult then None
    else PreLoginOf(s, Some(TdsPacket.PreLogin))
  }

  /** The Login7 fields of the message in packets read from a peer, when it is a Login7 message that decodes. */
  function Login7In(ps: seq<TdsPacket.Packet>): Option<Login7.Login7Fields>
  {
    match Messages.Assembled(Some(ps), None)
    case Err(_) => None
    case Ok(a) =>
      if a.None? || a.value.0 != Messages.Login7Kind then None
      else
        var o := Login7Messages.Interpretation(Login7.NoLogin7, Some(a.value.1));
        if o.0.Err? then None else Some(o.1)
  }

  /** The Login7 fields of the message a peer's bytes start with. */
  function Login7Of(s: bytes): Option<Login7.Login7Fields>
  {
    match TdsPacket.ReadPeeked(s)
    case Err(_) => None
    case Ok(ps) => Login7In(ps)
  }

  // ---------------------------------------------------------------------
  // What the proxy sends
  // ---------------------------------------------------------------------

  /**
   * The bytes WriteAsPacketsAsync puts on a stream for a payload that
   * was generated (or failed to be): its packets under type t with the
   * normal status, or nothing.
   */
  function Sent(payload: Result<bytes>, packetLength: u16, spid: u16, t: byte): bytes
    requires packetLength > TdsPacket.HeaderLength
  {
    if payload.Err? then []
    else TdsPacket.SerializeAll(TdsPacket.OutgoingPackets(payload.value, packetLength, spid, t, TdsPacket.StatusNormal))
  }

  /**
   * A PreLogin message the proxy sends is read back by TDSPacket.ReadAsync
   * and FromPackets as the same options, whether it goes out as PRELOGIN
   * packets or, with the PreLogin type forced on reading, as
   * TABULAR_RESULT packets.
   */
  lemma PreLoginSentThenRead(f: PreLogin.Fields, packetLength: u16, spid: u16, t: byte, rest: bytes)
    requires PreLogin.Encodable(f) && packetLength > TdsPacket.HeaderLength
    requires t == TdsPacket.PreLogin || t == TdsPacket.TabularResult
    ensures var s := Sent(PreLogin.GeneratedPayload(f), packetLength, spid, t) + rest;
      && FirstPacket(s).Some? && FirstPacket(s).value.packetType == t
      && PreLoginOf(s, Some(TdsPacket.PreLogin)) == Some(f)
      && (t == TdsPacket.PreLogin ==> PreLoginOf(s, None) == Some(f))
  {
    PreLogin.GeneratedPayloadRoundTrip(f);
    var p := PreLogin.GeneratedPayload(f).value;
    assert |p| > 0;
    var ps := TdsPacket.OutgoingPackets(p, packetLength, spid, t, TdsPacket.StatusNormal);
    Messages.WrittenThenAssembled(p, packetLength, spid, t, TdsPacket.StatusNormal, rest);
    TdsPacket.OutgoingPacketsShape(p, packetLength, spid, t, TdsPacket.StatusNormal);
    assert ps[0].packetType == t;
  }

  /**
   * The bytes the handshake adapter writes during the handshake (TLS data
   * as the payload of TABULAR_RESULT packets) are read back as packets of
   * that type whose payloads are the same bytes.
   */
  lemma HandshakeWriteUnwraps(data: bytes, packetLength: u16, spid: u16, rest: bytes)
    requires packetLength > TdsPacket.HeaderLength && |data| > 0
    ensures var s := Sent(Ok(data), packetLength, spid, TdsPacket.TabularResult) + rest;
      && TdsPacket.ReadPeeked(s).Ok?
      && TdsPacket.Payloads(TdsPacket.ReadPeeked(s).value) == data
      && forall k :: 0 <= k < |TdsPacket.ReadPeeked(s).value| ==> TdsPacket.ReadPeeked(s).value[k].packetType == TdsPacket.TabularResult
  {
    TdsPacket.WriteThenRead(data, packetLength, spid, TdsPacket.TabularResult, TdsPacket.StatusNormal, rest);
    TdsPacket.OutgoingPacketsShape(data, packetLength, spid, TdsPacket.TabularResult, TdsPacket.StatusNormal);
  }

  // ---------------------------------------------------------------------
  // The login decision
  // ---------------------------------------------------------------------

  /**
   * The Login7 the proxy sends on for an admitted client: TDS version
   * capped, host name rewritten to show who connected from where, and
   * the credentials and database the authenticator chose; an argument
   * error when the host name cannot be built.
   */
  function Rewritten(f: Login7.Login7Fields, auth: Authentication.AuthenticationResult, ip: Utf16): (r: Result<Login7.Login7Fields>)
    ensures r.Err? <==> ConnectionRules.HostName(ConnectionRules.DisplayUserAt(auth, f.userName), ip, f.hostName).Err?
  {
    var h :- ConnectionRules.HostName(ConnectionRules.DisplayUserAt(auth, f.userName), ip, f.hostName);
    Ok(f.(tdsVersion := ConnectionRules.CappedTdsVersion(f.tdsVersion), hostName := h,
          userName := auth.connectAsUser, password := auth.connectUsingPassword, database := auth.connectToDatabase))
  }

  /** How a login ends. */
  datatype LoginOutcome =
    | Refused(reason: Utf16)                  // a denial is sent to the client
    | QuickExit                               // "sa": the connection is closed without a reply
    | Forwarded(login: Login7.Login7Fields)   // the rewritten Login7 goes to the server
    | HostNameFailed                          // building the host name throws

  /**
   * ReadLogin7FromClient's checks, then ProcessConnection's: the "sa"
   * quick exit, the authenticator's verdict on the client's credentials,
   * and the rewrite of the admitted login.
   */
  function LoginDecision(f: Login7.Login7Fields, authenticate: Authentication.Authenticator, ip: Utf16): LoginOutcome
  {
    match ConnectionRules.DenialReason(f)
    case Some(reason) => Refused(reason)
    case None =>
      if ConnectionRules.IsSa(f.userName) then QuickExit
      else
        var a := authenticate(ip, f.userName, f.password, f.database);
        if !ConnectionRules.Admits(a) then Refused(ConnectionRules.BadCredentialsReason)
        else match Rewritten(f, a.value, ip)
          case Err(_) => HostNameFailed
          case Ok(g) => Forwarded(g)
  }

  /**
   * A login reaches the server only when every check passed and the
   * authenticator admitted it; what reaches the server carries the
   * authenticator's credentials and database, a TDS version of at most
   * 7.4 and a host name of at most 128 characters, and is otherwise the
   * client's login.
   */
  lemma ForwardedOnlyWhenAdmitted(f: Login7.Login7Fields, authenticate: Authentication.Authenticator, ip: Utf16, g: Login7.Login7Fields)
    requires LoginDecision(f, authenticate, ip) == Forwarded(g)
    ensures ConnectionRules.DenialReason(f).None? && !ConnectionRules.IsSa(f.userName)
    ensures ConnectionRules.Admits(authenticate(ip, f.userName, f.password, f.database))
    ensures var a := authenticate(ip, f.userName, f.password, f.database).value;
      g.userName == a.connectAsUser && g.password == a.connectUsingPassword && g.database == a.connectToDatabase
    ensures g.tdsVersion <= ConnectionRules.MaxTdsVersion && |g.hostName| <= 128
    ensures g == f.(tdsVersion := g.tdsVersion, hostName := g.hostName, userName := g.userName,
                    password := g.password, database := g.database)
  {
    var a := authenticate(ip, f.userName, f.password, f.database).value;
    assert Rewritten(f, a, ip) == Ok(g);
  }

  /** Every refusal names the first check that failed, or the bad credentials. */
  lemma RefusalReasons(f: Login7.Login7Fields, authenticate: Authentication.Authenticator, ip: Utf16, reason: Utf16)
    requires LoginDecision(f, authenticate, ip) == Refused(reason)
    ensures ConnectionRules.DenialReason(f) == Some(reason)
      || (ConnectionRules.DenialReason(f).None? && reason == ConnectionRules.BadCredentialsReason
          && !ConnectionRules.Admits(authenticate(ip, f.userName, f.password, f.database)))
  {
  }

  /** With SampleAuthenticator a login that passes the checks as "baduser", in any case, is refused. */
  lemma SampleRefusesBadUser(f: Login7.Login7Fields, ip: Utf16)
    requires ConnectionRules.DenialReason(f).None? && EqualsIgnoreCase(f.userName, Authentication.BadUser())
    ensures LoginDecision(f, Authentication.Sample(), ip) == Refused(ConnectionRules.BadCredentialsReason)
  {
    assert !ConnectionRules.IsSa(f.userName);
  }

  /**
   * With SampleAuthenticator a login that is forwarded keeps the client's
   * own user name, password and database, and its host name starts
   * with "user@" whenever "user@" and the address fit in 128 characters.
   */
  lemma SampleForwardsOwnCredentials(f: Login7.Login7Fields, ip: Utf16, g: Login7.Login7Fields)
    requires LoginDecision(f, Authentication.Sample(), ip) == Forwarded(g)
    ensures g.userName == f.userName && g.password == f.password && g.database == f.database
    ensures |f.userName| + 1 + |ip| <= 128 ==> f.userName + Ascii("@") <= g.hostName
  {
    var a := Authentication.Sample()(ip, f.userName, f.password, f.database).value;
    var d := ConnectionRules.DisplayUserAt(a, f.userName);
    assert d == f.userName + Ascii("@");
  }

  // ---------------------------------------------------------------------
  // The denial
  // ---------------------------------------------------------------------

  /** The ERROR token of a denial: number 50000, state 1, class 14, "Login failed. " and the reason. */
  function DenialError(reason: Utf16): Tokens.TokenBody
  {
    Tokens.ErrorToken(MessageTokens.MessageFields(50000, 1, 14, ConnectionRules.DenialText(reason), [], [], 0))
  }

  /** DoneToken.StatusEnum.Final | Error. */
  const DenialDoneStatus: u16 := 2

  /** The DONE token that ends a denial. */
  function DenialDone(): Tokens.TokenBody
  {
    Tokens.Done(DoneTokens.DoneFields(DenialDoneStatus, 0, 0))
  }

  /** The tokens of a denial, as built to be sent: nothing was received for them. */
  function DenialTokens(reason: Utf16): seq<Tokens.Received>
  {
    [Tokens.Received(DenialError(reason), 0, 0), Tokens.Received(DenialDone(), 0, 0)]
  }

  /** The payload BuildMessage generates for a denial, the tokens written at version. */
  function DenialPayloadOf(reason: Utf16, version: u32): (r: Result<bytes>)
    ensures r.Err? ==> r.error == Argument
    ensures |reason| <= 0xFFFF - 14 ==> r.Ok?
  {
    TokenStreams.PayloadWriterFails(version, DenialError(reason));
    TokenStreams.PayloadWriterFails(version, DenialDone());
    TokenStreams.Serialized(TokenStreams.PayloadWriter(version), DenialTokens(reason))
  }

  /**
   * The payload of a denial at the presumed version: the ERROR token's
   * bytes then the DONE token's, both written; reasons up to 65521
   * characters fit the text's 16-bit count.
   */
  lemma DenialPayload(reason: Utf16, version: u32)
    requires |reason| <= 0xFFFF - 14
    ensures DenialPayloadOf(reason, version)
      == Ok(Tokens.Encode(version, DenialError(reason)).value + Tokens.Encode(version, DenialDone()).value)
  {
    var w := TokenStreams.PayloadWriter(version);
    var ts := DenialTokens(reason);
    TokenStreams.SerializedOne(w, ts[1]);
    assert ts[1..] == [ts[1]];
  }
}
