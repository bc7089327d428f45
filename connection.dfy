/**
 * TDSConnection: one client connection through the proxy. PreLogin is
 * relayed with the encryption options rewritten, the client's Login7 is
 * read over TLS, checked, authenticated and rewritten before it reaches
 * the server, and then packets are forwarded both ways until a peer
 * closes.
 */
module Connections {
  import opened Wire
  import opened Streams
  import TdsPacket
  import PreLogin
  import PreLoginMessages
  import Login7
  import Login7Messages
  import TokenStreams
  import Messages
  import Authentication
  import ConnectionRules
  import Sessions
  import Forwarding

  /** StateEnum. */
  datatype State = PreLoginState | SslHandshake | Login | Connected | Closed

  /** The order in which a connection passes through the states. */
  function Rank(s: State): nat
  {
    match s
    case PreLoginState => 0
    case SslHandshake => 1
    case Login => 2
    case Connected => 3
    case Closed => 4
  }

  /** The states a connection has been in, oldest first: it starts in PreLogin and only moves forward. */
  ghost predicate Progression(visited: seq<State>)
  {
    && |visited| > 0 && visited[0] == PreLoginState
    && forall i :: 0 < i < |visited| ==> Rank(visited[i - 1]) < Rank(visited[i])
  }

  /** What the connection does to its sockets and streams besides reading and writing them. */
  datatype Event =
    | CloseInside            // _insideStream.Close()
    | CloseOutsideSsl        // _outsideSSL.Close()
    | CloseAdapter           // _outsideAdapter.Close()
    | ShutdownInsideSend     // _insideClient.Client.Shutdown(Send)
    | ShutdownOutsideReceive // _outsideClient.Client.Shutdown(Receive)
    | FlushOutsideSsl        // _outsideSSL.Flush()
    | ShutdownOutsideSend    // _outsideClient.Client.Shutdown(Send)
    | ShutdownInsideReceive  // _insideClient.Client.Shutdown(Receive)

  predicate IsClosing(e: Event)
  {
    e.CloseInside? || e.CloseOutsideSsl? || e.CloseAdapter?
  }

  /** The three streams Dispose closes, in its order. */
  const Teardown: seq<Event> := [CloseInside, CloseOutsideSsl, CloseAdapter]

  /** No stream has been closed yet. */
  ghost predicate Open(events: seq<Event>)
  {
    forall i :: 0 <= i < |events| ==> !IsClosing(events[i])
  }

  /** The streams were closed once, as the last thing that happened. */
  ghost predicate TornDown(events: seq<Event>)
  {
    |events| >= 3 && events[|events| - 3..] == Teardown && Open(events[..|events| - 3])
  }

  /** Dispose on the state and the events so far: nothing once Closed, otherwise Closed and the three streams closed. */
  function Disposed(state: State, events: seq<Event>): (State, seq<Event>)
  {
    if state == Closed then (state, events) else (Closed, events + Teardown)
  }

  /** Dispose leaves a connection Closed with its streams closed exactly once, however often it runs. */
  lemma DisposedClosesOnce(state: State, events: seq<Event>)
    requires if state == Closed then TornDown(events) else Open(events)
    ensures Disposed(state, events).0 == Closed && TornDown(Disposed(state, events).1)
    ensures Disposed(Disposed(state, events).0, Disposed(state, events).1) == Disposed(state, events)
  {
    if state != Closed {
      var e := events + Teardown;
      assert e[..|e| - 3] == events && e[|e| - 3..] == Teardown;
    }
  }

  /**
   * The record of a connection agrees with its state: the states it went
   * through end in the current one, and its streams are closed, once and
   * last, exactly when it is Closed.
   */
  ghost predicate Consistent(state: State, visited: seq<State>, events: seq<Event>)
  {
    && Progression(visited) && visited[|visited| - 1] == state
    && (if state == Closed then TornDown(events) else Open(events))
  }

  /**
   * WriteAsPacketsAsync on a PreLogin message a setter has just changed:
   * its option table is generated and written under its own type, or
   * under TABULAR_RESULT when that is forced; nothing is written when the
   * table cannot be generated.
   */
  method WritePreLogin(stream: OutputStream, packetLength: u16, spid: u16, m: PreLoginMessages.PreLoginMessage,
                       overrideType: Option<byte>) returns (r: Result<()>)
    requires packetLength > TdsPacket.HeaderLength && m.payload.None?
    requires overrideType == None || overrideType == Some(TdsPacket.TabularResult)
    modifies stream, m
    ensures m.fields == old(m.fields)
    ensures var g := PreLogin.GeneratedPayload(m.fields);
      && (r.Ok? <==> g.Ok?)
      && stream.written == old(stream.written)
           + Sessions.Sent(g, packetLength, spid, if overrideType.Some? then TdsPacket.TabularResult else TdsPacket.PreLogin)
  {
    r := Messages.WriteAsPackets(stream, packetLength, spid, Messages.PreLoginMsg(m), TdsPacket.StatusNormal, overrideType, 0);
    if r.Err? {
      assert stream.written == old(stream.written) + [];
    }
  }

  /**
   * A PreLogin message given the encryption option e and then written,
   * as WritePreLogin writes it.
   */
  method WriteWithEncryption(stream: OutputStream, packetLength: u16, spid: u16, m: PreLoginMessages.PreLoginMessage,
                             e: byte, overrideType: Option<byte>) returns (r: Result<()>)
    requires packetLength > TdsPacket.HeaderLength
    requires overrideType == None || overrideType == Some(TdsPacket.TabularResult)
    modifies stream, m
    ensures m.fields == old(m.fields).(encryption := Some(e))
    ensures var g := PreLogin.GeneratedPayload(m.fields);
      && (r.Ok? <==> g.Ok?)
      && stream.written == old(stream.written)
           + Sessions.Sent(g, packetLength, spid, if overrideType.Some? then TdsPacket.TabularResult else TdsPacket.PreLogin)
  {
    m.SetEncryption(Some(e));
    r := WritePreLogin(stream, packetLength, spid, m, overrideType);
  }

  /**
   * TDSMessage.FromPackets on packets read from a peer, taken as a
   * PreLogin message: null unless they hold one that decodes.
   */
  method PreLoginFrom(ps: seq<TdsPacket.Packet>, overrideType: Option<byte>) returns (m: PreLoginMessages.PreLoginMessage?)
    ensures var f := Sessions.PreLoginIn(ps, overrideType);
      && (m != null <==> f.Some?) && (m != null ==> fresh(m) && m.fields == f.value)
  {
    ghost var a := Messages.Assembled(Some(ps), overrideType);
    var message := Messages.FromPackets(Some(ps), overrideType, 0);
    if a.Ok? && a.value.Some? && a.value.value.0 == Messages.PreLoginKind {
      ghost var o := PreLogin.Interpret(PreLogin.NoFields, Some(a.value.value.1));
      assert Sessions.PreLoginIn(ps, overrideType) == if o.1.Some? then None else Some(o.0);
    } else {
      assert Sessions.PreLoginIn(ps, overrideType) == None;
    }
    if message.Err? || message.value.None? || !message.value.value.PreLoginMsg? {
      return null;
    }
    return message.value.value.preLogin;
  }

  /**
   * The reading half of ReadPreLoginFromClient: the next message read as
   * packets, the SPID of its first packet, and the PreLogin it decodes to.
   */
  method ReadPreLogin(stream: InputStream) returns (firstSpid: Option<u16>, m: PreLoginMessages.PreLoginMessage?)
    requires stream.Valid()
    modifies stream
    ensures stream.Valid()
    ensures var s := old(stream.Remaining());
      var first := Sessions.FirstPacket(s);
      var f := Sessions.PreLoginOf(s, None);
      && firstSpid == (if first.Some? then Some(first.value.spid) else None)
      && (m != null <==> f.Some?) && (m != null ==> fresh(m) && m.fields == f.value)
  {
    firstSpid, m := None, null;
    ghost var s := stream.Remaining();
    var packets := TdsPacket.ReadMessageFromStream(stream);
    if packets.Ok? {
      assert Sessions.PreLoginOf(s, None) == Sessions.PreLoginIn(packets.value, None);
      firstSpid := Some(packets.value[0].spid);
      m := PreLoginFrom(packets.value, None);
    } else {
      assert Sessions.PreLoginOf(s, None) == None;
    }
  }

  /** Events that close nothing keep the streams open. */
  lemma OpenAppend(events: seq<Event>, more: seq<Event>)
    requires Open(events) && Open(more)
    ensures Open(events + more)
  {
    assert forall i :: |events| <= i < |events + more| ==> (events + more)[i] == more[i - |events|];
  }

  /**
   * TDSMessage.FromPackets on packets read from the client, taken as a
   * Login7 message: null unless they hold one that decodes.
   */
  method Login7From(ps: seq<TdsPacket.Packet>) returns (m: Login7Messages.Login7Message?)
    ensures var f := Sessions.Login7In(ps);
      && (m != null <==> f.Some?) && (m != null ==> fresh(m) && m.fields == f.value)
  {
    ghost var a := Messages.Assembled(Some(ps), None);
    var message := Messages.FromPackets(Some(ps), None, 0);
    if a.Ok? && a.value.Some? && a.value.value.0 == Messages.Login7Kind {
      ghost var o := Login7Messages.Interpretation(Login7.NoLogin7, Some(a.value.value.1));
      assert Sessions.Login7In(ps) == if o.0.Err? then None else Some(o.1);
    } else {
      assert Sessions.Login7In(ps) == None;
    }
    if message.Err? || message.value.None? || !message.value.value.Login7Msg? {
      return null;
    }
    return message.value.value.login7;
  }

  /**
   * The denial SendLogin7DeniedResponse builds: a new TABULAR_RESULT
   * message holding the ERROR and DONE tokens, its payload generated at
   * version (BuildMessage), or the argument error when it cannot be.
   */
  method DenialMessage(reason: Utf16, version: u32) returns (msg: TokenStreams.TokenStreamMessage, r: Result<()>)
    ensures fresh(msg) && TokenStreams.Views(msg.tokens) == Sessions.DenialTokens(reason)
    ensures forall t :: t in msg.tokens ==> fresh(t)
    ensures r.Ok? <==> Sessions.DenialPayloadOf(reason, version).Ok?
    ensures r.Ok? ==> msg.payload == Some(Sessions.DenialPayloadOf(reason, version).value)
  {
    msg := DenialTokensMessage(reason);
    r := msg.EnsurePayload(version);
    assert TokenStreams.Views(msg.tokens) == Sessions.DenialTokens(reason);
  }

  /** The tokens half of DenialMessage: a fresh message owning the ERROR and DONE tokens, no payload yet. */
  method DenialTokensMessage(reason: Utf16) returns (msg: TokenStreams.TokenStreamMessage)
    ensures fresh(msg) && TokenStreams.Views(msg.tokens) == Sessions.DenialTokens(reason)
    ensures forall t :: t in msg.tokens ==> fresh(t)
    ensures msg.payload == None
  {
    msg := new TokenStreams.TokenStreamMessage();
    var error := new TokenStreams.Token(msg, Sessions.DenialError(reason));
    var done := new TokenStreams.Token(msg, Sessions.DenialDone());
    var added := msg.AddTokens(Some([error, done]));
    assert [error, done][1..] == [done];
    assert msg.tokens == [error, done];
    TokenStreams.ViewsAre(msg.tokens, Sessions.DenialTokens(reason));
  }

  /**
   * The rewrite ProcessAndForwardLogin7 makes through the Login7 setters:
   * the TDS version capped, then the host name built (an argument error
   * when it cannot be), the user, password and database replaced.
   */
  method Rewrite(m: Login7Messages.Login7Message, auth: Authentication.AuthenticationResult, ip: Utf16) returns (r: Result<()>)
    modifies m
    ensures var g := Sessions.Rewritten(old(m.fields), auth, ip);
      && (g.Err? ==> r == Err(Argument))
      && (g.Ok? ==> r == Ok(()) && m.fields == g.value && m.payload == None)
  {
    if m.fields.tdsVersion >= ConnectionRules.MaxTdsVersion {
      m.SetTdsVersion(ConnectionRules.MaxTdsVersion);
    }
    var displayUserAt := ConnectionRules.DisplayUserAt(auth, m.fields.userName);
    var host := ConnectionRules.HostName(displayUserAt, ip, m.fields.hostName);
    if host.Err? {
      return Err(host.error);
    }
    m.SetHostName(host.value);
    m.SetUserName(auth.connectAsUser);
    m.SetPassword(auth.connectUsingPassword);
    m.SetDatabase(auth.connectToDatabase);
    r := Ok(());
  }

  /**
   * WriteAsPacketsAsync on a Login7 message whose payload a setter
   * dropped: the layout generated from its fields and written as LOGIN7
   * packets, or nothing when it cannot be generated.
   */
  method WriteLogin7(stream: OutputStream, packetLength: u16, spid: u16, m: Login7Messages.Login7Message) returns (r: Result<()>)
    requires packetLength > TdsPacket.HeaderLength
    modifies stream, m
    ensures m.fields == old(m.fields)
    ensures var g := if old(m.payload).Some? then Ok(old(m.payload).value) else Login7.GeneratedPayload(m.fields);
      && (r.Ok? <==> g.Ok?)
      && stream.written == old(stream.written) + Sessions.Sent(g, packetLength, spid, TdsPacket.Login7)
  {
    r := Messages.WriteAsPackets(stream, packetLength, spid, Messages.Login7Msg(m), TdsPacket.StatusNormal, None, 0);
    if r.Err? {
      assert stream.written == old(stream.written) + [];
    }
  }

  /** WriteAsPacketsAsync on a token-stream message whose payload was built: that payload as TABULAR_RESULT packets. */
  method WriteTabular(stream: OutputStream, packetLength: u16, spid: u16, msg: TokenStreams.TokenStreamMessage, version: u32)
    returns (r: Result<()>)
    requires packetLength > TdsPacket.HeaderLength && msg.payload.Some?
    modifies stream, msg
    ensures r == Ok(()) && msg.payload == old(msg.payload)
    ensures stream.written == old(stream.written) + Sessions.Sent(Ok(msg.payload.value), packetLength, spid, TdsPacket.TabularResult)
  {
    r := Messages.WriteAsPackets(stream, packetLength, spid, Messages.TabularMsg(msg), TdsPacket.StatusNormal, None, version);
  }

  class Connection {
    // Configuration: TDSProxyService's switches, the listener's
    // authenticator, the client's address and how the TLS handshake with
    // the client ends.
    const allowUnencrypted: bool
    const skipLoginProcessing: bool
    const smpTypes: set<byte>
    const authenticator: Authentication.Authenticator
    const clientAddress: Utf16
    const handshakeSucceeds: bool

    // The client's socket stream, the server's, and the client's TLS
    // stream as plaintext, each as what is read from it and what is
    // written to it.
    const outsideIn: InputStream
    const outsideOut: OutputStream
    const insideIn: InputStream
    const insideOut: OutputStream
    const sslIn: InputStream
    const sslOut: OutputStream

    var state: State
    var encryptionForClient: byte
    var spid: u16
    var packetLength: u16
    var clientTdsVersion: u32
    var serverSoftwareVersion: u32
    var events: seq<Event>

    /** The states passed through so far. */
    ghost var visited: seq<State>
    /** The client's Login7 as decoded, once one was. */
    ghost var receivedLogin: Option<Login7.Login7Fields>
    /** The Login7 the proxy wrote to the server, once it did. */
    ghost var forwardedLogin: Option<Login7.Login7Fields>

    ghost predicate Valid()
      reads this, outsideIn, insideIn, sslIn
    {
      && outsideIn.Valid() && insideIn.Valid() && sslIn.Valid()
      && outsideIn != insideIn && outsideIn != sslIn && insideIn != sslIn
      && outsideOut != insideOut && outsideOut != sslOut && insideOut != sslOut
      && packetLength >= ConnectionRules.MinimumPacketLimit
      && Consistent(state, visited, events)
    }

    /**
     * A Login7 the proxy itself writes to the server is one its rules
     * allow: it was decoded from the client and passed every check, and
     * it is either the client's own (when login processing is skipped) or
     * the rewrite of a login the authenticator admitted. With login
     * processing skipped and the client's encryption not Off the proxy
     * writes none; the client's Login7 then travels in the relayed bytes,
     * which this predicate does not look into.
     */
    ghost predicate LoginSafe()
      reads this
    {
      forwardedLogin.Some? ==>
        && receivedLogin.Some? && ConnectionRules.DenialReason(receivedLogin.value).None?
        && (if skipLoginProcessing then forwardedLogin == receivedLogin
            else Sessions.LoginDecision(receivedLogin.value, authenticator, clientAddress) == Sessions.Forwarded(forwardedLogin.value))
    }

    /** The state, the events and the ghost record are as they were. */
    twostate predicate SameProgress()
      reads this
    {
      state == old(state) && events == old(events) && visited == old(visited)
      && receivedLogin == old(receivedLogin) && forwardedLogin == old(forwardedLogin)
    }

    /** The values negotiated with the peers are as they were. */
    twostate predicate SameSettings()
      reads this
    {
      && encryptionForClient == old(encryptionForClient) && spid == old(spid) && packetLength == old(packetLength)
      && clientTdsVersion == old(clientTdsVersion) && serverSoftwareVersion == old(serverSoftwareVersion)
    }

    /** The client's side of forwarding: its socket stream when encryption is off, its TLS stream otherwise. */
    function OutsideSource(): InputStream
      reads this
    {
      if encryptionForClient == PreLogin.EncryptOff then outsideIn else sslIn
    }

    function OutsideSink(): OutputStream
      reads this
    {
      if encryptionForClient == PreLogin.EncryptOff then outsideOut else sslOut
    }

    /** A new connection, in PreLogin with the default packet length and nothing negotiated. */
    constructor (allowUnencrypted: bool, skipLoginProcessing: bool, smpTypes: set<byte>,
                 authenticator: Authentication.Authenticator, clientAddress: Utf16, handshakeSucceeds: bool,
                 outsideIn: InputStream, outsideOut: OutputStream, insideIn: InputStream, insideOut: OutputStream,
                 sslIn: InputStream, sslOut: OutputStream)
      requires outsideIn.Valid() && insideIn.Valid() && sslIn.Valid()
      requires outsideIn != insideIn && outsideIn != sslIn && insideIn != sslIn
      requires outsideOut != insideOut && outsideOut != sslOut && insideOut != sslOut
      ensures Valid() && state == PreLoginState && events == []
      ensures packetLength == ConnectionRules.DefaultPacketLength && encryptionForClient == PreLogin.EncryptOff
      ensures spid == 0 && clientTdsVersion == 0 && serverSoftwareVersion == 0
      ensures receivedLogin == None && forwardedLogin == None
      ensures this.allowUnencrypted == allowUnencrypted && this.skipLoginProcessing == skipLoginProcessing
      ensures this.smpTypes == smpTypes && this.authenticator == authenticator
      ensures this.clientAddress == clientAddress && this.handshakeSucceeds == handshakeSucceeds
      ensures this.outsideIn == outsideIn && this.outsideOut == outsideOut && this.insideIn == insideIn
      ensures this.insideOut == insideOut && this.sslIn == sslIn && this.sslOut == sslOut
    {
      this.allowUnencrypted := allowUnencrypted;
      this.skipLoginProcessing := skipLoginProcessing;
      this.smpTypes := smpTypes;
      this.authenticator := authenticator;
      this.clientAddress := clientAddress;
      this.handshakeSucceeds := handshakeSucceeds;
      this.outsideIn := outsideIn;
      this.outsideOut := outsideOut;
      this.insideIn := insideIn;
      this.insideOut := insideOut;
      this.sslIn := sslIn;
      this.sslOut := sslOut;
      state := PreLoginState;
      encryptionForClient := PreLogin.EncryptOff;
      spid := 0;
      packetLength := ConnectionRules.DefaultPacketLength;
      clientTdsVersion := 0;
      serverSoftwareVersion := 0;
      events := [];
      visited := [PreLoginState];
      receivedLogin := None;
      forwardedLogin := None;
    }

    /** The assignment to _state: to a later state, short of Closed. */
    method Enter(s: State)
      requires Valid() && Rank(state) < Rank(s) && s != Closed
      modifies this
      ensures Valid() && state == s && visited == old(visited) + [s]
      ensures events == old(events) && receivedLogin == old(receivedLogin) && forwardedLogin == old(forwardedLogin)
      ensures SameSettings()
    {
      state := s;
      visited := visited + [s];
    }

    /** Close, that is Dispose: once, the state becomes Closed and the three streams are closed. */
    method Close()
      requires Valid()
      modifies this
      ensures Valid() && (state, events) == Disposed(old(state), old(events))
      ensures visited == if old(state) == Closed then old(visited) else old(visited) + [Closed]
      ensures receivedLogin == old(receivedLogin) && forwardedLogin == old(forwardedLogin)
      ensures SameSettings()
    {
      DisposedClosesOnce(state, events);
      if state != Closed {
        state := Closed;
        visited := visited + [Closed];
        events := events + Teardown;
      }
    }

    // -------------------------------------------------------------------
    // PreLogin
    // -------------------------------------------------------------------

    /**
     * ReadPreLoginFromClient: the client's first message, kept when it is
     * a PreLogin message with an encryption option other than
     * NOT_SUPPORTED; a client that cannot encrypt is told encryption is
     * required and dropped; anything else is dropped silently.
     */
    method ReadPreLoginFromClient() returns (m: PreLoginMessages.PreLoginMessage?)
      requires Valid()
      modifies this, outsideIn, outsideOut
      ensures Valid() && SameProgress()
      ensures encryptionForClient == old(encryptionForClient) && packetLength == old(packetLength)
      ensures clientTdsVersion == old(clientTdsVersion) && serverSoftwareVersion == old(serverSoftwareVersion)
      ensures var s := old(outsideIn.Remaining());
        var first := Sessions.FirstPacket(s);
        var f := Sessions.PreLoginOf(s, None);
        && spid == (if first.Some? then first.value.spid else old(spid))
        && (m != null <==> f.Some? && ConnectionRules.ClientPreLoginVerdict(f.value.encryption) == ConnectionRules.Proceed)
        && (m != null ==> fresh(m) && m.fields == f.value)
        && (if f.Some? && ConnectionRules.ClientPreLoginVerdict(f.value.encryption) == ConnectionRules.AnswerRequired
            then outsideOut.written == old(outsideOut.written)
                   + Sessions.Sent(PreLogin.GeneratedPayload(f.value.(encryption := Some(PreLogin.EncryptRequired))),
                                   packetLength, spid, TdsPacket.PreLogin)
            else outsideOut.written == old(outsideOut.written))
    {
      m := null;
      var firstSpid, preLogin := ReadPreLogin(outsideIn);
      if firstSpid.Some? {
        spid := firstSpid.value;
      }
      if preLogin != null {
        var kept := CheckClientPreLogin(preLogin);
        if kept {
          m := preLogin;
        }
      }
    }

    /**
     * The rest of ReadPreLoginFromClient, on the PreLogin it decoded: kept
     * when it carries an encryption option other than NOT_SUPPORTED; a
     * client that cannot encrypt is answered with its own options saying
     * encryption is required.
     */
    method CheckClientPreLogin(preLogin: PreLoginMessages.PreLoginMessage) returns (kept: bool)
      requires Valid()
      modifies preLogin, outsideOut
      ensures var v := ConnectionRules.ClientPreLoginVerdict(old(preLogin.fields.encryption));
        && (kept <==> v == ConnectionRules.Proceed)
        && (kept ==> preLogin.fields == old(preLogin.fields))
        && if v == ConnectionRules.AnswerRequired
           then outsideOut.written == old(outsideOut.written)
                  + Sessions.Sent(PreLogin.GeneratedPayload(old(preLogin.fields).(encryption := Some(PreLogin.EncryptRequired))),
                                  packetLength, spid, TdsPacket.PreLogin)
           else outsideOut.written == old(outsideOut.written)
    {
      if preLogin.fields.encryption.None? {
        return false;
      }
      if preLogin.fields.encryption.value == PreLogin.EncryptNotSupported {
        var written := WriteWithEncryption(outsideOut, packetLength, spid, preLogin, PreLogin.EncryptRequired, None);
        return false;
      }
      return true;
    }

    /**
     * ProcessAndForwardPreLogin: the encryption the client gets is what it
     * asked for when unencrypted connections are allowed or it asked for
     * ON, and REQUIRED otherwise; the server is told the client does not
     * support encryption.
     */
    method ProcessAndForwardPreLogin(m: PreLoginMessages.PreLoginMessage) returns (r: Result<()>)
      requires Valid() && m.fields.encryption.Some?
      modifies this, m, insideOut
      ensures Valid() && SameProgress()
      ensures encryptionForClient == ConnectionRules.ClientEncryption(allowUnencrypted, old(m.fields.encryption.value))
      ensures spid == old(spid) && packetLength == old(packetLength)
      ensures clientTdsVersion == old(clientTdsVersion) && serverSoftwareVersion == old(serverSoftwareVersion)
      ensures m.fields == old(m.fields).(encryption := Some(PreLogin.EncryptNotSupported))
      ensures var g := PreLogin.GeneratedPayload(m.fields);
        && (r.Ok? <==> g.Ok?)
        && insideOut.written == old(insideOut.written) + Sessions.Sent(g, packetLength, spid, TdsPacket.PreLogin)
    {
      encryptionForClient := ConnectionRules.ClientEncryption(allowUnencrypted, m.fields.encryption.value);
      r := WriteWithEncryption(insideOut, packetLength, spid, m, PreLogin.EncryptNotSupported, None);
    }

    /**
     * ReadPreLoginResponseFromServer: the server's answer must come as
     * TABULAR_RESULT packets, decode as a PreLogin message with a version
     * (which is recorded) and not require encryption.
     */
    method ReadPreLoginResponseFromServer() returns (m: PreLoginMessages.PreLoginMessage?)
      requires Valid()
      modifies this, insideIn
      ensures Valid() && SameProgress()
      ensures encryptionForClient == old(encryptionForClient) && packetLength == old(packetLength)
      ensures clientTdsVersion == old(clientTdsVersion)
      ensures var s := old(insideIn.Remaining());
        var first := Sessions.FirstPacket(s);
        var f := Sessions.ServerPreLoginOf(s);
        && spid == (if first.Some? then first.value.spid else old(spid))
        && serverSoftwareVersion == (if f.Some? && f.value.version.Some? then f.value.version.value.version
                                     else old(serverSoftwareVersion))
        && (m != null <==> f.Some? && ConnectionRules.AcceptsServerPreLogin(first.value.packetType, f.value))
        && (m != null ==> fresh(m) && m.fields == f.value)
    {
      m := null;
      ghost var s := insideIn.Remaining();
      var packets := TdsPacket.ReadMessageFromStream(insideIn);
      if packets.Ok? {
        var firstPacket := packets.value[0];
        spid := firstPacket.spid;
        if firstPacket.packetType == TdsPacket.TabularResult {
          assert Sessions.ServerPreLoginOf(s) == Sessions.PreLoginIn(packets.value, Some(TdsPacket.PreLogin));
          var response := PreLoginFrom(packets.value, Some(TdsPacket.PreLogin));
          if response != null && response.fields.version.Some? {
            serverSoftwareVersion := response.fields.version.value.version;
            if response.fields.encryption != Some(PreLogin.EncryptRequired) {
              m := response;
            }
          }
        }
      }
    }

    /**
     * ProcessAndForwardPreLoginResponse: the server's answer goes to the
     * client carrying the encryption chosen for the client, as
     * TABULAR_RESULT packets.
     */
    method ProcessAndForwardPreLoginResponse(m: PreLoginMessages.PreLoginMessage) returns (r: Result<()>)
      requires Valid()
      modifies m, outsideOut
      ensures m.fields == old(m.fields).(encryption := Some(encryptionForClient))
      ensures var g := PreLogin.GeneratedPayload(m.fields);
        && (r.Ok? <==> g.Ok?)
        && outsideOut.written == old(outsideOut.written) + Sessions.Sent(g, packetLength, spid, TdsPacket.TabularResult)
    {
      r := WriteWithEncryption(outsideOut, packetLength, spid, m, encryptionForClient, Some(TdsPacket.TabularResult));
    }
    // -------------------------------------------------------------------
    // Login7
    // -------------------------------------------------------------------

    /**
     * What SendLogin7DeniedResponse writes: the denial's TABULAR_RESULT
     * packets, generated at the TDS version presumed from the server's
     * software version, on the client's socket stream when encryption is
     * off and on its TLS stream otherwise; nothing when the payload cannot
     * be generated.
     */
    twostate predicate Denied(reason: Utf16)
      reads this, outsideOut, sslOut
    {
      && packetLength > TdsPacket.HeaderLength
      && var payload := Sessions.DenialPayloadOf(reason, ConnectionRules.PresumedServerTdsVersion(serverSoftwareVersion));
         var sent := Sessions.Sent(payload, packetLength, spid, TdsPacket.TabularResult);
         if encryptionForClient == PreLogin.EncryptOff
         then outsideOut.written == old(outsideOut.written) + sent && sslOut.written == old(sslOut.written)
         else sslOut.written == old(sslOut.written) + sent && outsideOut.written == old(outsideOut.written)
    }

    /**
     * ReadLogin7FromClient: the client's Login7, read from its TLS stream;
     * the packet length and TDS version it asks for are recorded, and a
     * login asking for a user instance, integrated security, SSPI or
     * federated authentication is denied and dropped.
     */
    method ReadLogin7FromClient() returns (m: Login7Messages.Login7Message?)
      requires Valid()
      modifies this, sslIn, outsideOut, sslOut
      ensures Valid() && state == old(state) && events == old(events) && visited == old(visited)
      ensures forwardedLogin == old(forwardedLogin)
      ensures encryptionForClient == old(encryptionForClient) && serverSoftwareVersion == old(serverSoftwareVersion)
      ensures var s := old(sslIn.Remaining());
        var first := Sessions.FirstPacket(s);
        var f := Sessions.Login7Of(s);
        && spid == (if first.Some? then first.value.spid else old(spid))
        && receivedLogin == (if f.Some? then f else old(receivedLogin))
        && (if f.Some?
            then packetLength == ConnectionRules.NegotiatedPacketLength(f.value.packetSize) && clientTdsVersion == f.value.tdsVersion
            else packetLength == old(packetLength) && clientTdsVersion == old(clientTdsVersion))
        && (m != null <==> f.Some? && ConnectionRules.DenialReason(f.value).None?)
        && (m != null ==> fresh(m) && m.fields == f.value)
        && (if f.Some? && ConnectionRules.DenialReason(f.value).Some?
            then Denied(ConnectionRules.DenialReason(f.value).value)
            else outsideOut.written == old(outsideOut.written) && sslOut.written == old(sslOut.written))
    {
      m := null;
      ghost var s := sslIn.Remaining();
      var packets := TdsPacket.ReadMessageFromStream(sslIn);
      if packets.Ok? {
        assert Sessions.Login7Of(s) == Sessions.Login7In(packets.value);
        spid := packets.value[0].spid;
        var login7 := Login7From(packets.value);
        if login7 != null {
          var admitted := CheckLogin7(login7);
          if admitted {
            m := login7;
          }
        }
      } else {
        assert Sessions.Login7Of(s) == None;
      }
    }

    /**
     * The rest of ReadLogin7FromClient, on the Login7 it decoded: the
     * packet length and TDS version are taken from it, and it is refused,
     * with a denial sent to the client, when it asks for something the
     * proxy does not offer.
     */
    method CheckLogin7(login7: Login7Messages.Login7Message) returns (admitted: bool)
      requires Valid()
      modifies this, outsideOut, sslOut
      ensures Valid() && state == old(state) && events == old(events) && visited == old(visited)
      ensures forwardedLogin == old(forwardedLogin) && receivedLogin == Some(login7.fields)
      ensures encryptionForClient == old(encryptionForClient) && serverSoftwareVersion == old(serverSoftwareVersion)
      ensures spid == old(spid)
      ensures packetLength == ConnectionRules.NegotiatedPacketLength(login7.fields.packetSize)
      ensures clientTdsVersion == login7.fields.tdsVersion
      ensures admitted <==> ConnectionRules.DenialReason(login7.fields).None?
      ensures if admitted then outsideOut.written == old(outsideOut.written) && sslOut.written == old(sslOut.written)
              else Denied(ConnectionRules.DenialReason(login7.fields).value)
    {
      packetLength := ConnectionRules.NegotiatedPacketLength(login7.fields.packetSize);
      clientTdsVersion := login7.fields.tdsVersion;
      receivedLogin := Some(login7.fields);
      var reason := ConnectionRules.DenialReason(login7.fields);
      if reason.Some? {
        var denied := SendLogin7DeniedResponse(reason.value);
        return false;
      }
      return true;
    }

    /**
     * SendLogin7DeniedResponse: a TABULAR_RESULT message of an ERROR token
     * (50000, state 1, class 14, "Login failed. " and the reason) and a
     * final DONE token with the error bit, sent to the client.
     */
    method SendLogin7DeniedResponse(reason: Utf16) returns (r: Result<()>)
      requires Valid()
      modifies outsideOut, sslOut
      ensures Denied(reason)
      ensures r.Ok? <==> Sessions.DenialPayloadOf(reason, ConnectionRules.PresumedServerTdsVersion(serverSoftwareVersion)).Ok?
    {
      var version := ConnectionRules.PresumedServerTdsVersion(serverSoftwareVersion);
      var msg;
      msg, r := DenialMessage(reason, version);
      if r.Err? {
        assert outsideOut.written == old(outsideOut.written) + [];
        assert sslOut.written == old(sslOut.written) + [];
        return;
      }
      var sink := if encryptionForClient == PreLogin.EncryptOff then outsideOut else sslOut;
      r := WriteTabular(sink, packetLength, spid, msg, version);
    }

    /**
     * ProcessAndForwardLogin7: the admitted login goes to the server with
     * its TDS version capped at 7.4, its host name showing who connected
     * from where, and the authenticator's user, password and database; an
     * argument error when the host name cannot be built.
     */
    method ProcessAndForwardLogin7(m: Login7Messages.Login7Message, auth: Authentication.AuthenticationResult)
      returns (r: Result<()>)
      requires Valid()
      modifies this, m, insideOut
      ensures Valid() && state == old(state) && events == old(events) && visited == old(visited)
      ensures receivedLogin == old(receivedLogin) && SameSettings()
      ensures var g := Sessions.Rewritten(old(m.fields), auth, clientAddress);
        && (g.Err? ==> r == Err(Argument) && insideOut.written == old(insideOut.written) && forwardedLogin == old(forwardedLogin))
        && (g.Ok? ==>
              var p := Login7.GeneratedPayload(g.value);
              && m.fields == g.value && (r.Ok? <==> p.Ok?)
              && insideOut.written == old(insideOut.written) + Sessions.Sent(p, packetLength, spid, TdsPacket.Login7)
              && forwardedLogin == (if p.Ok? then Some(g.value) else old(forwardedLogin)))
    {
      r := Rewrite(m, auth, clientAddress);
      if r.Err? {
        return;
      }
      r := WriteLogin7(insideOut, packetLength, spid, m);
      if r.Ok? {
        forwardedLogin := Some(m.fields);
      }
    }
    // -------------------------------------------------------------------
    // Forwarding
    // -------------------------------------------------------------------

    /**
     * ForwardOutsideToInside: the client's packets relayed to the server
     * as they come; when the client closes, the server's socket is shut
     * for sending and the client's for receiving; an unknown type byte
     * closes the connection; a packet reader's failure is thrown. Once the
     * connection is Closed the stream reads fail with ObjectDisposed,
     * which is swallowed, and nothing happens.
     */
    method ForwardOutsideToInside() returns (r: Result<()>)
      requires Valid()
      modifies this, outsideIn, sslIn, insideOut
      ensures Valid() && receivedLogin == old(receivedLogin) && forwardedLogin == old(forwardedLogin) && SameSettings()
      ensures old(state) == Closed ==>
        r == Ok(()) && state == Closed && events == old(events) && insideOut.written == old(insideOut.written)
      ensures old(state) != Closed ==>
        var f := Forwarding.Forward(old(OutsideSource().Remaining()), smpTypes);
        && insideOut.written == old(insideOut.written) + f.0
        && (f.1.PeerClosed? ==> r == Ok(()) && state == old(state)
                                && events == old(events) + [ShutdownInsideSend, ShutdownOutsideReceive])
        && (f.1.UnexpectedType? ==> r == Ok(()) && (state, events) == Disposed(old(state), old(events)))
        && (f.1.Failed? ==> r == Err(f.1.error) && state == old(state) && events == old(events))
    {
      if state == Closed {
        return Ok(());
      }
      var outsideStream := if encryptionForClient == PreLogin.EncryptOff then outsideIn else sslIn;
      var stop := Forwarding.Pump(outsideStream, insideOut, smpTypes);
      r := Stopped(stop, [ShutdownInsideSend, ShutdownOutsideReceive]);
    }

    /**
     * The end of a forwarding loop, by why it stopped: when the peer
     * closed, the given shutdowns are recorded; an unknown type byte
     * closes the connection; a packet reader's failure is thrown.
     */
    method Stopped(stop: Forwarding.Stop, shutdowns: seq<Event>) returns (r: Result<()>)
      requires Valid() && state != Closed && Open(shutdowns)
      modifies this
      ensures Valid() && receivedLogin == old(receivedLogin) && forwardedLogin == old(forwardedLogin) && SameSettings()
      ensures stop.PeerClosed? ==> r == Ok(()) && state == old(state) && events == old(events) + shutdowns
      ensures stop.UnexpectedType? ==> r == Ok(()) && (state, events) == Disposed(old(state), old(events))
      ensures stop.Failed? ==> r == Err(stop.error) && state == old(state) && events == old(events)
    {
      match stop
      case PeerClosed =>
        OpenAppend(events, shutdowns);
        events := events + shutdowns;
        r := Ok(());
      case UnexpectedType(_) =>
        Close();
        r := Ok(());
      case Failed(e) =>
        r := Err(e);
    }

    /** The events that end the server-to-client direction: the TLS stream flushed when it is used, then the shutdowns. */
    function InsideClosedEvents(): seq<Event>
      reads this
    {
      (if encryptionForClient != PreLogin.EncryptOff then [FlushOutsideSsl] else [])
        + [ShutdownOutsideSend, ShutdownInsideReceive]
    }

    /**
     * ForwardInsideToOutside: the server's packets relayed to the client
     * in the same way, on its TLS stream unless encryption is off; when
     * the server closes, the TLS stream is flushed (if used), the
     * client's socket is shut for sending and the server's for receiving.
     */
    method ForwardInsideToOutside() returns (r: Result<()>)
      requires Valid()
      modifies this, insideIn, outsideOut, sslOut
      ensures Valid() && receivedLogin == old(receivedLogin) && forwardedLogin == old(forwardedLogin) && SameSettings()
      ensures OutsideSink() == outsideOut ==> sslOut.written == old(sslOut.written)
      ensures OutsideSink() == sslOut ==> outsideOut.written == old(outsideOut.written)
      ensures old(state) == Closed ==>
        r == Ok(()) && state == Closed && events == old(events) && OutsideSink().written == old(OutsideSink().written)
      ensures old(state) != Closed ==>
        var f := Forwarding.Forward(old(insideIn.Remaining()), smpTypes);
        && OutsideSink().written == old(OutsideSink().written) + f.0
        && (f.1.PeerClosed? ==> r == Ok(()) && state == old(state) && events == old(events) + InsideClosedEvents())
        && (f.1.UnexpectedType? ==> r == Ok(()) && (state, events) == Disposed(old(state), old(events)))
        && (f.1.Failed? ==> r == Err(f.1.error) && state == old(state) && events == old(events))
    {
      if state == Closed {
        return Ok(());
      }
      var outsideStream := if encryptionForClient == PreLogin.EncryptOff then outsideOut else sslOut;
      var stop := Forwarding.Pump(insideIn, outsideStream, smpTypes);
      r := Stopped(stop, InsideClosedEvents());
    }

    /**
     * Connected: the state becomes Connected and both directions are
     * forwarded; the failure of either is thrown once both are done.
     */
    method Connected() returns (r: Result<()>)
      requires Valid() && Rank(state) < Rank(State.Connected)
      modifies this, outsideIn, sslIn, insideIn, insideOut, outsideOut, sslOut
      ensures Valid() && receivedLogin == old(receivedLogin) && forwardedLogin == old(forwardedLogin) && SameSettings()
      ensures state == State.Connected || state == Closed
      ensures var f := Forwarding.Forward(old(OutsideSource().Remaining()), smpTypes);
        && insideOut.written == old(insideOut.written) + f.0
        && (f.1.UnexpectedType? ==> state == Closed && OutsideSink().written == old(OutsideSink().written))
        && (!f.1.UnexpectedType? ==>
              OutsideSink().written == old(OutsideSink().written) + Forwarding.Forward(old(insideIn.Remaining()), smpTypes).0)
    {
      Enter(State.Connected);
      var outsideToInside := ForwardOutsideToInside();
      var insideToOutside := ForwardInsideToOutside();
      r := if outsideToInside.Err? then outsideToInside else insideToOutside;
    }
    // -------------------------------------------------------------------
    // The connection as a whole
    // -------------------------------------------------------------------

    /**
     * The PreLogin half of ProcessConnection: the client's PreLogin read
     * and forwarded, the server's answer read and forwarded. When it gets
     * through, the client has been offered encryption in some form other
     * than NOT_SUPPORTED, and always ON or REQUIRED unless unencrypted
     * connections are allowed.
     */
    method ExchangePreLogin() returns (proceed: bool)
      requires Valid()
      modifies this, outsideIn, outsideOut, insideIn, insideOut
      ensures Valid() && SameProgress()
      ensures proceed ==> encryptionForClient != PreLogin.EncryptNotSupported
      ensures proceed && !allowUnencrypted ==>
        encryptionForClient == PreLogin.EncryptOn || encryptionForClient == PreLogin.EncryptRequired
    {
      proceed := RelayClientPreLogin();
      if proceed {
        proceed := RelayServerPreLogin();
      }
    }

    /** The client's PreLogin read and, if it is kept, forwarded to the server. */
    method RelayClientPreLogin() returns (proceed: bool)
      requires Valid()
      modifies this, outsideIn, outsideOut, insideOut
      ensures Valid() && SameProgress()
      ensures proceed ==> encryptionForClient != PreLogin.EncryptNotSupported
      ensures proceed && !allowUnencrypted ==>
        encryptionForClient == PreLogin.EncryptOn || encryptionForClient == PreLogin.EncryptRequired
    {
      var preLoginFromClient := ReadPreLoginFromClient();
      if preLoginFromClient == null {
        return false;
      }
      var forwarded := ProcessAndForwardPreLogin(preLoginFromClient);
      return forwarded.Ok?;
    }

    /** The server's PreLogin answer read and, if it is accepted, forwarded to the client. */
    method RelayServerPreLogin() returns (proceed: bool)
      requires Valid()
      modifies this, insideIn, outsideOut
      ensures Valid() && SameProgress() && encryptionForClient == old(encryptionForClient)
    {
      var preLoginResponse := ReadPreLoginResponseFromServer();
      if preLoginResponse == null {
        return false;
      }
      var answered := ProcessAndForwardPreLoginResponse(preLoginResponse);
      return answered.Ok?;
    }

    /**
     * The Login7 half of ProcessConnection, after the TLS handshake: with
     * login processing on, the Login state and the client's Login7 judged
     * and, if admitted, forwarded; with login processing skipped and
     * encryption off, the Login7 (which still comes over TLS) forwarded
     * as read; with it skipped and encryption on, nothing, the Login7
     * being left to the forwarding.
     */
    method LoginPhase() returns (proceed: bool)
      requires Valid() && state == SslHandshake && receivedLogin == None && forwardedLogin == None
      modifies this, sslIn, outsideOut, insideOut, sslOut
      ensures Valid() && events == old(events) && LoginSafe()
      ensures state == (if skipLoginProcessing then SslHandshake else Login)
    {
      if !skipLoginProcessing {
        Enter(Login);
        proceed := ProcessLogin7();
      } else if encryptionForClient == PreLogin.EncryptOff {
        proceed := RelayLogin7();
      } else {
        proceed := true;
      }
    }

    /**
     * ProcessConnection with login processing on: the client's Login7 is
     * read and checked, "sa" is dropped at once, the authenticator is
     * asked, a refused login is answered with a denial, and an admitted
     * one is rewritten and forwarded.
     */
    method ProcessLogin7() returns (proceed: bool)
      requires Valid() && !skipLoginProcessing && receivedLogin == None && forwardedLogin == None
      modifies this, sslIn, outsideOut, insideOut, sslOut
      ensures Valid() && state == old(state) && events == old(events) && LoginSafe()
      ensures receivedLogin.Some? ==>
        match Sessions.LoginDecision(receivedLogin.value, authenticator, clientAddress)
        case Refused(reason) => !proceed && forwardedLogin == None && Denied(reason)
        case QuickExit => !proceed && forwardedLogin == None
        case HostNameFailed => !proceed && forwardedLogin == None
        case Forwarded(g) => proceed <==> forwardedLogin == Some(g)
      ensures receivedLogin.None? ==> !proceed && forwardedLogin == None
    {
      var login7 := ReadLogin7FromClient();
      if login7 == null {
        return false;
      }
      proceed := AuthenticateAndForward(login7);
    }

    /**
     * The part of ProcessConnection after a Login7 passed the checks: the
     * "sa" quick exit, the authenticator's verdict, and the rewrite sent
     * to the server.
     */
    method AuthenticateAndForward(login7: Login7Messages.Login7Message) returns (proceed: bool)
      requires Valid() && !skipLoginProcessing && forwardedLogin == None
      requires receivedLogin == Some(login7.fields) && ConnectionRules.DenialReason(login7.fields).None?
      modifies this, login7, outsideOut, insideOut, sslOut
      ensures Valid() && state == old(state) && events == old(events) && receivedLogin == old(receivedLogin) && LoginSafe()
      ensures match Sessions.LoginDecision(old(login7.fields), authenticator, clientAddress)
        case Refused(reason) => !proceed && forwardedLogin == None && Denied(reason)
        case QuickExit => !proceed && forwardedLogin == None
        case HostNameFailed => !proceed && forwardedLogin == None
        case Forwarded(g) => proceed <==> forwardedLogin == Some(g)
    {
      if ConnectionRules.IsSa(login7.fields.userName) {
        return false;
      }
      var authResult := authenticator(clientAddress, login7.fields.userName, login7.fields.password, login7.fields.database);
      if !ConnectionRules.Admits(authResult) {
        var denied := SendLogin7DeniedResponse(ConnectionRules.BadCredentialsReason);
        return false;
      }
      var forwarded := ProcessAndForwardLogin7(login7, authResult.value);
      return forwarded.Ok?;
    }

    /**
     * ProcessConnection with login processing skipped and encryption off:
     * the Login7 read from the client's TLS stream (checks included) and
     * written to the server unchanged.
     */
    method RelayLogin7() returns (proceed: bool)
      requires Valid() && skipLoginProcessing && receivedLogin == None && forwardedLogin == None
      modifies this, sslIn, outsideOut, insideOut, sslOut
      ensures Valid() && state == old(state) && events == old(events) && LoginSafe()
      ensures proceed <==> forwardedLogin.Some?
      ensures !proceed ==> insideOut.written == old(insideOut.written)
    {
      var login7 := ReadLogin7FromClient();
      if login7 == null {
        return false;
      }
      proceed := ForwardLogin7(login7);
    }

    /**
     * The skip-mode Login7 (client encryption Off), already checked,
     * written to the server: the payload it was read from, or, when
     * reading its FeatureExt chain through the setter discarded that
     * payload, the one GeneratePayload builds from its properties.
     */
    method ForwardLogin7(login7: Login7Messages.Login7Message) returns (proceed: bool)
      requires Valid() && skipLoginProcessing && forwardedLogin == None
      requires receivedLogin == Some(login7.fields) && ConnectionRules.DenialReason(login7.fields).None?
      modifies this, login7, insideOut
      ensures Valid() && SameSettings() && state == old(state) && events == old(events) && visited == old(visited)
      ensures receivedLogin == old(receivedLogin) && LoginSafe()
      ensures proceed <==> forwardedLogin.Some?
      ensures var g := if old(login7.payload).Some? then Ok(old(login7.payload).value) else Login7.GeneratedPayload(login7.fields);
        && (proceed <==> g.Ok?)
        && insideOut.written == old(insideOut.written) + Sessions.Sent(g, packetLength, spid, TdsPacket.Login7)
    {
      var written := WriteLogin7(insideOut, packetLength, spid, login7);
      if written.Err? {
        return false;
      }
      forwardedLogin := Some(login7.fields);
      return true;
    }

    /**
     * ProcessConnection: PreLogin, the TLS handshake, the login and then
     * forwarding, each stage stopping the connection when it fails, and
     * the connection closed at the end whatever happened. A Login7 the
     * proxy itself writes to the server is always one the rules allow.
     */
    method ProcessConnection()
      requires Valid() && state == PreLoginState && receivedLogin == None && forwardedLogin == None
      modifies this, outsideIn, outsideOut, insideIn, insideOut, sslIn, sslOut
      ensures Valid() && state == Closed && TornDown(events)
      ensures LoginSafe()
      ensures forwardedLogin.Some? ==> handshakeSucceeds
    {
      var proceed := ExchangePreLogin();
      if proceed {
        Enter(SslHandshake);
        if handshakeSucceeds {
          proceed := LoginPhase();
          if proceed {
            var forwarding := Connected();
          }
        }
      }
      Close();
    }
  }
}
