/**
 * The decisions TDSConnection takes, as functions of the values they
 * depend on: the encryption each side is told, the packet size, the
 * login policy, the TDS version presumed for a server, the host name
 * shown to the server, and how the handshake adapter unwraps and hands
 * out TLS bytes carried in TDS packets.
 */
module ConnectionRules {
  import opened Wire
  import opened Text
  import TdsPacket
  import PreLogin
  import Login7
  import Ssl
  import Authentication

  const MaxTdsVersion: u32 := 0x7400_0004
  const MinimumPacketLimit: u16 := 512
  /** The packet size used until the client's Login7 says otherwise. */
  const DefaultPacketLength: u16 := 4096
  /** Login7 FeatureId.FedAuth. */
  const FedAuthId: byte := 2

  // ---------------------------------------------------------------------
  // PreLogin: encryption negotiation
  // ---------------------------------------------------------------------

  /**
   * The encryption setting the proxy will report to the client: what the
   * client asked for when unencrypted connections are allowed or it asked
   * for On, and Required otherwise.
   */
  function ClientEncryption(allowUnencrypted: bool, requested: byte): (r: byte)
    ensures allowUnencrypted || requested == PreLogin.EncryptOn ==> r == requested
    ensures !allowUnencrypted && requested != PreLogin.EncryptOn ==> r == PreLogin.EncryptRequired
  {
    if allowUnencrypted || requested == PreLogin.EncryptOn then requested else PreLogin.EncryptRequired
  }

  /** Unless unencrypted connections are allowed the client is always made to use TLS. */
  lemma ClientAlwaysEncrypts(requested: byte)
    ensures ClientEncryption(false, requested) == PreLogin.EncryptOn || ClientEncryption(false, requested) == PreLogin.EncryptRequired
  {
  }

  /** What ReadPreLoginFromClient does with the client's Encryption option. */
  datatype PreLoginVerdict =
    | Proceed             // forward the PreLogin to the server
    | DropSilently        // no Encryption option: close without a reply
    | AnswerRequired      // encryption not supported: reply Required, then close

  function ClientPreLoginVerdict(encryption: Option<byte>): (v: PreLoginVerdict)
    ensures v == DropSilently <==> encryption.None?
    ensures v == AnswerRequired <==> encryption == Some(PreLogin.EncryptNotSupported)
  {
    if encryption.None? then DropSilently
    else if encryption.value == PreLogin.EncryptNotSupported then AnswerRequired
    else Proceed
  }

  /**
   * Whether ReadPreLoginResponseFromServer accepts the server's answer: a
   * TABULAR_RESULT packet first, a Version option, and an Encryption that
   * is not Required.
   */
  predicate AcceptsServerPreLogin(firstType: byte, f: PreLogin.Fields)
  {
    firstType == TdsPacket.TabularResult && f.version.Some? && f.encryption != Some(PreLogin.EncryptRequired)
  }

  // ---------------------------------------------------------------------
  // Login7: packet size, version cap and login policy
  // ---------------------------------------------------------------------

  /** The packet length used from the Login7 on: PacketSize clamped to 512..65535. */
  function NegotiatedPacketLength(packetSize: u32): (r: u16)
    ensures MinimumPacketLimit <= r && r > TdsPacket.HeaderLength
    ensures MinimumPacketLimit <= packetSize <= 0xFFFF ==> r == packetSize
    ensures packetSize < MinimumPacketLimit ==> r == MinimumPacketLimit
    ensures packetSize > 0xFFFF ==> r == 0xFFFF
  {
    Min(0xFFFF, Max(MinimumPacketLimit, packetSize))
  }

  /** The TDS version forwarded to the server: the client's, capped at 7.4. */
  function CappedTdsVersion(v: u32): (r: u32)
    ensures r <= MaxTdsVersion
    ensures r == v || (v >= MaxTdsVersion && r == MaxTdsVersion)
  {
    if v >= MaxTdsVersion then MaxTdsVersion else v
  }

  /** Capping twice changes nothing more. */
  lemma CappedIdempotent(v: u32)
    ensures CappedTdsVersion(CappedTdsVersion(v)) == CappedTdsVersion(v)
  {
  }

  const UserInstanceReason: Utf16 := Ascii("User instances not permitted.")
  const IntegratedSecurityReason: Utf16 := Ascii("Integrated Security not supported.")
  const SspiReason: Utf16 := Ascii("SSPI is not supported.")
  const FedAuthReason: Utf16 := Ascii("Federated authentication is not supported.")
  const BadCredentialsReason: Utf16 := Ascii("Username or password incorrect.")

  /**
   * A user instance is asked for by an AttachDBFile, or from TDS 7.2 on by
   * the UserInstance bit of OptionFlags3 (one bit, so "any of the mask"
   * and "all of the mask" agree).
   */
  predicate RequestsUserInstance(f: Login7.Login7Fields)
  {
    |f.attachDbFile| > 0 || (f.tdsVersion >= Login7.Version72 && Login7.HasFlag(f.optionFlags3, Login7.UserInstanceFlag))
  }

  predicate RequestsIntegratedSecurity(f: Login7.Login7Fields)
  {
    Login7.HasFlag(f.optionFlags2, Login7.IntegratedSecurityFlag)
  }

  predicate RequestsSspi(f: Login7.Login7Fields)
  {
    |f.sspi| > 0
  }

  predicate RequestsFedAuth(f: Login7.Login7Fields)
  {
    f.featureExt.Some? && exists i :: 0 <= i < |f.featureExt.value| && f.featureExt.value[i].id == FedAuthId
  }

  /**
   * The checks of ReadLogin7FromClient in their order: the reason of the
   * first that fails, or None when the login may go on.
   */
  function DenialReason(f: Login7.Login7Fields): (r: Option<Utf16>)
    ensures r.None? <==> !RequestsUserInstance(f) && !RequestsIntegratedSecurity(f) && !RequestsSspi(f) && !RequestsFedAuth(f)
    ensures r == Some(UserInstanceReason) <==> RequestsUserInstance(f)
    ensures r == Some(IntegratedSecurityReason) <==> !RequestsUserInstance(f) && RequestsIntegratedSecurity(f)
    ensures r == Some(SspiReason) <==> !RequestsUserInstance(f) && !RequestsIntegratedSecurity(f) && RequestsSspi(f)
    ensures r == Some(FedAuthReason) <==>
      !RequestsUserInstance(f) && !RequestsIntegratedSecurity(f) && !RequestsSspi(f) && RequestsFedAuth(f)
  {
    if RequestsUserInstance(f) then Some(UserInstanceReason)
    else if RequestsIntegratedSecurity(f) then Some(IntegratedSecurityReason)
    else if RequestsSspi(f) then Some(SspiReason)
    else if RequestsFedAuth(f) then Some(FedAuthReason)
    else None
  }

  /** The quick exit: the user name is "sa" in any case. */
  predicate IsSa(userName: Utf16)
  {
    EqualsIgnoreCase(userName, Ascii("sa"))
  }

  /** Whether the authenticator's answer admits the login: a result that allows the connection. */
  predicate Admits(auth: Option<Authentication.AuthenticationResult>)
  {
    auth.Some? && auth.value.allowConnection
  }

  // ---------------------------------------------------------------------
  // The denial message
  // ---------------------------------------------------------------------

  /**
   * The TDS version presumed for a server from its PreLogin Version: 7.4
   * for SQL Server 2012 (11.0) on, 7.3B for 2008 R2 (10.50), 7.3A for
   * 2008 (10.0), 7.2 for 2005 (9.0), 7.1 rev 1 for 2000 SP1 (8.0.384),
   * 7.1 for 2000 (8.0) and 7.0 below that.
   */
  function PresumedServerTdsVersion(serverVersion: u32): (r: u32)
    ensures r <= MaxTdsVersion
    ensures r >= Login7.Version72 <==> serverVersion >= 0x0900_0000
  {
    if serverVersion >= 0x0B00_0000 then 0x7400_0004
    else if serverVersion >= 0x0A32_0000 then 0x730B_0003
    else if serverVersion >= 0x0A00_0000 then 0x730A_0003
    else if serverVersion >= 0x0900_0000 then 0x7209_0002
    else if serverVersion >= 0x0800_0180 then 0x7100_0001
    else if serverVersion >= 0x0800_0000 then 0x0701_0000
    else 0x0700_0000
  }

  /** A newer server is never presumed to speak an older TDS version. */
  lemma PresumedMonotone(a: u32, b: u32)
    requires a <= b
    ensures PresumedServerTdsVersion(a) <= PresumedServerTdsVersion(b)
  {
  }

  /** The text of the denial's ERROR token. */
  function DenialText(reason: Utf16): (r: Utf16)
    ensures |r| == 14 + |reason| && r[14..] == reason
  {
    Ascii("Login failed. ") + reason
  }

  // ---------------------------------------------------------------------
  // The host name shown to the server
  // ---------------------------------------------------------------------

  /** "user@": the authenticator's DisplayUsername, or the client's user name when it gives none. */
  function DisplayUserAt(auth: Authentication.AuthenticationResult, userName: Utf16): (r: Utf16)
    ensures |r| > 0 && r[|r| - 1] == '@' as int
    ensures auth.displayUsername.Some? ==> r[..|r| - 1] == auth.displayUsername.value
    ensures auth.displayUsername.None? ==> r[..|r| - 1] == userName
  {
    (if auth.displayUsername.Some? then auth.displayUsername.value else userName) + Ascii("@")
  }

  predicate EndsWith(s: Utf16, t: Utf16)
  {
    |t| <= |s| && s[|s| - |t|..] == t
  }

  /** The whole form fits in 128 characters: "user@host (ip)", or "user@ip" without a host name. */
  predicate FitsWhole(d: Utf16, ip: Utf16, h: Utf16)
  {
    |d| + |h| + |ip| + (if h == [] then 0 else 3) <= 128
  }

  /** Even "user@ip" does not fit. */
  predicate UserAndAddressOverflow(d: Utf16, ip: Utf16)
  {
    |d| + |ip| > 128
  }

  /** Neither "user@host (ip)" nor "user@... (ip)" fits. */
  predicate NoRoomForHost(d: Utf16, ip: Utf16, h: Utf16)
  {
    |d| + |ip| + Min(3, |h|) > 124
  }

  /** The form with a host name: "host (ip)". */
  function HostAndAddress(h: Utf16, ip: Utf16): Utf16
  {
    h + Ascii(" (") + ip + Ascii(")")
  }

  /**
   * String.Substring(start): the suffix from start, and
   * ArgumentOutOfRangeException (an argument error) for a start outside
   * the string.
   */
  function SubstringFrom(s: Utf16, start: int): (r: Result<Utf16>)
    ensures r.Ok? <==> 0 <= start <= |s|
    ensures r.Ok? ==> r.value == s[start..]
    ensures r.Err? ==> r.error == Argument
  {
    if 0 <= start <= |s| then Ok(s[start..]) else Err(Argument)
  }

  /**
   * The host-name rewrite of ProcessAndForwardLogin7 as written: d is
   * "user@", ip the client's address and h its host name. The second
   * branch keeps the end of "user@" rather than its start, and the fourth
   * takes a suffix of the host name from a position that is always
   * negative.
   */
  function HostNameAsWritten(d: Utf16, ip: Utf16, h: Utf16): (r: Result<Utf16>)
    ensures r.Err? ==> r.error == Argument
    ensures FitsWhole(d, ip, h) || (!UserAndAddressOverflow(d, ip) && NoRoomForHost(d, ip, h)) ==>
      r.Ok? && |r.value| <= 128 && d <= r.value && EndsWith(r.value, if FitsWhole(d, ip, h) && h != [] then ip + Ascii(")") else ip)
  {
    if FitsWhole(d, ip, h) then Ok(d + (if h == [] then ip else HostAndAddress(h, ip)))
    else if UserAndAddressOverflow(d, ip) then
      var kept :- SubstringFrom(d, 124 - |ip|);
      Ok(kept + Ascii("...@") + ip)
    else if NoRoomForHost(d, ip, h) then Ok(d + ip)
    else
      var kept :- SubstringFrom(h, 122 - (|d| + |h| + |ip|));
      Ok(d + kept)
  }

  /**
   * The rewrite as its comments describe it: "user@host (ip)" when it
   * fits; "usern...@ip" cut to 128 characters when even "user@ip" does
   * not (an argument error, as in the code, when the address alone is
   * longer than 124); "user@ip" when no part of the host fits; and
   * otherwise "user@hos... (ip)" cut to 128 characters.
   */
  function HostName(d: Utf16, ip: Utf16, h: Utf16): (r: Result<Utf16>)
    ensures r.Err? <==> UserAndAddressOverflow(d, ip) && |ip| > 124
    ensures r.Ok? ==> |r.value| <= 128
    ensures r.Ok? && !UserAndAddressOverflow(d, ip) ==> d <= r.value
    ensures r.Ok? ==> EndsWith(r.value, ip) || EndsWith(r.value, ip + Ascii(")"))
    ensures FitsWhole(d, ip, h) ==> r == Ok(d + (if h == [] then ip else HostAndAddress(h, ip)))
  {
    if FitsWhole(d, ip, h) then
      var r := d + (if h == [] then ip else HostAndAddress(h, ip));
      assert h != [] ==> r[|r| - |ip| - 1..] == ip + Ascii(")");
      Ok(r)
    else if UserAndAddressOverflow(d, ip) then
      if |ip| > 124 then Err(Argument) else Ok(d[..124 - |ip|] + Ascii("...@") + ip)
    else if NoRoomForHost(d, ip, h) then Ok(d + ip)
    else
      var n := 122 - (|d| + |ip|);
      var r := d + h[..n] + Ascii("... (") + ip + Ascii(")");
      assert r[|r| - |ip| - 1..] == ip + Ascii(")");
      Ok(r)
  }

  /** Where the code does what its comments say (the first and third branches) the two agree. */
  lemma HostNameAsWrittenAgrees(d: Utf16, ip: Utf16, h: Utf16)
    requires FitsWhole(d, ip, h) || (!UserAndAddressOverflow(d, ip) && NoRoomForHost(d, ip, h))
    ensures HostNameAsWritten(d, ip, h) == HostName(d, ip, h)
  {
  }

  /**
   * The second branch as written keeps the last |d| - (124 - |ip|)
   * characters of "user@": the result grows with the user name instead of
   * being cut to 128 characters.
   */
  lemma SuffixBranchAsWritten(d: Utf16, ip: Utf16, h: Utf16)
    requires UserAndAddressOverflow(d, ip) && |ip| <= 124
    ensures HostNameAsWritten(d, ip, h) == Ok(d[124 - |ip|..] + Ascii("...@") + ip)
    ensures |HostNameAsWritten(d, ip, h).value| == |d| + 2 * |ip| - 120
    ensures |HostName(d, ip, h).value| == 128
  {
  }

  /**
   * A 300-character "user@" with the address 10.0.0.1 gives, as written,
   * a 196-character host name that ends "...@10.0.0.1" after the last 192
   * characters of the name; the intended form has 128.
   */
  lemma SuffixBranchExample()
    ensures var d := seq(299, i => 'u' as int as u16) + Ascii("@");
      var ip := Ascii("10.0.0.1");
      && HostNameAsWritten(d, ip, []).Ok? && |HostNameAsWritten(d, ip, []).value| == 196
      && |HostName(d, ip, []).value| == 128
  {
    var d := seq(299, i => 'u' as int as u16) + Ascii("@");
    var ip := Ascii("10.0.0.1");
    SuffixBranchAsWritten(d, ip, []);
  }

  /**
   * The fourth branch as written always asks Substring for a negative
   * start, so every login that reaches it fails with an argument error.
   */
  lemma TruncationBranchAsWritten(d: Utf16, ip: Utf16, h: Utf16)
    requires !FitsWhole(d, ip, h) && !UserAndAddressOverflow(d, ip) && !NoRoomForHost(d, ip, h)
    ensures 122 - (|d| + |h| + |ip|) < 0
    ensures HostNameAsWritten(d, ip, h) == Err(Argument)
    ensures HostName(d, ip, h).Ok?
  {
  }

  /** A two-character "u@", the address 10.0.0.1 and a 120-character host name reach the fourth branch. */
  lemma TruncationBranchExample()
    ensures var h := seq(120, i => 'h' as int as u16);
      HostNameAsWritten(Ascii("u@"), Ascii("10.0.0.1"), h) == Err(Argument)
      && |HostName(Ascii("u@"), Ascii("10.0.0.1"), h).value| == 128
  {
    var h := seq(120, i => 'h' as int as u16);
    TruncationBranchAsWritten(Ascii("u@"), Ascii("10.0.0.1"), h);
  }

  // ---------------------------------------------------------------------
  // The handshake adapter
  // ---------------------------------------------------------------------

  /**
   * What a wrapper read hands on: the payload of the TDS message that
   * follows the peeked type byte (read as PRELOGIN packets), once the
   * PreLogin decoder has accepted it, which it does without parsing when
   * it starts with a TLS record type.
   */
  function Unwrapped(s: bytes): (r: Result<bytes>)
    ensures r.Ok? ==> TdsPacket.ParseMessage(s, TdsPacket.PreLogin, false).Ok?
    ensures r.Ok? ==> PreLogin.Interpret(PreLogin.NoFields, Some(r.value)).1.None?
  {
    match TdsPacket.ParseMessage(s, TdsPacket.PreLogin, false)
    case Err(e) => Err(e)
    case Ok(ps) =>
      var p := TdsPacket.Payloads(ps);
      var o := PreLogin.Interpret(PreLogin.NoFields, Some(p));
      if o.1.Some? then Err(o.1.value) else Ok(p)
  }

  /**
   * TLS bytes a client wraps in PRELOGIN packets come out of the adapter
   * unchanged: the stream starts with the PRELOGIN type the adapter peeks
   * for, and the rest unwraps to the same bytes.
   */
  lemma WrappedThenUnwrapped(p: bytes, packetLength: u16, spid: u16, status: byte, rest: bytes)
    requires packetLength > TdsPacket.HeaderLength && |p| > 0 && Ssl.IsSslPacketType(p[0])
    ensures var s := TdsPacket.SerializeAll(TdsPacket.OutgoingPackets(p, packetLength, spid, TdsPacket.PreLogin, status)) + rest;
      s[0] == TdsPacket.PreLogin && Unwrapped(s[1..]) == Ok(p)
  {
    var ps := TdsPacket.OutgoingPackets(p, packetLength, spid, TdsPacket.PreLogin, status);
    var s := TdsPacket.SerializeAll(ps) + rest;
    TdsPacket.WriteThenRead(p, packetLength, spid, TdsPacket.PreLogin, status, rest);
    TdsPacket.OutgoingPacketsShape(p, packetLength, spid, TdsPacket.PreLogin, status);
    assert ps[0].packetType == TdsPacket.PreLogin;
    assert TdsPacket.SerializeAll(ps) == TdsPacket.Serialize(ps[0]) + TdsPacket.SerializeAll(ps[1..]);
    assert s[0] == TdsPacket.PreLogin;
  }

  /**
   * How many of the bytes available to a read (the stash, or a payload
   * just unwrapped) it returns: count when more are available, otherwise
   * all of them; the rest stays stashed.
   */
  function Delivered(avail: bytes, count: nat): (n: nat)
    ensures n <= count && n <= |avail|
    ensures n == count || n == |avail|
    ensures avail[..n] + avail[n..] == avail
  {
    Min(count, |avail|)
  }

  /**
   * Buffer.BlockCopy(payload, 0, buffer, offset, count) as the adapter
   * writes it after unwrapping, with room bytes left in the buffer: it
   * copies count bytes whatever the payload's length, so a payload shorter
   * than count is an argument error.
   */
  function UnwrapCopyAsWritten(payload: bytes, count: nat, room: nat): (r: Result<bytes>)
    ensures r.Ok? <==> count <= |payload| && count <= room
    ensures r.Err? ==> r.error == Argument
    ensures r.Ok? ==> |r.value| == count && r.value <= payload
  {
    if count > |payload| || count > room then Err(Argument) else Ok(payload[..count])
  }

  /**
   * The copy as written fails exactly when the payload is shorter than
   * the read asked for, and otherwise copies the bytes the read returns.
   */
  lemma UnwrapCopyDiffers(payload: bytes, count: nat, room: nat)
    requires count <= room
    ensures UnwrapCopyAsWritten(payload, count, room).Err? <==> |payload| < count
    ensures UnwrapCopyAsWritten(payload, count, room).Ok? ==>
      UnwrapCopyAsWritten(payload, count, room).value == payload[..Delivered(payload, count)]
  {
  }

  /** A 4096-byte read of a wrapper holding one 6-byte TLS record fails as written. */
  lemma UnwrapCopyExample()
    ensures UnwrapCopyAsWritten([20, 3, 3, 0, 1, 1], 4096, 4096) == Err(Argument)
    ensures Delivered([20, 3, 3, 0, 1, 1], 4096) == 6
  {
  }
}
