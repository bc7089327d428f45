/**
 * IAuthenticator and AuthenticationResult, and SampleAuthenticator, the
 * authenticator shipped with the proxy: it admits every user but one and
 * passes the client's own credentials through.
 */
module Authentication {
  import opened Wire
  import opened Text

  /** AuthenticationResult; a null DisplayUsername is None. */
  datatype AuthenticationResult = AuthenticationResult(
    allowConnection: bool,
    displayUsername: Option<Utf16>,
    connectToDatabase: Utf16,
    connectAsUser: Utf16,
    connectUsingPassword: Utf16)

  /**
   * IAuthenticator.Authenticate(clientIp, username, password, database);
   * a null result is None. The client address is its textual form.
   */
  type Authenticator = (Utf16, Utf16, Utf16, Utf16) -> Option<AuthenticationResult>

  /** The one user name SampleAuthenticator refuses. */
  function BadUser(): Utf16
  {
    Ascii("baduser")
  }

  /**
   * SampleAuthenticator.Authenticate: a result is always given; the
   * connection is allowed unless the user name is "baduser" in any case,
   * and the proxy is to connect as the client asked, with the client's
   * password and database, showing the client's user name.
   */
  function SampleAuthenticate(clientIp: Utf16, username: Utf16, password: Utf16, database: Utf16): (r: Option<AuthenticationResult>)
    ensures r.Some?
    ensures r.value.allowConnection <==> !EqualsIgnoreCase(username, BadUser())
    ensures r.value.connectAsUser == username && r.value.connectUsingPassword == password
    ensures r.value.connectToDatabase == database && r.value.displayUsername == Some(username)
  {
    Some(AuthenticationResult(
      allowConnection := !EqualsIgnoreCase(username, BadUser()),
      displayUsername := Some(username),
      connectToDatabase := database,
      connectAsUser := username,
      connectUsingPassword := password))
  }

  /** SampleAuthenticator as an IAuthenticator. */
  function Sample(): Authenticator
  {
    (ip, u, p, d) => SampleAuthenticate(ip, u, p, d)
  }

  /** The sample's answer does not depend on where the client connects from. */
  lemma SampleIgnoresAddress(ip1: Utf16, ip2: Utf16, u: Utf16, p: Utf16, d: Utf16)
    ensures Sample()(ip1, u, p, d) == Sample()(ip2, u, p, d)
  {
  }
}
