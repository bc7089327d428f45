/**
 * A message carried as a token stream (MS-TDS section 2.2.7): the
 * tabular result. The message object keeps its tokens in a list, in
 * insertion order; its payload is the tokens written one after another,
 * and reading a payload appends tokens in wire order until a DONE token
 * whose status lacks the More bit.
 *
 * Tokens are objects owned by one message. Every property setter of a
 * token drops its message's payload, so that the next BuildMessage
 * writes the tokens again.
 */
module TokenStreams {
  import opened Wire
  import opened Io
  import opened Tokens
  import MessageTokens
  import LoginAckTokens
  import EnvChangeTokens
  import FeatureExtAckTokens
  import DoneTokens

  // ---------------------------------------------------------------------
  // Tokens as objects
  // ---------------------------------------------------------------------

  /** A token of a message: its class's fields, and where it was read from. */
  class Token {
    const message: TokenStreamMessage
    var body: TokenBody
    var receivedOffset: int
    var receivedLength: int

    /** A token built to be sent: nothing was received for it. */
    constructor (message: TokenStreamMessage, body: TokenBody)
      ensures this.message == message && this.body == body
      ensures receivedOffset == 0 && receivedLength == 0
    {
      this.message := message;
      this.body := body;
      receivedOffset := 0;
      receivedLength := 0;
    }

    /** The registry's constructor followed by the body reader and the offset and length stamps. */
    constructor Read(message: TokenStreamMessage, r: Received)
      ensures this.message == message && View() == r
    {
      this.message := message;
      body := r.body;
      receivedOffset := r.receivedOffset;
      receivedLength := r.receivedLength;
    }

    /** The token's state as a value. */
    function View(): Received
      reads this
    {
      Received(body, receivedOffset, receivedLength)
    }

    /** What a property setter does besides setting its field: the message's payload is dropped and nothing else changes. */
    twostate predicate PayloadDropped()
      reads this, message
    {
      && message.payload == None
      && message.tokens == old(message.tokens)
      && message.receivedPayload == old(message.receivedPayload)
      && receivedOffset == old(receivedOffset)
      && receivedLength == old(receivedLength)
    }

    // The properties of ERROR and INFO tokens.

    method SetNumber(n: i32)
      requires body.ErrorToken? || body.InfoToken?
      modifies this, message
      ensures body == old(body).(message := old(body).message.(number := n)) && PayloadDropped()
    {
      message.payload := None;
      body := body.(message := body.message.(number := n));
    }

    method SetState(s: byte)
      requires body.ErrorToken? || body.InfoToken?
      modifies this, message
      ensures body == old(body).(message := old(body).message.(state := s)) && PayloadDropped()
    {
      message.payload := None;
      body := body.(message := body.message.(state := s));
    }

    method SetClass(c: byte)
      requires body.ErrorToken? || body.InfoToken?
      modifies this, message
      ensures body == old(body).(message := old(body).message.(msgClass := c)) && PayloadDropped()
    {
      message.payload := None;
      body := body.(message := body.message.(msgClass := c));
    }

    method SetMsgText(s: Utf16)
      requires body.ErrorToken? || body.InfoToken?
      modifies this, message
      ensures body == old(body).(message := old(body).message.(msgText := s)) && PayloadDropped()
    {
      message.payload := None;
      body := body.(message := body.message.(msgText := s));
    }

    method SetServerName(s: Utf16)
      requires body.ErrorToken? || body.InfoToken?
      modifies this, message
      ensures body == old(body).(message := old(body).message.(serverName := s)) && PayloadDropped()
    {
      message.payload := None;
      body := body.(message := body.message.(serverName := s));
    }

    method SetProcName(s: Utf16)
      requires body.ErrorToken? || body.InfoToken?
      modifies this, message
      ensures body == old(body).(message := old(body).message.(procName := s)) && PayloadDropped()
    {
      message.payload := None;
      body := body.(message := body.message.(procName := s));
    }

    method SetLineNumber(n: i32)
      requires body.ErrorToken? || body.InfoToken?
      modifies this, message
      ensures body == old(body).(message := old(body).message.(lineNumber := n)) && PayloadDropped()
    {
      message.payload := None;
      body := body.(message := body.message.(lineNumber := n));
    }

    // The properties of the LOGINACK token.

    method SetInterface(b: byte)
      requires body.LoginAck?
      modifies this, message
      ensures body == LoginAck(old(body).loginAck.(iface := b)) && PayloadDropped()
    {
      message.payload := None;
      body := LoginAck(body.loginAck.(iface := b));
    }

    method SetTdsVersion(v: u32)
      requires body.LoginAck?
      modifies this, message
      ensures body == LoginAck(old(body).loginAck.(tdsVersion := v)) && PayloadDropped()
    {
      message.payload := None;
      body := LoginAck(body.loginAck.(tdsVersion := v));
    }

    method SetProgName(s: Utf16)
      requires body.LoginAck?
      modifies this, message
      ensures body == LoginAck(old(body).loginAck.(progName := s)) && PayloadDropped()
    {
      message.payload := None;
      body := LoginAck(body.loginAck.(progName := s));
    }

    method SetProgVersion(v: LoginAckTokens.ProgVersion)
      requires body.LoginAck?
      modifies this, message
      ensures body == LoginAck(old(body).loginAck.(progVersion := v)) && PayloadDropped()
    {
      message.payload := None;
      body := LoginAck(body.loginAck.(progVersion := v));
    }

    // The properties of the ENVCHANGE token, as EnvChangeTokens states them.

    method SetType(t: byte)
      requires body.EnvChange?
      modifies this, message
      ensures body == EnvChange(EnvChangeTokens.SetType(old(body).envChange, t)) && PayloadDropped()
    {
      message.payload := None;
      body := EnvChange(EnvChangeTokens.SetType(body.envChange, t));
    }

    /** The OldValue setter: a refused value changes nothing, the payload included. */
    method SetOldValue(v: Option<bytes>) returns (r: Result<()>)
      requires body.EnvChange?
      modifies this, message
      ensures var s := EnvChangeTokens.SetOldValue(old(body).envChange, v);
        && (s.Ok? ==> r == Ok(()) && body == EnvChange(s.value) && PayloadDropped())
        && (s.Err? ==> r == Err(s.error) && unchanged(this, message))
    {
      var s := EnvChangeTokens.SetOldValue(body.envChange, v);
      if s.Err? {
        return Err(s.error);
      }
      message.payload := None;
      body := EnvChange(s.value);
      r := Ok(());
    }

    /** The NewValue setter: a refused value changes nothing, the payload included. */
    method SetNewValue(v: Option<bytes>) returns (r: Result<()>)
      requires body.EnvChange?
      modifies this, message
      ensures var s := EnvChangeTokens.SetNewValue(old(body).envChange, v);
        && (s.Ok? ==> r == Ok(()) && body == EnvChange(s.value) && PayloadDropped())
        && (s.Err? ==> r == Err(s.error) && unchanged(this, message))
    {
      var s := EnvChangeTokens.SetNewValue(body.envChange, v);
      if s.Err? {
        return Err(s.error);
      }
      message.payload := None;
      body := EnvChange(s.value);
      r := Ok(());
    }

    // The property of the FEATUREEXTACK token.

    method SetFeatureAckOpts(opts: Option<seq<FeatureExtAckTokens.FeatureAckOpt>>)
      requires body.FeatureExtAck?
      modifies this, message
      ensures body == FeatureExtAck(FeatureExtAckTokens.StoredOpts(opts)) && PayloadDropped()
    {
      message.payload := None;
      body := FeatureExtAck(FeatureExtAckTokens.StoredOpts(opts));
    }

    // The properties of the DONE token.

    method SetStatus(s: u16)
      requires body.Done?
      modifies this, message
      ensures body == Done(old(body).done.(status := s)) && PayloadDropped()
    {
      message.payload := None;
      body := Done(body.done.(status := s));
    }

    method SetCurCmd(c: u16)
      requires body.Done?
      modifies this, message
      ensures body == Done(old(body).done.(curCmd := c)) && PayloadDropped()
    {
      message.payload := None;
      body := Done(body.done.(curCmd := c));
    }

    method SetDoneRowCount(n: u64)
      requires body.Done?
      modifies this, message
      ensures body == Done(old(body).done.(doneRowCount := n)) && PayloadDropped()
    {
      message.payload := None;
      body := Done(body.done.(doneRowCount := n));
    }
  }

  /** The states of a list of tokens. */
  function Views(ts: seq<Token>): (r: seq<Received>)
    reads set t | t in ts
  {
    seq(|ts|, i requires 0 <= i < |ts| reads ts => ts[i].View())
  }

  /** Tokens whose states are rs, one by one. */
  lemma ViewsAre(ts: seq<Token>, rs: seq<Received>)
    requires |ts| == |rs| && forall i :: 0 <= i < |ts| ==> ts[i].View() == rs[i]
    ensures Views(ts) == rs
  {
  }

  // ---------------------------------------------------------------------
  // The payload of a token list
  // ---------------------------------------------------------------------

  /** A token writer: the bytes a token body is written as, or the failure. */
  type TokenWrite = TokenBody -> Result<bytes>

  /** WriteToBinaryWriter at a version: the id byte, then the body. */
  function PayloadWriter(version: u32): TokenWrite
  {
    t => Encode(version, t)
  }

  /** The payload writer fails exactly on the tokens that cannot be written, with an argument error. */
  lemma PayloadWriterFails(version: u32, t: TokenBody)
    ensures PayloadWriter(version)(t).Ok? <==> Writable(t)
    ensures PayloadWriter(version)(t).Err? ==> PayloadWriter(version)(t).error == Argument
  {
  }

  /**
   * GeneratePayload's writes: each token written in list order, the
   * first failure ending them.
   */
  function Serialized(write: TokenWrite, ts: seq<Received>): (r: Result<bytes>)
    ensures r.Ok? <==> forall i :: 0 <= i < |ts| ==> write(ts[i].body).Ok?
    ensures r.Err? ==> exists i :: 0 <= i < |ts| && write(ts[i].body) == Err(r.error)
  {
    if |ts| == 0 then Ok([])
    else
      var e :- write(ts[0].body);
      var rest := Serialized(write, ts[1..]);
      assert forall i :: 1 <= i < |ts| ==> ts[i] == ts[1..][i - 1];
      if rest.Err? then Err(rest.error) else Ok(e + rest.value)
  }

  /** The payload of two lists of tokens is the payload of the first followed by that of the second. */
  lemma {:induction false} SerializedAppend(write: TokenWrite, a: seq<Received>, b: seq<Received>)
    requires Serialized(write, a).Ok? && Serialized(write, b).Ok?
    ensures Serialized(write, a + b) == Ok(Serialized(write, a).value + Serialized(write, b).value)
    decreases |a|
  {
    if |a| == 0 {
      assert a + b == b;
      assert [] + Serialized(write, b).value == Serialized(write, b).value;
    } else {
      assert (a + b)[0] == a[0] && (a + b)[1..] == a[1..] + b;
      SerializedAppend(write, a[1..], b);
      var e := write(a[0].body).value;
      assert e + (Serialized(write, a[1..]).value + Serialized(write, b).value)
        == (e + Serialized(write, a[1..]).value) + Serialized(write, b).value;
    }
  }

  /** The payload of one token is that token written. */
  lemma SerializedOne(write: TokenWrite, t: Received)
    requires write(t.body).Ok?
    ensures Serialized(write, [t]) == write(t.body)
  {
    assert [t][1..] == [];
    assert write(t.body).value + [] == write(t.body).value;
  }

  /** write is WriteToBinaryWriter at version, at every token it is applied to. */
  ghost predicate WritesAt(write: TokenWrite, version: u32)
  {
    forall t {:trigger Encode(version, t)} :: write(t) == Encode(version, t)
  }

  lemma PayloadWriterIs(version: u32)
    ensures WritesAt(PayloadWriter(version), version)
  {
  }

  /** A token list that cannot be written fails with an argument error. */
  lemma {:induction false} SerializedFailure(version: u32, ts: seq<Received>)
    requires Serialized(PayloadWriter(version), ts).Err?
    ensures Serialized(PayloadWriter(version), ts).error == Argument
  {
    var s := Serialized(PayloadWriter(version), ts);
    var j :| 0 <= j < |ts| && PayloadWriter(version)(ts[j].body) == Err(s.error);
    PayloadWriterFails(version, ts[j].body);
  }

  // ---------------------------------------------------------------------
  // Reading a token stream
  // ---------------------------------------------------------------------

  /** A DONE token whose status lacks the More bit: the stream ends with it. */
  predicate Terminal(b: TokenBody)
  {
    b.Done? && !DoneTokens.HasMore(b.done.status)
  }

  /**
   * The rethrow around ReadFromBinaryReader: an invalid message keeps its
   * kind, any other failure becomes a plain fault, both with the token's
   * number and offset.
   */
  function Rethrown(e: Error, tn: nat, offs: nat): (r: Error)
    ensures r.TokenInvalid? || r.TokenFault?
    ensures r.tokenNumber == tn && r.tokenOffset == offs
    ensures r.TokenInvalid? <==> e == InvalidMessage
  {
    if e == InvalidMessage then TokenInvalid(tn, offs) else TokenFault(tn, offs)
  }

  /** A token reader: the token read at a position, stamped with an offset, and where reading stopped. */
  type TokenRead = (nat, nat) -> Result<Parsed<Received>>

  /** ReadFromBinaryReader on a payload at a version. */
  function PayloadReader(version: u32, data: bytes): TokenRead
  {
    (p: nat, o: nat) => ParseToken(version, data, p, o)
  }

  /**
   * What the loop relies on of a reader: it only succeeds before end,
   * moves past the id byte, stamps the offset it is given and reports at
   * least one byte.
   */
  ghost predicate Reads(read: TokenRead, end: nat)
  {
    forall p: nat, o: nat :: read(p, o).Ok? ==>
      && p < end && read(p, o).value.next > p + 1
      && read(p, o).value.value.receivedOffset == o && read(p, o).value.value.receivedLength >= 1
  }

  lemma PayloadReaderReads(version: u32, data: bytes)
    ensures Reads(PayloadReader(version, data), |data|)
  {
  }

  /** read is ReadFromBinaryReader on data at version, at every position it is applied to. */
  ghost predicate ReadsAt(read: TokenRead, version: u32, data: bytes)
  {
    forall p: nat, o: nat {:trigger ParseToken(version, data, p, o)} :: read(p, o) == ParseToken(version, data, p, o)
  }

  lemma PayloadReaderIs(version: u32, data: bytes)
    ensures ReadsAt(PayloadReader(version, data), version, data)
  {
  }

  /** The payload reader fails at the end of the payload with end of stream. */
  lemma PayloadReaderAtEnd(version: u32, data: bytes, p: nat, o: nat)
    requires p >= |data|
    ensures PayloadReader(version, data)(p, o) == Err(EndOfStream)
  {
  }

  /**
   * The loop of InterpretPayload from position pos, tn tokens having been
   * read and the next one to be stamped with offset offs: the tokens read
   * in wire order, and the failure that ended the loop, if any.
   */
  function Decode(read: TokenRead, end: nat, pos: nat, tn: nat, offs: nat): (r: (seq<Received>, Option<Error>))
    requires Reads(read, end)
    ensures r.1.None? ==> |r.0| > 0 && Terminal(r.0[|r.0| - 1].body)
    decreases end - pos
  {
    var t := read(pos, offs);
    if t.Err? then ([], Some(Rethrown(t.error, tn + 1, offs)))
    else
      var rec := t.value.value;
      if Terminal(rec.body) then ([rec], None)
      else
        var rest := Decode(read, end, t.value.next, tn + 1, offs + rec.receivedLength);
        ([rec] + rest.0, rest.1)
  }

  /** One failed read ends the loop with what was read before it. */
  lemma StepFails(read: TokenRead, end: nat, pos: nat, tn: nat, offs: nat, got: seq<Received>, whole: (seq<Received>, Option<Error>))
    requires Reads(read, end) && read(pos, offs).Err?
    requires whole == After(got, Decode(read, end, pos, tn, offs))
    ensures whole == (got, Some(Rethrown(read(pos, offs).error, tn + 1, offs)))
  {
    assert got + [] == got;
  }

  /** One successful read moves the rest of the loop past the token it read. */
  lemma StepReads(read: TokenRead, end: nat, pos: nat, tn: nat, offs: nat, got: seq<Received>, whole: (seq<Received>, Option<Error>))
    requires Reads(read, end) && read(pos, offs).Ok?
    requires whole == After(got, Decode(read, end, pos, tn, offs))
    ensures var t := read(pos, offs).value;
      && (Terminal(t.value.body) ==> whole == (got + [t.value], None))
      && (!Terminal(t.value.body) ==>
            offs + t.value.receivedLength >= 0 &&
            whole == After(got + [t.value], Decode(read, end, t.next, tn + 1, offs + t.value.receivedLength)))
  {
    var t := read(pos, offs).value;
    if !Terminal(t.value.body) {
      var rest := Decode(read, end, t.next, tn + 1, offs + t.value.receivedLength);
      assert got + ([t.value] + rest.0) == (got + [t.value]) + rest.0;
    }
  }

  /** What InterpretPayload reads from a whole payload. */
  function Interpreted(version: u32, data: bytes): (r: (seq<Received>, Option<Error>))
    ensures r.1.None? ==> |r.0| > 0 && Terminal(r.0[|r.0| - 1].body)
  {
    PayloadReaderReads(version, data);
    Decode(PayloadReader(version, data), |data|, 0, 0, 0)
  }

  /** The tokens read before a run of the loop followed by what it reads. */
  function After(got: seq<Received>, d: (seq<Received>, Option<Error>)): (seq<Received>, Option<Error>)
  {
    (got + d.0, d.1)
  }

  /** The sum of the received lengths of a list of tokens. */
  function LengthSum(rs: seq<Received>): int
  {
    if |rs| == 0 then 0 else rs[0].receivedLength + LengthSum(rs[1..])
  }

  /** Each token is stamped with offs plus the received lengths of those before it, and reports at least one byte. */
  predicate Stamped(rs: seq<Received>, offs: int)
  {
    |rs| > 0 ==> rs[0].receivedOffset == offs && rs[0].receivedLength >= 1 && Stamped(rs[1..], offs + rs[0].receivedLength)
  }

  /** Stamped, token by token: each offset is offs plus the sum of the lengths before it. */
  lemma {:induction false} StampedOffsets(rs: seq<Received>, offs: int)
    requires Stamped(rs, offs)
    ensures forall i :: 0 <= i < |rs| ==> rs[i].receivedOffset == offs + LengthSum(rs[..i]) && rs[i].receivedLength >= 1
    decreases |rs|
  {
    if |rs| > 0 {
      StampedOffsets(rs[1..], offs + rs[0].receivedLength);
      forall i | 1 <= i < |rs|
        ensures rs[i].receivedOffset == offs + LengthSum(rs[..i]) && rs[i].receivedLength >= 1
      {
        assert rs[..i][1..] == rs[1..][..i - 1];
        assert rs[i] == rs[1..][i - 1];
      }
      assert rs[..0] == [];
    }
  }

  /**
   * Reading stops right after the first terminal DONE token: every token
   * before the last is not terminal, and the loop ends without failure
   * exactly when the last token read is terminal. A payload that runs out
   * before a terminal DONE therefore fails.
   */
  lemma {:induction false} StopsAtTerminal(read: TokenRead, end: nat, pos: nat, tn: nat, offs: nat)
    requires Reads(read, end)
    ensures var d := Decode(read, end, pos, tn, offs);
      && (forall i :: 0 <= i < |d.0| - 1 ==> !Terminal(d.0[i].body))
      && (d.1.None? <==> |d.0| > 0 && Terminal(d.0[|d.0| - 1].body))
    decreases end - pos
  {
    var t := read(pos, offs);
    if t.Ok? && !Terminal(t.value.value.body) {
      var rec := t.value.value;
      StopsAtTerminal(read, end, t.value.next, tn + 1, offs + rec.receivedLength);
      var rest := Decode(read, end, t.value.next, tn + 1, offs + rec.receivedLength);
      assert forall i :: 1 <= i < |rest.0| + 1 ==> ([rec] + rest.0)[i] == rest.0[i - 1];
    }
  }

  /**
   * Each token read is stamped with the offset given to the first plus
   * the received lengths of the tokens before it, and a failure is a
   * rethrown token error naming the token after those read and the
   * offset it was to have.
   */
  lemma {:induction false} OffsetsAreSums(read: TokenRead, end: nat, pos: nat, tn: nat, offs: nat)
    requires Reads(read, end)
    ensures var d := Decode(read, end, pos, tn, offs);
      && Stamped(d.0, offs)
      && (d.1.Some? ==> d.1.value.TokenInvalid? || d.1.value.TokenFault?)
      && (d.1.Some? ==> d.1.value.tokenNumber == tn + |d.0| + 1 && d.1.value.tokenOffset == offs + LengthSum(d.0))
    decreases end - pos
  {
    var t := read(pos, offs);
    if t.Ok? {
      var rec := t.value.value;
      if Terminal(rec.body) {
        assert [rec][1..] == [];
      } else {
        OffsetsAreSums(read, end, t.value.next, tn + 1, offs + rec.receivedLength);
        var rest := Decode(read, end, t.value.next, tn + 1, offs + rec.receivedLength);
        assert ([rec] + rest.0)[1..] == rest.0;
      }
    }
  }

  /**
   * The tokens InterpretPayload reads from a payload: each stamped with
   * the sum of the received lengths before it, none but the last a
   * terminal DONE, and the last one exactly when no failure ended the
   * loop; a failure names the token after those read and its offset.
   */
  lemma InterpretedTokens(version: u32, data: bytes)
    ensures var d := Interpreted(version, data);
      && (forall i :: 0 <= i < |d.0| ==> d.0[i].receivedOffset == LengthSum(d.0[..i]) && d.0[i].receivedLength >= 1)
      && (forall i :: 0 <= i < |d.0| - 1 ==> !Terminal(d.0[i].body))
      && (d.1.None? <==> |d.0| > 0 && Terminal(d.0[|d.0| - 1].body))
      && (d.1.Some? ==> d.1.value.TokenInvalid? || d.1.value.TokenFault?)
      && (d.1.Some? ==> d.1.value.tokenNumber == |d.0| + 1 && d.1.value.tokenOffset == LengthSum(d.0))
  {
    PayloadReaderReads(version, data);
    var read := PayloadReader(version, data);
    OffsetsAreSums(read, |data|, 0, 0, 0);
    StampedOffsets(Decode(read, |data|, 0, 0, 0).0, 0);
    StopsAtTerminal(read, |data|, 0, 0, 0);
  }

  /** An empty payload fails on its first token, at offset 0. */
  lemma EmptyPayloadFails(version: u32)
    ensures Interpreted(version, []) == ([], Some(TokenFault(1, 0)))
  {
    PayloadReaderAtEnd(version, [], 0, 0);
  }

  /** The index of the first token with the given id, if any. */
  function FirstWithId(rs: seq<Received>, id: byte): (k: Option<nat>)
    ensures k.Some? ==> k.value < |rs| && TokenId(rs[k.value].body) == id
    ensures k.Some? ==> forall j :: 0 <= j < k.value ==> TokenId(rs[j].body) != id
    ensures k.None? <==> forall j :: 0 <= j < |rs| ==> TokenId(rs[j].body) != id
  {
    if |rs| == 0 then None
    else if TokenId(rs[0].body) == id then Some(0)
    else
      var k := FirstWithId(rs[1..], id);
      assert forall j :: 1 <= j < |rs| ==> rs[j] == rs[1..][j - 1];
      if k.None? then None else Some(k.value + 1)
  }

  /** The length of the run of tokens at the front of ts that belong to m. */
  function OwnedRun(ts: seq<Token>, m: TokenStreamMessage): (k: nat)
    ensures k <= |ts|
    ensures forall i :: 0 <= i < k ==> ts[i].message == m
    ensures k < |ts| ==> ts[k].message != m
  {
    if |ts| == 0 || ts[0].message != m then 0
    else
      var k := OwnedRun(ts[1..], m);
      assert forall i :: 1 <= i < k + 1 ==> ts[i] == ts[1..][i - 1];
      k + 1
  }

  // ---------------------------------------------------------------------
  // The message object
  // ---------------------------------------------------------------------

  /** TDSTokenStreamMessage: the token list, the payload and the payload as received. */
  class TokenStreamMessage {
    var tokens: seq<Token>
    var payload: Option<bytes>
    var receivedPayload: Option<bytes>

    constructor ()
      ensures tokens == [] && payload == None && receivedPayload == None
    {
      tokens := [];
      payload := None;
      receivedPayload := None;
    }

    /** RawMessage: the payload itself, set as is. */
    method SetRawMessage(p: Option<bytes>)
      modifies this
      ensures payload == p && tokens == old(tokens) && receivedPayload == old(receivedPayload)
    {
      payload := p;
    }

    /** ClearTokens empties the list and leaves the payload as it is. */
    method ClearTokens()
      modifies this
      ensures tokens == [] && payload == old(payload) && receivedPayload == old(receivedPayload)
    {
      tokens := [];
    }

    /** AddToken appends a token of this message and refuses one of another. */
    method AddToken(t: Token) returns (r: Result<()>)
      modifies this
      ensures t.message == this ==> r == Ok(()) && tokens == old(tokens) + [t]
      ensures t.message != this ==> r == Err(InvalidOperation) && tokens == old(tokens)
      ensures payload == old(payload) && receivedPayload == old(receivedPayload)
    {
      if t.message != this {
        return Err(InvalidOperation);
      }
      tokens := tokens + [t];
      r := Ok(());
    }

    /**
     * AddTokens: nothing for a null list; otherwise AddToken for each in
     * turn, so the tokens up to the first of another message are kept
     * and that one fails the call.
     */
    method AddTokens(ts: Option<seq<Token>>) returns (r: Result<()>)
      modifies this
      ensures ts.None? ==> r == Ok(()) && tokens == old(tokens)
      ensures ts.Some? ==> var k := OwnedRun(ts.value, this);
        && tokens == old(tokens) + ts.value[..k]
        && r == (if k < |ts.value| then Err(InvalidOperation) else Ok(()))
      ensures payload == old(payload) && receivedPayload == old(receivedPayload)
    {
      if ts.None? {
        return Ok(());
      }
      var s := ts.value;
      ghost var k := OwnedRun(s, this);
      var i := 0;
      while i < |s|
        invariant 0 <= i <= k
        invariant tokens == old(tokens) + s[..i]
        invariant payload == old(payload) && receivedPayload == old(receivedPayload)
      {
        var a := AddToken(s[i]);
        if a.Err? {
          return a;
        }
        assert s[..i + 1] == s[..i] + [s[i]];
        i := i + 1;
      }
      r := Ok(());
    }

    /** FindToken: the first token in the list with the given id, or null. */
    function FindToken(id: byte): (r: Option<Token>)
      reads this, set t | t in tokens
      ensures r.Some? ==> exists i :: 0 <= i < |tokens| && tokens[i] == r.value && TokenId(tokens[i].body) == id
                                    && forall j :: 0 <= j < i ==> TokenId(tokens[j].body) != id
      ensures r.None? <==> forall j :: 0 <= j < |tokens| ==> TokenId(tokens[j].body) != id
    {
      var vs := Views(tokens);
      assert forall j :: 0 <= j < |tokens| ==> vs[j].body == tokens[j].body;
      var k := FirstWithId(vs, id);
      if k.None? then None else Some(tokens[k.value])
    }

    /**
     * GeneratePayload: every token written in list order into a fresh
     * stream; the payload is set only once all are written.
     */
    method GeneratePayload(version: u32) returns (r: Result<()>)
      modifies this
      ensures tokens == old(tokens) && receivedPayload == old(receivedPayload)
      ensures var s := Serialized(PayloadWriter(version), Views(tokens));
        && (s.Ok? ==> r == Ok(()) && payload == Some(s.value))
        && (s.Err? ==> r == Err(Argument) && payload == old(payload))
    {
      PayloadWriterIs(version);
      r := GenerateWith(version, PayloadWriter(version));
    }

    /** GeneratePayload, writing with write, the token writer at version. */
    method GenerateWith(version: u32, ghost write: TokenWrite) returns (r: Result<()>)
      requires WritesAt(write, version)
      modifies this
      ensures tokens == old(tokens) && receivedPayload == old(receivedPayload)
      ensures var s := Serialized(write, Views(tokens));
        && (s.Ok? ==> r == Ok(()) && payload == Some(s.value))
        && (s.Err? ==> r == Err(Argument) && payload == old(payload))
    {
      var w := new Writer();
      var vs := Views(tokens);
      r := WriteTokens(w, version, vs, write);
      if r.Err? {
        return;
      }
      assert w.written == Serialized(write, vs).value;
      payload := Some(w.written);
    }

    /** EnsurePayload (and BuildMessage, which calls it): the payload is generated only when there is none. */
    method EnsurePayload(version: u32) returns (r: Result<()>)
      modifies this
      ensures tokens == old(tokens) && receivedPayload == old(receivedPayload)
      ensures old(payload).Some? ==> r == Ok(()) && payload == old(payload)
      ensures old(payload).None? ==> var s := Serialized(PayloadWriter(version), Views(tokens));
        && (s.Ok? ==> r == Ok(()) && payload == Some(s.value))
        && (s.Err? ==> r == Err(Argument) && payload == None)
    {
      if payload.None? {
        r := GeneratePayload(version);
      } else {
        r := Ok(());
      }
    }

    /**
     * InterpretPayload: tokens are read from the payload and appended in
     * wire order until a terminal DONE token, as Interpreted states; a
     * failure is rethrown with the token's number and offset, the tokens
     * read before it staying in the list.
     */
    method InterpretPayload(version: u32) returns (r: Result<()>)
      modifies this
      ensures payload == old(payload) && receivedPayload == old(receivedPayload)
      ensures old(payload).None? ==> r == Err(InvalidOperation) && tokens == old(tokens)
      ensures old(payload).Some? ==> var d := Interpreted(version, old(payload).value);
        && |old(tokens)| <= |tokens| && tokens[..|old(tokens)|] == old(tokens)
        && Views(tokens[|old(tokens)|..]) == d.0
        && r == (if d.1.None? then Ok(()) else Err(d.1.value))
      ensures forall i :: |old(tokens)| <= i < |tokens| ==> fresh(tokens[i]) && tokens[i].message == this
    {
      if payload.None? {
        return Err(InvalidOperation);
      }
      var rd := new Reader(payload.value);
      PayloadReaderReads(version, rd.data);
      PayloadReaderIs(version, rd.data);
      r := ReadTokens(rd, version, PayloadReader(version, rd.data));
    }

    /** A token read by the loop of InterpretPayload, made and added to the list. */
    method AddRead(rec: Received) returns (token: Token)
      modifies this
      ensures fresh(token) && token.message == this && token.View() == rec
      ensures tokens == old(tokens) + [token]
      ensures payload == old(payload) && receivedPayload == old(receivedPayload)
    {
      token := new Token.Read(this, rec);
      var a := AddToken(token);
    }

    /**
     * The while loop of InterpretPayload, reading with read, the token
     * reader of rd's bytes: tn counts the tokens, offs is the sum of the
     * received lengths so far.
     */
    method ReadTokens(rd: Reader, version: u32, ghost read: TokenRead) returns (r: Result<()>)
      requires rd.pos == 0 && Reads(read, |rd.data|)
      requires ReadsAt(read, version, rd.data)
      modifies this, rd
      ensures payload == old(payload) && receivedPayload == old(receivedPayload)
      ensures var d := Decode(read, |rd.data|, 0, 0, 0);
        && |old(tokens)| <= |tokens| && tokens[..|old(tokens)|] == old(tokens)
        && Views(tokens[|old(tokens)|..]) == d.0
        && r == (if d.1.None? then Ok(()) else Err(d.1.value))
      ensures forall i :: |old(tokens)| <= i < |tokens| ==> fresh(tokens[i]) && tokens[i].message == this
    {
      var isDone := false;
      var offs: nat := 0;
      var tn: nat := 0;
      ghost var end := |rd.data|;
      ghost var added: seq<Token> := [];
      ghost var got: seq<Received> := [];
      ghost var whole := Decode(read, end, 0, 0, 0);
      assert [] + whole.0 == whole.0;
      while !isDone
        invariant payload == old(payload) && receivedPayload == old(receivedPayload)
        invariant tokens == old(tokens) + added
        invariant |added| == |got|
        invariant forall i :: 0 <= i < |added| ==> fresh(added[i]) && added[i].message == this && added[i].View() == got[i]
        invariant !isDone ==> whole == After(got, Decode(read, end, rd.pos, tn, offs))
        invariant isDone ==> whole == (got, None)
        decreases if isDone then 0 else 1, end - rd.pos
      {
        ghost var pos := rd.pos;
        var t := ReadNext(rd, version, offs, read);
        if t.Err? {
          StepFails(read, end, pos, tn, offs, got, whole);
          assert tokens[|old(tokens)|..] == added;
          ViewsAre(added, got);
          return Err(Rethrown(t.error, tn + 1, offs));
        }
        var rec := t.value.value;
        StepReads(read, end, pos, tn, offs, got, whole);
        var token := AddRead(rec);
        added := added + [token];
        got := got + [rec];
        isDone := Terminal(token.body);
        offs := offs + token.receivedLength;
        tn := tn + 1;
      }
      assert tokens[|old(tokens)|..] == added;
      ViewsAre(added, got);
      r := Ok(());
    }
  }

  /**
   * The foreach of GeneratePayload, writing with write, the token writer
   * at version: each token in list order, the first that cannot be
   * written ending it with an argument error.
   */
  method WriteTokens(w: Writer, version: u32, ts: seq<Received>, ghost write: TokenWrite) returns (r: Result<()>)
    requires WritesAt(write, version)
    modifies w
    ensures var s := Serialized(write, ts);
      && (s.Ok? ==> r == Ok(()) && w.written == old(w.written) + s.value)
      && (s.Err? ==> r == Err(Argument))
  {
    var i := 0;
    while i < |ts|
      invariant 0 <= i <= |ts|
      invariant Serialized(write, ts[..i]).Ok? && w.written == old(w.written) + Serialized(write, ts[..i]).value
    {
      var t := WriteNext(w, version, ts[i].body, write);
      if t.Err? {
        return Err(Argument);
      }
      SerializedOne(write, ts[i]);
      SerializedAppend(write, ts[..i], [ts[i]]);
      assert ts[..i + 1] == ts[..i] + [ts[i]];
      i := i + 1;
    }
    assert ts[..i] == ts;
    r := Ok(());
  }

  /** ReadFromBinaryReader at the reader's position, as the token reader read states it. */
  method ReadNext(rd: Reader, version: u32, offs: nat, ghost read: TokenRead) returns (r: Result<Parsed<Received>>)
    requires ReadsAt(read, version, rd.data)
    modifies rd
    ensures r == read(old(rd.pos), offs)
    ensures r.Ok? ==> rd.pos == r.value.next
  {
    r := ReadToken(rd, version, offs);
  }

  /** WriteToBinaryWriter, as the token writer write states it. */
  method WriteNext(w: Writer, version: u32, t: TokenBody, ghost write: TokenWrite) returns (r: Result<()>)
    requires WritesAt(write, version)
    modifies w
    ensures r.Ok? <==> write(t).Ok?
    ensures r.Err? ==> r == Err(Argument)
    ensures r.Ok? ==> w.written == old(w.written) + write(t).value
  {
    r := WriteToken(w, version, t);
    assert write(t) == Encode(version, t);
  }
}
