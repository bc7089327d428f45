/**
 * TDSPreLoginMessage: the PRELOGIN message of section 2.2.6.5 of
 * [MS-TDS]. Its payload is an option table (a token byte, a big-endian
 * offset and a big-endian length per option, then the 0xFF terminator)
 * followed by the option data.
 */
module PreLogin {
  import opened Wire
  import opened Io
  import Ssl

  const MessageType: byte := 18

  // OptionToken
  const TokVersion: byte := 0x00
  const TokEncryption: byte := 0x01
  const TokInstOpt: byte := 0x02
  const TokThreadId: byte := 0x03
  const TokMars: byte := 0x04
  const TokTraceId: byte := 0x05
  const TokFedAuthRequired: byte := 0x06
  const TokNonce: byte := 0x07
  const Terminator: byte := 0xFF

  // EncryptionEnum
  const EncryptOff: byte := 0x00
  const EncryptOn: byte := 0x01
  const EncryptNotSupported: byte := 0x02
  const EncryptRequired: byte := 0x03

  // MarsEnum
  const MarsOff: byte := 0x00
  const MarsOn: byte := 0x01

  datatype VersionInfo = VersionInfo(version: u32, subBuild: u16)

  /** Guid.ToByteArray: always 16 bytes. */
  type GuidBytes = b: bytes | |b| == 16 witness seq(16, i => 0)

  /** The ActivityId setter admits 0 or 20 bytes. */
  type ActivityId = b: bytes | |b| == 0 || |b| == 20 witness []

  /** The Nonce setter admits exactly 32 bytes. */
  type Nonce = b: bytes | |b| == 32 witness seq(32, i => 0)

  datatype TraceIdData = TraceIdData(connId: GuidBytes, activityId: ActivityId)

  /** The option values of a PRELOGIN message; None is a null property. The enums keep their raw byte. */
  datatype Fields = Fields(
    version: Option<VersionInfo>,
    encryption: Option<byte>,
    instValidity: Option<bytes>,
    threadId: Option<u32>,
    mars: Option<byte>,
    traceId: Option<TraceIdData>,
    fedAuthRequired: Option<byte>,
    nonce: Option<Nonce>)

  const NoFields := Fields(None, None, None, None, None, None, None, None)

  // ---------------------------------------------------------------------
  // GeneratePayload, as values
  // ---------------------------------------------------------------------

  /** One option to encode: its token, the length the table declares for it, and the bytes written for it. */
  datatype Entry = Entry(token: byte, declared: nat, value: bytes)

  /** An entry of the option table as stored: offsets and lengths are ushorts. */
  datatype OptionData = OptionData(token: byte, offset: u16, length: u16)

  const TerminatorEntry := Entry(Terminator, 0, [])

  /**
   * The entry of option i (the token numbers 0 to 7 follow the order in
   * which GeneratePayload visits the properties), None for a null
   * property; the Nonce is declared with nonceDeclared bytes.
   */
  function EntryAt(f: Fields, i: nat, nonceDeclared: nat): (r: Option<Entry>)
    requires i < 8
    ensures r.Some? ==> r.value.token == i
  {
    if i == 0 then (match f.version case Some(v) => Some(Entry(TokVersion, 6, BE(v.version, 4) + LE16(v.subBuild))) case None => None)
    else if i == 1 then (match f.encryption case Some(e) => Some(Entry(TokEncryption, 1, [e])) case None => None)
    else if i == 2 then (match f.instValidity case Some(b) => Some(Entry(TokInstOpt, |b|, b)) case None => None)
    else if i == 3 then (match f.threadId case Some(t) => Some(Entry(TokThreadId, 4, LE32(t))) case None => None)
    else if i == 4 then (match f.mars case Some(m) => Some(Entry(TokMars, 1, [m])) case None => None)
    else if i == 5 then (match f.traceId case Some(t) => Some(Entry(TokTraceId, 36, t.connId + t.activityId)) case None => None)
    else if i == 6 then (match f.fedAuthRequired case Some(x) => Some(Entry(TokFedAuthRequired, 1, [x])) case None => None)
    else (match f.nonce case Some(n) => Some(Entry(TokNonce, nonceDeclared, n)) case None => None)
  }

  function Present(o: Option<Entry>): (r: seq<Entry>)
    ensures |r| <= 1
  {
    if o.Some? then [o.value] else []
  }

  /** The entries of the present options from option i on, in token order. */
  function EntriesFrom(f: Fields, i: nat, nonceDeclared: nat): (r: seq<Entry>)
    requires i <= 8
    ensures |r| <= 8 - i
    ensures forall k :: 0 <= k < |r| ==> i <= r[k].token < 8
    decreases 8 - i
  {
    if i == 8 then [] else Present(EntryAt(f, i, nonceDeclared)) + EntriesFrom(f, i + 1, nonceDeclared)
  }

  /** The AddToken calls of GeneratePayload: the present options in order, then the terminator. */
  function Entries(f: Fields, nonceDeclared: nat): (r: seq<Entry>)
    ensures 1 <= |r| <= 9 && r[|r| - 1] == TerminatorEntry
    ensures forall k :: 0 <= k < |r| - 1 ==> r[k].token < 8
  {
    EntriesFrom(f, 0, nonceDeclared) + [TerminatorEntry]
  }

  /** The declared length as AddToken receives it: a ushort. */
  function Declared16(e: Entry): u16 { Wrap(e.declared, 0x1_0000) }

  /** The AddToken calls: each offset is the running ushort sum of the lengths before it. */
  function AddTokens(es: seq<Entry>, offset: u16): (r: seq<OptionData>)
    ensures |r| == |es|
    ensures forall k :: 0 <= k < |es| ==> r[k].token == es[k].token && r[k].length == Declared16(es[k])
  {
    if |es| == 0 then []
    else [OptionData(es[0].token, offset, Declared16(es[0]))] + AddTokens(es[1..], Wrap(offset + Declared16(es[0]), 0x1_0000))
  }

  /** The table size: five bytes per option, one for the terminator. */
  function InitOffset(count: nat): nat
    requires count >= 1
  {
    5 * count - 4
  }

  /** The foreach that moves every offset past the table, in ushort arithmetic. */
  function Bumped(opts: seq<OptionData>, init: nat): (r: seq<OptionData>)
    ensures |r| == |opts|
  {
    seq(|opts|, k requires 0 <= k < |opts| => BumpOne(opts[k], init))
  }

  function BumpOne(o: OptionData, init: nat): OptionData
  {
    o.(offset := Wrap(o.offset + init, 0x1_0000))
  }

  /** WriteOption: the token, then (except for the terminator) offset and length, big-endian. */
  function OptionBytes(o: OptionData): (r: bytes)
    ensures |r| == if o.token == Terminator then 1 else 5
  {
    if o.token == Terminator then [o.token] else [o.token] + BE(o.offset, 2) + BE(o.length, 2)
  }

  /** The WriteOption calls over the table, in order. */
  function TableBytes(opts: seq<OptionData>): bytes
  {
    if |opts| == 0 then [] else OptionBytes(opts[0]) + TableBytes(opts[1..])
  }

  /** The option values as GeneratePayload writes them, one after the other. */
  function ValueBytes(es: seq<Entry>): bytes
  {
    if |es| == 0 then [] else es[0].value + ValueBytes(es[1..])
  }

  /** options.Sum(o => o.Length). */
  function SumDeclared(es: seq<Entry>): nat
  {
    if |es| == 0 then 0 else Declared16(es[0]) + SumDeclared(es[1..])
  }

  /** The option table GeneratePayload writes, offsets already moved past the table. */
  function TableOptions(es: seq<Entry>): seq<OptionData>
    requires |es| >= 1
  {
    Bumped(AddTokens(es, 0), InitOffset(|es|))
  }

  /** The size of the payload buffer: the table plus the declared option lengths. */
  function Capacity(es: seq<Entry>): nat
    requires |es| >= 1
  {
    InitOffset(|es|) + SumDeclared(es)
  }

  /**
   * The table and the values of the entries written into a buffer of
   * Capacity bytes: NotSupported when the writes overrun it, zero-filled
   * when they fall short.
   */
  function GenerateEntries(es: seq<Entry>): (r: Result<bytes>)
    requires |es| >= 1
    ensures r.Ok? ==> |r.value| == Capacity(es)
    ensures r.Err? ==> r.error == NotSupported
  {
    var w := TableBytes(TableOptions(es)) + ValueBytes(es);
    var cap := Capacity(es);
    if |w| > cap then Err(NotSupported) else Ok(w + Zeros(cap - |w|))
  }

  /** GeneratePayload with the Nonce declared at nonceDeclared bytes. */
  function GenerateWith(f: Fields, nonceDeclared: nat): (r: Result<bytes>)
  {
    GenerateEntries(Entries(f, nonceDeclared))
  }

  /** GeneratePayload as written: the Nonce is declared with length 1. */
  function GeneratePayloadAsWritten(f: Fields): (r: Result<bytes>)
    ensures r.Err? ==> r.error == NotSupported
    ensures r.Ok? ==> |r.value| == Capacity(Entries(f, 1))
  {
    GenerateWith(f, 1)
  }

  /** GeneratePayload with the Nonce declared at its 32 bytes. */
  function GeneratedPayload(f: Fields): (r: Result<bytes>)
    ensures r.Err? ==> r.error == NotSupported
    ensures r.Ok? ==> |r.value| == Capacity(Entries(f, 32))
  {
    GenerateWith(f, 32)
  }

  // ---------------------------------------------------------------------
  // InterpretPayload, as values
  // ---------------------------------------------------------------------

  /**
   * ReadOption at pos: a token byte (EndOfStream at the end); unless it
   * is the terminator, four more bytes of offset and length must remain,
   * and the option's data must lie within the payload.
   */
  function ReadOption(p: bytes, pos: nat): (r: Result<(OptionData, nat)>)
    ensures r.Err? ==> r.error == (if pos >= |p| then EndOfStream else InvalidMessage)
    ensures r.Ok? ==> pos < r.value.1 <= |p|
    ensures r.Ok? ==> (r.value.0.token == Terminator <==> r.value.1 == pos + 1)
    ensures r.Ok? && r.value.0.token != Terminator ==>
      r.value.0.offset + r.value.0.length <= |p| && r.value.1 == pos + 5
  {
    if pos >= |p| then Err(EndOfStream)
    else if p[pos] == Terminator then Ok((OptionData(Terminator, 0, 0), pos + 1))
    else if pos + 1 + 4 > |p| then Err(InvalidMessage)
    else
      var offset := BEValue(p[pos + 1..pos + 3]);
      var length := BEValue(p[pos + 3..pos + 5]);
      if offset + length > |p| then Err(InvalidMessage)
      else Ok((OptionData(p[pos], offset, length), pos + 5))
  }

  /**
   * ReadOption as written: the bound check demands only three bytes
   * after the token, so with exactly three left the length read runs
   * off the end of the payload.
   */
  function ReadOptionAsWritten(p: bytes, pos: nat): (r: Result<(OptionData, nat)>)
    ensures r.Err? ==> r.error == EndOfStream || r.error == InvalidMessage || r.error == IndexOutOfRange
    ensures r.Err? && r.error == IndexOutOfRange ==> pos + 4 == |p| && p[pos] != Terminator
    ensures r.Ok? ==> pos < r.value.1 <= |p|
    ensures r.Ok? && r.value.0.token != Terminator ==>
      r.value.0.offset + r.value.0.length <= |p| && r.value.1 == pos + 5
  {
    if pos >= |p| then Err(EndOfStream)
    else if p[pos] == Terminator then Ok((OptionData(Terminator, 0, 0), pos + 1))
    else if pos + 1 + 3 > |p| then Err(InvalidMessage)
    else
      var offset := BEValue(p[pos + 1..pos + 3]);
      if pos + 5 > |p| then Err(IndexOutOfRange)
      else
        var length := BEValue(p[pos + 3..pos + 5]);
        if offset + length > |p| then Err(InvalidMessage)
        else Ok((OptionData(p[pos], offset, length), pos + 5))
  }

  /** Options whose data lies within the payload. */
  predicate InBounds(p: bytes, opts: seq<OptionData>)
  {
    forall k :: 0 <= k < |opts| ==> opts[k].offset + opts[k].length <= |p|
  }

  /** The while loop over ReadOption: the options before the terminator, in table order. */
  function ReadOptions(p: bytes, pos: nat): (r: Result<seq<OptionData>>)
    requires pos <= |p|
    ensures r.Err? ==> r.error == EndOfStream || r.error == InvalidMessage
    ensures r.Ok? ==> InBounds(p, r.value)
    ensures r.Ok? ==> forall k :: 0 <= k < |r.value| ==> r.value[k].token != Terminator
    decreases |p| - pos
  {
    var (o, next) :- ReadOption(p, pos);
    if o.token == Terminator then Ok([])
    else
      var rest :- ReadOptions(p, next);
      Ok([o] + rest)
  }

  /**
   * One option's data applied to the fields, as the switch in
   * InterpretPayload does: each known option has a minimum length
   * (ThreadId and TraceId may also be empty), longer data is accepted,
   * and an unknown token changes nothing.
   */
  function ApplyOptionData(g: Fields, token: byte, d: bytes): (r: Result<Fields>)
    ensures r.Err? ==> r.error == InvalidMessage
  {
    if token == TokVersion then
      if |d| < 6 then Err(InvalidMessage)
      else Ok(g.(version := Some(VersionInfo(BEValue(d[..4]), LEValue(d[4..6])))))
    else if token == TokEncryption then
      if |d| < 1 then Err(InvalidMessage) else Ok(g.(encryption := Some(d[0])))
    else if token == TokInstOpt then Ok(g.(instValidity := Some(d)))
    else if token == TokThreadId then
      if |d| == 0 then Ok(g.(threadId := None))
      else if |d| < 4 then Err(InvalidMessage)
      else Ok(g.(threadId := Some(LEValue(d[..4]))))
    else if token == TokMars then
      if |d| < 1 then Err(InvalidMessage) else Ok(g.(mars := Some(d[0])))
    else if token == TokTraceId then
      if |d| == 0 then Ok(g)
      else if |d| < 36 then Err(InvalidMessage)
      else Ok(g.(traceId := Some(TraceIdData(d[..16], d[16..36]))))
    else if token == TokFedAuthRequired then
      if |d| < 1 then Err(InvalidMessage) else Ok(g.(fedAuthRequired := Some(d[0])))
    else if token == TokNonce then
      if |d| < 32 then Err(InvalidMessage) else Ok(g.(nonce := Some(d[..32])))
    else Ok(g)
  }

  function OptionSlice(p: bytes, o: OptionData): bytes
    requires o.offset + o.length <= |p|
  {
    p[o.offset..o.offset + o.length]
  }

  /**
   * The foreach over the options: the fields after applying them in
   * order, and the error that stopped it, if any. Options applied before
   * the error keep their effect, as the backing fields are assigned one
   * by one.
   */
  function ApplyOptions(g: Fields, p: bytes, opts: seq<OptionData>): (r: (Fields, Option<Error>))
    requires InBounds(p, opts)
    ensures r.1.Some? ==> r.1.value == InvalidMessage
    decreases |opts|
  {
    if |opts| == 0 then (g, None)
    else match ApplyOptionData(g, opts[0].token, OptionSlice(p, opts[0]))
      case Err(e) => (g, Some(e))
      case Ok(h) => ApplyOptions(h, p, opts[1..])
  }

  /**
   * InterpretPayload starting from fields g: a null payload is an
   * invalid operation; an empty one fails on its first byte; one that
   * starts with an SSL record type is left alone; otherwise the option
   * table is read whole and then applied.
   */
  function Interpret(g: Fields, payload: Option<bytes>): (r: (Fields, Option<Error>))
    ensures payload.None? ==> r == (g, Some(InvalidOperation))
    ensures r.1.Some? ==> r.1.value in {InvalidOperation, IndexOutOfRange, EndOfStream, InvalidMessage}
  {
    if payload.None? then (g, Some(InvalidOperation))
    else
      var p := payload.value;
      if |p| == 0 then (g, Some(IndexOutOfRange))
      else if Ssl.IsSslPacketType(p[0]) then (g, None)
      else match ReadOptions(p, 0)
        case Err(e) => (g, Some(e))
        case Ok(opts) => ApplyOptions(g, p, opts)
  }

  // ---------------------------------------------------------------------
  // Lengths, sums and offsets of the generated payload
  // ---------------------------------------------------------------------

  lemma {:induction false} ValueBytesAppend(a: seq<Entry>, b: seq<Entry>)
    ensures ValueBytes(a + b) == ValueBytes(a) + ValueBytes(b)
  {
    if |a| > 0 {
      assert (a + b)[0] == a[0] && (a + b)[1..] == a[1..] + b;
      ValueBytesAppend(a[1..], b);
    } else {
      assert a + b == b;
    }
  }

  lemma {:induction false} SumDeclaredAppend(a: seq<Entry>, b: seq<Entry>)
    ensures SumDeclared(a + b) == SumDeclared(a) + SumDeclared(b)
  {
    if |a| > 0 {
      assert (a + b)[0] == a[0] && (a + b)[1..] == a[1..] + b;
      SumDeclaredAppend(a[1..], b);
    } else {
      assert a + b == b;
    }
  }

  lemma {:induction false} TableBytesAppend(a: seq<OptionData>, b: seq<OptionData>)
    ensures TableBytes(a + b) == TableBytes(a) + TableBytes(b)
  {
    if |a| > 0 {
      assert (a + b)[0] == a[0] && (a + b)[1..] == a[1..] + b;
      TableBytesAppend(a[1..], b);
    } else {
      assert a + b == b;
    }
  }

  /** Entries whose declared length is the number of bytes written for them. */
  predicate Exact(es: seq<Entry>)
  {
    forall k :: 0 <= k < |es| ==> es[k].declared == |es[k].value| < 0x1_0000
  }

  lemma {:induction false} ValueBytesLength(es: seq<Entry>)
    requires Exact(es)
    ensures |ValueBytes(es)| == SumDeclared(es)
  {
    if |es| > 0 {
      assert Exact(es[1..]) by {
        forall k | 0 <= k < |es[1..]| ensures es[1..][k] == es[k + 1] { }
      }
      ValueBytesLength(es[1..]);
    }
  }

  /** A prefix sum plus the next length stays within the whole sum. */
  lemma PrefixSum(es: seq<Entry>, k: nat)
    requires k < |es|
    ensures SumDeclared(es[..k]) + Declared16(es[k]) <= SumDeclared(es)
  {
    PrefixSplit(es, k + 1);
    PrefixLast(es, k);
  }

  /** The whole sum is a prefix sum plus the sum of the rest. */
  lemma PrefixSplit(es: seq<Entry>, k: nat)
    requires k <= |es|
    ensures SumDeclared(es) == SumDeclared(es[..k]) + SumDeclared(es[k..])
  {
    assert es == es[..k] + es[k..];
    SumDeclaredAppend(es[..k], es[k..]);
  }

  /** A prefix sum one longer adds the next length. */
  lemma PrefixLast(es: seq<Entry>, k: nat)
    requires k < |es|
    ensures SumDeclared(es[..k + 1]) == SumDeclared(es[..k]) + Declared16(es[k])
  {
    assert es[..k + 1] == es[..k] + [es[k]];
    SumDeclaredAppend(es[..k], [es[k]]);
    assert SumDeclared([es[k]]) == Declared16(es[k]) + SumDeclared([]);
  }

  /** Option k's value lies in the value area at the sum of the lengths before it. */
  lemma ValueSlice(es: seq<Entry>, k: nat)
    requires k < |es| && Exact(es)
    ensures var s := SumDeclared(es[..k]);
      s + |es[k].value| <= |ValueBytes(es)| && ValueBytes(es)[s..s + |es[k].value|] == es[k].value
  {
    assert es == es[..k] + es[k..];
    ValueBytesAppend(es[..k], es[k..]);
    assert Exact(es[..k]) by {
      forall j | 0 <= j < k ensures es[..k][j] == es[j] { }
    }
    ValueBytesLength(es[..k]);
    assert es[k..][1..] == es[k + 1..];
    assert ValueBytes(es[k..]) == es[k].value + ValueBytes(es[k + 1..]);
  }

  /** Five bytes per option and one for the terminator. */
  lemma {:induction false} TableBytesLength(opts: seq<OptionData>)
    requires |opts| >= 1 && opts[|opts| - 1].token == Terminator
    requires forall k :: 0 <= k < |opts| - 1 ==> opts[k].token != Terminator
    ensures |TableBytes(opts)| == InitOffset(|opts|)
  {
    if |opts| > 1 {
      assert forall k :: 0 <= k < |opts[1..]| - 1 ==> opts[1..][k] == opts[k + 1];
      TableBytesLength(opts[1..]);
    }
  }

  /** Without wrap-around the offset AddToken gives option k is the sum of the lengths before it. */
  lemma {:induction false} AddTokensOffset(es: seq<Entry>, o: u16, k: nat)
    requires k < |es| && o + SumDeclared(es) < 0x1_0000
    ensures AddTokens(es, o)[k].offset == o + SumDeclared(es[..k])
  {
    if k > 0 {
      var d := Declared16(es[0]);
      AddTokensTail(es, o, k);
      AddTokensOffset(es[1..], o + d, k - 1);
      PrefixTail(es, k);
    } else {
      assert SumDeclared(es[..0]) == 0;
    }
  }

  /** Past the first option, AddTokens continues from the offset moved by its length. */
  lemma AddTokensTail(es: seq<Entry>, o: u16, k: nat)
    requires 0 < k < |es| && o + SumDeclared(es) < 0x1_0000
    ensures o + Declared16(es[0]) + SumDeclared(es[1..]) < 0x1_0000
    ensures AddTokens(es, o)[k] == AddTokens(es[1..], o + Declared16(es[0]))[k - 1]
  {
    var d := Declared16(es[0]);
    assert SumDeclared(es) == d + SumDeclared(es[1..]);
    assert Wrap(o + d, 0x1_0000) == o + d;
  }

  /** A non-empty prefix sum is the first length plus the prefix sum of the rest. */
  lemma PrefixTail(es: seq<Entry>, k: nat)
    requires 0 < k <= |es|
    ensures SumDeclared(es[..k]) == Declared16(es[0]) + SumDeclared(es[1..][..k - 1])
  {
    assert es[..k][1..] == es[1..][..k - 1];
  }

  /**
   * PRELOGIN fields GeneratePayload encodes faithfully: an InstValidity
   * short enough for its ushort length, a 20-byte ActivityId in a TraceId,
   * and a payload that fits the ushort offsets.
   */
  predicate Encodable(f: Fields)
  {
    (f.instValidity.Some? ==> |f.instValidity.value| < 0x1_0000)
    && (f.traceId.Some? ==> |f.traceId.value.activityId| == 20)
    && Capacity(Entries(f, 32)) <= 0xFFFF
  }

  lemma ExactAppend(a: seq<Entry>, b: seq<Entry>)
    requires Exact(a) && Exact(b)
    ensures Exact(a + b)
  {
    assert forall k :: |a| <= k < |a + b| ==> (a + b)[k] == b[k - |a|];
  }

  lemma EntryAtExact(f: Fields, i: nat)
    requires i < 8
    requires f.instValidity.Some? ==> |f.instValidity.value| < 0x1_0000
    requires f.traceId.Some? ==> |f.traceId.value.activityId| == 20
    ensures Exact(Present(EntryAt(f, i, 32)))
  {
  }

  lemma {:induction false} EntriesFromExact(f: Fields, i: nat)
    requires i <= 8
    requires f.instValidity.Some? ==> |f.instValidity.value| < 0x1_0000
    requires f.traceId.Some? ==> |f.traceId.value.activityId| == 20
    ensures Exact(EntriesFrom(f, i, 32))
    decreases 8 - i
  {
    if i < 8 {
      EntriesFromExact(f, i + 1);
      EntryAtExact(f, i);
      ExactAppend(Present(EntryAt(f, i, 32)), EntriesFrom(f, i + 1, 32));
    }
  }

  lemma EntriesExact(f: Fields)
    requires Encodable(f)
    ensures Exact(Entries(f, 32))
  {
    EntriesFromExact(f, 0);
    ExactAppend(EntriesFrom(f, 0, 32), [TerminatorEntry]);
  }



  /** Entries as GeneratePayload lists them: options, then the terminator alone. */
  predicate Listed(es: seq<Entry>)
  {
    |es| >= 1 && es[|es| - 1].token == Terminator
    && forall k :: 0 <= k < |es| - 1 ==> es[k].token < 8
  }

  /** The table of GeneratePayload: one option per entry, with its token and ushort length. */
  lemma TableOptionsShape(es: seq<Entry>)
    requires Listed(es)
    ensures var opts := TableOptions(es);
      |opts| == |es| && opts[|opts| - 1].token == Terminator
      && (forall k :: 0 <= k < |opts| ==> opts[k].token == es[k].token && opts[k].length == Declared16(es[k]))
      && (forall k :: 0 <= k < |opts| - 1 ==> opts[k].token != Terminator)
      && |TableBytes(opts)| == InitOffset(|es|)
  {
    var opts := TableOptions(es);
    assert forall k :: 0 <= k < |opts| ==> opts[k] == BumpOne(AddTokens(es, 0)[k], InitOffset(|es|));
    TableBytesLength(opts);
  }

  /** Entries GeneratePayload encodes faithfully: exact lengths that fit the ushort offsets. */
  predicate Fits(es: seq<Entry>)
  {
    Listed(es) && Exact(es) && Capacity(es) <= 0xFFFF
  }

  /** For fitting entries the payload is exactly the table followed by the values. */
  lemma GeneratedLayout(es: seq<Entry>)
    requires Fits(es)
    ensures var t := TableBytes(TableOptions(es));
      |t| == InitOffset(|es|) && |ValueBytes(es)| == SumDeclared(es)
      && GenerateEntries(es) == Ok(t + ValueBytes(es))
  {
    var t := TableBytes(TableOptions(es));
    TableOptionsShape(es);
    ValueBytesLength(es);
    var w := t + ValueBytes(es);
    assert |w| == Capacity(es);
    assert w + Zeros(0) == w;
  }

  /** Without wrap-around AddToken gives option k the sum of the lengths before it as offset. */
  lemma AddedAt(es: seq<Entry>, k: nat)
    requires Exact(es) && k < |es| && SumDeclared(es) < 0x1_0000
    ensures SumDeclared(es[..k]) + |es[k].value| <= SumDeclared(es)
    ensures AddTokens(es, 0)[k] == OptionData(es[k].token, SumDeclared(es[..k]), |es[k].value|)
  {
    PrefixSum(es, k);
    AddTokensOffset(es, 0, k);
  }

  /** For fitting entries option k sits at the table size plus the lengths before it. */
  lemma OptionPlacement(es: seq<Entry>, k: nat)
    requires Fits(es) && k < |es|
    ensures var at := InitOffset(|es|) + SumDeclared(es[..k]);
      at + |es[k].value| <= Capacity(es) && TableOptions(es)[k] == OptionData(es[k].token, at, |es[k].value|)
  {
    AddedAt(es, k);
    assert TableOptions(es)[k] == BumpOne(AddTokens(es, 0)[k], InitOffset(|es|));
  }

  // ---------------------------------------------------------------------
  // Reading the generated payload back
  // ---------------------------------------------------------------------

  /** ReadOption on the five bytes WriteOption gives a non-terminator option reads that option back. */
  lemma ReadWrittenOption(p: bytes, pos: nat, o: OptionData)
    requires o.token != Terminator && o.offset + o.length <= |p|
    requires pos + 5 <= |p| && p[pos..pos + 5] == OptionBytes(o)
    ensures ReadOption(p, pos) == Ok((o, pos + 5))
  {
    var ob := OptionBytes(o);
    assert ob[1..3] == BE(o.offset, 2) && ob[3..5] == BE(o.length, 2);
    assert p[pos] == ob[0];
    assert p[pos + 1] == ob[1] && p[pos + 2] == ob[2] && p[pos + 3] == ob[3] && p[pos + 4] == ob[4];
    assert p[pos + 1..pos + 3] == ob[1..3];
    assert p[pos + 3..pos + 5] == ob[3..5];
    BEValueOfBE(o.offset, 2);
    BEValueOfBE(o.length, 2);
  }

  /** The first row of a table with options left reads back, and the rest of the table follows it. */
  lemma TableHead(p: bytes, pos: nat, opts: seq<OptionData>)
    requires |opts| > 1 && opts[0].token != Terminator && opts[0].offset + opts[0].length <= |p|
    requires pos + |TableBytes(opts)| <= |p| && p[pos..pos + |TableBytes(opts)|] == TableBytes(opts)
    ensures ReadOption(p, pos).Ok? && ReadOption(p, pos).value == (opts[0], pos + 5)
    ensures pos + 5 + |TableBytes(opts[1..])| <= |p|
    ensures p[pos + 5..pos + 5 + |TableBytes(opts[1..])|] == TableBytes(opts[1..])
  {
    var t := TableBytes(opts);
    var n := |TableBytes(opts[1..])|;
    assert t == OptionBytes(opts[0]) + TableBytes(opts[1..]);
    assert p[pos..pos + 5] == t[..5] == OptionBytes(opts[0]);
    ReadWrittenOption(p, pos, opts[0]);
    assert p[pos + 5..pos + 5 + n] == t[5..];
  }

  /** Reading a well-formed option table gives its options before the terminator. */
  lemma {:induction false} ReadTable(p: bytes, pos: nat, opts: seq<OptionData>)
    requires |opts| >= 1 && opts[|opts| - 1].token == Terminator
    requires forall k :: 0 <= k < |opts| - 1 ==> opts[k].token != Terminator
    requires forall k :: 0 <= k < |opts| - 1 ==> opts[k].offset + opts[k].length <= |p|
    requires pos + |TableBytes(opts)| <= |p| && p[pos..pos + |TableBytes(opts)|] == TableBytes(opts)
    ensures ReadOptions(p, pos) == Ok(opts[..|opts| - 1])
    decreases |opts|
  {
    var rest := opts[1..];
    if |opts| > 1 {
      TableHead(p, pos, opts);
      assert forall k :: 0 <= k < |rest| ==> rest[k] == opts[k + 1];
      ReadTable(p, pos + 5, rest);
      InitOfCons(opts);
    } else {
      assert TableBytes(opts) == [Terminator];
      assert p[pos] == TableBytes(opts)[0];
    }
  }

  /** The entries' effect on the fields, one after the other, as ApplyOptions has it. */
  function ApplyEntries(g: Fields, es: seq<Entry>): (Fields, Option<Error>)
    decreases |es|
  {
    if |es| == 0 then (g, None)
    else match ApplyOptionData(g, es[0].token, es[0].value)
      case Err(e) => (g, Some(e))
      case Ok(h) => ApplyEntries(h, es[1..])
  }

  lemma {:induction false} ApplyOptionsAsEntries(g: Fields, p: bytes, opts: seq<OptionData>, es: seq<Entry>)
    requires InBounds(p, opts) && |opts| == |es|
    requires forall k :: 0 <= k < |opts| ==> opts[k].token == es[k].token && OptionSlice(p, opts[k]) == es[k].value
    ensures ApplyOptions(g, p, opts) == ApplyEntries(g, es)
    decreases |opts|
  {
    if |opts| > 0 {
      match ApplyOptionData(g, opts[0].token, OptionSlice(p, opts[0]))
      case Err(e) =>
      case Ok(h) =>
        assert forall k :: 0 <= k < |opts| - 1 ==> opts[1..][k] == opts[k + 1] && es[1..][k] == es[k + 1];
        ApplyOptionsAsEntries(h, p, opts[1..], es[1..]);
    }
  }

  /** The fields of f before option i; the later ones null. */
  function Stage(f: Fields, i: nat): Fields
  {
    Fields(
      if 0 < i then f.version else None,
      if 1 < i then f.encryption else None,
      if 2 < i then f.instValidity else None,
      if 3 < i then f.threadId else None,
      if 4 < i then f.mars else None,
      if 5 < i then f.traceId else None,
      if 6 < i then f.fedAuthRequired else None,
      if 7 < i then f.nonce else None)
  }

  /** Decoding option i's generated bytes restores exactly property i. */
  lemma ApplyEntryAt(f: Fields, i: nat)
    requires i < 8
    requires f.traceId.Some? ==> |f.traceId.value.activityId| == 20
    ensures EntryAt(f, i, 32).None? ==> Stage(f, i + 1) == Stage(f, i)
    ensures EntryAt(f, i, 32).Some? ==>
      ApplyOptionData(Stage(f, i), i, EntryAt(f, i, 32).value.value) == Ok(Stage(f, i + 1))
  {
    var e := EntryAt(f, i, 32);
    if e.Some? {
      var d := e.value.value;
      if i == 0 {
        var v := f.version.value;
        assert d[..4] == BE(v.version, 4) && d[4..6] == LE16(v.subBuild);
        BEValueOfBE(v.version, 4);
        LEValueOfLE(v.subBuild, 2);
      } else if i == 3 {
        assert d[..4] == d;
        LEValueOfLE(f.threadId.value, 4);
      } else if i == 5 {
        var t := f.traceId.value;
        assert d[..16] == t.connId && d[16..36] == t.activityId;
      } else if i == 7 {
        assert d[..32] == d;
      }
    }
  }

  lemma {:induction false} ApplyEntriesFrom(f: Fields, i: nat)
    requires i <= 8
    requires f.traceId.Some? ==> |f.traceId.value.activityId| == 20
    ensures ApplyEntries(Stage(f, i), EntriesFrom(f, i, 32)) == (f, None)
    decreases 8 - i
  {
    if i < 8 {
      ApplyEntriesFrom(f, i + 1);
      ApplyEntryAt(f, i);
      var rest := EntriesFrom(f, i + 1, 32);
      if EntryAt(f, i, 32).Some? {
        var es := [EntryAt(f, i, 32).value] + rest;
        assert es[1..] == rest;
      } else {
        assert EntriesFrom(f, i, 32) == rest;
      }
    } else {
      assert Stage(f, 8) == f;
    }
  }

  /** In the payload generated from fitting entries option k's data is that entry's value. */
  lemma OptionInPayload(es: seq<Entry>, k: nat)
    requires Fits(es) && k < |es|
    ensures var opts := TableOptions(es); var p := TableBytes(opts) + ValueBytes(es);
      |opts| == |es| && opts[k].token == es[k].token
      && opts[k].offset + opts[k].length <= |p| && OptionSlice(p, opts[k]) == es[k].value
  {
    var opts := TableOptions(es);
    var t := TableBytes(opts);
    var v := ValueBytes(es);
    var init := InitOffset(|es|);
    var s := SumDeclared(es[..k]);
    GeneratedLayout(es);
    OptionPlacement(es, k);
    ValueSlice(es, k);
    OptionSliceAfter(t, v, opts[k], s, es[k].value);
  }

  /** An option placed s bytes into the values that follow a table holds the value found there. */
  lemma OptionSliceAfter(t: bytes, v: bytes, o: OptionData, s: nat, value: bytes)
    requires o.offset == |t| + s && o.length == |value|
    requires s + |value| <= |v| && v[s..s + |value|] == value
    ensures o.offset + o.length <= |t + v| && OptionSlice(t + v, o) == value
  {
    SliceOfAppend(t, v, o.offset, o.offset + o.length);
  }

  lemma OptionsInPayload(es: seq<Entry>)
    requires Fits(es)
    ensures var opts := TableOptions(es); var p := TableBytes(opts) + ValueBytes(es);
      |opts| == |es|
      && (forall k :: 0 <= k < |es| ==> opts[k].offset + opts[k].length <= |p|)
      && (forall k :: 0 <= k < |es| ==> OptionSlice(p, opts[k]) == es[k].value)
  {
    forall k | 0 <= k < |es|
      ensures var opts := TableOptions(es); var p := TableBytes(opts) + ValueBytes(es);
        opts[k].offset + opts[k].length <= |p| && OptionSlice(p, opts[k]) == es[k].value
    {
      OptionInPayload(es, k);
    }
    TableOptionsShape(es);
  }

  /**
   * Interpreting the payload generated from fitting entries applies the
   * entries in order: the table reads back as written and every option's
   * data is its value.
   */
  lemma EntriesRoundTrip(g: Fields, es: seq<Entry>)
    requires Fits(es)
    ensures GenerateEntries(es).Ok?
    ensures Interpret(g, Some(GenerateEntries(es).value)) == ApplyEntries(g, es[..|es| - 1])
  {
    GeneratedLayout(es);
    TableReadBack(es);
    TableApplied(g, es);
  }

  /** Applying the generated table's options to the generated payload applies the entries. */
  lemma TableApplied(g: Fields, es: seq<Entry>)
    requires Fits(es)
    ensures var opts := TableOptions(es); var p := TableBytes(opts) + ValueBytes(es);
      |opts| == |es| && InBounds(p, opts[..|es| - 1])
      && ApplyOptions(g, p, opts[..|es| - 1]) == ApplyEntries(g, es[..|es| - 1])
  {
    var opts := TableOptions(es);
    var p := TableBytes(opts) + ValueBytes(es);
    OptionInPayload(es, 0);
    var table, prefix := opts[..|es| - 1], es[..|es| - 1];
    forall k | 0 <= k < |table|
      ensures table[k].offset + table[k].length <= |p|
      ensures table[k].token == prefix[k].token && OptionSlice(p, table[k]) == prefix[k].value
    {
      OptionInPayload(es, k);
    }
    ApplyOptionsAsEntries(g, p, table, prefix);
  }

  /** The generated table reads back as the options before the terminator; its first byte is a token. */
  lemma TableReadBack(es: seq<Entry>)
    requires Fits(es)
    ensures var opts := TableOptions(es); var p := TableBytes(opts) + ValueBytes(es);
      |opts| == |es| && |p| > 0 && !Ssl.IsSslPacketType(p[0]) && ReadOptions(p, 0) == Ok(opts[..|es| - 1])
  {
    var opts := TableOptions(es);
    var t := TableBytes(opts);
    var p := t + ValueBytes(es);
    TableOptionsShape(es);
    OptionsInPayload(es);
    assert p[0..|t|] == t;
    ReadTable(p, 0, opts);
    assert p[0] == t[0] == opts[0].token;
  }

  /**
   * Interpreting a generated payload in a new message restores every
   * property: the PRELOGIN encoding round-trips for encodable fields.
   */
  lemma GeneratedPayloadRoundTrip(f: Fields)
    requires Encodable(f)
    ensures GeneratedPayload(f).Ok?
    ensures Interpret(NoFields, Some(GeneratedPayload(f).value)) == (f, None)
  {
    var es := Entries(f, 32);
    EntriesExact(f);
    EntriesRoundTrip(NoFields, es);
    assert es[..|es| - 1] == EntriesFrom(f, 0, 32);
    ApplyEntriesFrom(f, 0);
    assert Stage(f, 0) == NoFields;
  }

  // ---------------------------------------------------------------------
  // The declared Nonce length
  // ---------------------------------------------------------------------

  /** Option i's entry under the two Nonce declarations: the same bytes, lengths 31 apart for a Nonce. */
  lemma EntryAtNonce(f: Fields, i: nat)
    requires i < 8
    ensures var a1, a32 := Present(EntryAt(f, i, 1)), Present(EntryAt(f, i, 32));
      |a1| == |a32| && ValueBytes(a1) == ValueBytes(a32)
      && SumDeclared(a32) == SumDeclared(a1) + (if i == 7 && f.nonce.Some? then 31 else 0)
  {
    if i < 7 {
      assert EntryAt(f, i, 1) == EntryAt(f, i, 32);
    }
  }

  /** Declaring the Nonce with 1 byte instead of 32 changes only the lengths, by 31 when a Nonce is present. */
  lemma {:induction false} EntriesFromNonce(f: Fields, i: nat)
    requires i <= 8
    ensures |EntriesFrom(f, i, 1)| == |EntriesFrom(f, i, 32)|
    ensures ValueBytes(EntriesFrom(f, i, 1)) == ValueBytes(EntriesFrom(f, i, 32))
    ensures SumDeclared(EntriesFrom(f, i, 32)) == SumDeclared(EntriesFrom(f, i, 1)) + (if f.nonce.Some? && i < 8 then 31 else 0)
    decreases 8 - i
  {
    if i < 8 {
      EntriesFromNonce(f, i + 1);
      EntryAtNonce(f, i);
      var a1, a32 := Present(EntryAt(f, i, 1)), Present(EntryAt(f, i, 32));
      var r1, r32 := EntriesFrom(f, i + 1, 1), EntriesFrom(f, i + 1, 32);
      assert EntriesFrom(f, i, 1) == a1 + r1 && EntriesFrom(f, i, 32) == a32 + r32;
      ValueBytesAppend(a1, r1);
      ValueBytesAppend(a32, r32);
      SumDeclaredAppend(a1, r1);
      SumDeclaredAppend(a32, r32);
    }
  }

  /**
   * GeneratePayload as written declares the 32-byte Nonce as 1 byte, so
   * the value writes overrun the buffer by 31 bytes: every encodable
   * message with a Nonce fails with NotSupported, while the corrected
   * declaration encodes it.
   */
  lemma NonceOverrunsAsWritten(f: Fields)
    requires Encodable(f) && f.nonce.Some?
    ensures GeneratePayloadAsWritten(f) == Err(NotSupported)
    ensures GeneratedPayload(f).Ok?
  {
    var es1, es32 := Entries(f, 1), Entries(f, 32);
    EntriesFromNonce(f, 0);
    ValueBytesAppend(EntriesFrom(f, 0, 1), [TerminatorEntry]);
    ValueBytesAppend(EntriesFrom(f, 0, 32), [TerminatorEntry]);
    SumDeclaredAppend(EntriesFrom(f, 0, 1), [TerminatorEntry]);
    SumDeclaredAppend(EntriesFrom(f, 0, 32), [TerminatorEntry]);
    TableOptionsShape(es1);
    EntriesExact(f);
    ValueBytesLength(es32);
    assert |TableBytes(TableOptions(es1)) + ValueBytes(es1)| == Capacity(es1) + 31;
    GeneratedPayloadRoundTrip(f);
  }

  // ---------------------------------------------------------------------
  // The option bound check
  // ---------------------------------------------------------------------

  /**
   * ReadOption as written differs from the corrected check exactly when
   * a non-terminator token is followed by three bytes: it then fails
   * with IndexOutOfRange where the corrected one reports InvalidMessage.
   */
  lemma ReadOptionAsWrittenDiffers(p: bytes, pos: nat)
    ensures ReadOptionAsWritten(p, pos) != ReadOption(p, pos) <==> pos + 4 == |p| && p[pos] != Terminator
    ensures ReadOptionAsWritten(p, pos) != ReadOption(p, pos) ==>
      ReadOptionAsWritten(p, pos) == Err(IndexOutOfRange) && ReadOption(p, pos) == Err(InvalidMessage)
  {
  }

  /** A four-byte payload whose only option is cut short after its offset. */
  const ShortOptionPayload: bytes := [0x00, 0x00, 0x05, 0x00]

  lemma ShortOptionAsWritten()
    ensures ReadOptionAsWritten(ShortOptionPayload, 0) == Err(IndexOutOfRange)
    ensures Interpret(NoFields, Some(ShortOptionPayload)) == (NoFields, Some(InvalidMessage))
  {
    ReadOptionAsWrittenDiffers(ShortOptionPayload, 0);
  }
}
