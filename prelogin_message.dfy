/**
 * The TDSPreLoginMessage object: option properties whose setters drop the
 * payload, GeneratePayload's writes into a buffer of fixed capacity and
 * InterpretPayload's reads, each proved against the functions of PreLogin.
 */
module PreLoginMessages {
  import opened Wire
  import opened Io
  import Streams
  import opened PreLogin
  import Ssl
  // ---------------------------------------------------------------------
  // The message object
  // ---------------------------------------------------------------------

  /** The TraceIdData constructor: its ActivityId setter admits 0 or 20 bytes. */
  function MakeTraceId(connId: GuidBytes, activityId: bytes): (r: Result<TraceIdData>)
    ensures r.Ok? <==> |activityId| == 0 || |activityId| == 20
    ensures r.Ok? ==> r.value.connId == connId && r.value.activityId == activityId
    ensures r.Err? ==> r.error == Argument
  {
    if |activityId| != 0 && |activityId| != 20 then Err(Argument) else Ok(TraceIdData(connId, activityId))
  }

  // ---------------------------------------------------------------------
  // GeneratePayload: the writes into the fixed payload buffer
  // ---------------------------------------------------------------------

  /** The writes of WriteOption for one row: the token, then (unless it is the terminator) offset and length big-endian. */
  function RowCalls(o: OptionData): seq<bytes>
  {
    if o.token == Terminator then [[o.token]] else [[o.token], BE(o.offset, 2), BE(o.length, 2)]
  }

  /** The writes of the foreach over the option table, row after row. */
  function TableCalls(opts: seq<OptionData>): seq<bytes>
  {
    if |opts| == 0 then [] else RowCalls(opts[0]) + TableCalls(opts[1..])
  }

  /**
   * The writes for property i, if it is set: Version as its big-endian
   * version then its SubBuild, TraceID as the connection GUID then the
   * ActivityId, every other property in one write.
   */
  function ValueCalls(f: Fields, i: nat): seq<bytes>
    requires i < 8
  {
    if i == 0 then (match f.version case Some(v) => [BE(v.version, 4), LE16(v.subBuild)] case None => [])
    else if i == 1 then (match f.encryption case Some(e) => [[e]] case None => [])
    else if i == 2 then (match f.instValidity case Some(b) => [b] case None => [])
    else if i == 3 then (match f.threadId case Some(t) => [LE32(t)] case None => [])
    else if i == 4 then (match f.mars case Some(m) => [[m]] case None => [])
    else if i == 5 then (match f.traceId case Some(t) => [t.connId, t.activityId] case None => [])
    else if i == 6 then (match f.fedAuthRequired case Some(x) => [[x]] case None => [])
    else (match f.nonce case Some(n) => [n] case None => [])
  }

  /** The value writes from property i on, in token order. */
  function ValueCallsFrom(f: Fields, i: nat): seq<bytes>
    requires i <= 8
    decreases 8 - i
  {
    if i == 8 then [] else ValueCalls(f, i) + ValueCallsFrom(f, i + 1)
  }

  /**
   * Every write of GeneratePayload in order, with the Nonce declared at
   * length d: the option table, then the values.
   */
  function WriteCalls(f: Fields, d: nat): seq<bytes>
  {
    TableCalls(TableOptions(Entries(f, d))) + ValueCallsFrom(f, 0)
  }

  /**
   * The Payload array GeneratePayload leaves, whether or not it throws:
   * allocated at the declared size, holding the writes that fit and
   * zeros after them.
   */
  function GeneratedBufferWith(f: Fields, d: nat): (r: bytes)
    ensures |r| == Capacity(Entries(f, d))
  {
    var cap := Capacity(Entries(f, d));
    var w := WritesThatFit(WriteCalls(f, d), cap);
    w + Zeros(cap - |w|)
  }

  /** The Payload array with the Nonce declared at its 32 bytes. */
  function GeneratedBuffer(f: Fields): (r: bytes)
    ensures |r| == Capacity(Entries(f, 32))
  {
    GeneratedBufferWith(f, 32)
  }

  lemma {:induction false} TableCallsBytes(opts: seq<OptionData>)
    ensures Streams.Flatten(TableCalls(opts)) == TableBytes(opts)
  {
    if |opts| > 0 {
      var o := opts[0];
      Streams.FlattenAppend(RowCalls(o), TableCalls(opts[1..]));
      TableCallsBytes(opts[1..]);
      var c := RowCalls(o);
      if o.token != Terminator {
        assert Streams.Flatten(c[1..][1..]) == BE(o.length, 2);
        assert Streams.Flatten(c[1..]) == BE(o.offset, 2) + BE(o.length, 2);
      }
      assert Streams.Flatten(c) == OptionBytes(o);
    }
  }

  lemma ValueCallsBytes(f: Fields, i: nat, d: nat)
    requires i < 8
    ensures Streams.Flatten(ValueCalls(f, i)) == PresentValue(f, i, d)
  {
    var c := ValueCalls(f, i);
    if |c| == 2 {
      assert Streams.Flatten(c[1..]) == c[1];
    }
    if |c| > 0 {
      assert Streams.Flatten(c) == c[0] + Streams.Flatten(c[1..]);
    }
  }

  lemma {:induction false} ValueCallsFromBytes(f: Fields, i: nat, d: nat)
    requires i <= 8
    ensures Streams.Flatten(ValueCallsFrom(f, i)) == ValueBytes(EntriesFrom(f, i, d))
    decreases 8 - i
  {
    if i < 8 {
      Streams.FlattenAppend(ValueCalls(f, i), ValueCallsFrom(f, i + 1));
      ValueCallsBytes(f, i, d);
      ValueCallsFromBytes(f, i + 1, d);
      ValuesFromStep(f, i, d);
    }
  }

  /** The writes of GeneratePayload laid end to end are the table, then the values. */
  lemma WriteCallsBytes(f: Fields, d: nat)
    ensures Streams.Flatten(WriteCalls(f, d)) == TableBytes(TableOptions(Entries(f, d))) + ValueBytes(Entries(f, d))
  {
    var es := Entries(f, d);
    Streams.FlattenAppend(TableCalls(TableOptions(es)), ValueCallsFrom(f, 0));
    TableCallsBytes(TableOptions(es));
    ValueCallsFromBytes(f, 0, d);
    ValuesOfEntries(f, d);
  }

  /**
   * The buffer and the generated payload agree: generation fails exactly
   * when some write overruns the buffer, and when it succeeds the
   * buffer is the payload.
   */
  lemma GeneratedBufferIsPayload(f: Fields, d: nat)
    ensures GenerateWith(f, d).Err? <==> Overruns(WriteCalls(f, d), Capacity(Entries(f, d)))
    ensures GenerateWith(f, d).Err? ==> GenerateWith(f, d) == Err(NotSupported)
    ensures GenerateWith(f, d).Ok? ==> GeneratedBufferWith(f, d) == GenerateWith(f, d).value
  {
    WriteCallsBytes(f, d);
    FitsWhole(WriteCalls(f, d), Capacity(Entries(f, d)));
  }

  /**
   * After a failed generation the payload array holds the whole option
   * table (it always fits), then the value writes before the first one
   * that does not fit (value write k), then zeros.
   */
  lemma FailedBuffer(f: Fields, d: nat) returns (k: nat)
    requires GenerateWith(f, d).Err?
    ensures k < |ValueCallsFrom(f, 0)|
    ensures var es, vs := Entries(f, d), ValueCallsFrom(f, 0);
      var table := TableBytes(TableOptions(es));
      var kept := Streams.Flatten(vs[..k]);
      && |table| + |kept| <= Capacity(es) < |table| + |kept| + |vs[k]|
      && GeneratedBufferWith(f, d) == table + kept + Zeros(Capacity(es) - |table| - |kept|)
  {
    var es, vs := Entries(f, d), ValueCallsFrom(f, 0);
    var cap, tc := Capacity(es), TableCalls(TableOptions(es));
    GeneratedBufferIsPayload(f, d);
    TableOptionsShape(es);
    TableCallsBytes(TableOptions(es));
    FitsWhole(tc, cap);
    k := OverrunAfter(tc, vs, cap);
  }

  /** The value bytes of option i, if the property is set. */
  function PresentValue(f: Fields, i: nat, d: nat): bytes
    requires i < 8
  {
    var e := EntryAt(f, i, d);
    if e.Some? then e.value.value else []
  }

  lemma ValuesFromStep(f: Fields, i: nat, d: nat)
    requires i < 8
    ensures ValueBytes(EntriesFrom(f, i, d)) == PresentValue(f, i, d) + ValueBytes(EntriesFrom(f, i + 1, d))
  {
    var o := EntryAt(f, i, d);
    var e, rest := Present(o), EntriesFrom(f, i + 1, d);
    assert EntriesFrom(f, i, d) == e + rest;
    ValueBytesAppend(e, rest);
    if o.Some? {
      assert ValueBytes(e) == o.value.value + ValueBytes([]);
    }
  }

  lemma ValuesOfEntries(f: Fields, d: nat)
    ensures ValueBytes(Entries(f, d)) == ValueBytes(EntriesFrom(f, 0, d))
  {
    ValueBytesAppend(EntriesFrom(f, 0, d), [TerminatorEntry]);
    assert ValueBytes([TerminatorEntry]) == TerminatorEntry.value + ValueBytes([]);
  }

  /** The foreach that bumps every offset past the option table. */
  method BumpOffsets(options: seq<OptionData>, init: nat) returns (r: seq<OptionData>)
    ensures r == Bumped(options, init)
  {
    r := options;
    var i := 0;
    while i < |r|
      invariant 0 <= i <= |r| == |options|
      invariant forall k :: 0 <= k < i ==> r[k] == BumpOne(options[k], init)
      invariant forall k :: i <= k < |r| ==> r[k] == options[k]
    {
      r := r[i := BumpOne(r[i], init)];
      i := i + 1;
    }
  }

  /**
   * The body of GeneratePayload: the Payload array allocated at the
   * declared size, the table and then the values written into it, and
   * NotSupported at the first write that would pass its end. The array
   * is returned either way, since Payload is assigned before the writes.
   */
  method GenerateInto(f: Fields) returns (r: Result<bytes>, buffer: bytes)
    ensures r == GeneratedPayload(f) && buffer == GeneratedBuffer(f)
  {
    var es := Entries(f, 32);
    var options := BumpOffsets(AddTokens(es, 0), InitOffset(|es|));
    var cap := Capacity(es);
    var calls := TableCalls(options) + ValueCallsFrom(f, 0);
    assert calls == WriteCalls(f, 32);
    var ok;
    ok, buffer := WriteFixed(cap, calls);
    assert buffer == GeneratedBufferWith(f, 32);
    GeneratedBufferIsPayload(f, 32);
    r := if ok then Ok(buffer) else Err(NotSupported);
  }

  /** The ReadOption calls of InterpretPayload, on the message's BinaryReader. */
  method ReadOptionFrom(rd: Reader) returns (r: Result<OptionData>)
    modifies rd
    ensures ReadOption(rd.data, old(rd.pos)).Ok? ==>
      r == Ok(ReadOption(rd.data, old(rd.pos)).value.0) && rd.pos == ReadOption(rd.data, old(rd.pos)).value.1
    ensures ReadOption(rd.data, old(rd.pos)).Err? ==> r == Err(ReadOption(rd.data, old(rd.pos)).error)
  {
    var t := rd.ReadByte();
    if t.Err? {
      return Err(t.error);
    }
    if t.value == Terminator {
      return Ok(OptionData(Terminator, 0, 0));
    }
    if rd.pos + 4 > |rd.data| {
      return Err(InvalidMessage);
    }
    var offset := rd.ReadBigEndianUInt16();
    var length := rd.ReadBigEndianUInt16();
    if offset.value + length.value > |rd.data| {
      return Err(InvalidMessage);
    }
    r := Ok(OptionData(t.value, offset.value, length.value));
  }

  /** The option read loop so far: the options read, then whatever reading on from pos gives. */
  function Prefixed(opts: seq<OptionData>, r: Result<seq<OptionData>>): Result<seq<OptionData>>
  {
    match r
    case Ok(rest) => Ok(opts + rest)
    case Err(e) => Err(e)
  }

  lemma PrefixedEmpty(r: Result<seq<OptionData>>)
    ensures Prefixed([], r) == r
  {
    if r.Ok? {
      assert [] + r.value == r.value;
    }
  }

  lemma PrefixedAppend(a: seq<OptionData>, b: seq<OptionData>, r: Result<seq<OptionData>>)
    ensures Prefixed(a, Prefixed(b, r)) == Prefixed(a + b, r)
  {
    if r.Ok? {
      assert a + (b + r.value) == a + b + r.value;
    }
  }

  /** The while loop of InterpretPayload that reads options up to the terminator. */
  method ReadOptionTable(rd: Reader) returns (r: Result<seq<OptionData>>)
    requires rd.pos <= |rd.data|
    modifies rd
    ensures r == ReadOptions(rd.data, old(rd.pos))
  {
    var options: seq<OptionData> := [];
    PrefixedEmpty(ReadOptions(rd.data, rd.pos));
    while true
      invariant rd.pos <= |rd.data|
      invariant ReadOptions(rd.data, old(rd.pos)) == Prefixed(options, ReadOptions(rd.data, rd.pos))
      decreases |rd.data| - rd.pos
    {
      ghost var before := rd.pos;
      var o := ReadOptionFrom(rd);
      if o.Err? {
        return Err(o.error);
      }
      if o.value.token == Terminator {
        assert ReadOptions(rd.data, before) == Ok([]);
        assert options + [] == options;
        return Ok(options);
      }
      assert ReadOptions(rd.data, before) == Prefixed([o.value], ReadOptions(rd.data, rd.pos));
      PrefixedAppend(options, [o.value], ReadOptions(rd.data, rd.pos));
      options := options + [o.value];
    }
  }

  /**
   * One case of the switch in InterpretPayload: seek to the option's data
   * and decode it. Version, Encryption, InstOpt and ThreadId here, the
   * rest in ApplyLaterOptionAt.
   */
  method ApplyOptionAt(rd: Reader, g: Fields, o: OptionData) returns (r: Result<Fields>)
    requires o.offset + o.length <= |rd.data|
    modifies rd
    ensures r == ApplyOptionData(g, o.token, OptionSlice(rd.data, o))
  {
    if o.token > TokThreadId {
      r := ApplyLaterOptionAt(rd, g, o);
      return;
    }
    ghost var d := OptionSlice(rd.data, o);
    rd.Seek(o.offset);
    if o.token == TokVersion {
      if o.length < 6 {
        return Err(InvalidMessage);
      }
      var version := rd.ReadBigEndianUInt32();
      var subBuild := rd.ReadUInt16();
      LEAtIsLEValue(rd.data, o.offset + 4, 2);
      assert d[..4] == rd.data[o.offset..o.offset + 4];
      assert d[4] == rd.data[o.offset + 4] && d[5] == rd.data[o.offset + 5];
      assert d[4..6] == rd.data[o.offset + 4..o.offset + 6];
      r := Ok(g.(version := Some(VersionInfo(version.value, subBuild.value))));
    } else if o.token == TokEncryption {
      if o.length < 1 {
        return Err(InvalidMessage);
      }
      var b := rd.ReadByte();
      r := Ok(g.(encryption := Some(b.value)));
    } else if o.token == TokInstOpt {
      var b := rd.ReadBytes(o.length);
      r := Ok(g.(instValidity := Some(b)));
    } else {
      if o.length == 0 {
        return Ok(g.(threadId := None));
      }
      if o.length < 4 {
        return Err(InvalidMessage);
      }
      var t := rd.ReadUInt32();
      LEAtIsLEValue(rd.data, o.offset, 4);
      assert d[..4] == rd.data[o.offset..o.offset + 4];
      r := Ok(g.(threadId := Some(t.value)));
    }
  }

  /** The cases of the switch for Mars, TraceId, FedAuthRequired, Nonce and unknown tokens. */
  method ApplyLaterOptionAt(rd: Reader, g: Fields, o: OptionData) returns (r: Result<Fields>)
    requires o.offset + o.length <= |rd.data| && o.token > TokThreadId
    modifies rd
    ensures r == ApplyOptionData(g, o.token, OptionSlice(rd.data, o))
  {
    ghost var d := OptionSlice(rd.data, o);
    rd.Seek(o.offset);
    if o.token == TokMars {
      if o.length < 1 {
        return Err(InvalidMessage);
      }
      var b := rd.ReadByte();
      r := Ok(g.(mars := Some(b.value)));
    } else if o.token == TokTraceId {
      if o.length == 0 {
        return Ok(g);
      }
      if o.length < 36 {
        return Err(InvalidMessage);
      }
      var connId := rd.ReadBytes(16);
      var activityId := rd.ReadBytes(20);
      assert d[..16] == rd.data[o.offset..o.offset + 16];
      assert forall k :: 16 <= k < 36 ==> d[k] == rd.data[o.offset + k];
      assert d[16..36] == rd.data[o.offset + 16..o.offset + 36];
      r := Ok(g.(traceId := Some(TraceIdData(connId, activityId))));
    } else if o.token == TokFedAuthRequired {
      if o.length < 1 {
        return Err(InvalidMessage);
      }
      var b := rd.ReadByte();
      r := Ok(g.(fedAuthRequired := Some(b.value)));
    } else if o.token == TokNonce {
      if o.length < 32 {
        return Err(InvalidMessage);
      }
      var n := rd.ReadBytes(32);
      assert d[..32] == n;
      var value: Nonce := n;
      r := Ok(g.(nonce := Some(value)));
    } else {
      // An unknown option is read for the log and otherwise ignored.
      var skipped := rd.ReadBytes(o.length);
      r := Ok(g);
    }
  }

  /** TDSPreLoginMessage: the option properties, the payload, and the payload as received. */
  class PreLoginMessage {
    var fields: Fields
    var payload: Option<bytes>
    var receivedPayload: Option<bytes>

    constructor ()
      ensures fields == NoFields && payload == None && receivedPayload == None
    {
      fields := NoFields;
      payload := None;
      receivedPayload := None;
    }

    // Setting an option property discards the payload, so that it is generated again.

    method SetVersion(v: Option<VersionInfo>)
      modifies this
      ensures fields == old(fields).(version := v) && payload == None && receivedPayload == old(receivedPayload)
    {
      payload := None;
      fields := fields.(version := v);
    }

    method SetEncryption(e: Option<byte>)
      modifies this
      ensures fields == old(fields).(encryption := e) && payload == None && receivedPayload == old(receivedPayload)
    {
      payload := None;
      fields := fields.(encryption := e);
    }

    method SetInstValidity(b: Option<bytes>)
      modifies this
      ensures fields == old(fields).(instValidity := b) && payload == None && receivedPayload == old(receivedPayload)
    {
      payload := None;
      fields := fields.(instValidity := b);
    }

    method SetThreadId(t: Option<u32>)
      modifies this
      ensures fields == old(fields).(threadId := t) && payload == None && receivedPayload == old(receivedPayload)
    {
      payload := None;
      fields := fields.(threadId := t);
    }

    method SetMars(m: Option<byte>)
      modifies this
      ensures fields == old(fields).(mars := m) && payload == None && receivedPayload == old(receivedPayload)
    {
      payload := None;
      fields := fields.(mars := m);
    }

    method SetTraceId(t: Option<TraceIdData>)
      modifies this
      ensures fields == old(fields).(traceId := t) && payload == None && receivedPayload == old(receivedPayload)
    {
      payload := None;
      fields := fields.(traceId := t);
    }

    method SetFedAuthRequired(x: Option<byte>)
      modifies this
      ensures fields == old(fields).(fedAuthRequired := x) && payload == None
      ensures receivedPayload == old(receivedPayload)
    {
      payload := None;
      fields := fields.(fedAuthRequired := x);
    }

    /** The Nonce setter refuses anything but 32 bytes, before it touches the payload. */
    method SetNonce(n: Option<bytes>) returns (r: Result<()>)
      modifies this
      ensures r.Ok? <==> n.None? || |n.value| == 32
      ensures r.Err? ==> r.error == Argument && fields == old(fields) && payload == old(payload)
      ensures r.Ok? ==> payload == None && (n.None? <==> fields.nonce.None?)
      ensures r.Ok? && n.Some? ==> fields.nonce.Some? && fields.nonce.value == n.value
      ensures r.Ok? ==> fields == old(fields).(nonce := fields.nonce)
      ensures receivedPayload == old(receivedPayload)
    {
      if n.Some? && |n.value| != 32 {
        return Err(Argument);
      }
      payload := None;
      if n.None? {
        fields := fields.(nonce := None);
      } else {
        var value: Nonce := n.value;
        fields := fields.(nonce := Some(value));
      }
      r := Ok(());
    }

    /** SslPayload: the payload itself, set as is. */
    method SetSslPayload(p: Option<bytes>)
      modifies this
      ensures payload == p && fields == old(fields) && receivedPayload == old(receivedPayload)
    {
      payload := p;
    }

    /**
     * GeneratePayload: Payload becomes a fresh array of the declared size
     * holding the option table (offsets bumped past it) and then the
     * option values. On success it is GeneratedPayload of the fields;
     * when a write would pass the end of the array the generation fails
     * with NotSupported, and Payload keeps the partly written array.
     */
    method GeneratePayload() returns (r: Result<()>)
      modifies this
      ensures fields == old(fields) && receivedPayload == old(receivedPayload)
      ensures GeneratedPayload(fields).Ok? ==> r == Ok(()) && payload == Some(GeneratedPayload(fields).value)
      ensures GeneratedPayload(fields).Err? ==> r == Err(NotSupported) && payload == Some(GeneratedBuffer(fields))
    {
      var f := fields;
      var generated, buffer := GenerateInto(f);
      GeneratedBufferIsPayload(f, 32);
      payload := Some(buffer);
      r := if generated.Ok? then Ok(()) else Err(NotSupported);
    }

    /**
     * InterpretPayload: the option table read up to the terminator, then
     * each option applied in turn; the fields end as Interpret has them
     * and the payload is kept.
     */
    method InterpretPayload() returns (err: Option<Error>)
      modifies this
      ensures (fields, err) == Interpret(old(fields), old(payload))
      ensures payload == old(payload) && receivedPayload == old(receivedPayload)
    {
      if payload.None? {
        return Some(InvalidOperation);
      }
      var p := payload.value;
      if |p| == 0 {
        return Some(IndexOutOfRange);
      }
      if Ssl.IsSslPacketType(p[0]) {
        return None;
      }
      var rd := new Reader(p);
      var read := ReadOptionTable(rd);
      if read.Err? {
        return Some(read.error);
      }
      var options := read.value;
      var i := 0;
      while i < |options|
        invariant 0 <= i <= |options| && rd.data == p
        invariant payload == old(payload) && receivedPayload == old(receivedPayload)
        invariant InBounds(p, options[i..])
        invariant Interpret(old(fields), old(payload)) == ApplyOptions(fields, p, options[i..])
      {
        var r := ApplyOptionAt(rd, fields, options[i]);
        assert options[i..][1..] == options[i + 1..];
        if r.Err? {
          return Some(r.error);
        }
        fields := r.value;
        i := i + 1;
      }
      err := None;
    }
  }
}
