/**
 * The body of the DONE token (MS-TDS section 2.2.7.6): the status flags,
 * the current command and the row count. The row count is eight bytes from
 * TDS 7.2 on and four bytes, the low half of the count, before it.
 *
 * TDSDoneToken overrides only the writer: it gives no body for the
 * abstract ReadFromBinaryReader of TDSToken, so the library has no way to
 * read this token. ParseBodyAsWritten models that missing reader (every
 * read fails, which the token reader reports as an invalid message);
 * ParseBody is the reader the token-stream decoder needs to find the Done
 * token that ends a result, the exact inverse of the writer, and it is
 * the one the rest of the model uses.
 */
module DoneTokens {
  import opened Wire
  import opened Io
  import Login7

  // StatusEnum, a [Flags] enumeration over ushort.
  const DoneFinal: u16 := 0x0000
  const DoneMore: u16 := 0x0001
  const DoneError: u16 := 0x0002
  const DoneInXact: u16 := 0x0004
  const DoneCount: u16 := 0x0010
  const DoneAttn: u16 := 0x0020
  const DoneSrvError: u16 := 0x0100

  /** status & DoneMore != 0: more results follow this Done token. */
  predicate HasMore(status: u16)
  {
    status % 2 == 1
  }

  datatype DoneFields = DoneFields(status: u16, curCmd: u16, doneRowCount: u64)

  /** The width of the row count at the given negotiated version. */
  function RowCountWidth(version: u32): nat
  {
    if version >= Login7.Version72 then 8 else 4
  }

  /** The bytes the body takes: status, command, row count. */
  function BodyLength(version: u32): nat
  {
    4 + RowCountWidth(version)
  }

  /** The row count as written: the whole ulong, or the (uint) cast of it. */
  function RowCountBytes(version: u32, n: u64): (r: bytes)
    ensures |r| == RowCountWidth(version)
  {
    if version >= Login7.Version72 then LE64(n) else LE32(n % 0x1_0000_0000)
  }

  /** WriteBodyToBinaryWriter, as the bytes it writes. */
  function EncodeBody(version: u32, f: DoneFields): (r: bytes)
    ensures |r| == BodyLength(version)
  {
    LE16(f.status) + LE16(f.curCmd) + RowCountBytes(version, f.doneRowCount)
  }

  /** What survives of a row count written at the given version. */
  function RowCountAsRead(version: u32, n: u64): u64
  {
    if version >= Login7.Version72 then n else n % 0x1_0000_0000
  }

  function FieldsAsRead(version: u32, f: DoneFields): DoneFields
  {
    f.(doneRowCount := RowCountAsRead(version, f.doneRowCount))
  }

  /** The row count at q, as wide as the version makes it. */
  function GetRowCount(version: u32, data: bytes, q: nat): (r: Result<u64>)
    ensures r.Ok? <==> q + RowCountWidth(version) <= |data|
    ensures r.Err? ==> r.error == EndOfStream
  {
    if version >= Login7.Version72 then GetU64(data, q) else var v :- GetU32(data, q); Ok(v)
  }

  /**
   * The inverse of the writer: the three fields read in writing order, a
   * body cut short being an invalid message like every other token's.
   */
  function ParseBody(version: u32, data: bytes, pos: nat): (r: Result<Parsed<DoneFields>>)
    ensures r.Err? ==> r.error == InvalidMessage
    ensures r.Ok? <==> pos + BodyLength(version) <= |data|
    ensures r.Ok? ==> r.value.count == BodyLength(version) && r.value.next == pos + BodyLength(version)
  {
    var status :- CatchEof(GetU16(data, pos));
    var curCmd :- CatchEof(GetU16(data, pos + 2));
    var rows :- CatchEof(GetRowCount(version, data, pos + 4));
    Ok(Parsed(DoneFields(status, curCmd, rows), BodyLength(version), pos + BodyLength(version)))
  }

  /**
   * The Done token as the library declares it, with no reader of its own:
   * whatever the bytes, reading its body fails, and the failure reaches
   * the caller as an invalid message.
   */
  function ParseBodyAsWritten(version: u32, data: bytes, pos: nat): (r: Result<Parsed<DoneFields>>)
    ensures r.Err? && r.error == InvalidMessage
  {
    Err(InvalidMessage)
  }

  // ---------------------------------------------------------------------
  // Round trips
  // ---------------------------------------------------------------------

  /**
   * Reading a written body gives its fields back, the row count cut to
   * its low 32 bits before TDS 7.2, and ends just past the body; the
   * fields come back unchanged exactly when the version is 7.2 or later
   * or the row count fits in 32 bits.
   */
  lemma RoundTrip(version: u32, f: DoneFields, data: bytes, pos: nat, rest: bytes)
    requires pos <= |data| && data[pos..] == EncodeBody(version, f) + rest
    ensures ParseBody(version, data, pos) == Ok(Parsed(FieldsAsRead(version, f), BodyLength(version), pos + BodyLength(version)))
    ensures FieldsAsRead(version, f) == f <==> version >= Login7.Version72 || f.doneRowCount < 0x1_0000_0000
  {
    var rows := RowCountBytes(version, f.doneRowCount);
    assert EncodeBody(version, f) + rest == (LE16(f.status) + (LE16(f.curCmd) + rows)) + rest;
    GetU16Of(data, pos, f.status, LE16(f.curCmd) + rows, rest);
    GetU16Of(data, pos + 2, f.curCmd, rows, rest);
    if version >= Login7.Version72 {
      GetU64Of(data, pos + 4, f.doneRowCount, [], rest);
    } else {
      GetU32Of(data, pos + 4, f.doneRowCount % 0x1_0000_0000, [], rest);
    }
  }

  /**
   * Every Done token the library writes is lost to a reader without the
   * override, and read back by the inverse of the writer.
   */
  lemma NoReaderAsWritten(version: u32, f: DoneFields, data: bytes, pos: nat, rest: bytes)
    requires pos <= |data| && data[pos..] == EncodeBody(version, f) + rest
    ensures ParseBodyAsWritten(version, data, pos).Err?
    ensures ParseBody(version, data, pos).Ok? && ParseBody(version, data, pos).value.value == FieldsAsRead(version, f)
  {
    RoundTrip(version, f, data, pos, rest);
  }

  /** Writing what was read reproduces the bytes the reader consumed. */
  lemma Reencode(version: u32, data: bytes, pos: nat)
    requires ParseBody(version, data, pos).Ok?
    ensures EncodeBody(version, ParseBody(version, data, pos).value.value) == data[pos..pos + BodyLength(version)]
  {
    var e := pos + BodyLength(version);
    ParsedFields(version, data, pos);
    assert data[pos..e] == data[pos..pos + 2] + data[pos + 2..pos + 4] + data[pos + 4..e];
  }

  /** Each field read, written again, gives the bytes it was read from. */
  lemma ParsedFields(version: u32, data: bytes, pos: nat)
    requires ParseBody(version, data, pos).Ok?
    ensures var f := ParseBody(version, data, pos).value.value;
      && LE16(f.status) == data[pos..pos + 2] && LE16(f.curCmd) == data[pos + 2..pos + 4]
      && RowCountBytes(version, f.doneRowCount) == data[pos + 4..pos + BodyLength(version)]
  {
    var f := ParseBody(version, data, pos).value.value;
    BytesOfLEAt(data, pos, 2);
    BytesOfLEAt(data, pos + 2, 2);
    BytesOfLEAt(data, pos + 4, RowCountWidth(version));
    if version < Login7.Version72 {
      assert f.doneRowCount % 0x1_0000_0000 == f.doneRowCount;
    }
  }

  /** The n bytes at q are the little-endian encoding of the value read there. */
  lemma BytesOfLEAt(data: bytes, q: nat, n: nat)
    requires q + n <= |data|
    ensures LE(LEAt(data, q, n), n) == data[q..q + n]
  {
    LEAtIsLEValue(data, q, n);
    LEOfLEValue(data[q..q + n]);
  }

  // ---------------------------------------------------------------------
  // The writer and the reader
  // ---------------------------------------------------------------------

  /** WriteBodyToBinaryWriter: status, command, then the row count at the version's width. */
  method WriteBody(w: Writer, version: u32, f: DoneFields)
    modifies w
    ensures w.written == old(w.written) + EncodeBody(version, f)
  {
    w.WriteUInt16(f.status);
    w.WriteUInt16(f.curCmd);
    if version >= Login7.Version72 {
      w.WriteUInt64(f.doneRowCount);
    } else {
      w.WriteUInt32(f.doneRowCount % 0x1_0000_0000);
    }
  }

  /** The reader for the Done token, field by field. */
  method ReadBody(rd: Reader, version: u32) returns (r: Result<Parsed<DoneFields>>)
    modifies rd
    ensures r == ParseBody(version, rd.data, old(rd.pos))
    ensures r.Ok? ==> rd.pos == r.value.next
  {
    var status :- ReadUInt16Caught(rd);
    var curCmd :- ReadUInt16Caught(rd);
    var rows: u64;
    if version >= Login7.Version72 {
      rows :- ReadUInt64Caught(rd);
    } else {
      rows :- ReadUInt32Caught(rd);
    }
    r := Ok(Parsed(DoneFields(status, curCmd, rows), BodyLength(version), rd.pos));
  }
}
