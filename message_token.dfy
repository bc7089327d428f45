/**
 * The body shared by the ERROR and INFO tokens (MS-TDS sections 2.2.7.10
 * and 2.2.7.13): a declared length, the message number, state and class,
 * the message text (US_VARCHAR), the server and procedure names
 * (B_VARCHAR) and the line number, which is four bytes wide from TDS 7.2
 * on and two bytes before.
 *
 * Two different version thresholds are at work, as in the library: the
 * declared length and the reader's minimum length count a four-byte line
 * number from 0x07200000 on, while the line number itself is four bytes
 * only from 0x72000000 on.
 */
module MessageTokens {
  import opened Wire
  import opened Io

  /** Number, State, Class and the three string-length prefixes. */
  const FixedLength: nat := 10

  /** From this version on the line number is a four-byte integer. */
  const Tds72: u32 := 0x7200_0000

  /** The version the length computations compare against. */
  const LengthThreshold: u32 := 0x0720_0000

  /** The fields of an ERROR or INFO token. */
  datatype MessageFields = MessageFields(
    number: i32,
    state: byte,
    msgClass: byte,
    msgText: Utf16,
    serverName: Utf16,
    procName: Utf16,
    lineNumber: i32)

  /** The line-number width the length computations assume. */
  function AssumedLineWidth(version: u32): nat
  {
    if version >= LengthThreshold then 4 else 2
  }

  /** The line-number width actually written and read. */
  function LineWidth(version: u32): nat
  {
    if version >= Tds72 then 4 else 2
  }

  /** The three strings' share of the length: two bytes per character. */
  function TextBytes(f: MessageFields): nat
  {
    2 * (|f.msgText| + |f.serverName| + |f.procName|)
  }

  /** The length field: the fields' sizes summed and cast to ushort. */
  function DeclaredLength(version: u32, f: MessageFields): u16
  {
    Wrap(FixedLength + TextBytes(f) + AssumedLineWidth(version), 0x1_0000)
  }

  /** Each string fits its length prefix. */
  predicate Writable(f: MessageFields)
  {
    |f.msgText| <= 0xFFFF && |f.serverName| <= 0xFF && |f.procName| <= 0xFF
  }

  /** The line number as written: all four bytes, or the low sixteen bits. */
  function LineBytes(version: u32, line: i32): bytes
  {
    if version >= Tds72 then LEI32(line) else LE16(U32OfI32(line) % 0x1_0000)
  }

  /** The fields a reader recovers: all but the line number as written. */
  function FieldsAsRead(version: u32, f: MessageFields): MessageFields
  {
    f.(lineNumber := LineAsRead(version, f.lineNumber))
  }

  /** The line number a reader recovers from LineBytes. */
  function LineAsRead(version: u32, line: i32): i32
  {
    if version >= Tds72 then line else U32OfI32(line) % 0x1_0000
  }

  /** Everything after the length field; the strings must fit their prefixes. */
  function FieldBytes(version: u32, f: MessageFields): (r: bytes)
    requires Writable(f)
    ensures |r| == FixedLength + TextBytes(f) + LineWidth(version)
  {
    LEI32(f.number) + ([f.state] + ([f.msgClass] + (UsVarchar(f.msgText) + (BVarchar(f.serverName) +
      (BVarchar(f.procName) + LineBytes(version, f.lineNumber))))))
  }

  /**
   * WriteBodyToBinaryWriter, as the bytes it writes: the length field, then
   * the fields. A string too long for its prefix is an argument error.
   */
  function EncodeBody(version: u32, f: MessageFields): (r: Result<bytes>)
    ensures r.Ok? <==> Writable(f)
    ensures r.Err? ==> r.error == Argument
    ensures r.Ok? ==> |r.value| == 2 + FixedLength + TextBytes(f) + LineWidth(version)
  {
    if Writable(f) then Ok(LE16(DeclaredLength(version, f)) + FieldBytes(version, f)) else Err(Argument)
  }

  /** The line number as read: a signed 32-bit or an unsigned 16-bit integer. */
  function GetLine(version: u32, data: bytes, pos: nat): (r: Result<i32>)
    ensures r.Err? ==> r.error == EndOfStream
  {
    if version >= Tds72 then GetI32(data, pos) else var v :- GetU16(data, pos); Ok(v)
  }

  /** The message text, server name and procedure name, read in turn, and where they end. */
  function TextFrom(data: bytes, q: nat): (r: Result<(Utf16, Utf16, Utf16, nat)>)
    ensures r.Err? ==> r.error == InvalidMessage
    ensures r.Ok? ==> r.value.3 >= q + 4
  {
    var msgText :- UsVarcharFrom(data, q);
    var serverName :- BVarcharFrom(data, msgText.1);
    var procName :- BVarcharFrom(data, serverName.1);
    Ok((msgText.0, serverName.0, procName.0, procName.1))
  }

  /**
   * ReadFromBinaryReader: the declared length must cover the versioned
   * fixed part; the fields are read in order; declared bytes beyond those
   * accounted for are skipped; the count reported is the declared length
   * plus three. Running out of data is an invalid message.
   */
  function ParseBody(version: u32, data: bytes, pos: nat): (r: Result<Parsed<MessageFields>>)
    ensures r.Err? ==> r.error == InvalidMessage
    ensures r.Ok? ==> r.value.next >= pos + FixedLength + 2 + LineWidth(version)
    ensures r.Ok? ==> r.value.count >= FixedLength + AssumedLineWidth(version) + 3
  {
    var minimum := FixedLength + AssumedLineWidth(version);
    var length :- CatchEof(GetU16(data, pos));
    if length < minimum then Err(InvalidMessage)
    else
      var number :- CatchEof(GetI32(data, pos + 2));
      var state :- CatchEof(GetByte(data, pos + 6));
      var msgClass :- CatchEof(GetByte(data, pos + 7));
      var text :- TextFrom(data, pos + 8);
      var line :- CatchEof(GetLine(version, data, text.3));
      var f := MessageFields(number, state, msgClass, text.0, text.1, text.2, line);
      var lenRead := minimum + TextBytes(f);
      var after := text.3 + LineWidth(version);
      Ok(Parsed(f, length + 3, if length > lenRead then after + (length - lenRead) else after))
  }

  // ---------------------------------------------------------------------
  // Reading back what was written
  // ---------------------------------------------------------------------

  /** The declared length does not wrap around. */
  predicate LengthFits(version: u32, f: MessageFields)
  {
    FixedLength + TextBytes(f) + AssumedLineWidth(version) < 0x1_0000
  }

  /** The length, number, state and class read back from the front of a body. */
  lemma HeadOf(data: bytes, pos: nat, length: u16, number: i32, state: byte, msgClass: byte, more: bytes, rest: bytes)
    requires pos <= |data|
    requires data[pos..] == (LE16(length) + (LEI32(number) + ([state] + ([msgClass] + more)))) + rest
    ensures GetU16(data, pos) == Ok(length) && GetI32(data, pos + 2) == Ok(number)
    ensures GetByte(data, pos + 6) == Ok(state) && GetByte(data, pos + 7) == Ok(msgClass)
    ensures data[pos + 8..] == more + rest
  {
    GetU16Of(data, pos, length, LEI32(number) + ([state] + ([msgClass] + more)), rest);
    GetI32Of(data, pos + 2, number, [state] + ([msgClass] + more), rest);
    GetByteOf(data, pos + 6, state, [msgClass] + more, rest);
    GetByteOf(data, pos + 7, msgClass, more, rest);
    assert data[pos + 8..] == more + rest;
  }

  /** What a reader finds at pos, field by field, when the fields of f were written there. */
  predicate FieldsReadable(version: u32, data: bytes, pos: nat, f: MessageFields)
  {
    GetU16(data, pos) == Ok(DeclaredLength(version, f))
    && GetI32(data, pos + 2) == Ok(f.number)
    && GetByte(data, pos + 6) == Ok(f.state) && GetByte(data, pos + 7) == Ok(f.msgClass)
    && TextFrom(data, pos + 8) == Ok((f.msgText, f.serverName, f.procName, pos + 12 + TextBytes(f)))
    && GetLine(version, data, pos + 12 + TextBytes(f)) == Ok(LineAsRead(version, f.lineNumber))
  }

  /** Each field of an encoded body, read back at its position. */
  lemma FieldsAt(data: bytes, pos: nat, version: u32, f: MessageFields, rest: bytes)
    requires Writable(f) && pos <= |data|
    requires data[pos..] == EncodeBody(version, f).value + rest
    ensures FieldsReadable(version, data, pos, f)
  {
    var more := UsVarchar(f.msgText) + (BVarchar(f.serverName) + (BVarchar(f.procName) + LineBytes(version, f.lineNumber)));
    HeadOf(data, pos, DeclaredLength(version, f), f.number, f.state, f.msgClass, more, rest);
    TailAt(data, pos, version, f, rest);
  }

  /** The strings and the line number read back after the eight-byte head. */
  lemma TailAt(data: bytes, pos: nat, version: u32, f: MessageFields, rest: bytes)
    requires Writable(f) && pos + 8 <= |data|
    requires data[pos + 8..] == (UsVarchar(f.msgText) + (BVarchar(f.serverName) +
      (BVarchar(f.procName) + LineBytes(version, f.lineNumber)))) + rest
    ensures TextFrom(data, pos + 8) == Ok((f.msgText, f.serverName, f.procName, pos + 12 + TextBytes(f)))
    ensures GetLine(version, data, pos + 12 + TextBytes(f)) == Ok(LineAsRead(version, f.lineNumber))
  {
    var e1 := pos + 10 + 2 * |f.msgText|;
    var e2 := pos + 11 + 2 * |f.msgText| + 2 * |f.serverName|;
    var e3 := pos + 12 + TextBytes(f);
    TextAt(data, pos + 8, f, LineBytes(version, f.lineNumber), rest, e1, e2, e3);
    LineAt(data, e3, version, f.lineNumber, rest);
  }

  /** The three strings read back in turn, each ending where the next begins. */
  lemma TextAt(data: bytes, q: nat, f: MessageFields, more: bytes, rest: bytes, e1: nat, e2: nat, e3: nat)
    requires Writable(f) && q <= |data|
    requires data[q..] == (UsVarchar(f.msgText) + (BVarchar(f.serverName) + (BVarchar(f.procName) + more))) + rest
    requires e1 == q + 2 + 2 * |f.msgText| && e2 == e1 + 1 + 2 * |f.serverName| && e3 == e2 + 1 + 2 * |f.procName|
    ensures TextFrom(data, q) == Ok((f.msgText, f.serverName, f.procName, e3))
    ensures e3 <= |data| && data[e3..] == more + rest
  {
    var s3 := BVarchar(f.procName) + more;
    var s2 := BVarchar(f.serverName) + s3;
    Cut(data, q, UsVarchar(f.msgText), s2, rest, e1);
    UsVarcharFromAt(data, q, f.msgText, e1);
    Cut(data, e1, BVarchar(f.serverName), s3, rest, e2);
    BVarcharFromAt(data, e1, f.serverName, e2);
    Cut(data, e2, BVarchar(f.procName), more, rest, e3);
    BVarcharFromAt(data, e2, f.procName, e3);
  }

  /** The line number read back. */
  lemma LineAt(data: bytes, q: nat, version: u32, line: i32, rest: bytes)
    requires q <= |data| && data[q..] == LineBytes(version, line) + rest
    ensures GetLine(version, data, q) == Ok(LineAsRead(version, line))
  {
    if version >= Tds72 {
      GetI32Of(data, q, line, [], rest);
    } else {
      GetU16Of(data, q, U32OfI32(line) % 0x1_0000, [], rest);
    }
  }

  /**
   * Reading an encoded body gives its fields back, the line number as
   * its width allows, and leaves the reader just past the body whenever
   * the declared length does not wrap. The declared length counts the
   * bytes after it for versions below 0x07200000 and from 0x72000000 on;
   * in between it counts two bytes more than were written. Either way the
   * reported count is three more than the declared length, so the token's
   * ReceivedLength exceeds the bytes it spans.
   */
  lemma RoundTrip(version: u32, f: MessageFields, data: bytes, pos: nat, rest: bytes, next: nat)
    requires Writable(f) && LengthFits(version, f)
    requires pos <= |data| && data[pos..] == EncodeBody(version, f).value + rest
    requires next == pos + |EncodeBody(version, f).value|
    ensures ParseBody(version, data, pos) == Ok(Parsed(FieldsAsRead(version, f), DeclaredLength(version, f) + 3, next))
    ensures DeclaredLength(version, f) + 2
         == |EncodeBody(version, f).value| + AssumedLineWidth(version) - LineWidth(version)
  {
    FieldsAt(data, pos, version, f, rest);
    ParseOfReadable(version, data, pos, f, next);
  }

  /** The reader applied to fields it finds one by one, ending at next. */
  lemma ParseOfReadable(version: u32, data: bytes, pos: nat, f: MessageFields, next: nat)
    requires LengthFits(version, f) && FieldsReadable(version, data, pos, f)
    requires next == pos + 12 + TextBytes(f) + LineWidth(version)
    ensures ParseBody(version, data, pos) == Ok(Parsed(FieldsAsRead(version, f), DeclaredLength(version, f) + 3, next))
  {
    var length := DeclaredLength(version, f);
    assert length == FixedLength + TextBytes(f) + AssumedLineWidth(version);
    var g := FieldsAsRead(version, f);
    assert TextBytes(g) == TextBytes(f);
  }

  /**
   * A body as a TDS 7.1 peer sends it, with a two-byte line number and a
   * length that counts exactly the bytes after it: with all three strings
   * empty it is rejected as too short.
   */
  lemma ExactLengthRejectedBefore72()
    ensures ParseBody(0x7100_0001, LE16(12) + Zeros(12), 0) == Err(InvalidMessage)
  {
    var data := LE16(12) + Zeros(12);
    GetU16Of(data, 0, 12, Zeros(12), []);
  }

  // ---------------------------------------------------------------------
  // The writer and the reader, step by step
  // ---------------------------------------------------------------------

  /** The length field, number, state and class, written before any string. */
  function Head(version: u32, f: MessageFields): (r: bytes)
    ensures |r| == 8
  {
    LE16(DeclaredLength(version, f)) + LEI32(f.number) + [f.state] + [f.msgClass]
  }

  /** Eight pieces appended one after the other, regrouped to the right. */
  lemma Regroup(o: bytes, a: bytes, b: bytes, c: bytes, d: bytes, e: bytes, g: bytes, h: bytes, i: bytes)
    ensures o + a + b + c + d + e + g + h + i == o + (a + (b + (c + (d + (e + (g + (h + i)))))))
  {
    Assoc(o + a + b + c + d + e + g, h, i);
    Assoc(o + a + b + c + d + e, g, h + i);
    Assoc(o + a + b + c + d, e, g + (h + i));
    Assoc(o + a + b + c, d, e + (g + (h + i)));
    Assoc(o + a + b, c, d + (e + (g + (h + i))));
    Assoc(o + a, b, c + (d + (e + (g + (h + i)))));
    Assoc(o, a, b + (c + (d + (e + (g + (h + i))))));
  }

  /**
   * WriteBodyToBinaryWriter: the fields in order; a string too long for
   * its prefix stops the writing with an argument error, after what came
   * before it was written.
   */
  method WriteBody(w: Writer, version: u32, f: MessageFields) returns (r: Result<()>)
    modifies w
    ensures r == (if Writable(f) then Ok(()) else Err(Argument))
    ensures r.Ok? ==> w.written == old(w.written) + EncodeBody(version, f).value
    ensures |f.msgText| > 0xFFFF ==> w.written == old(w.written) + Head(version, f)
    ensures |f.msgText| <= 0xFFFF && |f.serverName| > 0xFF ==>
      w.written == old(w.written) + Head(version, f) + UsVarchar(f.msgText)
    ensures |f.msgText| <= 0xFFFF && |f.serverName| <= 0xFF && |f.procName| > 0xFF ==>
      w.written == old(w.written) + Head(version, f) + UsVarchar(f.msgText) + BVarchar(f.serverName)
  {
    ghost var o := w.written;
    w.WriteUInt16(DeclaredLength(version, f));
    w.WriteInt32(f.number);
    w.WriteByte(f.state);
    w.WriteByte(f.msgClass);
    ghost var head := w.written;
    assert head == o + LE16(DeclaredLength(version, f)) + LEI32(f.number) + [f.state] + [f.msgClass];
    Assoc(o + LE16(DeclaredLength(version, f)) + LEI32(f.number), [f.state], [f.msgClass]);
    Assoc(o + LE16(DeclaredLength(version, f)), LEI32(f.number), [f.state] + [f.msgClass]);
    Assoc(o, LE16(DeclaredLength(version, f)), LEI32(f.number) + ([f.state] + [f.msgClass]));
    Assoc(LE16(DeclaredLength(version, f)), LEI32(f.number), [f.state]);
    Assoc(LE16(DeclaredLength(version, f)) + LEI32(f.number), [f.state], [f.msgClass]);
    Assoc(LE16(DeclaredLength(version, f)), LEI32(f.number) + [f.state], [f.msgClass]);
    Assoc(LEI32(f.number), [f.state], [f.msgClass]);
    assert head == o + Head(version, f);
    var ok := w.WriteUsVarchar(f.msgText);
    if ok.Err? {
      return ok;
    }
    ok := w.WriteBVarchar(f.serverName);
    if ok.Err? {
      return ok;
    }
    ok := w.WriteBVarchar(f.procName);
    if ok.Err? {
      return ok;
    }
    if version >= Tds72 {
      w.WriteInt32(f.lineNumber);
    } else {
      w.WriteUInt16(U32OfI32(f.lineNumber) % 0x1_0000);
    }
    assert w.written == o + LE16(DeclaredLength(version, f)) + LEI32(f.number) + [f.state] + [f.msgClass]
      + UsVarchar(f.msgText) + BVarchar(f.serverName) + BVarchar(f.procName) + LineBytes(version, f.lineNumber);
    Regroup(o, LE16(DeclaredLength(version, f)), LEI32(f.number), [f.state], [f.msgClass],
      UsVarchar(f.msgText), BVarchar(f.serverName), BVarchar(f.procName), LineBytes(version, f.lineNumber));
    r := Ok(());
  }

  /** The three strings, read inside the catch. */
  method ReadText(rd: Reader) returns (r: Result<(Utf16, Utf16, Utf16, nat)>)
    modifies rd
    ensures r == TextFrom(rd.data, old(rd.pos))
    ensures r.Ok? ==> rd.pos == r.value.3
  {
    var msgText :- ReadUsVarcharCaught(rd);
    var serverName :- ReadBVarcharCaught(rd);
    var procName :- ReadBVarcharCaught(rd);
    r := Ok((msgText.0, serverName.0, procName.0, rd.pos));
  }

  /** The line number, as wide as the version makes it, read inside the catch. */
  method ReadLineCaught(rd: Reader, version: u32) returns (r: Result<i32>)
    modifies rd
    ensures r == CatchEof(GetLine(version, rd.data, old(rd.pos)))
    ensures r.Ok? ==> rd.pos == old(rd.pos) + LineWidth(version)
  {
    if version >= Tds72 {
      r := ReadInt32Caught(rd);
    } else {
      var l := ReadUInt16Caught(rd);
      r := if l.Ok? then Ok(l.value) else Err(l.error);
    }
  }

  /** ReadFromBinaryReader, reading field by field from the reader's position. */
  method ReadBody(rd: Reader, version: u32) returns (r: Result<Parsed<MessageFields>>)
    modifies rd
    ensures r == ParseBody(version, rd.data, old(rd.pos))
    ensures r.Ok? ==> rd.pos == r.value.next
  {
    var minimum := FixedLength + AssumedLineWidth(version);
    var length :- ReadUInt16Caught(rd);
    if length < minimum {
      return Err(InvalidMessage);
    }
    var number :- ReadInt32Caught(rd);
    var state :- ReadByteCaught(rd);
    var msgClass :- ReadByteCaught(rd);
    var text :- ReadText(rd);
    var line :- ReadLineCaught(rd, version);
    var f := MessageFields(number, state, msgClass, text.0, text.1, text.2, line);
    var lenRead := minimum + TextBytes(f);
    if length > lenRead {
      rd.Seek(rd.pos + (length - lenRead));
    }
    r := Ok(Parsed(f, length + 3, rd.pos));
  }
}
