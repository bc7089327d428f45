/**
 * The body of the LOGINACK token (MS-TDS section 2.2.7.14): a declared
 * length, the interface, the TDS version, the program name (B_VARCHAR)
 * and the four bytes of the program version.
 *
 * The declared length the library writes counts the program name in
 * characters, while the name occupies two bytes per character; the
 * reader computes the same character-based length from what it read and
 * skips the difference to the declared length.
 */
module LoginAckTokens {
  import opened Wire
  import opened Io

  /** Length (2 bytes excluded): interface, version, name count and program version. */
  const FixedLength: nat := 10

  datatype ProgVersion = ProgVersion(majorVer: byte, minorVer: byte, buildNumHi: byte, buildNumLo: byte)

  /** The fields of a LOGINACK token; iface is the token's Interface byte. */
  datatype LoginAckFields = LoginAckFields(iface: byte, tdsVersion: u32, progName: Utf16, progVersion: ProgVersion)

  /** Length: the fixed part plus the program name's CHARACTER count, cast to ushort. */
  function Length(f: LoginAckFields): u16
  {
    Wrap(FixedLength + |f.progName|, 0x1_0000)
  }

  function VersionBytes(v: ProgVersion): (r: bytes)
    ensures |r| == 4
  {
    [v.majorVer, v.minorVer, v.buildNumHi, v.buildNumLo]
  }

  /** A body with the given length field and the fields of f after it. */
  function BodyWith(length: u16, f: LoginAckFields): (r: bytes)
    requires |f.progName| <= 0xFF
    ensures |r| == 2 + FixedLength + 2 * |f.progName|
  {
    LE16(length) + ([f.iface] + (LE32(f.tdsVersion) + (BVarchar(f.progName) + VersionBytes(f.progVersion))))
  }

  /**
   * WriteBodyToBinaryWriter, as the bytes it writes; a program name too
   * long for its one-byte count is an argument error.
   */
  function EncodeBody(f: LoginAckFields): (r: Result<bytes>)
    ensures r.Ok? <==> |f.progName| <= 0xFF
    ensures r.Err? ==> r.error == Argument
    ensures r.Ok? ==> |r.value| == 2 + FixedLength + 2 * |f.progName|
  {
    if |f.progName| <= 0xFF then Ok(BodyWith(Length(f), f)) else Err(Argument)
  }

  /** The four program-version bytes, read inside the catch. */
  function VersionFrom(data: bytes, q: nat): (r: Result<ProgVersion>)
    ensures r.Err? ==> r.error == InvalidMessage
    ensures r.Ok? <==> q + 4 <= |data|
  {
    var majorVer :- CatchEof(GetByte(data, q));
    var minorVer :- CatchEof(GetByte(data, q + 1));
    var buildNumHi :- CatchEof(GetByte(data, q + 2));
    var buildNumLo :- CatchEof(GetByte(data, q + 3));
    Ok(ProgVersion(majorVer, minorVer, buildNumHi, buildNumLo))
  }

  /**
   * ReadFromBinaryReader: a declared length under the fixed part, or a
   * name count that does not fit the declared length, is an invalid
   * message, and so is running out of data; bytes the declared length
   * covers beyond Length (computed from what was read) are skipped; the
   * count reported is the declared length plus two.
   */
  function ParseBody(data: bytes, pos: nat): (r: Result<Parsed<LoginAckFields>>)
    ensures r.Err? ==> r.error == InvalidMessage
    ensures r.Ok? ==> r.value.count >= FixedLength + 2 && r.value.next >= pos + FixedLength + 2
  {
    var length :- CatchEof(GetU16(data, pos));
    if length < FixedLength then Err(InvalidMessage)
    else
      var iface :- CatchEof(GetByte(data, pos + 2));
      var tdsVersion :- CatchEof(GetU32(data, pos + 3));
      var pnLength :- CatchEof(GetByte(data, pos + 7));
      if pnLength + FixedLength > length then Err(InvalidMessage)
      else
        var name := UnicodeFrom(data, pos + 8, pnLength);
        var progVersion :- VersionFrom(data, name.1);
        var f := LoginAckFields(iface, tdsVersion, name.0, progVersion);
        var after := name.1 + 4;
        Ok(Parsed(f, length + 2, if Length(f) < length then after + (length - Length(f)) else after))
  }

  // ---------------------------------------------------------------------
  // Reading back what was written
  // ---------------------------------------------------------------------

  /** What a reader finds at pos, field by field, in a body with length field `length`. */
  predicate FieldsReadable(data: bytes, pos: nat, length: u16, f: LoginAckFields)
  {
    GetU16(data, pos) == Ok(length)
    && GetByte(data, pos + 2) == Ok(f.iface)
    && GetU32(data, pos + 3) == Ok(f.tdsVersion)
    && GetByte(data, pos + 7) == Ok(|f.progName|)
    && UnicodeFrom(data, pos + 8, |f.progName|) == (f.progName, pos + 8 + 2 * |f.progName|)
    && VersionFrom(data, pos + 8 + 2 * |f.progName|) == Ok(f.progVersion)
  }

  /** Each field of a body read back at its position. */
  lemma FieldsAt(data: bytes, pos: nat, length: u16, f: LoginAckFields, rest: bytes)
    requires |f.progName| <= 0xFF && pos <= |data|
    requires data[pos..] == BodyWith(length, f) + rest
    ensures FieldsReadable(data, pos, length, f)
  {
    var n := |f.progName|;
    var v := VersionBytes(f.progVersion);
    GetU16Of(data, pos, length, [f.iface] + (LE32(f.tdsVersion) + (BVarchar(f.progName) + v)), rest);
    GetByteOf(data, pos + 2, f.iface, LE32(f.tdsVersion) + (BVarchar(f.progName) + v), rest);
    GetU32Of(data, pos + 3, f.tdsVersion, BVarchar(f.progName) + v, rest);
    NameAt(data, pos + 7, f.progName, v, rest);
    VersionAt(data, pos + 8 + 2 * n, f.progVersion, rest);
  }

  /** The name's count and characters read back, and what follows them. */
  lemma NameAt(data: bytes, q: nat, s: Utf16, more: bytes, rest: bytes)
    requires |s| <= 0xFF && q <= |data|
    requires data[q..] == (BVarchar(s) + more) + rest
    ensures GetByte(data, q) == Ok(|s|)
    ensures UnicodeFrom(data, q + 1, |s|) == (s, q + 1 + 2 * |s|)
    ensures data[q + 1 + 2 * |s|..] == more + rest
  {
    assert (BVarchar(s) + more) + rest == [|s|] + ((UnicodeBytes(s) + more) + rest);
    GetByteOf(data, q, |s|, UnicodeBytes(s) + more, rest);
    UnicodeFromOf(data, q + 1, s, more, rest);
  }

  /** The program version read back. */
  lemma VersionAt(data: bytes, q: nat, v: ProgVersion, rest: bytes)
    requires q <= |data| && data[q..] == VersionBytes(v) + rest
    ensures VersionFrom(data, q) == Ok(v)
  {
    assert data[q] == v.majorVer && data[q + 1] == v.minorVer;
    assert data[q + 2] == v.buildNumHi && data[q + 3] == v.buildNumLo;
  }

  /**
   * The reader applied to a body whose length field covers at least the
   * character-based Length: the fields come back and the reader ends
   * `length - Length` bytes past the program version.
   */
  lemma ParseOfReadable(data: bytes, pos: nat, length: u16, f: LoginAckFields, next: nat)
    requires |f.progName| <= 0xFF && FixedLength + |f.progName| <= length
    requires FieldsReadable(data, pos, length, f)
    requires next == pos + 12 + 2 * |f.progName| + (length - Length(f))
    ensures ParseBody(data, pos) == Ok(Parsed(f, length + 2, next))
  {
    assert Length(f) == FixedLength + |f.progName|;
  }

  /** A body with any length field that covers the character-based Length, read back. */
  lemma ParseBodyWith(data: bytes, pos: nat, length: u16, f: LoginAckFields, rest: bytes, next: nat)
    requires |f.progName| <= 0xFF && FixedLength + |f.progName| <= length
    requires pos <= |data| && data[pos..] == BodyWith(length, f) + rest
    requires next == pos + 12 + 2 * |f.progName| + (length - Length(f))
    ensures ParseBody(data, pos) == Ok(Parsed(f, length + 2, next))
  {
    FieldsAt(data, pos, length, f, rest);
    ParseOfReadable(data, pos, length, f, next);
  }

  /**
   * Reading the token's own encoding gives its fields back and leaves the
   * reader just past it, with nothing skipped; the count reported is the
   * character-based Length plus two, short of the bytes spanned by the
   * program name's character count.
   */
  lemma RoundTrip(f: LoginAckFields, data: bytes, pos: nat, rest: bytes)
    requires |f.progName| <= 0xFF
    requires pos <= |data| && data[pos..] == EncodeBody(f).value + rest
    ensures ParseBody(data, pos) == Ok(Parsed(f, Length(f) + 2, pos + |EncodeBody(f).value|))
    ensures Length(f) + 2 + |f.progName| == |EncodeBody(f).value|
  {
    var next := pos + |EncodeBody(f).value|;
    assert Length(f) == FixedLength + |f.progName|;
    ParseBodyWith(data, pos, Length(f), f, rest, next);
  }

  /**
   * A body whose length field counts its bytes, as MS-TDS lays it out: the
   * count reported is right, but the reader skips as many bytes past the
   * body as the program name has characters.
   */
  lemma ByteCountedLengthOvershoots(f: LoginAckFields, data: bytes, pos: nat, rest: bytes)
    requires |f.progName| <= 0xFF
    requires pos <= |data| && data[pos..] == BodyWith(FixedLength + 2 * |f.progName|, f) + rest
    ensures ParseBody(data, pos)
         == Ok(Parsed(f, |BodyWith(FixedLength + 2 * |f.progName|, f)|,
                      pos + |BodyWith(FixedLength + 2 * |f.progName|, f)| + |f.progName|))
  {
    var length: u16 := FixedLength + 2 * |f.progName|;
    var next := pos + |BodyWith(length, f)| + |f.progName|;
    assert Length(f) == FixedLength + |f.progName|;
    ParseBodyWith(data, pos, length, f, rest, next);
  }

  // ---------------------------------------------------------------------
  // The writer and the reader, step by step
  // ---------------------------------------------------------------------

  /** The length field, interface and version, written before the name. */
  function Head(f: LoginAckFields): (r: bytes)
    ensures |r| == 7
  {
    LE16(Length(f)) + [f.iface] + LE32(f.tdsVersion)
  }

  /**
   * WriteBodyToBinaryWriter: the fields in order; a program name too long
   * for its count stops the writing with an argument error after the
   * length, interface and version were written.
   */
  method WriteBody(w: Writer, f: LoginAckFields) returns (r: Result<()>)
    modifies w
    ensures r == (if |f.progName| <= 0xFF then Ok(()) else Err(Argument))
    ensures r.Ok? ==> w.written == old(w.written) + EncodeBody(f).value
    ensures r.Err? ==> w.written == old(w.written) + Head(f)
  {
    ghost var o := w.written;
    w.WriteUInt16(Length(f));
    w.WriteByte(f.iface);
    w.WriteUInt32(f.tdsVersion);
    assert w.written == o + Head(f);
    var ok := w.WriteBVarchar(f.progName);
    if ok.Err? {
      return ok;
    }
    ghost var named := w.written;
    w.WriteByte(f.progVersion.majorVer);
    w.WriteByte(f.progVersion.minorVer);
    w.WriteByte(f.progVersion.buildNumHi);
    w.WriteByte(f.progVersion.buildNumLo);
    assert w.written == named + VersionBytes(f.progVersion);
    BodyWithAsWritten(f);
    Assoc(o, Head(f), BVarchar(f.progName));
    Assoc(o, Head(f) + BVarchar(f.progName), VersionBytes(f.progVersion));
    r := Ok(());
  }

  /** The encoding regrouped in the order of the writer's calls. */
  lemma BodyWithAsWritten(f: LoginAckFields)
    requires |f.progName| <= 0xFF
    ensures BodyWith(Length(f), f) == (Head(f) + BVarchar(f.progName)) + VersionBytes(f.progVersion)
  {
    var a, b, c, d, e := LE16(Length(f)), [f.iface], LE32(f.tdsVersion), BVarchar(f.progName), VersionBytes(f.progVersion);
    Assoc(a, b, c);
    Assoc(a + b, c, d + e);
    Assoc(a, b, c + (d + e));
    Assoc(a + b + c, d, e);
  }

  /** The four program-version bytes, read inside the catch. */
  method ReadVersion(rd: Reader) returns (r: Result<ProgVersion>)
    modifies rd
    ensures r == VersionFrom(rd.data, old(rd.pos))
    ensures r.Ok? ==> rd.pos == old(rd.pos) + 4
  {
    var majorVer :- ReadByteCaught(rd);
    var minorVer :- ReadByteCaught(rd);
    var buildNumHi :- ReadByteCaught(rd);
    var buildNumLo :- ReadByteCaught(rd);
    r := Ok(ProgVersion(majorVer, minorVer, buildNumHi, buildNumLo));
  }

  /** ReadFromBinaryReader, reading field by field from the reader's position. */
  method ReadBody(rd: Reader) returns (r: Result<Parsed<LoginAckFields>>)
    modifies rd
    ensures r == ParseBody(rd.data, old(rd.pos))
    ensures r.Ok? ==> rd.pos == r.value.next
  {
    var length :- ReadUInt16Caught(rd);
    if length < FixedLength {
      return Err(InvalidMessage);
    }
    var iface :- ReadByteCaught(rd);
    var tdsVersion :- ReadUInt32Caught(rd);
    var pnLength :- ReadByteCaught(rd);
    if pnLength + FixedLength > length {
      return Err(InvalidMessage);
    }
    var progName := rd.ReadUnicode(pnLength);
    var progVersion :- ReadVersion(rd);
    var f := LoginAckFields(iface, tdsVersion, progName, progVersion);
    if Length(f) < length {
      rd.Seek(rd.pos + (length - Length(f)));
    }
    r := Ok(Parsed(f, length + 2, rd.pos));
  }
}
