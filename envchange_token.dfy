/**
 * The body of the ENVCHANGE token (MS-TDS section 2.2.7.9): a declared
 * length, the change type and two stored values. A stored value is kept
 * as it travels: its little-endian length prefix (one, two or four bytes
 * as the type's group says), then its data, whose length is the prefix
 * doubled for the character types.
 *
 * The writer emits the old value before the new one, while the reader
 * takes the first value it finds as the new one, so a token read back
 * from its own encoding has its two values exchanged.
 */
module EnvChangeTokens {
  import opened Wire
  import opened Io

  /** A change type whose new value is read as a B_VARCHAR, B_VARBYTE, US_VARBYTE or L_VARBYTE. */
  const Database: byte := 1
  const Language: byte := 2
  const CharacterSet: byte := 3
  const PacketSize: byte := 4
  const UnicodeSortingLocalId: byte := 5
  const UnicodeSortingComparisonFlags: byte := 6
  const SqlCollation: byte := 7
  const BeginTransaction: byte := 8
  const CommitTransaction: byte := 9
  const RollbackTransaction: byte := 10
  const EnlistDtcTransaction: byte := 11
  const DefectTransaction: byte := 12
  const DatabaseMirroringPartner: byte := 13
  const PromoteTransaction: byte := 15
  const TransactionManagerAddress: byte := 16
  const TransactionEnded: byte := 17
  const ResetConnectionCompletionAck: byte := 18
  const NameOfUserInstanceStarted: byte := 19
  const RoutingInformation: byte := 20

  /**
   * The token's state: the type, the two stored values and the length
   * remembered from reading (None once any setter has run).
   */
  datatype EnvChangeFields = EnvChangeFields(envType: byte, oldValue: bytes, newValue: bytes, cachedLength: Option<u16>)

  /** A freshly constructed token: type 0, both values the single byte 0. */
  const Initial := EnvChangeFields(0, [0], [0], None)

  /** Length: the remembered length, or else one for the type plus both values, cast to ushort. */
  function Length(e: EnvChangeFields): u16
  {
    if e.cachedLength.Some? then e.cachedLength.value else Wrap(1 + |e.newValue| + |e.oldValue|, 0x1_0000)
  }

  // ---------------------------------------------------------------------
  // The setters
  // ---------------------------------------------------------------------

  /** The old value the Type setter forces on a type, if any. */
  function ForcedOldValue(t: byte): Option<bytes>
  {
    if t in {UnicodeSortingLocalId, UnicodeSortingComparisonFlags, BeginTransaction, DefectTransaction,
             DatabaseMirroringPartner, PromoteTransaction, TransactionManagerAddress, NameOfUserInstanceStarted,
             ResetConnectionCompletionAck} then Some([0])
    else if t == RoutingInformation then Some([0, 0])
    else None
  }

  /** The new value the Type setter forces on a type, if any. */
  function ForcedNewValue(t: byte): Option<bytes>
  {
    if t in {CommitTransaction, RollbackTransaction, EnlistDtcTransaction, TransactionEnded,
             ResetConnectionCompletionAck} then Some([0])
    else None
  }

  /** The types whose OldValue setter refuses every value. */
  predicate OldValueFixed(t: byte)
  {
    t in {UnicodeSortingLocalId, UnicodeSortingComparisonFlags, BeginTransaction, DefectTransaction,
          DatabaseMirroringPartner, PromoteTransaction, TransactionManagerAddress, ResetConnectionCompletionAck,
          NameOfUserInstanceStarted, RoutingInformation}
  }

  /** The types whose NewValue setter refuses every value. */
  predicate NewValueFixed(t: byte)
  {
    t in {CommitTransaction, RollbackTransaction, EnlistDtcTransaction, TransactionEnded, ResetConnectionCompletionAck}
  }

  /**
   * The Type setter: forgets the remembered length, sets the type and
   * overwrites whichever values the type fixes.
   */
  function SetType(e: EnvChangeFields, t: byte): (r: EnvChangeFields)
    ensures r.envType == t && r.cachedLength == None
    ensures r.oldValue == (if ForcedOldValue(t).Some? then ForcedOldValue(t).value else e.oldValue)
    ensures r.newValue == (if ForcedNewValue(t).Some? then ForcedNewValue(t).value else e.newValue)
  {
    var e := e.(cachedLength := None, envType := t);
    if t in {UnicodeSortingLocalId, UnicodeSortingComparisonFlags, BeginTransaction, DefectTransaction,
             DatabaseMirroringPartner, PromoteTransaction, TransactionManagerAddress, NameOfUserInstanceStarted} then
      e.(oldValue := [0])
    else if t == RoutingInformation then e.(oldValue := [0, 0])
    else if t in {CommitTransaction, RollbackTransaction, EnlistDtcTransaction, TransactionEnded} then
      e.(newValue := [0])
    else if t == ResetConnectionCompletionAck then e.(oldValue := [0], newValue := [0])
    else e
  }

  /** The OldValue setter: null is an argument error, a fixed type an invalid operation. */
  function SetOldValue(e: EnvChangeFields, v: Option<bytes>): (r: Result<EnvChangeFields>)
    ensures r.Ok? <==> v.Some? && !OldValueFixed(e.envType)
    ensures v.None? ==> r == Err(Argument)
    ensures v.Some? && OldValueFixed(e.envType) ==> r == Err(InvalidOperation)
    ensures r.Ok? ==> r.value.oldValue == v.value && r.value.cachedLength == None
    ensures r.Ok? ==> r.value.envType == e.envType && r.value.newValue == e.newValue
  {
    if v.None? then Err(Argument)
    else if OldValueFixed(e.envType) then Err(InvalidOperation)
    else Ok(e.(cachedLength := None, oldValue := v.value))
  }

  /** The NewValue setter: null is an argument error, a fixed type an invalid operation. */
  function SetNewValue(e: EnvChangeFields, v: Option<bytes>): (r: Result<EnvChangeFields>)
    ensures r.Ok? <==> v.Some? && !NewValueFixed(e.envType)
    ensures v.None? ==> r == Err(Argument)
    ensures v.Some? && NewValueFixed(e.envType) ==> r == Err(InvalidOperation)
    ensures r.Ok? ==> r.value.newValue == v.value && r.value.cachedLength == None
    ensures r.Ok? ==> r.value.envType == e.envType && r.value.oldValue == e.oldValue
  {
    if v.None? then Err(Argument)
    else if NewValueFixed(e.envType) then Err(InvalidOperation)
    else Ok(e.(cachedLength := None, newValue := v.value))
  }

  /** The values a type fixes are the ones it holds. */
  predicate FixedHonoured(e: EnvChangeFields)
  {
    && (ForcedOldValue(e.envType).Some? ==> e.oldValue == ForcedOldValue(e.envType).value)
    && (ForcedNewValue(e.envType).Some? ==> e.newValue == ForcedNewValue(e.envType).value)
  }

  /**
   * The setters keep the fixed values in place: the Type setter installs
   * them, and a value setter succeeds only on a value the type leaves free.
   * The types the value setters refuse are exactly the types the Type
   * setter installs a value for.
   */
  lemma SettersKeepFixedValues(e: EnvChangeFields, t: byte, v: Option<bytes>)
    ensures FixedHonoured(SetType(e, t))
    ensures OldValueFixed(t) <==> ForcedOldValue(t).Some?
    ensures NewValueFixed(t) <==> ForcedNewValue(t).Some?
    ensures FixedHonoured(e) && SetOldValue(e, v).Ok? ==> FixedHonoured(SetOldValue(e, v).value)
    ensures FixedHonoured(e) && SetNewValue(e, v).Ok? ==> FixedHonoured(SetNewValue(e, v).value)
  {
  }

  /** After any setter the length is computed from the values again. */
  lemma SettersResetLength(e: EnvChangeFields, t: byte, v: Option<bytes>)
    ensures Length(SetType(e, t)) == Wrap(1 + |SetType(e, t).newValue| + |SetType(e, t).oldValue|, 0x1_0000)
    ensures SetOldValue(e, v).Ok? ==> Length(SetOldValue(e, v).value) == Wrap(1 + |e.newValue| + |v.value|, 0x1_0000)
    ensures SetNewValue(e, v).Ok? ==> Length(SetNewValue(e, v).value) == Wrap(1 + |v.value| + |e.oldValue|, 0x1_0000)
  {
  }

  // ---------------------------------------------------------------------
  // The writer
  // ---------------------------------------------------------------------

  /** The body with the two values in the order given. */
  function BodyOf(length: u16, t: byte, first: bytes, second: bytes): (r: bytes)
    ensures |r| == 3 + |first| + |second|
  {
    LE16(length) + ([t] + (first + second))
  }

  /**
   * WriteBodyToBinaryWriter as written: the length, the type, the OLD
   * value, then the new value, the reverse of the order the reader (and
   * section 2.2.7.9 of MS-TDS) takes.
   */
  function EncodeBodyAsWritten(e: EnvChangeFields): (r: bytes)
    ensures |r| == 3 + |e.oldValue| + |e.newValue|
  {
    BodyOf(Length(e), e.envType, e.oldValue, e.newValue)
  }

  /** WriteBodyToBinaryWriter with the values in the reader's order: the length, the type, the new value, then the old. */
  function EncodeBody(e: EnvChangeFields): (r: bytes)
    ensures |r| == 3 + |e.oldValue| + |e.newValue|
  {
    BodyOf(Length(e), e.envType, e.newValue, e.oldValue)
  }

  method WriteBody(w: Writer, e: EnvChangeFields)
    modifies w
    ensures w.written == old(w.written) + EncodeBody(e)
  {
    ghost var o := w.written;
    w.WriteUInt16(Length(e));
    w.WriteByte(e.envType);
    w.WriteBytes(e.newValue);
    w.WriteBytes(e.oldValue);
    assert w.written == o + LE16(Length(e)) + [e.envType] + e.newValue + e.oldValue;
    Assoc(o + LE16(Length(e)) + [e.envType], e.newValue, e.oldValue);
    Assoc(o + LE16(Length(e)), [e.envType], e.newValue + e.oldValue);
    Assoc(o, LE16(Length(e)), [e.envType] + (e.newValue + e.oldValue));
  }

  // ---------------------------------------------------------------------
  // The reader
  // ---------------------------------------------------------------------

  /** How a type's values are prefixed: the prefix width and whether the count is in characters. */
  datatype ValueFormat = ValueFormat(prefixWidth: nat, isVarchar: bool)

  /** The reader's type switch; None for a type it does not know. */
  function FormatOf(t: byte): (r: Option<ValueFormat>)
    ensures r.Some? ==> r.value.prefixWidth in {1, 2, 4}
    ensures r.Some? && r.value.isVarchar ==> r.value.prefixWidth == 1
  {
    if t in {Database, Language, CharacterSet, PacketSize, UnicodeSortingLocalId, UnicodeSortingComparisonFlags,
             DatabaseMirroringPartner, NameOfUserInstanceStarted} then Some(ValueFormat(1, true))
    else if t in {SqlCollation, BeginTransaction, CommitTransaction, RollbackTransaction, EnlistDtcTransaction,
                  DefectTransaction, TransactionManagerAddress, TransactionEnded, ResetConnectionCompletionAck} then
      Some(ValueFormat(1, false))
    else if t == RoutingInformation then Some(ValueFormat(2, false))
    else if t == PromoteTransaction then Some(ValueFormat(4, false))
    else None
  }

  /** The value prefix: a byte, an unsigned 16-bit or a signed 32-bit integer; other widths are refused. */
  function GetPrefix(data: bytes, pos: nat, width: nat): (r: Result<i32>)
    ensures r.Err? ==> r.error == (if width in {1, 2, 4} then EndOfStream else Argument)
    ensures r.Ok? ==> width in {1, 2, 4} && pos + width <= |data|
    ensures r.Ok? && width < 4 ==> 0 <= r.value < Pow256(width)
  {
    if width == 1 then var b :- GetByte(data, pos); Ok(b)
    else if width == 2 then var v :- GetU16(data, pos); Ok(v)
    else if width == 4 then GetI32(data, pos)
    else Err(Argument)
  }

  /** An int result of unchecked C# arithmetic: x brought into the 32-bit signed range. */
  function I32Wrap(x: int): (r: i32)
    requires -0x1_8000_0000 <= x < 0x1_8000_0000
    ensures r == x || r == x - 0x1_0000_0000 || r == x + 0x1_0000_0000
  {
    if x >= 0x8000_0000 then x - 0x1_0000_0000 else if x < -0x8000_0000 then x + 0x1_0000_0000 else x
  }

  /** An int cast to uint, unchecked. */
  function U32OfInt(x: int): (r: u32)
    requires -0x1_0000_0000 <= x < 0x1_0000_0000
    ensures r == x || r == x + 0x1_0000_0000
  {
    if x < 0 then x + 0x1_0000_0000 else x
  }

  /** The prefix bytes ReadData stores: the low byte of the count, then of the count shifted right by 8, 16 and 24. */
  function ShiftBytes(x: int, width: nat): (r: bytes)
    requires width in {1, 2, 4}
    ensures |r| == width
  {
    if width == 1 then [x % 256]
    else if width == 2 then [x % 256, (x / 0x100) % 256]
    else [x % 256, (x / 0x100) % 256, (x / 0x1_0000) % 256, (x / 0x100_0000) % 256]
  }

  /**
   * What ReadData returns once its checks pass: the stored prefix, the
   * byteLen data bytes the read found, and zeros in place of the bytes it
   * did not find.
   */
  function Stored(prefix: bytes, got: bytes, byteLen: nat): (r: bytes)
    requires |got| <= byteLen
    ensures |r| == |prefix| + byteLen
  {
    prefix + got + Zeros(byteLen - |got|)
  }

  /**
   * ReadData: a value with its prefix, bounded by the bytes the token has
   * left. Too little room for the prefix, or a prefix whose value with it
   * does not fit in the room left, overflows the token (an invalid
   * message); the two sides are compared after the int sum has wrapped.
   * A negative sum gets past that check: allocating the value's array
   * then fails (Overflow), and an array shorter than the prefix fails at
   * the prefix stores (IndexOutOfRange). Running out of data within the
   * value's bytes is not an error. Returns the value and the position
   * after the read.
   */
  function ReadDataFrom(data: bytes, pos: nat, remaining: nat, fm: ValueFormat): (r: Result<(bytes, nat)>)
    ensures r.Ok? ==> fm.prefixWidth in {1, 2, 4} && fm.prefixWidth <= |r.value.0| <= remaining
    ensures r.Ok? ==> r.value.1 == pos + fm.prefixWidth + |Take(data, pos + fm.prefixWidth, |r.value.0| - fm.prefixWidth)|
  {
    var width := fm.prefixWidth;
    if remaining < width then Err(InvalidMessage)
    else
      var prefix := GetPrefix(data, pos, width);
      if prefix.Err? then Err(prefix.error)
      else
      var length := prefix.value;
      var byteLen := if fm.isVarchar then I32Wrap(2 * (length as int)) else length;
      var size := I32Wrap(byteLen + width);
      if size > remaining then Err(InvalidMessage)
      else if size < 0 then Err(Overflow)
      else if size < width then Err(IndexOutOfRange)
      else
        assert size - width == byteLen;
        Ok(StoredFrom(data, pos + width, width, length, size - width))
  }

  /**
   * The value ReadData returns once its checks pass, with the position
   * after it: the prefix stores, then the byteLen data bytes found at q,
   * and zeros in place of the bytes it did not find.
   */
  function StoredFrom(data: bytes, q: nat, width: nat, length: int, byteLen: nat): (r: (bytes, nat))
    requires width in {1, 2, 4}
    ensures |r.0| == width + byteLen && r.1 == q + |Take(data, q, byteLen)|
  {
    var got := Take(data, q, byteLen);
    (Stored(ShiftBytes(length, width), got, byteLen), q + |got|)
  }

  /**
   * The two values, new first: each is bounded by what the declared
   * length leaves, the second by what the first left, both cast to uint.
   */
  function ValuesFrom(data: bytes, q: nat, length: u16, fm: ValueFormat): (r: Result<(bytes, bytes, nat)>)
    ensures r.Ok? ==> r.value.2 >= q + 2 * fm.prefixWidth
  {
    var newValue :- ReadDataFrom(data, q, U32OfInt(length - 1), fm);
    var oldValue :- ReadDataFrom(data, newValue.1, U32OfInt(length - (1 + |newValue.0|)), fm);
    Ok((newValue.0, oldValue.0, oldValue.1))
  }

  /**
   * ReadFromBinaryReader: the length and type (running out of data there
   * is an invalid message), then the NEW value and the OLD value in the
   * type's format. An unknown type is an invalid message. The count is the
   * declared length plus two, and the declared length is remembered.
   */
  function ParseBody(data: bytes, pos: nat): (r: Result<Parsed<EnvChangeFields>>)
    ensures r.Ok? ==> r.value.value.cachedLength.Some? && r.value.count == r.value.value.cachedLength.value + 2
    ensures r.Ok? ==> FormatOf(r.value.value.envType).Some? && r.value.next >= pos + 5
  {
    var length :- CatchEof(GetU16(data, pos));
    var t :- CatchEof(GetByte(data, pos + 2));
    if FormatOf(t).None? then Err(InvalidMessage)
    else
      var values :- ValuesFrom(data, pos + 3, length, FormatOf(t).value);
      Ok(Parsed(EnvChangeFields(t, values.1, values.0, Some(length)), length as int + 2, values.2))
  }

  /** A header cut short, and an unknown type, are invalid messages. */
  lemma ParseBodyRejects(data: bytes, pos: nat)
    ensures |data| < pos + 3 ==> ParseBody(data, pos) == Err(InvalidMessage)
    ensures pos + 3 <= |data| && FormatOf(data[pos + 2]).None? ==> ParseBody(data, pos) == Err(InvalidMessage)
  {
  }

  /**
   * How an L_VARBYTE count the bound check lets through fails: too large
   * a count wraps the int sum negative and the allocation overflows, as
   * does a count below -4; a count from -4 to -1 leaves an array shorter
   * than the prefix.
   */
  lemma NegativeSizes(data: bytes, q: nat, remaining: nat, n: i32)
    requires GetPrefix(data, q, 4) == Ok(n) && remaining >= 4
    ensures (n < -4 || n >= 0x7FFF_FFFC) ==> ReadDataFrom(data, q, remaining, ValueFormat(4, false)) == Err(Overflow)
    ensures -4 <= n < 0 ==> ReadDataFrom(data, q, remaining, ValueFormat(4, false)) == Err(IndexOutOfRange)
  {
  }

  // ---------------------------------------------------------------------
  // Reading back what was written
  // ---------------------------------------------------------------------

  /** The count a value's prefix holds for data d: bytes, or characters for the character types. */
  function CountOf(fm: ValueFormat, d: bytes): nat
  {
    if fm.isVarchar then |d| / 2 else |d|
  }

  /** Data d as a value in format fm: the prefix holds its count, and prefix and data fit an int. */
  predicate Storable(fm: ValueFormat, d: bytes)
  {
    && fm.prefixWidth in {1, 2, 4}
    && (fm.isVarchar ==> |d| % 2 == 0)
    && CountOf(fm, d) < Pow256(fm.prefixWidth)
    && fm.prefixWidth + |d| < 0x8000_0000
  }

  /** The value holding data d in format fm: its little-endian count, then d. */
  function Value(fm: ValueFormat, d: bytes): (r: bytes)
    requires Storable(fm, d)
    ensures |r| == fm.prefixWidth + |d|
  {
    LE(CountOf(fm, d), fm.prefixWidth) + d
  }

  lemma DivDiv(x: nat)
    ensures x / 0x100 / 0x100 == x / 0x1_0000
    ensures x / 0x1_0000 / 0x100 == x / 0x100_0000
  {
  }

  /** For a count that fits, the stored prefix bytes are its little-endian form. */
  lemma ShiftBytesIsLE(x: nat, width: nat)
    requires width in {1, 2, 4} && x < Pow256(width)
    ensures ShiftBytes(x, width) == LE(x, width)
  {
    assert Pow256(1) == 0x100 && Pow256(2) == 0x1_0000;
    if width == 1 {
      assert LE(x, 1) == [x % 256] + LE(x / 256, 0);
    } else if width == 2 {
      assert LE(x / 256, 1) == [x / 256 % 256] + LE(x / 256 / 256, 0);
    } else {
      DivDiv(x);
      assert Pow256(3) == 0x100_0000;
      assert LE(x / 0x1_0000, 2) == [x / 0x1_0000 % 256] + LE(x / 0x100_0000, 1);
      assert LE(x / 0x100_0000, 1) == [x / 0x100_0000 % 256] + LE(x / 0x100_0000 / 256, 0);
    }
  }

  /** The prefix of a stored value reads back as its count. */
  lemma PrefixAt(data: bytes, q: nat, fm: ValueFormat, d: bytes)
    requires Storable(fm, d) && q + fm.prefixWidth <= |data|
    requires data[q..q + fm.prefixWidth] == LE(CountOf(fm, d), fm.prefixWidth)
    ensures GetPrefix(data, q, fm.prefixWidth) == Ok(CountOf(fm, d))
  {
    LEAtOfLE(data, q, fm.prefixWidth, CountOf(fm, d));
  }

  /** ReadDataFrom once the prefix has been read as a count whose value, with the prefix, fits the bound. */
  lemma ReadDataOf(data: bytes, q: nat, remaining: nat, fm: ValueFormat, n: nat, byteLen: nat)
    requires fm.prefixWidth in {1, 2, 4} && GetPrefix(data, q, fm.prefixWidth) == Ok(n)
    requires byteLen == (if fm.isVarchar then 2 * n else n) && fm.prefixWidth + byteLen <= remaining
    requires fm.prefixWidth + byteLen < 0x8000_0000
    ensures ReadDataFrom(data, q, remaining, fm) == Ok(StoredFrom(data, q + fm.prefixWidth, fm.prefixWidth, n, byteLen))
  {
    var w := fm.prefixWidth;
    assert (if fm.isVarchar then I32Wrap(2 * n) else n) == byteLen;
    assert I32Wrap(byteLen + w) == byteLen + w;
    assert !(remaining < w);
  }

  /** The stored value, when the data is all there: the value holding d, the prefix stores being its count. */
  lemma StoredFromAt(data: bytes, q: nat, fm: ValueFormat, d: bytes, e: nat)
    requires Storable(fm, d) && Take(data, q + fm.prefixWidth, |d|) == d && e == q + fm.prefixWidth + |d|
    ensures StoredFrom(data, q + fm.prefixWidth, fm.prefixWidth, CountOf(fm, d), |d|) == (Value(fm, d), e)
  {
    ShiftBytesIsLE(CountOf(fm, d), fm.prefixWidth);
    assert Stored(ShiftBytes(CountOf(fm, d), fm.prefixWidth), d, |d|) == Value(fm, d);
  }

  /** The pieces of a stored value in the data: its prefix reads as the count, then its data follows. */
  lemma ValueAt(data: bytes, q: nat, fm: ValueFormat, d: bytes, more: bytes, rest: bytes, e: nat)
    requires Storable(fm, d)
    requires q <= |data| && data[q..] == (Value(fm, d) + more) + rest && e == q + fm.prefixWidth + |d|
    ensures GetPrefix(data, q, fm.prefixWidth) == Ok(CountOf(fm, d))
    ensures Take(data, q + fm.prefixWidth, |d|) == d
    ensures e <= |data| && data[e..] == more + rest
  {
    var w := fm.prefixWidth;
    var v := Value(fm, d);
    Cut(data, q, v, more, rest, e);
    assert data[q..q + w] == v[..w] == LE(CountOf(fm, d), w);
    PrefixAt(data, q, fm, d);
    assert data[q + w..e] == v[w..] == d;
  }

  /** A stored value read back in its format, within any bound that covers it. */
  lemma ReadDataAt(data: bytes, q: nat, remaining: nat, fm: ValueFormat, d: bytes, more: bytes, rest: bytes, e: nat)
    requires Storable(fm, d) && fm.prefixWidth + |d| <= remaining
    requires q <= |data| && data[q..] == (Value(fm, d) + more) + rest && e == q + fm.prefixWidth + |d|
    ensures ReadDataFrom(data, q, remaining, fm) == Ok((Value(fm, d), e))
    ensures e <= |data| && data[e..] == more + rest
  {
    ValueAt(data, q, fm, d, more, rest, e);
    ReadDataOf(data, q, remaining, fm, CountOf(fm, d), |d|);
    StoredFromAt(data, q, fm, d, e);
  }

  /** A token whose values are in its type's format fm, holding the data dOld and dNew, with its length computed. */
  predicate WellFormed(e: EnvChangeFields, fm: ValueFormat, dOld: bytes, dNew: bytes)
  {
    && FormatOf(e.envType) == Some(fm)
    && Storable(fm, dOld) && Storable(fm, dNew)
    && e.oldValue == Value(fm, dOld) && e.newValue == Value(fm, dNew)
    && 1 + |e.oldValue| + |e.newValue| < 0x1_0000
    && e.cachedLength.None?
  }

  /** Two stored values one after the other, read back in order within the declared length they make up. */
  lemma ValuesAt(data: bytes, q: nat, length: u16, fm: ValueFormat, d1: bytes, d2: bytes, rest: bytes, e1: nat, e2: nat)
    requires Storable(fm, d1) && Storable(fm, d2)
    requires length == 1 + |Value(fm, d1)| + |Value(fm, d2)|
    requires q <= |data| && data[q..] == (Value(fm, d1) + Value(fm, d2)) + rest
    requires e1 == q + |Value(fm, d1)| && e2 == e1 + |Value(fm, d2)|
    ensures ValuesFrom(data, q, length, fm) == Ok((Value(fm, d1), Value(fm, d2), e2))
  {
    ReadDataAt(data, q, U32OfInt(length - 1), fm, d1, Value(fm, d2), rest, e1);
    assert data[e1..] == (Value(fm, d2) + []) + rest;
    ReadDataAt(data, e1, U32OfInt(length - (1 + |Value(fm, d1)|)), fm, d2, [], rest, e2);
  }

  /** What the reader finds at pos, step by step: the length, the type, then the first and second values, ending at next. */
  predicate Readable(data: bytes, pos: nat, length: u16, t: byte, first: bytes, second: bytes, next: nat)
  {
    && GetU16(data, pos) == Ok(length)
    && GetByte(data, pos + 2) == Ok(t)
    && FormatOf(t).Some?
    && ValuesFrom(data, pos + 3, length, FormatOf(t).value) == Ok((first, second, next))
  }

  /** A body of two values in the type's format is readable, the reader ending just past it. */
  lemma ReadableAt(data: bytes, pos: nat, t: byte, fm: ValueFormat, d1: bytes, d2: bytes, rest: bytes, next: nat)
    requires FormatOf(t) == Some(fm) && Storable(fm, d1) && Storable(fm, d2)
    requires 1 + |Value(fm, d1)| + |Value(fm, d2)| < 0x1_0000
    requires pos <= |data| && next == pos + 3 + |Value(fm, d1)| + |Value(fm, d2)|
    requires data[pos..] == BodyOf(1 + |Value(fm, d1)| + |Value(fm, d2)|, t, Value(fm, d1), Value(fm, d2)) + rest
    ensures Readable(data, pos, 1 + |Value(fm, d1)| + |Value(fm, d2)|, t, Value(fm, d1), Value(fm, d2), next)
  {
    var length := 1 + |Value(fm, d1)| + |Value(fm, d2)|;
    GetU16Of(data, pos, length, [t] + (Value(fm, d1) + Value(fm, d2)), rest);
    GetByteOf(data, pos + 2, t, Value(fm, d1) + Value(fm, d2), rest);
    ValuesAt(data, pos + 3, length, fm, d1, d2, rest, pos + 3 + |Value(fm, d1)|, next);
  }

  /** ParseBody of readable data: the first value read is the new one, the second the old one; the length is remembered. */
  lemma ParseOfReadable(data: bytes, pos: nat, length: u16, t: byte, first: bytes, second: bytes, next: nat)
    requires Readable(data, pos, length, t, first, second, next)
    ensures ParseBody(data, pos) == Ok(Parsed(EnvChangeFields(t, second, first, Some(length)), length as int + 2, next))
  {
  }

  /**
   * Reading a token's body back: the type and both values come back,
   * the declared length is remembered, and the reader ends just past
   * the body.
   */
  lemma RoundTrip(e: EnvChangeFields, fm: ValueFormat, dOld: bytes, dNew: bytes, data: bytes, pos: nat, rest: bytes, next: nat)
    requires WellFormed(e, fm, dOld, dNew)
    requires pos <= |data| && data[pos..] == EncodeBody(e) + rest && next == pos + |EncodeBody(e)|
    ensures ParseBody(data, pos) == Ok(Parsed(e.(cachedLength := Some(Length(e))), Length(e) as int + 2, next))
  {
    assert Length(e) == 1 + |e.newValue| + |e.oldValue|;
    ReadableAt(data, pos, e.envType, fm, dNew, dOld, rest, next);
    ParseOfReadable(data, pos, Length(e), e.envType, e.newValue, e.oldValue, next);
  }

  /**
   * Reading back what the writer as written emits: the type and both
   * values come back, but EXCHANGED, the value written as old being read
   * as new.
   */
  lemma SwappedRoundTrip(e: EnvChangeFields, fm: ValueFormat, dOld: bytes, dNew: bytes, data: bytes, pos: nat, rest: bytes, next: nat)
    requires WellFormed(e, fm, dOld, dNew)
    requires pos <= |data| && data[pos..] == EncodeBodyAsWritten(e) + rest && next == pos + |EncodeBodyAsWritten(e)|
    ensures ParseBody(data, pos)
         == Ok(Parsed(EnvChangeFields(e.envType, e.newValue, e.oldValue, Some(Length(e))), Length(e) as int + 2, next))
  {
    assert Length(e) == 1 + |e.oldValue| + |e.newValue|;
    ReadableAt(data, pos, e.envType, fm, dOld, dNew, rest, next);
    ParseOfReadable(data, pos, Length(e), e.envType, e.oldValue, e.newValue, next);
  }

  /** A Database change from "A" to "B", written as written and read back: it reads as a change from "B" to "A". */
  lemma SwappedExample()
    ensures var e := EnvChangeFields(Database, [1, 0x41, 0], [1, 0x42, 0], None);
      ParseBody(EncodeBodyAsWritten(e), 0) == Ok(Parsed(EnvChangeFields(Database, [1, 0x42, 0], [1, 0x41, 0], Some(7)), 9, 9))
  {
    var e := EnvChangeFields(Database, [1, 0x41, 0], [1, 0x42, 0], None);
    var fm := ValueFormat(1, true);
    assert Value(fm, [0x41, 0]) == [1, 0x41, 0] && Value(fm, [0x42, 0]) == [1, 0x42, 0];
    assert EncodeBodyAsWritten(e)[0..] == EncodeBodyAsWritten(e) + [];
    SwappedRoundTrip(e, fm, [0x41, 0], [0x42, 0], EncodeBodyAsWritten(e), 0, [], 9);
  }

  // ---------------------------------------------------------------------
  // The reader, step by step
  // ---------------------------------------------------------------------

  /** The value prefix, read with the reader call its width selects. */
  method ReadPrefix(rd: Reader, width: nat) returns (r: Result<i32>)
    modifies rd
    ensures r == GetPrefix(rd.data, old(rd.pos), width)
    ensures r.Ok? ==> rd.pos == old(rd.pos) + width
  {
    if width == 1 {
      var b := rd.ReadByte();
      r := if b.Ok? then Ok(b.value) else Err(b.error);
    } else if width == 2 {
      var v := rd.ReadUInt16();
      r := if v.Ok? then Ok(v.value) else Err(v.error);
    } else if width == 4 {
      r := rd.ReadInt32();
    } else {
      r := Err(Argument);
    }
  }

  /** The prefix stores: the count's low byte, then its bytes shifted down, at the front of the array. */
  method StorePrefix(a: array<byte>, length: int, width: nat)
    requires width in {1, 2, 4} && width <= a.Length
    modifies a
    ensures a[..] == ShiftBytes(length, width) + old(a[width..])
  {
    a[0] := length % 256;
    if width > 1 {
      a[1] := (length / 0x100) % 256;
      if width > 2 {
        a[2] := (length / 0x1_0000) % 256;
        a[3] := (length / 0x100_0000) % 256;
      }
    }
  }

  /** BinaryReader.Read into an array at an offset: the bytes the stream has land there, the rest is left. */
  method ReadInto(rd: Reader, a: array<byte>, at: nat, n: nat)
    requires at + n <= a.Length
    modifies rd, a
    ensures rd.pos == old(rd.pos) + |Take(rd.data, old(rd.pos), n)|
    ensures a[..] == old(a[..at]) + Take(rd.data, old(rd.pos), n) + old(a[at + |Take(rd.data, rd.pos, n)|..])
  {
    var got := rd.ReadBytes(n);
    forall i | 0 <= i < |got| {
      a[at + i] := got[i];
    }
  }

  /** ReadData: allocates the value's array, stores the prefix, then reads what the stream has of the data. */
  method ReadData(rd: Reader, remaining: nat, fm: ValueFormat) returns (r: Result<(bytes, nat)>)
    modifies rd
    ensures r == ReadDataFrom(rd.data, old(rd.pos), remaining, fm)
    ensures r.Ok? ==> rd.pos == r.value.1
  {
    var width := fm.prefixWidth;
    if remaining < width {
      return Err(InvalidMessage);
    }
    var length :- ReadPrefix(rd, width);
    var byteLen := if fm.isVarchar then I32Wrap(2 * (length as int)) else length;
    var size := I32Wrap(byteLen + width);
    if size > remaining {
      return Err(InvalidMessage);
    }
    if size < 0 {
      return Err(Overflow);
    }
    var a := new byte[size](_ => 0);
    if size < width {
      return Err(IndexOutOfRange);
    }
    assert size - width == byteLen;
    assert a[..] == Zeros(a.Length);
    FillValue(rd, a, length, width);
    r := Ok((a[..], rd.pos));
  }

  /** The prefix stores and the data read into a fresh array, as ReadData does them. */
  method FillValue(rd: Reader, a: array<byte>, length: int, width: nat)
    requires width in {1, 2, 4} && width <= a.Length && a[..] == Zeros(a.Length)
    modifies rd, a
    ensures (a[..], rd.pos) == StoredFrom(rd.data, old(rd.pos), width, length, a.Length - width)
  {
    var byteLen := a.Length - width;
    assert a[width..] == Zeros(byteLen);
    StorePrefix(a, length, width);
    ghost var prefix := ShiftBytes(length, width);
    assert a[..] == prefix + Zeros(byteLen);
    ghost var got := Take(rd.data, rd.pos, byteLen);
    if byteLen > 0 {
      ReadInto(rd, a, width, byteLen);
      assert (prefix + Zeros(byteLen))[..width] == prefix;
      assert (prefix + Zeros(byteLen))[width + |got|..] == Zeros(byteLen - |got|);
    }
    assert a[..] == Stored(prefix, got, byteLen);
  }

  /** The two values, new first, each read by ReadData. */
  method ReadValues(rd: Reader, length: u16, fm: ValueFormat) returns (r: Result<(bytes, bytes, nat)>)
    modifies rd
    ensures r == ValuesFrom(rd.data, old(rd.pos), length, fm)
    ensures r.Ok? ==> rd.pos == r.value.2
  {
    var newValue :- ReadData(rd, U32OfInt(length - 1), fm);
    var oldValue :- ReadData(rd, U32OfInt(length - (1 + |newValue.0|)), fm);
    r := Ok((newValue.0, oldValue.0, oldValue.1));
  }

  /** ReadFromBinaryReader, step by step from the reader's position. */
  method ReadBody(rd: Reader) returns (r: Result<Parsed<EnvChangeFields>>)
    modifies rd
    ensures r == ParseBody(rd.data, old(rd.pos))
    ensures r.Ok? ==> rd.pos == r.value.next
  {
    var length :- ReadUInt16Caught(rd);
    var t :- ReadByteCaught(rd);
    if FormatOf(t).None? {
      return Err(InvalidMessage);
    }
    var values :- ReadValues(rd, length, FormatOf(t).value);
    r := Ok(Parsed(EnvChangeFields(t, values.1, values.0, Some(length)), length as int + 2, values.2));
  }
}
